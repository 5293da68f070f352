# canvas-flat in Dafny

A model of the core of canvas-flat, a small C++ 2-D rasteriser. Shapes are
signed distance functions (SDFs): circles, squircles, rectangles and
capsules, combined by a tree of operations (union, intersection,
difference, rotation, scaling and rounding). Each shape has a fill colour,
which is solid, a linear or radial gradient, or a function of the position.
A canvas holds a list of shapes. Its render walks the shapes in order and
paints each one into a byte framebuffer, three bytes per pixel. The
painting is anti-aliased or aliased, and it is alpha-blended or opaque. The
framebuffer is then handed to a container:

- the Netpbm writer puts out PBM, PGM or PPM, plain or raw, using Otsu's
  threshold for bitmaps;
- the ASCII-art writer prints one character per pair of rows.

The model follows the source file by file:

| file | module | what it holds |
|---|---|---|
| numeric.dfy | `Numeric` | bytes and 32-bit words, floor/ceil/truncation, integer powers, and the math library (`sqrt`, `pow`, `atan2`, `cos`, `sin`) as a parameter with its laws |
| mathutil.dfy | `MathUtil` | `src/util/mathutil.h` |
| solid.dfy | `SolidColors` | `src/color/solid.h` |
| legacy_color.dfy | `LegacyColors` | `src/color.h`, the older copy of the solid colour |
| color.dfy | `Colors` | `src/color/color.h`: solid, gradient and functional fills |
| rect.dfy, circle.dfy, squircle.dfy, rectangle.dfy, capsule.dfy | `Rects`, `Circles`, `Squircles`, `Rectangles`, `Capsules` | the bounding box and the primitive shapes |
| operation.dfy | `Operations` | `src/shape/operation.h`: the operation tree |
| shape.dfy | `Shapes` | `src/shape/shape.h` |
| render.dfy | `Renders` | `src/render/render.h` |
| basic.dfy | `BasicRenders` | `src/render/basic.h`: the renderer over a byte array |
| canvas.dfy | `Canvases` | `src/canvas.h` |
| imgcontainer.dfy | `ImageContainers` | `src/container/imgcontainer.h` |
| ppm.dfy, ppmcont.dfy | `Netpbm`, `PpmContainers` | `src/container/ppmcont.h`: the formats, then the writer class |
| ascii.dfy | `AsciiContainers` | `src/container/asciicont.h` |

Floats are modelled as mathematical reals. Library functions whose bodies
are not available (`sqrtf`, `powf`, `atan2f`, `cosf`, `sinf`) are fields
of a `MathLib` value that is passed in. The predicate `Lawful` states the
laws the proofs use: a square root is non-negative and squares back, and
`pow` with a whole exponent is the repeated product.

Where canvas-flat's documented behaviour and its code disagree, the model follows the code:

- **Alpha snapping.** The documentation says an alpha within ε of 1 becomes exactly 1 and one within ε of 0 becomes exactly 0. `SetRGBA` (src/color/solid.h:51-57, src/color.h:50-56) takes the absolute value and snaps only when `IsOpaque` holds, which needs alpha at least 1/(1 - ε). Nothing snaps to 0.
- **Resizing.** The documentation says a resize discards the old contents. `set_size` calls `vector::resize` (src/canvas.h:66-70), which keeps the old prefix and zero-fills any new bytes. `Canvases.Resized` states this, and `Canvases.RedrawForgets` shows that the following redraw overwrites every image byte anyway.

- **Repainting.** The documentation says that drawing the same fully opaque, solid shape twice gives the same framebuffer as drawing it once. That holds without anti-aliasing (`BasicRenders.OpaqueShapeIdempotent`). With anti-aliasing an edge pixel is blended again on the second pass (`BasicRenders.AntiAliasedRepaintBlends`).

## Model

| member | source | states |
|---|---|---|
| Numeric.UnpackPack | src/color/solid.h:25-27 | packing three channels with `(red << 16) \| (green << 8) \| blue` gives a value below 2^24 that unpacks to the same three channels |
| Numeric.PackUnpack | src/color/solid.h:51-54 | unpacking a 32-bit value and repacking it keeps exactly its low 24 bits |
| Numeric.Floor | src/shape/circle.h:19-20 | `floorf` is the greatest integer at or below its argument |
| Numeric.Ceil | src/shape/circle.h:21-22 | `ceilf` is the least integer at or above its argument |
| Numeric.FloorBelowCeil | src/shape/circle.h:19-22 | the floor of a value is at most the ceiling of any larger value, so a box with lo <= hi stays ordered |
| Numeric.Trunc | src/container/asciicont.h:41 | a float-to-int conversion rounds toward zero: down for non-negative values, up for negative ones |
| Numeric.ToByte | src/render/render.h:40 | `static_cast<unsigned char>` of an in-range float is its floor |
| Numeric.DivTrunc | src/shape/operation.h:24-25 | C++ integer division rounds toward zero, for both signs of the dividend |
| Numeric.IntPowNonneg | src/shape/squircle.h:21 | any whole power of a non-negative base is non-negative |
| Numeric.IntPowZero | src/shape/squircle.h:21 | a positive power of zero is zero |
| Numeric.IntPowEven | src/shape/squircle.h:21 | an even power ignores the sign of the base |
| Numeric.IntPowMonotone | src/shape/squircle.h:21-22 | positive powers are strictly monotone on the non-negative reals |
| Numeric.SqrtFacts | src/shape/circle.h:15 | under `Lawful`, `sqrtf` is zero exactly at zero and strictly monotone |
| Numeric.SqrtAtMost | src/shape/circle.h:15 | under `Lawful`, sqrt(v) <= r exactly when v <= r*r, for r >= 0 |
| Numeric.NormFacts | src/shape/circle.h:14-15 | the length sqrt(a*a + b*b) is non-negative and at least \|a\| and \|b\| |
| Numeric.NormAtMost | src/shape/circle.h:14-15 | the length is at most r >= 0 exactly when a*a + b*b <= r*r |
| Numeric.NormOnAxis | src/shape/rectangle.h:25 | on an axis the length is the absolute value of the coordinate |
| Numeric.NormZero | src/shape/rectangle.h:25 | the origin has length zero |
| MathUtil.Tolerance | src/util/mathutil.h:58-59 | the scaled tolerance is the scale times 2^-23, the `float` epsilon |
| MathUtil.RadiansDegreesInverse | src/util/mathutil.h:16-22 | over the reals, `Radians` and `Degrees` undo each other |
| MathUtil.FloatEqual | src/util/mathutil.h:56-60 | two floats are equal when their difference is within ε times the larger magnitude; FloatEqualReflexiveSymmetric and FloatEqualZero state what that relation is |
| MathUtil.RadiansNormalize | src/util/mathutil.h:63-66 | the bool the source returns: the `fmodf` remainder converted to bool (a negative remainder is shifted by 2π first, which keeps it non-zero); RadiansNormalizeIsNonzeroRemainder and RadiansNormalizeTurns state its value |
| MathUtil.LinearMapping | src/util/mathutil.h:68-79 | l1 below the window, r1 above it, the linear interpolation inside; the 0/0 of an empty window at its only point is excluded (see Left out), and LinearMappingClamps, LinearMappingEndpoints and LinearMappingBetween state its meaning |
| MathUtil.Min | src/util/mathutil.h:25-28 | the result is one of the two arguments and at most both |
| MathUtil.Max | src/util/mathutil.h:40-43 | the result is one of the two arguments and at least both |
| MathUtil.FMin | src/util/mathutil.h:30-33 | the float minimum is one of the two arguments and at most both |
| MathUtil.FMax | src/util/mathutil.h:45-48 | the float maximum is one of the two arguments and at least both |
| MathUtil.MinOf | src/util/mathutil.h:35-38 | the variadic minimum, folded from the left, is an element of the arguments and at most every argument |
| MathUtil.MaxOf | src/util/mathutil.h:50-53 | the variadic maximum, folded from the left, is an element of the arguments and at least every argument |
| MathUtil.FloatEqualReflexiveSymmetric | src/util/mathutil.h:56-60 | `FloatEqual` is reflexive and symmetric |
| MathUtil.FloatEqualZero | src/util/mathutil.h:56-60 | a value is `FloatEqual` to zero exactly when it is zero |
| MathUtil.Fmod | src/util/mathutil.h:64 | `fmodf(a, b)` for b > 0 lies in [0, b) for a >= 0 and in (-b, 0] for a < 0 |
| MathUtil.RemainderBounds | src/util/mathutil.h:64 | a - q*b, with q the truncated quotient, lies on the side of a's sign and within b of zero |
| MathUtil.FractionScale | src/util/mathutil.h:64 | a fraction in (-1, 1) of a positive b lies within (-b, b), on the side of its sign |
| MathUtil.NormalizedAngle | src/util/mathutil.h:63-66 | the angle `RadiansNormalize` computes lies in [0, 2*pi) |
| MathUtil.RadiansNormalizeIsNonzeroRemainder | src/util/mathutil.h:63-66 | the `bool` result is false exactly when the remainder modulo 2*pi is zero |
| MathUtil.RadiansNormalizeTurns | src/util/mathutil.h:63-66 | whole turns give false; angles strictly inside the first turn give true |
| MathUtil.LinearMappingClamps | src/util/mathutil.h:68-79 | below the window the result is l1; above it, r1 |
| MathUtil.LinearMappingEndpoints | src/util/mathutil.h:68-79 | on a proper window the two end points map to l1 and r1 |
| MathUtil.LerpBetween | src/color/color.h:119-122 | an interpolation with t in [0, 1] lies between its ends, and is the first end at 0 and the second at 1 |
| MathUtil.LinearMappingBetween | src/util/mathutil.h:68-79 | on a proper window the result lies between l1 and r1; inside the window it is the interpolation at (value - l0)/(r0 - l0), which lies in [0, 1] |
| MathUtil.LinearMappingUnit | src/util/mathutil.h:68-79 | a mapping onto [0, 1] always gives a value in [0, 1]; on an inverted window only 0 or 1 is reachable |
| SolidColors.FromRGBA | src/color/solid.h:51-57 | the colour `SetRGBA` leaves has a non-negative alpha and is never opaque |
| SolidColors.DefaultIsTransparentBlack | src/color/solid.h:16-17 | the default and null constructors give black with alpha 0, which is `== nullptr` and converts to false |
| SolidColors.ChannelConstructors | src/color/solid.h:18-21 | the three-channel constructor gives a visible colour with alpha 1; the four-channel one stores the alpha as given |
| SolidColors.RGBRoundTrip | src/color/solid.h:22-27 | building from a packed value puts its three low bytes into red, green and blue, and `GetRGB` returns its low 24 bits |
| SolidColors.ChannelsRoundTrip | src/color/solid.h:18-27 | rebuilding a colour from its own `GetRGB` gives the same colour |
| SolidColors.TransparentIff | src/color/solid.h:59-63 | `IsTransparent` and `== nullptr` hold exactly for alpha <= 0, and `operator bool` exactly for alpha > 0 |
| SolidColors.OpaqueIff | src/color/solid.h:65-69 | `IsOpaque` holds exactly from alpha 1/(1 - eps) upwards, so it is false at alpha 1 |
| SolidColors.SnapAlpha | src/color/solid.h:55-56 | `SetRGBA` stores \|alpha\|, replaced by 1 from the opaque threshold upwards |
| SolidColors.AssignmentValues | src/color/solid.h:29-37 | assigning nullptr gives the default colour; assigning a packed value gives alpha 1 |
| SolidColors.EqualsRGBNeverAfterSet | src/color/solid.h:41-43 | `operator==(rgb)` is false for every colour `SetRGBA` built, including `SolidColor(rgb) == rgb` |
| SolidColors.EqualsRGBIntendedRoundTrip | src/color/solid.h:41-43 | with an opacity test that accepts alpha 1, a colour built from rgb equals exactly the low 24 bits of rgb, and never when alpha <= 1/2 |
| SolidColors.SolidColorVar.SetRGBA | src/color/solid.h:51-57 | the fields afterwards are those of the pure `FromRGBA(rgb, alpha)` |
| SolidColors.SolidColorVar.AssignRGB | src/color/solid.h:29-32 | after `= rgb`, alpha is 1 and `GetRGB` is the low 24 bits of rgb |
| SolidColors.SolidColorVar.AssignNull | src/color/solid.h:34-37 | after `= nullptr`, the colour is the default one |
| LegacyColors.ConstructorsAgree | src/color.h:15-22 | every constructor of `cvf::Color` builds the same value as the matching `SolidColor` constructor |
| LegacyColors.QueriesAgree | src/color.h:24-68 | `GetRGB`, the two tests, `operator bool` and both comparisons agree with `SolidColor`'s |
| LegacyColors.DefaultAndNull | src/color.h:15-36 | the default colour and the colour after `= nullptr` are both transparent black |
| LegacyColors.AssignRGBValue | src/color.h:28-31 | after `= rgb`, alpha is 1 and `GetRGB` is the low 24 bits of rgb |
| LegacyColors.AlphaFacts | src/color.h:50-56 | the stored alpha is \|alpha\|, snapped to 1 from the opaque threshold up, so it is never negative; `operator bool` means alpha > 0 |
| LegacyColors.ColorVar.SetRGBA | src/color.h:50-56 | the fields afterwards are those of the pure `FromRGBA(rgb, alpha)` |
| LegacyColors.ColorVar.AssignRGB | src/color.h:28-31 | after `= rgb`, alpha is 1 and `GetRGB` is the low 24 bits of rgb |
| LegacyColors.ColorVar.AssignNull | src/color.h:33-36 | after `= nullptr`, the colour is the default one |
| Colors.Samplable | src/color/color.h:79-123 | where `GetColor(px, py)` yields a colour: a gradient whose window is empty is not sampled at the window's point (the source divides 0 by 0 there), and a functional fill holds a function |
| Colors.GetColorAt | src/color/color.h:79-123 | `GetColor(px, py)`: the solid colour, the function's value, or the lerp of the two colours at the position's percentage along the gradient; GetColorCases, AxisShortcuts and GradientBetween state its meaning |
| Colors.Blend | src/color/color.h:119-123 | each interpolated channel, truncated to a byte, lies between the two end colours; position 0 gives the first colour and position 1 the second |
| Colors.NullIsSolid | src/color/color.h:21-29 | the default and null fills are solid, with start, end and angle 0 |
| Colors.NullIsTransparent | src/color/color.h:75-77 | the colour of the null fill is transparent black |
| Colors.GetColorCases | src/color/color.h:75-77 | `GetColor()` is the colour of a solid fill and transparent black for every other fill |
| Colors.SolidAndFunctional | src/color/color.h:82-87 | a solid fill gives its colour at every position; a functional fill gives its function's value |
| Colors.StoredRadianIsBool | src/color/color.h:55-68 | the angle the normalising constructors store is 0 or 1, and it is 0 exactly for whole turns |
| Colors.AxisShortcuts | src/color/color.h:88-100 | a linear fill at angle 0, pi/2, pi or 3*pi/2 samples px, py, 1 - px or 1 - py |
| Colors.TwoColorsSamplesY | src/color/color.h:45-123 | the two-colour constructors give a vertical gradient over [0, 1] whose position is py clamped to [0, 1] |
| Colors.GradientBetween | src/color/color.h:88-123 | every gradient sample lies between the two end colours, channel by channel, and a position at or before the start gives the first colour |
| Colors.ColorVar.AssignSolid | src/color/color.h:126-133 | after `= solid`, the fill is solid and `GetColor()` returns that colour |
| Rects.WithinCovers | src/shape/shape.h:11-16 | a box that lies within another covers only points that the other covers, with the same slack |
| Circles.SDF | src/shape/circle.h:13-16 | the distance to the centre minus the radius; InsideIff and CenterDeepest state its meaning |
| Circles.DrawArea | src/shape/circle.h:18-24 | the box is proper (left <= right, top <= bottom) for a non-negative radius |
| Circles.InsideIff | src/shape/circle.h:13-16 | for r >= 0, a point is inside (SDF <= 0) exactly when its squared distance from the centre is at most r^2 |
| Circles.CenterDeepest | src/shape/circle.h:13-16 | the centre has SDF -r, and no point has a smaller SDF |
| Circles.BoxCovers | src/shape/circle.h:13-24 | every point whose SDF is at most s >= 0 lies in the draw area grown by s |
| Squircles.SDF | src/shape/squircle.h:19-23 | the order-norm of the offset from the centre minus the radius, with the order excluded from being 0 (see Left out); PowNormLaw and CenterValue state its meaning |
| Squircles.DrawArea | src/shape/squircle.h:25-31 | the box is proper for a non-negative radius |
| Squircles.Constructors | src/shape/squircle.h:12-17 | the constructors choose exponent 4 or 2*order, and the exponent does not change the box |
| Squircles.PowNormLaw | src/shape/squircle.h:20-22 | for an even exponent 2j, the norm is the non-negative number whose 2j-th power is \|dx\|^2j + \|dy\|^2j |
| Squircles.CenterValue | src/shape/squircle.h:19-23 | with an even exponent, the centre has SDF -r |
| Squircles.BoxCovers | src/shape/squircle.h:19-31 | with an even exponent, every point whose SDF is at most s >= 0 lies in the draw area grown by s |
| Rectangles.InitParam | src/shape/rectangle.h:37-42 | the derived centre and half-extents, both half-extents taken from the width; InitParamIgnoresHeight states it and WideRectangleEscapesBox shows its effect |
| Rectangles.SDF | src/shape/rectangle.h:21-26 | the box distance: the larger axis excess when inside, the Euclidean excess outside; InsideIff, InsideValue and OutsideValue state its meaning |
| Rectangles.DrawArea | src/shape/rectangle.h:28-34 | the box runs from the stored origin over the stored width and height, and is proper for a non-negative size |
| Rectangles.Constructors | src/shape/rectangle.h:12-19 | the side constructor is the rectangle with width and height both equal to the side; both keep the origin and size they are given |
| Rectangles.InitParamIgnoresHeight | src/shape/rectangle.h:37-42 | both half-extents are width/2 and the centre is (x0 + width/2, y0 + width/2), whatever the height |
| Rectangles.InsideIff | src/shape/rectangle.h:21-26 | a point is inside exactly when it lies within both half-extents of the centre |
| Rectangles.InsideValue | src/shape/rectangle.h:21-26 | inside both half-extents, the SDF is the larger of the two (non-positive) excesses |
| Rectangles.OutsideValue | src/shape/rectangle.h:21-26 | beyond either half-extent, the SDF is the positive length of the excesses clamped at zero |
| Rectangles.InitParamFitsIff | src/shape/rectangle.h:28-42 | the shape the parameters describe fits in the draw area exactly when width <= height |
| Rectangles.BoxCovers | src/shape/rectangle.h:21-34 | when the shape fits, every point whose SDF is at most s >= 0 lies in the draw area grown by s |
| Rectangles.WideRectangleEscapesBox | src/shape/rectangle.h:37-42 | a 4-wide, 1-high rectangle at the origin has the inside point (2, 3) outside its draw area |
| Rectangles.IntendedCovers | src/shape/rectangle.h:21-42 | with sy = height/2 the shape always fits; a point is inside exactly when it lies in [x0, x0 + width] x [y0, y0 + height], and the draw area grown by s holds every point with SDF <= s |
| Capsules.SDF | src/shape/capsule.h:13-19 | the distance to the closest point of the segment minus the radius; DistanceToClosest, InsideIff and EndpointValues state its meaning |
| Capsules.Projection | src/shape/capsule.h:14-16 | the clamped projection parameter lies in [0, 1], and it is 1 when the two end points coincide |
| Capsules.ClampedRatio | src/shape/capsule.h:15-16 | the clamped ratio lies in [0, 1]; a zero denominator (0/0, a NaN) gives 1, as `fminf(NaN, 1)` does |
| Capsules.DrawArea | src/shape/capsule.h:21-27 | the box is proper for a non-negative radius |
| Capsules.DistanceToClosest | src/shape/capsule.h:13-19 | the SDF is the distance to the closest point of the segment, minus r |
| Capsules.LerpOffset | src/shape/capsule.h:17 | `dx0 - dx1 * h` is the offset from the point of the segment at parameter h |
| Capsules.InsideIff | src/shape/capsule.h:13-19 | for r >= 0, a point is inside exactly when its squared distance from the closest segment point is at most r^2 |
| Capsules.ProjectionAtEnds | src/shape/capsule.h:14-16 | the first end point projects to 0 (when the ends differ) and the second to 1 |
| Capsules.EndpointValues | src/shape/capsule.h:13-19 | both end points have SDF -r |
| Capsules.DegenerateIsCircle | src/shape/capsule.h:13-19 | with both end points equal, the capsule is the circle of radius r around them |
| Capsules.BoxSwap | src/shape/capsule.h:21-27 | swapping the end points leaves the draw area unchanged |
| Capsules.BoxCovers | src/shape/capsule.h:13-27 | every point whose SDF is at most s >= 0 lies in the draw area grown by s |
| Operations.WellFormed | src/shape/operation.h:28-47 | what evaluating a tree needs: a binary node has its second operand, a Scale factor is non-zero and a squircle's order is non-zero; the source dereferences null, or yields ±inf or NaN, otherwise (see Left out) |
| Operations.MakeUnary | src/shape/operation.h:21-26 | the unary node, with its pivot frozen at construction as the integer centre of the operand's box; UnaryPivot and ScaleRoundTripMovesPivot state its consequences |
| Operations.CoordMapping | src/shape/operation.h:118-144 | the point mapping of Rotate and Scale, back to the operand's space or forward with `reverse`, and the identity for the other opcodes; ScaleMapsInverse and OtherOpsFixPoints state its meaning |
| Operations.SDFWith | src/shape/operation.h:28-47 | `GetSDF` over the tree: min, max and max-with-negation for the combinators, the operand at the mapped point for Rotate and Scale, minus the radius for Round; with `rescale` the corrected Scale of Findings |
| Operations.SDF | src/shape/operation.h:28-47 | `GetSDF` as written; CombinatorsInside, RoundInside, ScaleImage and BoxCovers state its meaning |
| Operations.DrawArea | src/shape/operation.h:49-115 | `GetDrawArea` per opcode; the box lemmas below relate it to the operands' boxes, and BoxCovers to the SDF |
| Operations.ConstructorShapes | src/shape/operation.h:18-26 | the binary constructor zeroes pivot and parameter; the unary one has no second operand and keeps the parameter; each is well formed exactly when its operands are and the opcode suits it |
| Operations.PivotIsMidpoint | src/shape/operation.h:24-25 | the pivot `left + (right - left) / 2` is the midpoint rounded toward `left`, so it always lies between the two ends |
| Operations.UnaryPivot | src/shape/operation.h:21-26 | the unary constructor's pivot lies inside the operand's draw area whenever that area is proper |
| Operations.ScaleMapsInverse | src/shape/operation.h:131-141 | for k != 0, the forward and the backward Scale mappings undo each other |
| Operations.ScaleBack | src/shape/operation.h:133-138 | one axis of the forward Scale mapping is undone by the backward one |
| Operations.ScaleForth | src/shape/operation.h:133-138 | one axis of the backward Scale mapping is undone by the forward one |
| Operations.ScaleRoundTripMovesPivot | src/shape/operation.h:21-26 | as written, a circle scaled by 2 and then by 1/2 is not the circle again: a point inside the circle is outside the result, because the outer node takes its pivot from the scaled box |
| Operations.ScaleAbout | src/shape/operation.h:21-26 | a Scale node about a chosen pivot, well formed when its operand is and the factor is non-zero |
| Operations.ScaleRoundTripSamePivot | src/shape/operation.h:131-141 | scaling by k and then by 1/k about one pivot gives back the operand's SDF at every point, as written and with the distance rescaled |
| Operations.InverseFactor | src/shape/operation.h:133-138 | dividing an offset by 1/k multiplies it by k |
| Operations.RescaledInverse | src/shape/operation.h:39-42 | rescaling a distance by \|k\| and then by \|1/k\| gives it back |
| Operations.OtherOpsFixPoints | src/shape/operation.h:142 | union, intersection, difference and round leave the point where it is |
| Operations.CombinatorsInside | src/shape/operation.h:30-38 | at every level t: a union is inside when either operand is, an intersection when both are, a difference when the first is and the second is not strictly inside |
| Operations.RoundInside | src/shape/operation.h:43-45 | the shape rounded by r is inside at a point exactly when the operand's SDF there is at most r |
| Operations.ScaleImage | src/shape/operation.h:39-42 | a Scale node at the mapped point has the operand's value at the original point: unchanged as written, multiplied by \|k\| when rescaled |
| Operations.UnionBoxContains | src/shape/operation.h:52-58 | the union's box holds both operands' boxes |
| Operations.IntersectionBoxWithin | src/shape/operation.h:60-66 | the intersection's box lies within both operands' boxes |
| Operations.IntersectionBoxMayInvert | src/shape/operation.h:60-66 | for two unit circles 10 apart, the intersection's box is inverted (not proper) |
| Operations.DifferenceBox | src/shape/operation.h:68-70 | the difference's box is the first operand's box |
| Operations.RoundBoxGrows | src/shape/operation.h:99-112 | rounding by r >= 0 grows the box: the operand's box lies within it, and it is proper whenever the operand's is |
| Operations.ScaleBoxProper | src/shape/operation.h:87-98 | for k > 0 the Scale box is proper whenever the operand's is |
| Operations.ScaleAxisMonotone | src/shape/operation.h:133-134 | the forward Scale mapping keeps the order of points for k > 0 |
| Operations.BoxCovers | src/shape/operation.h:28-115 | for a tree without Rotate and with sound parameters, every point whose SDF is at most s lies in the draw area grown by s; so the renderer, which visits only the draw area, misses no inside point |
| Operations.OperationCovers | src/shape/operation.h:28-115 | the induction step of `BoxCovers`, one operation at a time |
| Operations.UnionCovers | src/shape/operation.h:52-58 | a point in either operand's grown box is in the union's grown box |
| Operations.ScaleCovers | src/shape/operation.h:87-98 | a point whose backward image lies in the operand's box (grown by s/k) lies in the Scale box grown by s |
| Operations.RoundCovers | src/shape/operation.h:99-112 | a point in the operand's box grown by s + r lies in the Round box grown by s |
| Operations.ScaleAxisCover | src/shape/operation.h:87-98 | an operand coordinate within the operand's range grown by s/k maps forward into the mapped range grown by s |
| Operations.RoundedScaledCircleBox | src/shape/operation.h:87-112 | the unit circle scaled by 2 and rounded by 1 has the draw area [-3, 3] x [-3, 3] |
| Operations.RoundedScaleEscapesBox | src/shape/operation.h:39-45 | as written, that shape has SDF 0 at (4, 0), a point its draw area does not hold |
| Operations.RoundedScaleRescaledSound | src/shape/operation.h:39-45 | with the operand's distance multiplied by k, (4, 0) has SDF 1 and every point inside the shape lies in its draw area |
| Shapes.Shape.constructor | src/shape/shape.h:18-30 | a new shape holds its geometry and the default fill, a transparent solid colour |
| Shapes.Shape.SetColor | src/shape/shape.h:25 | only the fill changes; the geometry stays |
| Shapes.Shape.GetColor | src/shape/shape.h:26 | returns the current fill |
| Shapes.Shape.Value | src/shape/shape.h:18-30 | the shape's geometry and fill as a value |
| Shapes.Snapshot | src/shape/shape.h:33 | a shape list as values, same length, same order, element by element |
| Renders.AlphaBlend | src/render/render.h:39-41 | for alpha in [0, 1] the result is the truncated interpolation and lies between the two bytes; alpha 0 keeps x and alpha 1 gives y |
| Renders.BlendInRange | src/render/render.h:39-41 | the truncated interpolation of two bytes for alpha in [0, 1] lies between them, with both ends exact |
| Renders.Coverage | src/render/render.h:43-51 | coverage lies in [0, 1]; without anti-aliasing it is 1 exactly inside the shape (SDF <= 0) and 0 exactly outside |
| Renders.AntiAliasedCoverage | src/render/render.h:45-47 | with anti-aliasing: full coverage half a unit inside, none half a unit outside, one half on the edge, and never growing as the distance grows |
| Renders.Render.constructor | src/render/render.h:36-37 | no buffer, size 0x0, anti-aliasing and progress off |
| Renders.Render.ReadBuffer | src/render/render.h:16-20 | adopts the buffer and the size as given and keeps both switches |
| Renders.Render.SetShowProgress | src/render/render.h:25-27 | sets the progress switch and nothing else |
| Renders.Render.SetAntiAliasing | src/render/render.h:28-30 | sets the anti-aliasing switch and nothing else |
| Renders.Render.PixelVisible | src/render/render.h:43-51 | the coverage of a point by a well-formed tree, in [0, 1], and 1 exactly inside when anti-aliasing is off |
| Renders.Render.AlphaBlendX | src/render/render.h:39-41 | byte i becomes the blend with y and every other byte is kept |
| Renders.UpdateProgress | src/render/basic.h:54-77 | an index past the last shape reports completion; during the background pass the total is the current percentage over 1 + shapeCount |
| Renders.RowMajorBounds | src/render/basic.h:125 | a pixel of a w-by-h grid has its row-major index in [0, w*h) |
| Renders.BackgroundProgressBounds | src/render/basic.h:56-61 | during the background pass both percentages stay in [0, 1) |
| Renders.ShapeProgressOverflows | src/render/basic.h:119-123 | as written, a shape pass at x = 5 over a one-pixel clipped area reports 500% current and 300% total |
| Renders.ShapeProgressIntendedBounds | src/render/basic.h:62-69 | with coordinates taken relative to the clipped area, the current percentage is in [0, 1) and the total within shape i's share of [0, 1) |
| BasicRenders.PixelOfByte | src/render/basic.h:125 | every byte index decomposes as the row-major pixel index times 3 plus its channel |
| BasicRenders.PixelBytes | src/render/basic.h:125 | byte k of pixel (x, y) is at (y*w + x)*3 + k, and that index decodes back to x, y and k |
| BasicRenders.CanvasBytes | src/render/basic.h:83-90 | the pixels of a w-by-h image are exactly the first w*h*3 bytes |
| BasicRenders.Background | src/render/basic.h:79-106 | the buffer after `DrawBackground`, byte for byte: each image byte is its pixel's background channel and every other byte is kept; BackgroundPixel, BackgroundOutside and SolidBackground state this pixel by pixel |
| BasicRenders.BackgroundPixel | src/render/basic.h:79-106 | after the background pass every byte of an image pixel holds its channel of the background colour at that pixel |
| BasicRenders.BackgroundOutside | src/render/basic.h:79-106 | the background pass changes no byte past the image |
| BasicRenders.SolidBackground | src/render/basic.h:81-91 | a solid background gives every image pixel the same colour |
| BasicRenders.Clip | src/render/basic.h:110-114 | the clipped box lies within both the image and the shape's box |
| BasicRenders.SampleX | src/render/basic.h:147-148 | the horizontal gradient position of a pixel of the un-clipped box is in [0, 1) |
| BasicRenders.SampleY | src/render/basic.h:147-148 | the vertical gradient position of a pixel of the un-clipped box is in [0, 1) |
| BasicRenders.PixelCoverage | src/render/basic.h:127 | the coverage of pixel (x, y) by the shape is in [0, 1] |
| BasicRenders.PaintByte | src/render/basic.h:127-132 | one byte of a pixel: blended with the channel when the blend factor is positive, kept otherwise |
| BasicRenders.Paint | src/render/basic.h:108-159 | the buffer after `DrawShape`, byte for byte; PaintPixel, PaintOffCanvas, OpaqueShapeOverwrites and OpaqueShapeIdempotent state its meaning |
| BasicRenders.PaintPixel | src/render/basic.h:108-159 | after one shape, a byte changes only inside the clipped box, where it is blended with the colour at that pixel by coverage times alpha exactly when that is positive |
| BasicRenders.PaintOffCanvas | src/render/basic.h:108-159 | a shape never changes a byte past the image, and one whose clipped box is empty changes nothing |
| BasicRenders.OpaqueShapeOverwrites | src/render/basic.h:117-135 | a solid opaque shape without anti-aliasing paints its colour over every image pixel inside it that its box covers |
| BasicRenders.OpaqueShapeIdempotent | src/render/basic.h:117-135 | without anti-aliasing, painting a solid, fully opaque shape twice gives the same buffer as painting it once |
| BasicRenders.AntiAliasedRepaintBlends | src/render/basic.h:117-135 | with anti-aliasing that fails: a white square half covering a black pixel paints it 127 once and 191 twice |
| BasicRenders.OpaqueByte | src/render/render.h:39-41 | at full coverage an opaque colour replaces a byte with its channel |
| BasicRenders.Blended | src/render/basic.h:128-132 | blending pixel o keeps the length and every byte outside the pixel |
| BasicRenders.BlendedByte | src/render/basic.h:128-132 | byte k of the blended pixel is the blend of its old value with channel k |
| BasicRenders.PaintAll | src/render/basic.h:44-47 | the buffer after the shapes are painted in list order, the first one first; PaintAllSnoc and PaintAllOutside state its meaning |
| BasicRenders.PaintAllSnoc | src/render/basic.h:44-47 | painting a list and then one more shape is painting the longer list: shapes are applied in list order |
| BasicRenders.PaintAllOutside | src/render/basic.h:39-52 | a redraw never touches a byte past the image |
| BasicRenders.BasicRender.constructor | src/render/basic.h:14 | a fresh renderer with no buffer, size 0x0 and both switches off |
| BasicRenders.BasicRender.DrawBackground | src/render/basic.h:79-106 | the buffer becomes the background pass applied to its old contents |
| BasicRenders.BasicRender.FillPixel | src/render/basic.h:85-88 | writing one pixel's three bytes extends the finished prefix by that pixel |
| BasicRenders.BasicRender.DrawPixel | src/render/basic.h:124-132 | one pixel of the box is drawn: blended with the colour there when coverage times alpha is positive |
| BasicRenders.BasicRender.BlendPixel | src/render/basic.h:128-132 | the buffer becomes `Blended` of its old contents: three `AlphaBlendX` calls made only for a positive factor |
| BasicRenders.BasicRender.DrawShape | src/render/basic.h:108-159 | the buffer becomes the shape pass applied to its old contents |
| BasicRenders.BasicRender.DrawBox | src/render/basic.h:119-134 | after the two loops every byte of the clipped box holds the pass's target and every other byte is kept |
| BasicRenders.BasicRender.RenderProcess | src/render/basic.h:39-52 | the buffer becomes the background followed by every shape in list order |
| BasicRenders.BasicRender.Redraw | src/render/basic.h:16-36 | the same buffer as `RenderProcess`, and with progress on the shape count is the list's length |
| Canvases.PixelColor | src/canvas.h:99-105 | the colour `GetPixel` returns at a signed distance: the shape's colour with alpha scaled by the mapped distance, or aliased the colour inside and null outside; AntiAliasedPixel and AliasedPixel state its meaning |
| Canvases.GetPixel | src/canvas.h:96-106 | `GetPixel(x, y, shape)`: PixelColor at the shape's SDF at the pixel |
| Canvases.Fill | src/canvas.h:26-33 | the buffer after the background loops: every image byte is the background's channel, and the bytes past the image are kept |
| Canvases.ShapePaint | src/canvas.h:35-51 | the buffer after one shape: the image pixels of its box are blended with `GetPixel`, and every other byte is kept |
| Canvases.PaintShapes | src/canvas.h:35-51 | the buffer after the shapes, the first one first |
| Canvases.Redrawn | src/canvas.h:24-52 | the buffer after `Redraw`: the background, then each shape; RedrawForgets and RedrawPathsAgree state its meaning |
| Canvases.AntiAliasedPixel | src/canvas.h:99-102 | with anti-aliasing the pixel keeps the shape's channels and, for alpha in [0, 1], its alpha is the shape's alpha times the coverage |
| Canvases.Recolored | src/canvas.h:101 | rebuilding a colour from its RGB and a product alpha keeps the channels and stores the product |
| Canvases.AliasedPixel | src/canvas.h:103-105 | without anti-aliasing the pixel is visible exactly when the point is inside and the shape's colour is visible |
| Canvases.FillByte | src/canvas.h:26-33 | after the background loop every image byte holds its channel of the background |
| Canvases.FillKeepsTail | src/canvas.h:26-33 | the background loop keeps every byte past the image |
| Canvases.RedrawForgets | src/canvas.h:24-52 | when the buffer is exactly the image, a redraw does not depend on what it held before |
| Canvases.ShapeKeeps | src/canvas.h:35-51 | a shape keeps every byte outside its box or off the image, and without anti-aliasing every byte of a pixel outside the shape |
| Canvases.OpaqueCanvasShape | src/canvas.h:35-51 | an opaque colour without anti-aliasing paints its channel over every image pixel of its box inside the shape |
| Canvases.RedrawPathsAgree | src/canvas.h:96-106 | for a solid colour with alpha in [0, 1] the byte `Canvas::Redraw` writes is the one the basic renderer's `DrawShape` writes |
| Canvases.ColorPathsAgree | src/canvas.h:96-106 | the same agreement at any signed distance |
| Canvases.Resized | src/canvas.h:69 | `resize(n)` gives n bytes, keeps the first ones and zero-fills the rest |
| Canvases.PixelBlended | src/canvas.h:44-48 | blending pixel o keeps the length and every byte outside the pixel |
| Canvases.CanvasStep | src/canvas.h:42-48 | blending a not yet painted pixel of the box writes that pixel's bytes of the pass's result |
| Canvases.SkipStep | src/canvas.h:39-41 | a position off the image paints nothing |
| Canvases.FillDone | src/canvas.h:26-33 | once the walk has passed the last pixel the buffer is the filled one |
| Canvases.Canvas.constructor | src/canvas.h:19-22 | the given size, an opaque black background, a zeroed buffer of w*h*3 bytes, anti-aliasing off and no shapes |
| Canvases.Canvas.SetSize | src/canvas.h:66-70 | the new size and the buffer resized to w*h*3 bytes; nothing else changes |
| Canvases.Canvas.AddShape | src/canvas.h:60-63 | the shape is appended and its index returned; nothing else changes |
| Canvases.Canvas.ClearShape | src/canvas.h:64 | the list is emptied; nothing else changes |
| Canvases.Canvas.SetAntiAliasing | src/canvas.h:71-73 | sets the switch; nothing else changes |
| Canvases.Canvas.SetBackcolor | src/canvas.h:74 | sets the background; nothing else changes |
| Canvases.Canvas.AlphaBlendX | src/canvas.h:92-94 | byte i becomes the blend with y, the same blend as the renderer's |
| Canvases.Canvas.Redraw | src/canvas.h:24-52 | the buffer becomes the background followed by each shape over its whole box, off-image positions skipped; nothing else changes |
| Canvases.Canvas.FillBackground | src/canvas.h:26-33 | the buffer becomes the background fill of its old contents |
| Canvases.Canvas.DrawShape | src/canvas.h:35-51 | the buffer becomes one shape's pass over its old contents |
| Canvases.Canvas.BlendPixel | src/canvas.h:44-48 | the pixel's three bytes are blended with the `GetPixel` colour only when that colour is visible |
| ImageContainers.ImageContainer.constructor | src/container/imgcontainer.h:27 | no buffer and size 0x0 |
| ImageContainers.ImageContainer.ReadBuffer | src/container/imgcontainer.h:13-17 | remembers the buffer and the size as given |
| Netpbm.Header | src/container/ppmcont.h:75-94 | the header bytes: `P`, the magic digit, then width, space, height and, except for PBM, the 255 line; HeaderRoundTrip gives it meaning |
| Netpbm.ParseHeader | src/container/ppmcont.h:75-94 | a reader of the headers `WriteHeader` writes, the partner that HeaderRoundTrip inverts it with |
| Netpbm.Digits | src/container/ppmcont.h:80 | the decimal digits of a natural number: at least one, all digits, no leading zero |
| Netpbm.Decimal | src/container/ppmcont.h:80 | `ofs << n` is non-empty and holds neither the space nor the newline used as separators |
| Netpbm.DecimalRoundTrip | src/container/ppmcont.h:80 | the decimal text of every int reads back as that int |
| Netpbm.HeaderRoundTrip | src/container/ppmcont.h:75-94 | a reader recovers format, variant, width and height from the header, and finds the body right after it |
| Netpbm.Grayscale | src/container/ppmcont.h:34-40 | `GetGrayscale`: the three truncated weighted channels summed as an `unsigned char`; GrayscaleRange shows the sum never wraps |
| Netpbm.GrayscaleRange | src/container/ppmcont.h:34-40 | the byte sum never wraps: the grey level is at most 254 and is the exact luminance rounded down by less than three |
| Netpbm.Histogram | src/container/ppmcont.h:43-48 | the histogram has 256 non-negative counts |
| Netpbm.HistogramTotal | src/container/ppmcont.h:46-48 | every pixel is counted once: the counts add up to the number of pixels |
| Netpbm.Scan | src/container/ppmcont.h:56-71 | the threshold search after trying thresholds 1 .. i-1; ScanFindsFirstMaximum states what it finds |
| Netpbm.OtsuThreshold | src/container/ppmcont.h:42-73 | `GetOtsuThreshold`: the scan over the histogram of the first w·h pixels, with w·h itself as the pixel total |
| Netpbm.BetweenVariance | src/container/ppmcont.h:58-64 | the variance is undefined (NaN or an infinite weight) exactly when one class is empty or there are no pixels, and otherwise non-negative |
| Netpbm.ScanFindsFirstMaximum | src/container/ppmcont.h:55-71 | the search returns the first threshold with the largest positive variance, or 0 when none is positive |
| Netpbm.Bits | src/container/ppmcont.h:139-142 | one bit per pixel, in row-major order |
| Netpbm.PackBits | src/container/ppmcont.h:136-151 | the raw PBM body has ⌈n/8⌉ bytes for n pixels |
| Netpbm.OrClearBit | src/container/ppmcont.h:142 | or-ing in a bit that is still clear adds its value |
| Netpbm.GroupAppend | src/container/ppmcont.h:142 | appending a pixel to a partial byte or-s its bit in at the next position from bit 7 down |
| Netpbm.PackStart | src/container/ppmcont.h:138 | `temp_byte = 0, cur_pos = 7` is a valid packing state before any pixel |
| Netpbm.PackBit | src/container/ppmcont.h:142 | a pixel into a byte with room left advances its packing state by one pixel |
| Netpbm.PackByte | src/container/ppmcont.h:142-147 | the pixel that fills a byte flushes it and restarts at bit 7, again a valid packing state |
| Netpbm.PackFinish | src/container/ppmcont.h:150 | after the last pixel, writing a partial byte (and only a partial one) completes the body of packed bits |
| Netpbm.GroupBit | src/container/ppmcont.h:142 | a byte's bits read back as its group's pixels, and the padding as clear bits |
| Netpbm.UnpackPackBits | src/container/ppmcont.h:136-151 | unpacking the raw PBM body gives back every pixel's bit, and the bits past the last pixel are clear |
| Netpbm.PpmBodyIsBuffer | src/container/ppmcont.h:161-171 | the raw PPM rows are the buffer's first w·h·3 bytes, in order |
| Netpbm.GrayPlane | src/container/ppmcont.h:153-160 | one grey level per pixel, in order |
| Netpbm.PgmBodyIsGray | src/container/ppmcont.h:153-160 | the raw PGM rows are the pixels' grey levels, one byte each |
| Netpbm.Rows | src/container/ppmcont.h:96-132 | the first y rows of a plain or raw grey or colour body, each row its cells and, in the plain variant, a newline; PlainLines and RowCounts state its shape |
| Netpbm.Body | src/container/ppmcont.h:96-173 | the body each format and variant writes; PlainBody, PpmRawBody, PgmRawBody and PbmRawBody state its meaning |
| Netpbm.TextCounts | src/container/ppmcont.h:112-113 | the text of n values holds n spaces and no line break |
| Netpbm.RowCounts | src/container/ppmcont.h:100-104 | a plain row of x pixels holds x values (3·x for PPM), each followed by a space, and no line break |
| Netpbm.PlainLines | src/container/ppmcont.h:96-132 | a plain body has exactly one line break per row |
| Netpbm.PpmRawBody | src/container/ppmcont.h:161-171 | the raw PPM body is the buffer's first w·h·3 bytes |
| Netpbm.PgmRawBody | src/container/ppmcont.h:153-160 | the raw PGM body holds one grey byte per pixel |
| Netpbm.PbmRawBody | src/container/ppmcont.h:136-151 | the raw PBM body is ⌈w·h/8⌉ bytes from which each pixel's bit unpacks, set exactly when the pixel is darker than the Otsu threshold |
| Netpbm.PlainBody | src/container/ppmcont.h:96-132 | a plain body has one line per row, each with `width` values (3·width for PPM), each followed by a space |
| PpmContainers.PpmContainer.constructor | src/container/ppmcont.h:16 | the default container writes plain PPM and starts with an empty 0x0 image |
| PpmContainers.PpmContainer.WithFormat | src/container/ppmcont.h:17 | the given format, plain |
| PpmContainers.PpmContainer.WithVariant | src/container/ppmcont.h:18-19 | the given format and variant |
| PpmContainers.PpmContainer.ReadBuffer | src/container/imgcontainer.h:13-17 | hands the framebuffer and its size to the container |
| PpmContainers.PpmContainer.ExportStream | src/container/ppmcont.h:22-31 | the output is the header followed by the body in the container's variant |
| PpmContainers.PpmContainer.WriteHeader | src/container/ppmcont.h:75-94 | the output is the header, which `HeaderRoundTrip` shows a reader recovers |
| PpmContainers.PpmContainer.GetOtsuThreshold | src/container/ppmcont.h:42-73 | the threshold is Otsu's: the first with the largest between-class variance over the image's histogram |
| PpmContainers.PpmContainer.CountLevels | src/container/ppmcont.h:44-48 | the array holds the histogram of the image's pixels |
| PpmContainers.PpmContainer.ScanLevels | src/container/ppmcont.h:49-72 | the loops compute the search over the given histogram |
| PpmContainers.PpmContainer.WriteBodyAscii | src/container/ppmcont.h:96-132 | the output is the plain body |
| PpmContainers.PpmContainer.WriteBodyBinary | src/container/ppmcont.h:134-173 | the output is the raw body |
| PpmContainers.PpmContainer.WriteRows | src/container/ppmcont.h:96-132 | the two loops put out every row of cells in row-major order, a newline after each in the plain variant |
| PpmContainers.PpmContainer.WriteRow | src/container/ppmcont.h:100-104 | one row is the joined cells of its pixels |
| PpmContainers.PpmContainer.WritePackedBits | src/container/ppmcont.h:137-150 | the output is `PackBits` of all pixels' bits |
| PpmContainers.PpmContainer.WritePackedRow | src/container/ppmcont.h:140-148 | one row of pixels advances its packing state by that many pixels |
| AsciiContainers.PaletteSize | src/container/asciicont.h:24-26 | the palette holds exactly `grayscale_count` = 70 characters, none a newline |
| AsciiContainers.PairFits | src/container/asciicont.h:28-34 | the two pixels of a character lie in a buffer that covers the image whenever row y + 1 exists |
| AsciiContainers.PixelGray | src/container/asciicont.h:37-39 | a pixel's contribution to `gray`: each weighted channel added to the `int` and so truncated on its own |
| AsciiContainers.GraySum | src/container/asciicont.h:35-40 | `gray` after the loop over the pair's positions; GraySumBound and PairSum state its meaning |
| AsciiContainers.PixelGrayRange | src/container/asciicont.h:35-40 | a pixel adds at most 254, the same grey level as the PPM writer's `GetGrayscale` |
| AsciiContainers.GraySumBound | src/container/asciicont.h:35-40 | the sum over n pixels is at most 254·n, so at most 508 for a pair |
| AsciiContainers.AddWeighted | src/container/asciicont.h:37-39 | `gray += v * c` on a non-negative `int` adds the truncated weighted channel |
| AsciiContainers.AddPixel | src/container/asciicont.h:37-39 | the three truncating additions for a pixel add its grey level |
| AsciiContainers.GlyphIndex | src/container/asciicont.h:41 | the palette index: the pair's luminance mapped from [0, 510] to [0, 70] and truncated; GlyphRange and GlyphMonotone state its meaning |
| AsciiContainers.GlyphRange | src/container/asciicont.h:41-42 | the palette index is 70·gray/510 rounded down, always a palette position |
| AsciiContainers.GlyphMonotone | src/container/asciicont.h:41-42 | a brighter pair never gets a denser character |
| AsciiContainers.Glyph | src/container/asciicont.h:28-43 | the character of a pixel pair is never a newline |
| AsciiContainers.PairSum | src/container/asciicont.h:35-40 | the luminance of a pair is the sum of its two pixels' grey levels |
| AsciiContainers.BlackAndWhite | src/container/asciicont.h:28-43 | a black pair prints as `$`, a white pair as a space |
| AsciiContainers.Line | src/container/asciicont.h:16-18 | a line of n columns has n characters |
| AsciiContainers.Lines | src/container/asciicont.h:15-20 | the first n lines of the picture, line k from rows 2k and 2k + 1 and ended by a newline; LinesShape states its shape |
| AsciiContainers.Picture | src/container/asciicont.h:14-21 | the text `ExportStream` writes: one line per whole pair of rows; PictureShape states its shape |
| AsciiContainers.LinesSnoc | src/container/asciicont.h:15-19 | one more line is rows 2k and 2k + 1, then a newline |
| AsciiContainers.LineChars | src/container/asciicont.h:16-18 | no character of a line is a newline |
| AsciiContainers.LinesShape | src/container/asciicont.h:14-21 | n lines are n·(w + 1) characters, and a character is a newline exactly at the positions w modulo w + 1 |
| AsciiContainers.PictureShape | src/container/asciicont.h:14-21 | the picture of a w×h image is ⌊h/2⌋ lines of w characters, each followed by a newline, the last row of an odd height dropped |
| AsciiContainers.AsciiContainer.constructor | src/container/imgcontainer.h:27 | no buffer and a 0x0 size |
| AsciiContainers.AsciiContainer.ReadBuffer | src/container/imgcontainer.h:13-17 | hands the framebuffer and its size to the container |
| AsciiContainers.AsciiContainer.ExportStream | src/container/asciicont.h:14-21 | the output is the picture, whose shape `PictureShape` states |
| AsciiContainers.AsciiContainer.WriteLine | src/container/asciicont.h:16-19 | one pass appends the line of rows y and y + 1 and a newline to the text so far |
| AsciiContainers.AsciiContainer.GetAscii | src/container/asciicont.h:28-43 | the character is the palette entry for the pair's luminance |

## Left out

- Threading and the progress display: `RefreshAsync`, the render thread and the joins (src/render/basic.h:18-35), the progress bar object and its titles. They only add concurrency and terminal output. The percentages of `UpdateProgress` are modelled as `Renders.UpdateProgress`; the renderer's loops do not call it, because it writes nothing to the buffer.
- Floating-point rounding: floats are reals. The weights 0.2126, 0.7152 and 0.0722 are taken as exact decimals, which the `float` constants are not, so a channel product that lands within rounding error of an integer may truncate differently in the C++ build.
- Float-to-byte casts outside [0, 255] are undefined in C++. `Renders.AlphaBlend` wraps them modulo 256 and states its results only for alpha in [0, 1].
- `sqrtf`, `powf`, `atan2f`, `cosf` and `sinf` are fields of a `MathLib` parameter. Its laws cover square roots and whole powers only, so the Rotate branch of `CoordMapping`, the Rotate box (src/shape/operation.h:71-86) and gradients at a general angle are modelled but nothing is proved about them. In particular the round trip of a rotation by θ followed by one by −θ is not stated.
- Operations.BoxCovers: proved only for trees without Rotate, because the Rotate box goes through trigonometry. It also excludes squircles of order below 1, rectangles wider than they are high (see Findings), a Round with a negative radius, and a Scale whose factor is not positive or that, as written, shrinks the distance the outer nodes see (see Findings).
- MathUtil.LinearMapping: requires that the window is not empty at the value (`l0 != r0 || value != l0`). There the source divides 0 by 0 (src/util/mathutil.h:77) and returns NaN, which reals do not have. Colors.Samplable excludes the same input for a gradient whose start equals its end, and Colors.GetColorAt is not defined there.
- Colors.Samplable: excludes a functional fill that holds no function, so Colors.GetColorAt, and with it BasicRenders.BackSamplable and BasicRenders.ShapeSamplable, are not defined there. The six-argument constructor (src/color/color.h:61-68) builds such a fill. Sampling it calls an empty `std::function` (src/color/color.h:86), which throws `std::bad_function_call`; exceptions are not modelled.
- Squircles.SDF: requires a non-zero order, and Operations.WellFormed asks the same of every squircle in a tree. At order 0 the source raises the sum to the power 1/0 = +inf (src/shape/squircle.h:21-22) and returns +inf, an empty shape.
- Operations.WellFormed: also requires a non-zero Scale factor and a second operand for Union, Intersection and Difference. For factor 0 the source divides the offset by 0 (src/shape/operation.h:137-138) and evaluates the operand at ±inf or NaN; a missing operand is a null dereference. Neither input is modelled.
- Canvases.Canvas.constructor: requires `w * h >= 0`, and so does Canvases.Canvas.SetSize. For a negative product `vector::resize` (src/canvas.h:69) receives a huge size and throws `std::length_error`; exceptions are not modelled.
- BasicRenders.OpaqueShapeIdempotent: proved only without anti-aliasing, because with it the documented idempotence does not hold (see `BasicRenders.AntiAliasedRepaintBlends`).
- Integer overflow of `int` expressions such as `width_ * height_ * 3` and `y * width_ + x`: integers are unbounded, and every buffer access is guarded by the covering conditions instead.
- `temp_byte` in the raw PBM writer is a `char`. The model keeps it as 0..255; the bits written are the same.
- The Otsu sums `last_sum` and `last_pixel_sum` are floats in the source and exact integers here. A NaN or infinite variance (empty class, no pixels) is `None`, and every comparison with it fails, as NaN comparisons do.
- File output: `ImageContainer::Export` opens an `ofstream` (src/container/imgcontainer.h:19-24). `ExportStream` is modelled as the byte sequence (PPM) or character sequence (ASCII) it writes. The PNG container wraps a file that is not part of this model.
- `Canvas::Export`, `set_image_container`, `set_render` and the read-only accessors: they only store pointers or hand the buffer to a container.
- Shape pointers: `ShapePtr` is a `shared_ptr`, so one node may be shared between trees and lists. The model holds the operation tree as a value, and a shape list as a sequence of `Shape` objects read through `Snapshot`, so sharing is not captured.
- The container's `buffer_` points into the canvas's buffer. The model's `ImageContainer` holds a copy taken by `ReadBuffer`, so later writes through the canvas are not seen through it.
- The nested row loops of the writers are split into helper methods (`WriteRows`/`WriteRow`, `WritePackedBits`/`WritePackedRow`, `ExportStream`/`WriteLine`), and the Otsu loops into `CountLevels`/`ScanLevels`. The state they carry between rows is passed explicitly.
- The demo programs (src/main.cpp and the test drivers), and the `Blur` and `OffsetY` opcodes they use, which `Opcode` does not declare.

## Findings

The rest of the model follows the code as written. Each corrected member stands beside its as-written partner, with the intended property proved about it.

| source | as written | input that shows it | evidently intended | confidence | as-written member | corrected member |
|---|---|---|---|---|---|---|
| src/color/solid.h:41-43 | `IsOpaque` needs alpha at least 1/(1 - ε), but `SetRGBA` stores \|a\| and replaces it with exactly 1 once it reaches that bound, so the stored alpha is 1 or below 1/(1 - ε) and never opaque, and `operator==(rgb)` is false for every colour built from an rgb value | `SolidColor(0x123456) == 0x123456` is false | a colour built from rgb compares equal to that rgb | not executed | SolidColors.EqualsRGBNeverAfterSet | SolidColors.EqualsRGBIntendedRoundTrip |
| src/shape/rectangle.h:37-42 | `InitParam` sets the half-height `sy_` from the width | a 4-wide, 1-high rectangle at the origin is inside at (2, 3), which its draw area [0, 4] x [0, 1] misses | `sy_ = height_ / 2` | not executed | Rectangles.WideRectangleEscapesBox | Rectangles.IntendedCovers |
| src/shape/operation.h:39-45 | Scale maps the point but does not multiply the operand's distance by the factor, so a Round above a Scale reaches past the draw area | the unit circle scaled by 2 and rounded by 1 has SDF 0 at (4, 0), outside its draw area [-3, 3] x [-3, 3] | the operand's distance times \|k\| | not executed | Operations.RoundedScaleEscapesBox | Operations.RoundedScaleRescaledSound |
| src/shape/operation.h:21-26 | each unary node freezes its pivot from its own operand's box, so a second Scale by 1/k shrinks about the centre of the scaled box rather than about the first pivot | a circle at (1.5, 1.5) of radius 1.5, scaled by 2 and then by 1/2: (0.1, 1.5) is inside the circle and outside the result | scaling by k and then by 1/k gives the shape back | not executed | Operations.ScaleRoundTripMovesPivot | Operations.ScaleRoundTripSamePivot |
| src/render/basic.h:119-123 | the shape pass hands absolute pixel coordinates to `UpdateProgress` with the size of the clipped area | a one-pixel area at x = 5 reports 500% current and 300% total for one shape | coordinates relative to the clipped area | not executed | Renders.ShapeProgressOverflows | Renders.ShapeProgressIntendedBounds |
