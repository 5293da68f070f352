/** `cvf::container::ImageContainer` (src/container/imgcontainer.h): the
    part every container shares, the framebuffer it was last handed and its
    size. The C++ containers derive from it; here each container holds one. */
module ImageContainers {
  import opened Numeric

  class ImageContainer {
    /** The bytes the container would read at export time, three per pixel
        in row-major order. */
    var buffer: seq<Byte>
    var width: int
    var height: int

    /** A container starts with no buffer and a 0×0 size. */
    constructor ()
      ensures buffer == [] && width == 0 && height == 0
    {
      buffer := [];
      width := 0;
      height := 0;
    }

    /** `ReadBuffer`: remembers the buffer and its size. */
    method ReadBuffer(buf: seq<Byte>, w: int, h: int)
      modifies this
      ensures buffer == buf && width == w && height == h
    {
      buffer := buf;
      width := w;
      height := h;
    }

    /** The buffer holds every byte an export reads: width·height·3 of
        them. */
    predicate Covers()
      reads this
    {
      width * height * 3 <= |buffer|
    }
  }
}
