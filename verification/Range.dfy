/** Byte ranges of a file (range.hpp, filerange.hpp). Offsets and lengths are 32-bit unsigned
    numbers in the program; where an operation can wrap, the wrap is written out. */
module Range {
  import opened Wrappers

  const WORD: nat := 0x1_0000_0000

  type FileOffset = x: int | 0 <= x < WORD

  datatype FileRange = FileRange(offset: FileOffset, length: FileOffset) {
    predicate Empty() { length == 0 }

    function First(): FileOffset { offset }

    function Last(): FileOffset { (offset + length - 1) % WORD }

    predicate Intersects(r: FileRange) {
      !((offset + length) % WORD <= r.offset || offset >= (r.offset + r.length) % WORD)
    }

    /** The bytes of the range, for a range that does not run past the end of the offsets. */
    ghost predicate Has(i: int) { offset <= i < offset + length }
  }

  function SetBoundary(first: FileOffset, last: FileOffset): Result<FileRange> {
    if first > last then Failure("first > last") else Success(FileRange(first, (last - first + 1) % WORD))
  }
}
