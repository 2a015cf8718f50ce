/** Bytes of the data files and of compressed payloads. */
module Bytes {
  newtype byte = x: int | 0 <= x < 256

  /**
   * The `size` bytes that `fseek(f, offset); fread(buf, 1, size, f)` leaves in
   * a buffer when the file holds `file`. Bytes past the end of the file are not
   * read by `fread`; they are modelled as zero.
   */
  function ReadBlob(file: seq<byte>, offset: int, size: nat): (r: seq<byte>)
    ensures |r| == size
    ensures 0 <= offset && offset + size <= |file| ==> r == file[offset..offset + size]
    ensures forall k {:trigger r[k]} :: 0 <= k < size && 0 <= offset + k < |file| ==> r[k] == file[offset + k]
  {
    seq(size, k requires 0 <= k < size => if 0 <= offset + k < |file| then file[offset + k] else 0)
  }

  /** Appending bytes does not change what is read inside the old end of a file. */
  lemma BlobExtend(file: seq<byte>, more: seq<byte>, offset: int, size: nat)
    requires 0 <= offset && offset + size <= |file|
    ensures ReadBlob(file + more, offset, size) == ReadBlob(file, offset, size)
  {
    assert (file + more)[offset..offset + size] == file[offset..offset + size];
  }

  /** Reading the appended bytes back from the old end of the file returns them. */
  lemma BlobShift(file: seq<byte>, more: seq<byte>)
    ensures ReadBlob(file + more, |file|, |more|) == more
  {
    assert (file + more)[|file|..|file| + |more|] == more;
  }
}
