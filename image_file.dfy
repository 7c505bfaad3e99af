/**
 * `patch_binary`: the flat binary image opened in `r+b` mode, a seek/write of
 * the packed size, a seek/read of four bytes, and the comparison of the two.
 */
module ImageFile {
  import opened Wrappers
  import opened LittleEndian

  function Zeros(n: nat): (z: seq<byte>)
    ensures |z| == n && forall i :: 0 <= i < n ==> z[i] == 0
  {
    if n == 0 then [] else Zeros(n - 1) + [0]
  }

  /**
   * The file contents after writing `data` at position `pos`: the written
   * range takes `data`, earlier bytes are kept, a gap past the old end is
   * filled with zero bytes, and the file grows when the write runs past its
   * end. Writing nothing changes nothing.
   */
  function Overwrite(before: seq<byte>, pos: nat, data: seq<byte>): (r: seq<byte>)
    ensures data == [] ==> r == before
    ensures data != [] ==> |r| == if pos + |data| > |before| then pos + |data| else |before|
    ensures forall i :: 0 <= i < |r| ==>
      r[i] == if pos <= i < pos + |data| then data[i - pos] else if i < |before| then before[i] else 0
  {
    if data == [] then before
    else
      var padded := if pos > |before| then before + Zeros(pos - |before|) else before;
      padded[..pos] + data + (if pos + |data| < |padded| then padded[pos + |data|..] else [])
  }

  /** What `read(n)` returns at position `pos`: at most `n` bytes, fewer at the end of the file. */
  function ReadAt(content: seq<byte>, pos: nat, n: nat): (r: seq<byte>)
    ensures |r| == if pos >= |content| then 0 else if pos + n <= |content| then n else |content| - pos
    ensures forall i :: 0 <= i < |r| ==> pos + i < |content| && r[i] == content[pos + i]
  {
    if pos >= |content| then []
    else if pos + n <= |content| then content[pos..pos + n]
    else content[pos..]
  }

  /** The image after `patch_binary(offset, size)` has written its four bytes. */
  function Patched(image: seq<byte>, offset: nat, size: nat): (r: seq<byte>)
    requires size < U32Limit
    ensures |r| == if offset + 4 > |image| then offset + 4 else |image|
    ensures r[offset..offset + 4] == Encode32(size)
  {
    Overwrite(image, offset, Encode32(size))
  }

  /** The open file: its contents and the current position. */
  class BinFile {
    var content: seq<byte>
    var pos: nat

    constructor Open(data: seq<byte>)
      ensures content == data && pos == 0
    {
      content := data;
      pos := 0;
    }

    method Seek(offset: nat)
      modifies this`pos
      ensures pos == offset
    {
      pos := offset;
    }

    method Write(data: seq<byte>)
      modifies this
      ensures content == Overwrite(old(content), old(pos), data)
      ensures pos == old(pos) + |data|
    {
      content := Overwrite(content, pos, data);
      pos := pos + |data|;
    }

    method Read(n: nat) returns (r: seq<byte>)
      modifies this`pos
      ensures r == ReadAt(content, old(pos), n)
      ensures pos == old(pos) + |r|
    {
      r := ReadAt(content, pos, n);
      pos := pos + |r|;
    }
  }

  datatype PatchStatus = Verified | PackFailed | VerifyFailed

  /**
   * Write `size` as a 32-bit little-endian value at `offset`, read the four
   * bytes back and compare. A size that does not fit in 32 bits makes the
   * packing fail before anything is written. The read-back always matches,
   * so the verification-failure branch is never taken.
   */
  method PatchBinary(f: BinFile, offset: nat, size: nat) returns (status: PatchStatus)
    modifies f
    ensures size >= U32Limit ==> status == PackFailed && f.content == old(f.content)
    ensures size < U32Limit ==> status == Verified && f.content == Patched(old(f.content), offset, size)
  {
    f.Seek(offset);
    var packed := Pack(size);
    if packed.None? {
      return PackFailed;
    }
    f.Write(packed.value);
    f.Seek(offset);
    var check := f.Read(4);
    ReadBackMatches(old(f.content), offset, size);
    if check == packed.value {
      status := Verified;
    } else {
      status := VerifyFailed;
    }
  }

  /** The four bytes at `offset` of a patched image are the encoding of the size. */
  lemma ReadBackMatches(image: seq<byte>, offset: nat, size: nat)
    requires size < U32Limit
    ensures |Patched(image, offset, size)| >= offset + 4
    ensures ReadAt(Patched(image, offset, size), offset, 4) == Encode32(size)
  {
    var r := ReadAt(Patched(image, offset, size), offset, 4);
    assert |r| == 4;
    assert forall i :: 0 <= i < 4 ==> r[i] == Encode32(size)[i];
  }

  /** The window `[offset, offset + 4)` decodes to the size written. */
  lemma PatchedWindow(image: seq<byte>, offset: nat, size: nat)
    requires size < U32Limit
    ensures |Patched(image, offset, size)| >= offset + 4
    ensures Patched(image, offset, size)[offset..offset + 4] == Encode32(size)
    ensures Decode32(Patched(image, offset, size)[offset..offset + 4]) == size
  {
    ReadBackMatches(image, offset, size);
    DecodeEncode(size);
  }

  /**
   * Every byte of the old image outside the window is unchanged, and the new
   * bytes past the old end (only when the write overruns) are the window itself
   * or zero padding.
   */
  lemma PatchedElsewhere(image: seq<byte>, offset: nat, size: nat)
    requires size < U32Limit
    ensures forall i :: 0 <= i < |image| && !(offset <= i < offset + 4) ==>
      Patched(image, offset, size)[i] == image[i]
    ensures forall i :: |image| <= i < offset ==> Patched(image, offset, size)[i] == 0
  {
  }

  /** The length is kept exactly when the window lies inside the image; otherwise the file grows to end at the window. */
  lemma PatchedLength(image: seq<byte>, offset: nat, size: nat)
    requires size < U32Limit
    ensures offset + 4 <= |image| ==> |Patched(image, offset, size)| == |image|
    ensures offset + 4 > |image| ==> |Patched(image, offset, size)| == offset + 4
  {
  }

  /** Patching the same offset with the same value twice is the same as patching once. */
  lemma PatchIdempotent(image: seq<byte>, offset: nat, size: nat)
    requires size < U32Limit
    ensures Patched(Patched(image, offset, size), offset, size) == Patched(image, offset, size)
  {
    var once := Patched(image, offset, size);
    var twice := Patched(once, offset, size);
    assert |twice| == |once|;
    forall i | 0 <= i < |once|
      ensures twice[i] == once[i]
    {
    }
  }

  /** A later patch at the same offset replaces an earlier one completely. */
  lemma PatchOverrides(image: seq<byte>, offset: nat, first: nat, second: nat)
    requires first < U32Limit && second < U32Limit
    ensures Patched(Patched(image, offset, first), offset, second) == Patched(image, offset, second)
  {
    var a := Patched(Patched(image, offset, first), offset, second);
    var b := Patched(image, offset, second);
    assert |a| == |b|;
    forall i | 0 <= i < |a|
      ensures a[i] == b[i]
    {
    }
  }
}
