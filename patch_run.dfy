/**
 * The orchestration in `main`: measure the image, resolve the symbol, parse
 * the base address, compute and range-check the offset, and only then patch
 * the image with its own length. Every failure is an exit status reached
 * before any byte of the image is written.
 */
module PatchRun {
  import opened Wrappers
  import opened LittleEndian
  import opened Hex
  import opened SymbolTable
  import opened ImageFile

  datatype Exit =
    | Success
    | MissingBinFile
    | SymbolNotFound
    | BadBaseAddress
    | OffsetOutOfBounds(offset: int, binSize: nat)
    | SizeTooLarge
    | VerificationFailed

  /** The exit status of a run and the image left on disk (`None` when there is no image file). */
  datatype Outcome = Outcome(exit: Exit, image: Option<seq<byte>>)

  /** Symbol lookup then base parse, each with its own failure. */
  datatype Resolution = Resolved(offset: int) | Unresolved(failure: Exit)

  function Resolve(listing: seq<string>, symbol: string, baseHex: string): (r: Resolution)
    ensures r.Resolved? <==> SymbolAddress(listing, symbol).Some? && ParseHex(baseHex).Some?
    ensures r.Resolved? ==> r.offset == SymbolAddress(listing, symbol).value - ParseHex(baseHex).value
    ensures SymbolAddress(listing, symbol).None? ==> r == Unresolved(SymbolNotFound)
    ensures SymbolAddress(listing, symbol).Some? && ParseHex(baseHex).None? ==> r == Unresolved(BadBaseAddress)
  {
    match SymbolAddress(listing, symbol)
    case None => Unresolved(SymbolNotFound)
    case Some(symAddr) =>
      match ParseHex(baseHex)
      case None => Unresolved(BadBaseAddress)
      case Some(base) => Resolved(symAddr as int - base as int)
  }

  /** The range check as the tool writes it: only the first byte of the window must lie inside the image. */
  predicate OffsetAccepted(offset: int, binSize: nat)
    ensures OffsetAccepted(offset, binSize) <==> 0 <= offset < binSize
  {
    !(offset < 0 || offset >= binSize)
  }

  /** The whole run: `image` is the file contents (`None` if the file does not exist). */
  function Pipeline(image: Option<seq<byte>>, listing: seq<string>, symbol: string, baseHex: string): (o: Outcome)
    ensures o.exit == MissingBinFile <==> image.None?
    ensures o.exit.OffsetOutOfBounds? ==> !OffsetAccepted(o.exit.offset, o.exit.binSize)
    ensures o.exit == Success ==> image.Some? && o.image.Some? && |o.image.value| >= |image.value|
  {
    match image
    case None => Outcome(MissingBinFile, None)
    case Some(data) =>
      match Resolve(listing, symbol, baseHex)
      case Unresolved(failure) => Outcome(failure, image)
      case Resolved(offset) =>
        if !OffsetAccepted(offset, |data|) then Outcome(OffsetOutOfBounds(offset, |data|), image)
        else if |data| >= U32Limit then Outcome(SizeTooLarge, image)
        else Outcome(Success, Some(Patched(data, offset, |data|)))
  }

  /**
   * The range check that keeps the whole 4-byte window inside the image: the
   * accepted offsets whose last written byte is inside too.
   */
  predicate OffsetFits(offset: int, binSize: nat)
    ensures OffsetFits(offset, binSize) <==> OffsetAccepted(offset, binSize) && OffsetAccepted(offset + 3, binSize)
  {
    0 <= offset && offset + 4 <= binSize
  }

  /** The run with the range check corrected to `OffsetFits`. */
  function PipelineIntended(image: Option<seq<byte>>, listing: seq<string>, symbol: string, baseHex: string): (o: Outcome)
    ensures o.exit == MissingBinFile <==> image.None?
    ensures o.exit != Success ==> o.image == image
    ensures o.exit == Success ==> image.Some? && o.image.Some? && |o.image.value| == |image.value|
  {
    match image
    case None => Outcome(MissingBinFile, None)
    case Some(data) =>
      match Resolve(listing, symbol, baseHex)
      case Unresolved(failure) => Outcome(failure, image)
      case Resolved(offset) =>
        if !OffsetFits(offset, |data|) then Outcome(OffsetOutOfBounds(offset, |data|), image)
        else if |data| >= U32Limit then Outcome(SizeTooLarge, image)
        else Outcome(Success, Some(Patched(data, offset, |data|)))
  }

  /**
   * `main` over an open image file (`null` when the file does not exist).
   * The file is changed only by the final call to `PatchBinary`.
   */
  method Run(bin: BinFile?, listing: seq<string>, symbol: string, baseHex: string) returns (exit: Exit)
    modifies bin
    ensures bin == null ==> exit == Pipeline(None, listing, symbol, baseHex).exit
    ensures bin != null ==>
      var o := Pipeline(Some(old(bin.content)), listing, symbol, baseHex);
      exit == o.exit && o.image == Some(bin.content)
  {
    if bin == null {
      return MissingBinFile;
    }
    var binSize := |bin.content|;
    var symAddr := SymbolAddress(listing, symbol);
    if symAddr.None? {
      return SymbolNotFound;
    }
    var base := ParseHex(baseHex);
    if base.None? {
      return BadBaseAddress;
    }
    var offset: int := symAddr.value as int - base.value as int;
    if offset < 0 || offset >= binSize {
      return OffsetOutOfBounds(offset, binSize);
    }
    var status := PatchBinary(bin, offset, binSize);
    match status
    case Verified => exit := Success;
    case PackFailed => exit := SizeTooLarge;
    case VerifyFailed => exit := VerificationFailed;
  }

  /**
   * A run succeeds exactly when the image exists, the symbol and the base
   * resolve, the offset passes the range check and the size fits in 32 bits.
   */
  lemma SuccessIff(image: Option<seq<byte>>, listing: seq<string>, symbol: string, baseHex: string)
    ensures Pipeline(image, listing, symbol, baseHex).exit == Success <==>
      image.Some? && |image.value| < U32Limit
      && Resolve(listing, symbol, baseHex).Resolved?
      && 0 <= Resolve(listing, symbol, baseHex).offset < |image.value|
  {
  }

  /** Every failing run leaves the image as it was, and the verification failure never happens. */
  lemma FailureLeavesImage(image: Option<seq<byte>>, listing: seq<string>, symbol: string, baseHex: string)
    ensures Pipeline(image, listing, symbol, baseHex).exit != VerificationFailed
    ensures Pipeline(image, listing, symbol, baseHex).exit != Success ==>
      Pipeline(image, listing, symbol, baseHex).image == image
  {
  }

  /**
   * A successful run writes the image's original length at the offset, and
   * leaves every other original byte alone.
   */
  lemma SuccessStoresLength(data: seq<byte>, listing: seq<string>, symbol: string, baseHex: string)
    requires Pipeline(Some(data), listing, symbol, baseHex).exit == Success
    ensures Resolve(listing, symbol, baseHex).Resolved?
    ensures
      var offset := Resolve(listing, symbol, baseHex).offset;
      var patched := Pipeline(Some(data), listing, symbol, baseHex).image;
      0 <= offset < |data| && patched.Some? && |patched.value| >= offset + 4
      && Decode32(patched.value[offset..offset + 4]) == |data|
      && forall i :: 0 <= i < |data| && !(offset <= i < offset + 4) ==> patched.value[i] == data[i]
  {
    var offset := Resolve(listing, symbol, baseHex).offset;
    PatchedWindow(data, offset, |data|);
    PatchedElsewhere(data, offset, |data|);
  }

  /**
   * After a successful run the image's length equals the value stored in it
   * exactly when the window lay inside the original image. The range check
   * admits offsets in `[size - 3, size)`, for which the write extends the file
   * and the stored value is then smaller than the new length.
   */
  lemma LengthMatchesStoredIff(data: seq<byte>, listing: seq<string>, symbol: string, baseHex: string)
    requires Pipeline(Some(data), listing, symbol, baseHex).exit == Success
    ensures
      var offset := Resolve(listing, symbol, baseHex).offset;
      var patched := Pipeline(Some(data), listing, symbol, baseHex).image.value;
      |patched| >= offset + 4
      && (|patched| == Decode32(patched[offset..offset + 4]) <==> offset + 4 <= |data|)
  {
    SuccessStoresLength(data, listing, symbol, baseHex);
    var offset := Resolve(listing, symbol, baseHex).offset;
    PatchedLength(data, offset, |data|);
  }

  /** The range check lets through an offset whose write runs three bytes past the end. */
  lemma OverrunAccepted()
    ensures OffsetAccepted(1021, 1024) && !OffsetFits(1021, 1024)
    ensures |Patched(Zeros(1024), 1021, 1024)| == 1025
  {
    PatchedLength(Zeros(1024), 1021, 1024);
  }

  /**
   * With the corrected check a successful run keeps the image length, and the
   * value stored in the window is that length.
   */
  lemma IntendedKeepsLength(data: seq<byte>, listing: seq<string>, symbol: string, baseHex: string)
    requires PipelineIntended(Some(data), listing, symbol, baseHex).exit == Success
    ensures
      var offset := Resolve(listing, symbol, baseHex).offset;
      var patched := PipelineIntended(Some(data), listing, symbol, baseHex).image.value;
      0 <= offset && offset + 4 <= |patched| == |data|
      && Decode32(patched[offset..offset + 4]) == |patched|
  {
    var offset := Resolve(listing, symbol, baseHex).offset;
    PatchedLength(data, offset, |data|);
    PatchedWindow(data, offset, |data|);
  }

  /**
   * The written check and the corrected one disagree exactly on images whose
   * resolved offset lies in the last three bytes.
   */
  lemma PipelinesDifferOnlyOnOverrun(image: Option<seq<byte>>, listing: seq<string>, symbol: string, baseHex: string)
    ensures Pipeline(image, listing, symbol, baseHex) != PipelineIntended(image, listing, symbol, baseHex) <==>
      image.Some? && Resolve(listing, symbol, baseHex).Resolved?
      && OffsetAccepted(Resolve(listing, symbol, baseHex).offset, |image.value|)
      && !OffsetFits(Resolve(listing, symbol, baseHex).offset, |image.value|)
  {
  }

  /** The listing line `<digits> B _bin_file_size` resolves `_bin_file_size` to the value of the digits. */
  lemma BinFileSizeLine(digits: string, line: string)
    requires |digits| == 8 && AllHexDigits(digits) && line == digits + " B _bin_file_size"
    ensures SymbolAddress([line], "_bin_file_size") == ParseHex(digits)
  {
    var name := "_bin_file_size";
    assert line[11..] == name;
    assert OccursAt(line, name, 11);
    ContainsIff(line, name);
    assert !IsSpace(name[0]);
    ListingLineAddress(digits, " B _bin_file_size", name);
  }

  /**
   * Image of 1024 bytes, base 0x08000000, symbol at 0x08000400: the offset
   * 0x400 equals the image length, so the run is rejected and the image kept.
   */
  lemma RejectOffsetAtEnd(data: seq<byte>)
    requires |data| == 1024
    ensures Pipeline(Some(data), ["08000400 B _bin_file_size"], "_bin_file_size", "08000000")
      == Outcome(OffsetOutOfBounds(1024, 1024), Some(data))
  {
    ParseAddressAtEnd();
    ParseBaseAddress();
    BinFileSizeLine("08000400", "08000400 B _bin_file_size");
  }

  /**
   * Image of 2048 bytes, base 0x08000000, symbol at 0x08000010: the run
   * succeeds and bytes 0x10..0x13 become `00 08 00 00`, the length 2048.
   */
  lemma PatchAt0x10(data: seq<byte>)
    requires |data| == 2048
    ensures
      var o := Pipeline(Some(data), ["08000010 B _bin_file_size"], "_bin_file_size", "08000000");
      o.exit == Success && o.image.Some? && |o.image.value| == 2048
      && o.image.value[0x10..0x14] == [0x00, 0x08, 0x00, 0x00]
  {
    ResolveAt0x10();
    WindowAt(data, 0x10, |data|);
  }

  lemma WindowAt(data: seq<byte>, offset: nat, size: nat)
    requires |data| == 2048 && size == |data| && offset == 0x10
    ensures |Patched(data, offset, size)| == 2048
    ensures Patched(data, offset, size)[offset..offset + 4] == [0x00, 0x08, 0x00, 0x00]
  {
    PatchedWindow(data, offset, size);
    PatchedLength(data, offset, size);
    assert Encode32(size) == [0x00, 0x08, 0x00, 0x00];
  }

  lemma ResolveAt0x10()
    ensures Resolve(["08000010 B _bin_file_size"], "_bin_file_size", "08000000") == Resolved(0x10)
  {
    ParseAddressAt0x10();
    ParseBaseAddress();
    BinFileSizeLine("08000010", "08000010 B _bin_file_size");
  }

  /**
   * Each failure of a run is reached for exactly the reason the tool checks,
   * in the tool's order: missing file, unresolved symbol, unparsable base,
   * offset out of range, size too large for 32 bits.
   */
  lemma ExitKinds(image: Option<seq<byte>>, listing: seq<string>, symbol: string, baseHex: string)
    ensures image.Some? && SymbolAddress(listing, symbol).None? ==>
      Pipeline(image, listing, symbol, baseHex) == Outcome(SymbolNotFound, image)
    ensures image.Some? && SymbolAddress(listing, symbol).Some? && ParseHex(baseHex).None? ==>
      Pipeline(image, listing, symbol, baseHex) == Outcome(BadBaseAddress, image)
    ensures (image.Some? && Resolve(listing, symbol, baseHex).Resolved?
      && !OffsetAccepted(Resolve(listing, symbol, baseHex).offset, |image.value|)) ==>
      Pipeline(image, listing, symbol, baseHex)
        == Outcome(OffsetOutOfBounds(Resolve(listing, symbol, baseHex).offset, |image.value|), image)
    ensures (image.Some? && Resolve(listing, symbol, baseHex).Resolved?
      && OffsetAccepted(Resolve(listing, symbol, baseHex).offset, |image.value|) && |image.value| >= U32Limit) ==>
      Pipeline(image, listing, symbol, baseHex) == Outcome(SizeTooLarge, image)
  {
  }

  /**
   * The overrun end to end: a 1024-byte image, base 0x08000000 and the symbol
   * at 0x080003fd. The run succeeds, the image grows to 1025 bytes, and the
   * value stored in it is 1024.
   */
  lemma OverrunRun(data: seq<byte>)
    requires |data| == 1024
    ensures
      var o := Pipeline(Some(data), ["080003fd B _bin_file_size"], "_bin_file_size", "08000000");
      o.exit == Success && o.image.Some? && |o.image.value| == 1025
      && Decode32(o.image.value[0x3fd..0x401]) == 1024
  {
    ParseAddressOverrun();
    ParseBaseAddress();
    BinFileSizeLine("080003fd", "080003fd B _bin_file_size");
    OverrunWindow(data, 0x3fd, |data|);
  }

  lemma OverrunWindow(data: seq<byte>, offset: nat, size: nat)
    requires |data| == 1024 && size == |data| && offset == 0x3fd
    ensures |Patched(data, offset, size)| == 1025
    ensures Decode32(Patched(data, offset, size)[offset..offset + 4]) == 1024
  {
    PatchedWindow(data, offset, size);
  }
}
