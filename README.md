# Self-size patcher for a flat firmware image

A model of `tools/patch_bin.py`. The tool patches a flat binary image with its
own length, so that a bootloader linked into that image can read how long the
image is. It finds the virtual address of a symbol (default `_bin_file_size`)
in the symbol listing of the linked executable. It subtracts the base load
address to get a file offset and range-checks the offset. It then writes the
image's length there as a 32-bit little-endian value, reads the four bytes
back and compares them.

Modules, in dependency order:

- `Wrappers`: the `Option` datatype.
- `LittleEndian`: `struct.pack('<I', v)` as `Pack`/`Encode32`, its inverse
  `Decode32`, and the round trips between them.
- `Hex`: `int(text, 16)` on plain digit strings (`ParseHex`). `FormatHex` is
  its partner: the zero-padded lower-case address a symbol lister prints.
- `SymbolTable`: the pure part of `get_symbol_address`. The listing is a
  sequence of lines. `grep name` keeps the lines that contain the name as a
  substring. `strip()`, the emptiness check and `split()[0]` become
  `FirstToken`. `SymbolAddress` chains these steps and returns `None` on
  every failure.
- `ImageFile`: the image opened in `r+b` mode. The class `BinFile` holds the
  contents and the file position and has `Seek`, `Write` and `Read`.
  `PatchBinary` is the seek/write/seek/read/compare sequence. `Overwrite` and
  `ReadAt` give the file semantics. A write past the end grows the file, and
  a gap before the write is filled with zero bytes.
- `PatchRun`: `main` from line 59 on. `Pipeline` is the specification
  function of a run. It returns an exit status and the image left on disk.
  `Run` is the method that carries out the run on a `BinFile` and is proved
  equal to `Pipeline`.

The range check at `tools/patch_bin.py:74` rejects only `offset < 0` and
`offset >= bin_size`. A four-byte write keeps the image length equal to the
value it stores only when the whole window lies inside the image
(`offset + 4 <= bin_size`). The model follows the code:
`Pipeline` and `Run` accept an offset in the last three bytes, and the write
then extends the image. `LengthMatchesStoredIff` says that after a successful
run the image length equals the stored value exactly when the window fitted.
`OverrunAccepted` exhibits an offset the check lets through, and `OverrunRun`
carries that offset through a whole run. The corrected
check is modelled beside the as-written one (see Findings). `Run` keeps the
as-written check because that is what the tool does.

## Model

| member | source | states |
|---|---|---|
| `LittleEndian.Encode32` | tools/patch_bin.py:31 | the 4 packed bytes, weighted least significant first, sum to the value |
| `LittleEndian.Decode32` | tools/patch_bin.py:31 | the value of 4 little-endian bytes is below 2^32 |
| `LittleEndian.Pack` | tools/patch_bin.py:31 | packing succeeds exactly for values below 2^32, and then gives 4 bytes that decode to the value |
| `LittleEndian.DecodeEncode` | tools/patch_bin.py:31 | decoding the packed bytes gives back the value |
| `LittleEndian.EncodeDecode` | tools/patch_bin.py:31 | encoding the decoded value gives back any 4 bytes, so the encoding is onto |
| `LittleEndian.EncodeInjective` | tools/patch_bin.py:31 | distinct 32-bit values have distinct encodings |
| `Hex.HexValue` | tools/patch_bin.py:19 | a string of n hex digits denotes a number below 16^n |
| `Hex.ParseHex` | tools/patch_bin.py:19 | `int(s, 16)` succeeds exactly on non-empty all-hex-digit strings, with a value below 16 to the power of its length |
| `Hex.DigitValue` | tools/patch_bin.py:19 | a hex digit stands for a value below 16 |
| `Hex.FormatHex` | tools/patch_bin.py:17 | an address printed in a fixed number of hex digits, zero-padded, as the listing shows it |
| `Hex.HexValueOfFormat` | tools/patch_bin.py:17-19 | the value of a zero-padded printed address is that address |
| `Hex.ParseFormatRoundTrip` | tools/patch_bin.py:17-19 | parsing an address printed in w digits gives the address, for every address below 16^w |
| `Hex.LeadingZero` | tools/patch_bin.py:19 | a leading zero digit does not change the value |
| `Hex.ParseSampleAddress` | tools/patch_bin.py:17-19 | the sample token `80000004` parses as 0x80000004 |
| `Hex.ParseBaseAddress` | tools/patch_bin.py:69 | the base `08000000` parses as 0x08000000 |
| `Hex.ParseAddressAtEnd` | tools/patch_bin.py:19 | the token `08000400` parses as 0x08000400 |
| `Hex.ParseAddressAt0x10` | tools/patch_bin.py:19 | the token `08000010` parses as 0x08000010 |
| `Hex.HexValueSnoc` | tools/patch_bin.py:19 | appending a hex digit multiplies the value by 16 and adds the digit |
| `Hex.HexValueOf8` | tools/patch_bin.py:19 | the value of 8 hex digits is the sum of the digit values weighted by powers of 16 |
| `Hex.ParseAddressOverrun` | tools/patch_bin.py:19 | the token `080003fd` parses as 0x080003fd |
| `SymbolTable.ContainsIff` | tools/patch_bin.py:12 | the line filter keeps a line exactly when the name occurs in it at some position |
| `SymbolTable.IsSpace` | tools/patch_bin.py:14-18 | blank, tab, line feed and carriage return are whitespace to `strip()` and `split()`, and no hex digit is |
| `SymbolTable.Contains` | tools/patch_bin.py:12 | a name can be found only in a line at least as long, and a line starting with the name contains it |
| `SymbolTable.ContainsVisible` | tools/patch_bin.py:12 | a line containing a name with a non-whitespace character has one too |
| `SymbolTable.TailSlice` | tools/patch_bin.py:12 | an occurrence at a later position of a line is an occurrence in the line without its first character |
| `SymbolTable.Matching` | tools/patch_bin.py:12 | the filtered lines are exactly the listing lines containing the name; none is kept exactly when no line contains it |
| `SymbolTable.MatchingHead` | tools/patch_bin.py:12 | the first filtered line is the first listing line containing the name |
| `SymbolTable.Join` | tools/patch_bin.py:12 | `grep` output is empty exactly when no line is kept, and otherwise ends with a line feed |
| `SymbolTable.JoinAppend` | tools/patch_bin.py:12 | the output for two runs of kept lines is the concatenation of their outputs |
| `SymbolTable.GrepOutput` | tools/patch_bin.py:12-15 | the output is empty, so the lookup reports "Symbol not found", exactly when no listing line contains the name |
| `SymbolTable.GrepOutputHead` | tools/patch_bin.py:12-18 | the output starts with the first listing line containing the name, followed by a line feed |
| `SymbolTable.FirstNonSpace` | tools/patch_bin.py:14 | the index returned is where `strip()` starts: all before it is whitespace, the character there is not |
| `SymbolTable.Word` | tools/patch_bin.py:18 | the longest whitespace-free prefix of the text |
| `SymbolTable.FirstToken` | tools/patch_bin.py:14-18 | no token exactly when the stripped text is empty; otherwise the maximal non-whitespace run at the first non-whitespace character |
| `SymbolTable.FirstTokenOfPrefix` | tools/patch_bin.py:14-18 | text after a whitespace character cannot change the first token of text that has one |
| `SymbolTable.FirstNonSpaceOfPrefix` | tools/patch_bin.py:14 | text appended to a text with a visible character does not move the start of the stripped text |
| `SymbolTable.WordOfPrefix` | tools/patch_bin.py:18 | the word of a text is unaffected by anything after a whitespace character |
| `SymbolTable.WordOfVisible` | tools/patch_bin.py:18 | a whitespace-free text is its own word |
| `SymbolTable.FirstTokenOfWord` | tools/patch_bin.py:18 | a text starting with a word followed by whitespace has that word as first token |
| `SymbolTable.FirstNonSpaceAfterSpaces` | tools/patch_bin.py:14 | leading whitespace shifts the start of the stripped text by its length |
| `SymbolTable.FirstTokenAfterSpaces` | tools/patch_bin.py:14-18 | leading whitespace does not change the first token |
| `SymbolTable.SymbolAddress` | tools/patch_bin.py:8-22 | the lookup fails for an empty name (grep has no pattern) and when no line contains the name |
| `SymbolTable.FirstMatchDecides` | tools/patch_bin.py:12-19 | the address is the hex value of the first token of the first listing line containing the name |
| `SymbolTable.ListingLineAddress` | tools/patch_bin.py:17-19 | a listing line `<hex digits><whitespace...>` containing the name gives the value of the digits |
| `SymbolTable.ListingLineWord` | tools/patch_bin.py:14-19 | a listing line `<whitespace><word><whitespace...>` containing the name gives the hex value of the word, or fails |
| `SymbolTable.SampleListing` | tools/patch_bin.py:17-19 | the line `80000004 T _bin_file_size` gives address 0x80000004 |
| `SymbolTable.UndefinedSymbolFails` | tools/patch_bin.py:14-22 | an undefined-symbol line, whose first token is `U`, makes the lookup fail |
| `SymbolTable.UndefinedLine` | tools/patch_bin.py:14-22 | the non-hex token `U` after leading blanks fails the parse |
| `ImageFile.Zeros` | tools/patch_bin.py:30-32 | the zero fill for a gap before a write past the end |
| `ImageFile.Overwrite` | tools/patch_bin.py:28-32 | after a write, the window holds the data, earlier bytes are kept, a gap is zero; the length grows only when the write runs past the end |
| `ImageFile.ReadAt` | tools/patch_bin.py:35-36 | a read returns n bytes when they all lie inside the file, the bytes up to the end when it crosses the end, none at or past the end, each equal to the file byte at its position |
| `ImageFile.BinFile.Open` | tools/patch_bin.py:28 | opening keeps the contents and starts at position 0 |
| `ImageFile.BinFile.Seek` | tools/patch_bin.py:30 | seeking sets the position and leaves the contents alone |
| `ImageFile.BinFile.Write` | tools/patch_bin.py:32 | writing overwrites (and possibly extends) the contents at the position and advances it |
| `ImageFile.BinFile.Read` | tools/patch_bin.py:36 | reading returns the bytes at the position and advances past them |
| `ImageFile.PatchBinary` | tools/patch_bin.py:24-46 | a size of 2^32 or more fails in packing with the contents unchanged; otherwise the contents become the patched image and the read-back always verifies |
| `ImageFile.Patched` | tools/patch_bin.py:30-32 | the patched image holds the encoding of the size at the offset and is as long as the image or offset + 4, whichever is larger |
| `ImageFile.ReadBackMatches` | tools/patch_bin.py:34-46 | reading 4 bytes at the offset of a patched image returns the packed size, so the failure branch is unreachable |
| `ImageFile.PatchedWindow` | tools/patch_bin.py:30-32 | the window of a patched image holds the encoding of the size and decodes to it |
| `ImageFile.PatchedElsewhere` | tools/patch_bin.py:28-32 | every original byte outside the window is unchanged; bytes between the old end and the window are zero |
| `ImageFile.PatchedLength` | tools/patch_bin.py:28-32 | the length is unchanged when the window lies inside the image, and becomes offset + 4 otherwise |
| `ImageFile.PatchIdempotent` | tools/patch_bin.py:30-32 | patching the same offset with the same size twice equals patching once |
| `ImageFile.PatchOverrides` | tools/patch_bin.py:30-32 | a second patch at the same offset replaces the first completely |
| `PatchRun.Resolve` | tools/patch_bin.py:68-72 | the offset is found exactly when both the symbol and the base resolve, and is then symbol address minus base; a missing symbol is reported before a bad base |
| `PatchRun.OffsetAccepted` | tools/patch_bin.py:74 | the check lets through exactly the offsets 0 <= offset < bin_size |
| `PatchRun.OffsetFits` | tools/patch_bin.py:74 | the corrected check accepts exactly the offsets whose first and last written bytes are both accepted |
| `PatchRun.Pipeline` | tools/patch_bin.py:59-81 | a run fails with "file not found" exactly when there is no image, reports an out-of-bounds offset only for one the check rejects, and on success never shortens the image |
| `PatchRun.PipelineIntended` | tools/patch_bin.py:59-81 | with the corrected check, a run fails with "file not found" exactly when there is no image, a failure leaves the image alone, and success keeps the length |
| `PatchRun.ExitKinds` | tools/patch_bin.py:60-81 | each failing step gives its own exit with the image unchanged, checked in the tool's order: unresolved symbol, then bad base, then an offset the check rejects (reported with that offset and the image size), then a size too large for 32 bits |
| `PatchRun.Run` | tools/patch_bin.py:59-81 | the exit status and the final image of `main` are those of `Pipeline`, with the file changed only by the final patch |
| `PatchRun.SuccessIff` | tools/patch_bin.py:60-81 | a run succeeds exactly when the image exists, symbol and base resolve, 0 <= offset < size, and the size fits in 32 bits |
| `PatchRun.FailureLeavesImage` | tools/patch_bin.py:60-81 | every failing run leaves the image as it was, and verification failure never happens |
| `PatchRun.SuccessStoresLength` | tools/patch_bin.py:64-81 | a successful run stores the image's original length at the offset and keeps every other original byte |
| `PatchRun.LengthMatchesStoredIff` | tools/patch_bin.py:64-81 | after success the image length equals the stored value exactly when offset + 4 <= original size |
| `PatchRun.OverrunAccepted` | tools/patch_bin.py:74 | offset 1021 in a 1024-byte image passes the check and the patched image is 1025 bytes long |
| `PatchRun.IntendedKeepsLength` | tools/patch_bin.py:74 | with the corrected check a successful run keeps the length, which equals the stored value |
| `PatchRun.PipelinesDifferOnlyOnOverrun` | tools/patch_bin.py:74 | the written and corrected checks change the outcome exactly for offsets in the last three bytes |
| `PatchRun.BinFileSizeLine` | tools/patch_bin.py:12-19 | a listing line `<8 hex digits> B _bin_file_size` gives the value of the digits |
| `PatchRun.RejectOffsetAtEnd` | tools/patch_bin.py:64-76 | size 1024, base 0x08000000, symbol 0x08000400: rejected with offset 1024, image unchanged |
| `PatchRun.PatchAt0x10` | tools/patch_bin.py:64-81 | size 2048, base 0x08000000, symbol 0x08000010: success, length kept, bytes 0x10..0x13 are `00 08 00 00` |
| `PatchRun.WindowAt` | tools/patch_bin.py:30-32 | patching 2048 at 0x10 of a 2048-byte image puts `00 08 00 00` there and keeps the length |
| `PatchRun.ResolveAt0x10` | tools/patch_bin.py:68-72 | the sample listing and base resolve to offset 0x10 |
| `PatchRun.OverrunRun` | tools/patch_bin.py:64-81 | size 1024, base 0x08000000, symbol 0x080003fd: success, the image grows to 1025 bytes and stores 1024 |
| `PatchRun.OverrunWindow` | tools/patch_bin.py:30-32 | patching 1024 at 0x3fd of a 1024-byte image gives 1025 bytes with 1024 stored there |

## Left out

- The `nm` invocation through a shell (tools/patch_bin.py:12-14) is replaced by its output. The listing is an input, already split into lines and decoded as text. A failing `nm`, tool-not-found errors and UTF-8 decoding errors are not modelled.
- Listing lines are taken as already split: a line holding a line feed would be split by `grep` into two, and the model does not do that.
- `grep` is read as a plain substring filter. Regular-expression metacharacters in the symbol name and shell word splitting of the name are not modelled. An empty name fails, as `grep` without a pattern does.
- `int(text, 16)` (tools/patch_bin.py:19, 69) accepts a `0x` prefix, underscores, a sign, surrounding whitespace and non-ASCII digits. The model accepts only plain ASCII hex digits, for the symbol token and for the base address alike.
- Argument parsing (tools/patch_bin.py:50-57) and its defaults (`_bin_file_size`, `nm`) are left out. The symbol name and the base text are inputs.
- `os.path.exists` and `os.path.getsize` (tools/patch_bin.py:60-64) are not modelled as file-system calls. A missing file is a `null` `BinFile` (or `None` in `Pipeline`), and the size is the length of the contents.
- Failures to open, seek, write or read the file are not modelled. The model's file always performs what it is asked. Cache or media faults cannot happen in the model, so the read-back comparison cannot fail there.
- Messages printed and `sys.exit(1)` as a process mechanism are left out. Every exit is an `Exit` value. Python's uncaught exceptions (invalid base, packing failure) also exit with status 1, and the model gives them their own values.
- Concurrent writers to the image are left out. The tool does not support them.
- `src/main.c` is not part of this model: it only reads the stored size and prints.

## Findings

| source | as written | input that shows it | evidently intended | confidence | as-written member | corrected member |
|---|---|---|---|---|---|---|
| tools/patch_bin.py:74 | rejects only `offset < 0 or offset >= bin_size`, so a 4-byte write at an offset in the last three bytes is accepted and extends the image past the length it stores | 1024-byte image with offset 1021 (symbol = base + 0x3FD): accepted, patched image is 1025 bytes long but stores 1024 | reject unless `0 <= offset` and `offset + 4 <= bin_size`, so the image length stays equal to the stored value | not executed | `PatchRun.OverrunAccepted`, `PatchRun.OverrunRun` | `PatchRun.IntendedKeepsLength` |
