# .NET PE analysis: CLI header and metadata root decoding

This project models the core of goblin's `dotnet_pe_analysis` example. The
example finds the CLI header of a managed (.NET) PE image and the metadata root
it points to, and decodes both from the raw file bytes with scroll's `Pread`
machinery:

- **Bytes** (`bytes.dfy`): fixed-width unsigned integers and their encodings in
  either byte order. Little-endian decoding and encoding are proved to be
  inverse to each other, and big-endian is the same with the bytes reversed.
- **Reader** (`reader.dfy`): scroll's bounds-checked reads at a cursor.
  - A fixed-width `gread_with` fails with `BadOffset` when the cursor is at or
    past the end of the slice, and with `TooBig` when too few bytes remain.
  - The NUL-delimited `&str` read yields a borrowed view of the bytes before
    the first NUL. It advances the cursor by the run plus one.
  - `Cursor` is the caller's `&mut usize`. A failed read leaves it unchanged.
- **CliHeaders** (`cli_header.dfy`): the derived `Pread` of `CliHeader`. This is
  the 24-byte prefix of the CLI header from section II.25.3.3 of ECMA-335,
  with its nested `DataDirectory`. It also models `pread_with` at a file
  offset.
- **MetadataRoots** (`metadata_root.dfy`): `MetadataRoot::try_from_ctx`,
  written as a method that advances a `Cursor` in place. It is proved equal to
  a layout description of the leading fields of the metadata root from
  section II.24.2.1 of ECMA-335.
- **DotnetPeAnalysis** (`dotnet_pe_analysis.dfy`): the decode sequence of
  `main`. It is a chain of early exits: the machine type, the optional header,
  the CLR runtime directory, the first RVA mapping, the CLI header decode, the
  second RVA mapping and the metadata root decode.

Three library pieces are not shown in the source, so they are parameters of
the model:
- `PE::parse` is `parse`;
- `goblin::pe::utils::find_offset` is `findOffset`;
- the UTF-8 validity check inside scroll's `&str` read is `validText`.

Behaviour of the code that the model keeps:
- **Version string extent.** The version string is read with scroll's default
  `&str` context. It ends at the first NUL byte or at the end of the slice,
  and `length` is only stored.
- **Consumed size.** Because of that read, the returned size is 16 plus the
  run plus one. When no NUL follows the run, that is one more than the slice
  length (`MetadataRootSize`).
- **Errors.** The errors are scroll's `BadOffset`, `TooBig` and `BadInput`,
  the four `bail!`/`err_msg` cases of `main` (not an I386 image, no optional
  header, no CLI header, cannot map the RVA), and a failure of `PE::parse`.
- **Empty string at the end.** A metadata root whose 16 fixed bytes end
  exactly at the end of the file is rejected with `BadOffset(16)`. It is not
  decoded with an empty version string.

## Model

| member | source | states |
|---|---|---|
| Bytes.DecodeEncode | examples/dotnet_pe_analysis.rs:84 | encoding a value that fits in n bytes and reading it back in the same byte order yields the value |
| Bytes.EncodeDecode | examples/dotnet_pe_analysis.rs:84 | every run of bytes is the encoding of the value read from it, so reads lose no information |
| Bytes.EncodeInjective | examples/dotnet_pe_analysis.rs:84 | two values of the same width with the same encoding are equal |
| Bytes.LittleEndianU32 | examples/dotnet_pe_analysis.rs:84 | a little-endian u32 read is b0 + 2^8 b1 + 2^16 b2 + 2^24 b3 |
| Bytes.LittleEndianU16 | examples/dotnet_pe_analysis.rs:84 | a little-endian u16 read is b0 + 2^8 b1 |
| Reader.ReadU32 | examples/dotnet_pe_analysis.rs:47 | `gread_with` of a u32 succeeds iff 4 bytes remain at the cursor; the value is the one whose encoding is those 4 bytes; the cursor advances by 4; otherwise BadOffset or TooBig as scroll reports them |
| Reader.ReadU16 | examples/dotnet_pe_analysis.rs:48-49 | the same for a u16 and 2 bytes |
| Reader.NulFreeRun | examples/dotnet_pe_analysis.rs:52 | the run length is at most the slice, every byte in the run is non-zero, and the byte after it, if any, is NUL |
| Reader.ReadStr | examples/dotnet_pe_analysis.rs:52 | the `&str` read succeeds iff the cursor is inside the slice and the NUL-free run there is valid text; the view starts at the cursor, covers exactly that run, and the cursor advances past it plus one; it fails with BadOffset past the end and BadInput on invalid text |
| Reader.Cursor.constructor | examples/dotnet_pe_analysis.rs:46 | the cursor starts at 0 |
| Reader.Cursor.GreadU32 | examples/dotnet_pe_analysis.rs:47 | a successful read advances the cursor to where the u32 read ends; a failed read leaves it unchanged |
| Reader.Cursor.GreadU16 | examples/dotnet_pe_analysis.rs:48-49 | the same for a u16 |
| Reader.Cursor.GreadStr | examples/dotnet_pe_analysis.rs:52 | the same for the NUL-delimited string read |
| CliHeaders.DataDirectoryFromCtx | examples/dotnet_pe_analysis.rs:25 | a `DataDirectory` is decoded iff 8 bytes are available; its encoding is exactly those 8 bytes and 8 bytes are consumed |
| CliHeaders.ReadDataDirectory | examples/dotnet_pe_analysis.rs:25 | the nested `gread_with` of `metadata` succeeds iff 8 bytes remain at the cursor, and the directory encodes exactly those bytes |
| CliHeaders.CliHeaderFromCtx | examples/dotnet_pe_analysis.rs:19-28 | the derived decode succeeds iff 24 bytes are available; it consumes exactly 24 and the header's encoding is those 24 bytes |
| CliHeaders.PreadCliHeader | examples/dotnet_pe_analysis.rs:84 | `pread_with` at an offset succeeds iff 24 bytes remain there, and the header encodes exactly the 24 bytes at that offset; a start at or past the end fails with BadOffset |
| CliHeaders.EncodeCliHeader | examples/dotnet_pe_analysis.rs:19-28 | the field-order encoding of a header without padding is 24 bytes long |
| CliHeaders.EncodeCliHeaderWindows | examples/dotnet_pe_analysis.rs:21-28 | in the encoding, each field's bytes lie in its own window: 0-4, 4-6, 6-8, 8-12, 12-16, 16-20, 20-24 |
| CliHeaders.EncodeCliHeaderOffsets | examples/dotnet_pe_analysis.rs:21-28 | in the encoding, cb, major, minor, metadata address, metadata size, flags and entry point token occupy bytes 0, 4, 6, 8, 12, 16 and 20 |
| CliHeaders.CliHeaderFieldOffsets | examples/dotnet_pe_analysis.rs:84 | a header encoding the 24 bytes at offset o has its fields read from o+0, 4, 6, 8, 12, 16 and 20 |
| CliHeaders.EncodeCliHeaderInjective | examples/dotnet_pe_analysis.rs:19-28 | two headers with the same encoding are equal |
| CliHeaders.CliHeaderRoundTrip | examples/dotnet_pe_analysis.rs:19-28 | decoding an encoded header, whatever follows it, yields that header with size 24 |
| CliHeaders.PreadCliHeaderRoundTrip | examples/dotnet_pe_analysis.rs:84 | `pread_with` at the start of an encoded header inside any file yields that header |
| CliHeaders.PreadCliHeaderTruncated | examples/dotnet_pe_analysis.rs:84 | a file ending inside the 24 bytes yields the error of the first field that does not fit, never a partial header; the directory's fields are read relative to the directory |
| CliHeaders.ExampleCliHeaderBytes | examples/dotnet_pe_analysis.rs:19-28 | an example header (cb 0x48, 2.5, metadata 0x2050/0xC, flags 1, token 0x06000001) encodes to its 24 listed bytes |
| CliHeaders.ExampleCliHeader | examples/dotnet_pe_analysis.rs:84 | an example header at offset 0x810: those 24 bytes there decode to exactly those field values |
| MetadataRoots.EncodeFixedPart | examples/dotnet_pe_analysis.rs:32-37 | the fixed part of a metadata root is 16 bytes |
| MetadataRoots.MetadataRootLayout | examples/dotnet_pe_analysis.rs:45-64 | decoding succeeds iff more than 16 bytes are available and the NUL-free run at 16 is valid text; the record's fixed fields encode exactly the first 16 bytes; the view starts at 16 and covers the run up to the first NUL or the end; the size is 17 plus the run |
| MetadataRoots.MetadataRootTryFromCtx | examples/dotnet_pe_analysis.rs:45-64 | the cursor-advancing decode (five fixed reads then the string read, aborting at the first failure, returning the final cursor as the size) gives exactly the layout result, errors included |
| MetadataRoots.PreadMetadataRoot | examples/dotnet_pe_analysis.rs:89 | `pread_with` at an offset succeeds iff more than 16 bytes remain and the run after them is valid text; the fixed fields encode the 16 bytes there; the view starts in the file at offset+16 and its length is the NUL-free run there; a start at or past the end fails with BadOffset, and any other failure is the layout's error for the slice at that offset |
| MetadataRoots.MetadataRootRoundTrip | examples/dotnet_pe_analysis.rs:46-62 | an encoded fixed part followed by a NUL-free valid text and a NUL decodes to that record, with a view of exactly the text and size 17 + text length |
| MetadataRoots.PreadMetadataRootRoundTrip | examples/dotnet_pe_analysis.rs:89 | the same at any file offset, with the view in file coordinates |
| MetadataRoots.EncodeFixedPartInjective | examples/dotnet_pe_analysis.rs:53-61 | two records with the same view and the same fixed-part encoding are equal |
| MetadataRoots.MetadataRootFieldOffsets | examples/dotnet_pe_analysis.rs:46-61 | signature, major, minor, reserved and length are the values read at relative offsets 0, 4, 6, 8 and 12, stored unchanged (reserved included), and the view starts at 16 |
| MetadataRoots.LengthFieldOnlyStored | examples/dotnet_pe_analysis.rs:51-60 | slices differing only in the length field's 4 bytes decode alike (same errors, same view, same size) except for the stored length |
| MetadataRoots.MetadataRootSize | examples/dotnet_pe_analysis.rs:62 | the returned size is at most the slice length plus one, and equals it plus one exactly when no NUL follows offset 16 |
| DotnetPeAnalysis.Analyze | examples/dotnet_pe_analysis.rs:67-93 | each early exit happens exactly when its check is the first to fail, in source order: parse, machine 0x14c, optional header, CLR directory, first mapping, CLI header decode, second mapping, metadata root decode; a truncated CLI header yields exactly that decode's scroll error; on success the CLI header encodes the 24 bytes at the first mapped offset, and the root's fixed part encodes the 16 bytes at the mapping of that header's metadata RVA, using the same sections and file alignment |
| DotnetPeAnalysis.AnalyzeWellFormed | examples/dotnet_pe_analysis.rs:82-89 | when the CLR directory maps to an encoded CLI header, and its metadata RVA maps to an encoded root with a terminated valid version text, the analysis returns exactly those two records |

## Left out

- `PE::parse`, the goblin header types and `get_clr_runtime_header` (lines 70, 74-79) are foreign library code. The model takes the parser as a function `parse` onto the machine type, the optional header (file alignment and CLR runtime directory) and the section table.
- `goblin::pe::utils::find_offset` (lines 17, 83, 88) is not shown in the source. It is the parameter `findOffset`, so no property of the RVA-to-offset arithmetic (section ranges, alignment rounding) is modelled or proved.
- UTF-8 validation inside scroll's `&str` read is the parameter `validText`. Its position in the read is modelled, but its definition is not.
- The borrow and lifetime of `&'a str` are modelled as a `(start, len)` view into the slice. No text is copied.
- File loading through `include_bytes!` (line 68) is replaced by the `file` parameter.
- `println!` (lines 86, 90) is left out. `Analyze` returns the two records that are printed.
- The text of the error messages is left out. Each message is an `AnalysisError` variant.
- The cursor additions are on unbounded integers. The source's `usize` additions cannot overflow for a slice held in memory.
- The remaining 48 bytes of the CLI header are not modelled, because the code does not decode them. The same holds for the metadata root's flags, stream count and stream headers.
