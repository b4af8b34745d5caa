/**
 * The fixed-layout prefix of the CLI header (section II.25.3.3 of ECMA-335)
 * as the derived `Pread` implementation decodes it: the fields in declaration
 * order, each read at the cursor the previous read left, with no padding.
 * The layout is 24 bytes: cb at 0, major_version at 4, minor_version at 6,
 * metadata.virtual_address at 8, metadata.size at 12, flags at 16 and
 * entry_point_token at 20.
 */
module CliHeaders {
  import opened Wrappers
  import opened Bytes
  import opened Reader

  /** goblin's data-directory entry: an RVA and a size. */
  datatype DataDirectory = DataDirectory(virtualAddress: u32, size: u32)

  datatype CliHeader = CliHeader(
    cb: u32,
    majorVersion: u16,
    minorVersion: u16,
    metadata: DataDirectory,
    flags: u32,
    entryPointToken: u32)

  const CliHeaderSize: nat := 24

  /** The derived `try_from_ctx` of `DataDirectory`: two u32 reads from the start of `src`. */
  function DataDirectoryFromCtx(src: seq<u8>, e: Endian): (r: Result<(DataDirectory, nat), ScrollError>)
    ensures r.Ok? <==> 8 <= |src|
    ensures r.Ok? ==> r.value.1 == 8 && EncodeDataDirectory(r.value.0, e) == src[..8]
  {
    var va :- ReadU32(src, 0, e);
    var size :- ReadU32(src, va.1, e);
    assert src[..8] == src[0..4] + src[4..8];
    Ok((DataDirectory(va.0, size.0), size.1))
  }

  /** `gread_with` of a nested `DataDirectory` at `at`: decode from `src[at..]` and advance. */
  function ReadDataDirectory(src: seq<u8>, at: nat, e: Endian): (r: Result<(DataDirectory, nat), ScrollError>)
    ensures r.Ok? <==> at + 8 <= |src|
    ensures r.Ok? ==> r.value.1 == at + 8 && EncodeDataDirectory(r.value.0, e) == src[at..at + 8]
  {
    if at >= |src| then Err(BadOffset(at))
    else
      var (dir, size) :- DataDirectoryFromCtx(src[at..], e);
      Ok((dir, at + size))
  }

  /** The derived `try_from_ctx` of `CliHeader`: six reads in declaration order from the start of `src`. */
  function CliHeaderFromCtx(src: seq<u8>, e: Endian): (r: Result<(CliHeader, nat), ScrollError>)
    ensures r.Ok? <==> CliHeaderSize <= |src|
    ensures r.Ok? ==> r.value.1 == CliHeaderSize && EncodeCliHeader(r.value.0, e) == src[..CliHeaderSize]
  {
    var cb :- ReadU32(src, 0, e);
    var major :- ReadU16(src, cb.1, e);
    var minor :- ReadU16(src, major.1, e);
    var metadata :- ReadDataDirectory(src, minor.1, e);
    var flags :- ReadU32(src, metadata.1, e);
    var entry :- ReadU32(src, flags.1, e);
    assert src[..24] == src[0..4] + src[4..6] + src[6..8] + src[8..16] + src[16..20] + src[20..24];
    Ok((CliHeader(cb.0, major.0, minor.0, metadata.0, flags.0, entry.0), entry.1))
  }

  /** `file.pread_with(at, e)`: reject a start at or past the end, decode `file[at..]`, drop the size. */
  function PreadCliHeader(file: seq<u8>, at: nat, e: Endian): (r: Result<CliHeader, ScrollError>)
    ensures r.Ok? <==> at + CliHeaderSize <= |file|
    ensures r.Ok? ==> EncodeCliHeader(r.value, e) == file[at..at + CliHeaderSize]
    ensures at >= |file| ==> r == Err(BadOffset(at))
  {
    if at >= |file| then Err(BadOffset(at))
    else
      var (header, _) :- CliHeaderFromCtx(file[at..], e);
      Ok(header)
  }

  function EncodeDataDirectory(d: DataDirectory, e: Endian): (bs: seq<u8>)
    ensures |bs| == 8
  {
    Encode(d.virtualAddress, 4, e) + Encode(d.size, 4, e)
  }

  /** The 24 bytes of a CLI header prefix: every field in declaration order, no padding. */
  function EncodeCliHeader(h: CliHeader, e: Endian): (bs: seq<u8>)
    ensures |bs| == CliHeaderSize
  {
    Encode(h.cb, 4, e) + Encode(h.majorVersion, 2, e) + Encode(h.minorVersion, 2, e)
    + EncodeDataDirectory(h.metadata, e) + Encode(h.flags, 4, e) + Encode(h.entryPointToken, 4, e)
  }

  /** The encoding of each field of a CLI header lies in its own window of the 24 bytes. */
  lemma EncodeCliHeaderWindows(h: CliHeader, e: Endian)
    ensures var bs := EncodeCliHeader(h, e);
            bs[0..4] == Encode(h.cb, 4, e)
            && bs[4..6] == Encode(h.majorVersion, 2, e)
            && bs[6..8] == Encode(h.minorVersion, 2, e)
            && bs[8..12] == Encode(h.metadata.virtualAddress, 4, e)
            && bs[12..16] == Encode(h.metadata.size, 4, e)
            && bs[16..20] == Encode(h.flags, 4, e)
            && bs[20..24] == Encode(h.entryPointToken, 4, e)
  {
    var cb, major, minor := Encode(h.cb, 4, e), Encode(h.majorVersion, 2, e), Encode(h.minorVersion, 2, e);
    var va, size := Encode(h.metadata.virtualAddress, 4, e), Encode(h.metadata.size, 4, e);
    var flags, entry := Encode(h.flags, 4, e), Encode(h.entryPointToken, 4, e);
    var bs := EncodeCliHeader(h, e);
    assert bs == cb + major + minor + (va + size) + flags + entry;
    assert bs == cb + major + minor + va + size + flags + entry;
  }

  /** Each field of a CLI header decodes from its own window of the 24 bytes. */
  lemma EncodeCliHeaderOffsets(h: CliHeader, e: Endian)
    ensures var bs := EncodeCliHeader(h, e);
            Decode(bs[0..4], e) == h.cb
            && Decode(bs[4..6], e) == h.majorVersion
            && Decode(bs[6..8], e) == h.minorVersion
            && Decode(bs[8..12], e) == h.metadata.virtualAddress
            && Decode(bs[12..16], e) == h.metadata.size
            && Decode(bs[16..20], e) == h.flags
            && Decode(bs[20..24], e) == h.entryPointToken
  {
    var bs := EncodeCliHeader(h, e);
    EncodeCliHeaderWindows(h, e);
    assert Decode(bs[0..4], e) == h.cb by { DecodeEncode(h.cb, 4, e); }
    assert Decode(bs[4..6], e) == h.majorVersion by { DecodeEncode(h.majorVersion, 2, e); }
    assert Decode(bs[6..8], e) == h.minorVersion by { DecodeEncode(h.minorVersion, 2, e); }
    assert Decode(bs[8..12], e) == h.metadata.virtualAddress by { DecodeEncode(h.metadata.virtualAddress, 4, e); }
    assert Decode(bs[12..16], e) == h.metadata.size by { DecodeEncode(h.metadata.size, 4, e); }
    assert Decode(bs[16..20], e) == h.flags by { DecodeEncode(h.flags, 4, e); }
    assert Decode(bs[20..24], e) == h.entryPointToken by { DecodeEncode(h.entryPointToken, 4, e); }
  }

  /**
   * A header whose encoding is the 24 bytes at `at` (as `PreadCliHeader`
   * ensures of the header it returns) has cb, major_version, minor_version,
   * metadata.virtual_address, metadata.size, flags and entry_point_token
   * read from the windows starting at at+0, 4, 6, 8, 12, 16 and 20.
   */
  lemma CliHeaderFieldOffsets(file: seq<u8>, at: nat, h: CliHeader, e: Endian)
    requires at + CliHeaderSize <= |file|
    requires EncodeCliHeader(h, e) == file[at..at + CliHeaderSize]
    ensures h.cb == Decode(file[at..at + 4], e)
            && h.majorVersion == Decode(file[at + 4..at + 6], e)
            && h.minorVersion == Decode(file[at + 6..at + 8], e)
            && h.metadata.virtualAddress == Decode(file[at + 8..at + 12], e)
            && h.metadata.size == Decode(file[at + 12..at + 16], e)
            && h.flags == Decode(file[at + 16..at + 20], e)
            && h.entryPointToken == Decode(file[at + 20..at + 24], e)
  {
    EncodeCliHeaderOffsets(h, e);
    assert h.cb == Decode(file[at..at + 4], e) by { Window(file, at, 24, 0, 4); }
    assert h.majorVersion == Decode(file[at + 4..at + 6], e) by { Window(file, at, 24, 4, 6); }
    assert h.minorVersion == Decode(file[at + 6..at + 8], e) by { Window(file, at, 24, 6, 8); }
    assert h.metadata.virtualAddress == Decode(file[at + 8..at + 12], e) by { Window(file, at, 24, 8, 12); }
    assert h.metadata.size == Decode(file[at + 12..at + 16], e) by { Window(file, at, 24, 12, 16); }
    assert h.flags == Decode(file[at + 16..at + 20], e) by { Window(file, at, 24, 16, 20); }
    assert h.entryPointToken == Decode(file[at + 20..at + 24], e) by { Window(file, at, 24, 20, 24); }
  }

  /** A window of a window of `file` is a window of `file`. */
  lemma Window(file: seq<u8>, at: nat, n: nat, i: nat, j: nat)
    requires at + n <= |file| && i <= j <= n
    ensures file[at..at + n][i..j] == file[at + i..at + j]
  {
    var outer := file[at..at + n];
    assert forall k | 0 <= k < j - i :: outer[i..j][k] == outer[i + k] == file[at + i + k];
  }

  /** Two headers with the same 24-byte encoding are the same header. */
  lemma EncodeCliHeaderInjective(h: CliHeader, g: CliHeader, e: Endian)
    requires EncodeCliHeader(h, e) == EncodeCliHeader(g, e)
    ensures h == g
  {
    EncodeCliHeaderOffsets(h, e);
    EncodeCliHeaderOffsets(g, e);
  }

  /** Decoding the encoding of a header, whatever follows it, yields that header and consumes 24 bytes. */
  lemma CliHeaderRoundTrip(h: CliHeader, rest: seq<u8>, e: Endian)
    ensures CliHeaderFromCtx(EncodeCliHeader(h, e) + rest, e) == Ok((h, CliHeaderSize))
  {
    var src := EncodeCliHeader(h, e) + rest;
    var r := CliHeaderFromCtx(src, e);
    assert src[..24] == EncodeCliHeader(h, e);
    EncodeCliHeaderInjective(r.value.0, h, e);
  }

  /** `pread_with` at the start of an encoded header inside any file yields that header. */
  lemma PreadCliHeaderRoundTrip(before: seq<u8>, h: CliHeader, after: seq<u8>, e: Endian)
    ensures PreadCliHeader(before + EncodeCliHeader(h, e) + after, |before|, e) == Ok(h)
  {
    var file := before + EncodeCliHeader(h, e) + after;
    assert file[|before|..|before| + 24] == EncodeCliHeader(h, e);
    EncodeCliHeaderInjective(PreadCliHeader(file, |before|, e).value, h, e);
  }

  /**
   * A file that ends inside the 24 bytes yields an error, never a partial
   * header: the error of the first field that does not fit, where the two
   * fields of `metadata` are read relative to the start of that directory.
   */
  lemma PreadCliHeaderTruncated(file: seq<u8>, at: nat, e: Endian)
    requires at < |file| < at + CliHeaderSize
    ensures var avail := |file| - at;
            PreadCliHeader(file, at, e)
            == Err(if avail < 4 then ReadError(avail, 0, 4)
                   else if avail < 6 then ReadError(avail, 4, 2)
                   else if avail < 8 then ReadError(avail, 6, 2)
                   else if avail == 8 then BadOffset(8)
                   else if avail < 12 then ReadError(avail - 8, 0, 4)
                   else if avail < 16 then ReadError(avail - 8, 4, 4)
                   else if avail < 20 then ReadError(avail, 16, 4)
                   else ReadError(avail, 20, 4))
  {
  }

  /** The encoding of an example CLI header. */
  lemma ExampleCliHeaderBytes()
    ensures EncodeCliHeader(CliHeader(0x48, 2, 5, DataDirectory(0x2050, 0xC), 1, 0x0600_0001), Little)
            == [0x48, 0, 0, 0,  2, 0,  5, 0,  0x50, 0x20, 0, 0,  0x0C, 0, 0, 0,  1, 0, 0, 0,  1, 0, 0, 6]
  {
  }

  /**
   * An example header at offset 0x810: the 24 bytes of a CLI header with cb
   * 0x48, version 2.5, metadata at RVA 0x2050 of size 0xC, flags 1 and entry
   * point token 0x06000001 decode to exactly those values.
   */
  lemma ExampleCliHeader(file: seq<u8>)
    requires 0x810 + CliHeaderSize <= |file|
    requires file[0x810..0x810 + CliHeaderSize]
             == [0x48, 0, 0, 0,  2, 0,  5, 0,  0x50, 0x20, 0, 0,  0x0C, 0, 0, 0,  1, 0, 0, 0,  1, 0, 0, 6]
    ensures PreadCliHeader(file, 0x810, Little)
            == Ok(CliHeader(0x48, 2, 5, DataDirectory(0x2050, 0xC), 1, 0x0600_0001))
  {
    var h := CliHeader(0x48, 2, 5, DataDirectory(0x2050, 0xC), 1, 0x0600_0001);
    ExampleCliHeaderBytes();
    EncodeCliHeaderInjective(PreadCliHeader(file, 0x810, Little).value, h, Little);
  }
}
