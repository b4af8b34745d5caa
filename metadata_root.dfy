/**
 * The leading fields of the metadata root (section II.24.2.1 of ECMA-335):
 * signature at 0, major_version at 4, minor_version at 6, reserved at 8 and
 * length at 12, read with the caller's byte order, then a NUL-delimited
 * version string starting at 16. The `length` field is stored but does not
 * bound the string: its extent is decided by the first NUL byte.
 */
module MetadataRoots {
  import opened Wrappers
  import opened Bytes
  import opened Reader

  datatype MetadataRoot = MetadataRoot(
    signature: u32,
    majorVersion: u16,
    minorVersion: u16,
    reserved: u32,
    length: u32,
    version: StrView)

  /** Bytes of the fixed part that precedes the version string. */
  const FixedPartSize: nat := 16

  /** The bytes a view borrows from `src`, or nothing when it does not lie inside `src`. */
  function ViewBytes(src: seq<u8>, v: StrView): seq<u8>
  {
    if v.start + v.len <= |src| then src[v.start..v.start + v.len] else []
  }

  /** The 16 bytes of the fixed part of `root`, in field order. */
  function EncodeFixedPart(root: MetadataRoot, e: Endian): (bs: seq<u8>)
    ensures |bs| == FixedPartSize
  {
    Encode(root.signature, 4, e) + Encode(root.majorVersion, 2, e) + Encode(root.minorVersion, 2, e)
    + Encode(root.reserved, 4, e) + Encode(root.length, 4, e)
  }

  /**
   * What decoding a metadata root from the start of `src` yields, described
   * by its layout: the error of the first fixed field that does not fit, the
   * string read's error, or the record with the consumed size.
   */
  function MetadataRootLayout(src: seq<u8>, e: Endian, validText: seq<u8> -> bool)
    : (r: Result<(MetadataRoot, nat), ScrollError>)
    ensures r.Ok? <==> FixedPartSize < |src| && validText(src[16..16 + NulFreeRun(src[16..])])
    ensures r.Ok? ==> var (root, size) := r.value;
                      EncodeFixedPart(root, e) == src[..FixedPartSize]
                      && root.version.start == FixedPartSize
                      && size == FixedPartSize + root.version.len + 1
                      && FixedPartSize + root.version.len <= |src|
                      && (forall i | 16 <= i < 16 + root.version.len :: src[i] != 0)
                      && (16 + root.version.len < |src| ==> src[16 + root.version.len] == 0)
                      && validText(ViewBytes(src, root.version))
  {
    if |src| < 4 then Err(ReadError(|src|, 0, 4))
    else if |src| < 6 then Err(ReadError(|src|, 4, 2))
    else if |src| < 8 then Err(ReadError(|src|, 6, 2))
    else if |src| < 12 then Err(ReadError(|src|, 8, 4))
    else if |src| < 16 then Err(ReadError(|src|, 12, 4))
    else if |src| == 16 then Err(BadOffset(16))
    else
      var n := NulFreeRun(src[16..]);
      if !validText(src[16..16 + n]) then Err(BadInput(|src| - 16))
      else
        var root := MetadataRoot(
          Decode(src[0..4], e), Decode(src[4..6], e), Decode(src[6..8], e),
          Decode(src[8..12], e), Decode(src[12..16], e), StrView(16, n));
        EncodeDecode(src[0..4], e);
        EncodeDecode(src[4..6], e);
        EncodeDecode(src[6..8], e);
        EncodeDecode(src[8..12], e);
        EncodeDecode(src[12..16], e);
        assert src[..16] == src[0..4] + src[4..6] + src[6..8] + src[8..12] + src[12..16];
        Ok((root, 16 + n + 1))
  }

  /**
   * `MetadataRoot::try_from_ctx`: a cursor starting at 0 is advanced by five
   * fixed-width reads and one string read; the first failing read aborts, and
   * on success the record is returned with the final cursor as its size.
   */
  method MetadataRootTryFromCtx(src: seq<u8>, e: Endian, validText: seq<u8> -> bool)
    returns (r: Result<(MetadataRoot, nat), ScrollError>)
    ensures r == MetadataRootLayout(src, e, validText)
  {
    var offset := new Cursor();
    var signature :- offset.GreadU32(src, e);
    var majorVersion :- offset.GreadU16(src, e);
    var minorVersion :- offset.GreadU16(src, e);
    var reserved :- offset.GreadU32(src, e);
    var length :- offset.GreadU32(src, e);
    var version :- offset.GreadStr(src, validText);
    r := Ok((MetadataRoot(signature, majorVersion, minorVersion, reserved, length, version), offset.offset));
    DecodeEncode(signature, 4, e);
    DecodeEncode(majorVersion, 2, e);
    DecodeEncode(minorVersion, 2, e);
    DecodeEncode(reserved, 4, e);
    DecodeEncode(length, 4, e);
  }

  /**
   * `file.pread_with(at, e)` for a metadata root: reject a start at or past the
   * end, decode `file[at..]`, drop the size. The version view is returned in
   * the coordinates of `file`, where the string it borrows lies.
   */
  function PreadMetadataRoot(file: seq<u8>, at: nat, e: Endian, validText: seq<u8> -> bool)
    : (r: Result<MetadataRoot, ScrollError>)
    ensures r.Ok? <==> at + FixedPartSize < |file|
                       && validText(file[at + 16..at + 16 + NulFreeRun(file[at + 16..])])
    ensures r.Ok? ==> EncodeFixedPart(r.value, e) == file[at..at + FixedPartSize]
                      && r.value.version.start == at + FixedPartSize
                      && r.value.version.start + r.value.version.len <= |file|
                      && validText(ViewBytes(file, r.value.version))
    ensures r.Ok? ==> at + FixedPartSize < |file| && r.value.version.len == NulFreeRun(file[at + 16..])
    ensures at >= |file| ==> r == Err(BadOffset(at))
    ensures (at < |file| && MetadataRootLayout(file[at..], e, validText).Err?)
            ==> r == Err(MetadataRootLayout(file[at..], e, validText).error)
  {
    if at >= |file| then Err(BadOffset(at))
    else
      var src := file[at..];
      assert |src| > 16 ==> src[16..] == file[at + 16..];
      assert |src| > 16 ==> var n := NulFreeRun(src[16..]);
                            src[16..16 + n] == src[16..][..n] == file[at + 16..][..n] == file[at + 16..at + 16 + n];
      var (root, _) :- MetadataRootLayout(src, e, validText);
      assert ViewBytes(src, root.version) == ViewBytes(file, StrView(at + 16, root.version.len));
      Ok(root.(version := StrView(at + 16, root.version.len)))
  }

  /**
   * A fixed part followed by a NUL-free valid version text, its terminator and
   * anything else decodes to that record, with the view covering exactly the
   * text and the size counting the terminator.
   */
  lemma MetadataRootRoundTrip(root: MetadataRoot, text: seq<u8>, rest: seq<u8>, e: Endian,
                              validText: seq<u8> -> bool)
    requires forall i | 0 <= i < |text| :: text[i] != 0
    requires validText(text)
    ensures var src := EncodeFixedPart(root, e) + text + [0] + rest;
            MetadataRootLayout(src, e, validText)
            == Ok((root.(version := StrView(16, |text|)), 17 + |text|))
  {
    var fixed := EncodeFixedPart(root, e);
    var src := fixed + text + [0] + rest;
    var tail := src[16..];
    assert tail == text + [0] + rest;
    assert forall i | 0 <= i < |text| :: tail[i] == text[i];
    assert tail[|text|] == 0;
    assert NulFreeRun(tail) == |text|;
    assert src[16..16 + |text|] == text;
    var r := MetadataRootLayout(src, e, validText);
    var got := r.value.0;
    assert src[..16] == fixed;
    var want := root.(version := StrView(16, |text|));
    assert EncodeFixedPart(got, e) == EncodeFixedPart(want, e);
    EncodeFixedPartInjective(got, want, e);
  }

  /**
   * `pread_with` at an offset where a file holds an encoded fixed part, a
   * NUL-free valid version text and its terminator yields that record, its
   * view covering exactly the text.
   */
  lemma PreadMetadataRootRoundTrip(file: seq<u8>, at: nat, root: MetadataRoot, text: seq<u8>,
                                   e: Endian, validText: seq<u8> -> bool)
    requires forall i | 0 <= i < |text| :: text[i] != 0
    requires validText(text)
    requires at + FixedPartSize + |text| < |file|
    requires file[at..at + FixedPartSize] == EncodeFixedPart(root, e)
    requires file[at + FixedPartSize..at + FixedPartSize + |text| + 1] == text + [0]
    ensures PreadMetadataRoot(file, at, e, validText)
            == Ok(root.(version := StrView(at + FixedPartSize, |text|)))
  {
    var src := file[at..];
    var rest := src[16 + |text| + 1..];
    assert src[..16] == EncodeFixedPart(root, e);
    assert src[16..16 + |text| + 1] == text + [0];
    assert src == src[..16] + src[16..16 + |text| + 1] + rest;
    assert src == EncodeFixedPart(root, e) + text + [0] + rest;
    MetadataRootRoundTrip(root, text, rest, e, validText);
    assert MetadataRootLayout(src, e, validText) == Ok((root.(version := StrView(16, |text|)), 17 + |text|));
  }

  /** Two records whose fixed parts encode alike agree on every fixed field. */
  lemma EncodeFixedPartInjective(a: MetadataRoot, b: MetadataRoot, e: Endian)
    requires EncodeFixedPart(a, e) == EncodeFixedPart(b, e)
    requires a.version == b.version
    ensures a == b
  {
    var bs := EncodeFixedPart(a, e);
    assert bs[0..4] == Encode(a.signature, 4, e) == Encode(b.signature, 4, e);
    assert bs[4..6] == Encode(a.majorVersion, 2, e) == Encode(b.majorVersion, 2, e);
    assert bs[6..8] == Encode(a.minorVersion, 2, e) == Encode(b.minorVersion, 2, e);
    assert bs[8..12] == Encode(a.reserved, 4, e) == Encode(b.reserved, 4, e);
    assert bs[12..16] == Encode(a.length, 4, e) == Encode(b.length, 4, e);
    EncodeInjective(a.signature, b.signature, 4, e);
    EncodeInjective(a.majorVersion, b.majorVersion, 2, e);
    EncodeInjective(a.minorVersion, b.minorVersion, 2, e);
    EncodeInjective(a.reserved, b.reserved, 4, e);
    EncodeInjective(a.length, b.length, 4, e);
  }

  /**
   * A decoded record holds, unchanged, the values read at relative offsets
   * 0, 4, 6, 8 and 12 (the reserved word included), and its version view
   * starts at 16.
   */
  lemma MetadataRootFieldOffsets(src: seq<u8>, e: Endian, validText: seq<u8> -> bool)
    requires MetadataRootLayout(src, e, validText).Ok?
    ensures var root := MetadataRootLayout(src, e, validText).value.0;
            root.signature == Decode(src[0..4], e)
            && root.majorVersion == Decode(src[4..6], e)
            && root.minorVersion == Decode(src[6..8], e)
            && root.reserved == Decode(src[8..12], e)
            && root.length == Decode(src[12..16], e)
            && root.version.start == 16
  {
  }

  /**
   * The `length` field is only stored: two slices that differ only in its four
   * bytes decode alike, except for the stored `length` itself.
   */
  lemma LengthFieldOnlyStored(src: seq<u8>, other: seq<u8>, e: Endian, validText: seq<u8> -> bool)
    requires |src| == |other|
    requires forall i | 0 <= i < |src| && !(12 <= i < 16) :: src[i] == other[i]
    ensures var r, q := MetadataRootLayout(src, e, validText), MetadataRootLayout(other, e, validText);
            (r.Err? <==> q.Err?)
            && (r.Err? ==> r.error == q.error)
            && (r.Ok? ==> q.value == (r.value.0.(length := q.value.0.length), r.value.1))
  {
    if |src| > 16 {
      assert src[16..] == other[16..];
      var n := NulFreeRun(src[16..]);
      assert src[16..16 + n] == other[16..16 + n];
      assert src[0..4] == other[0..4];
      assert src[4..6] == other[4..6];
      assert src[6..8] == other[6..8];
      assert src[8..12] == other[8..12];
    }
  }

  /**
   * The size reported with a record is the final cursor: at most one past the
   * end of the slice, and exactly one past it when the version string runs to
   * the end without a terminator.
   */
  lemma MetadataRootSize(src: seq<u8>, e: Endian, validText: seq<u8> -> bool)
    requires MetadataRootLayout(src, e, validText).Ok?
    ensures var size := MetadataRootLayout(src, e, validText).value.1;
            size <= |src| + 1
            && (size == |src| + 1 <==> forall i | 16 <= i < |src| :: src[i] != 0)
  {
  }
}
