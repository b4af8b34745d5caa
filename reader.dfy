/**
 * Bounds-checked reads from a byte slice at a cursor, as the scroll crate
 * performs them for `gread_with` and `gread`.
 *
 * A fixed-width read of `width` bytes at `at` first fails with
 * `BadOffset(at)` when the cursor is at or past the end, then with
 * `TooBig(width, remaining)` when fewer than `width` bytes remain; otherwise
 * it yields the decoded value and advances the cursor by `width`.
 *
 * The string read (`&str` with its default context) scans for the first NUL
 * byte, yields a view of the bytes before it, and advances the cursor past
 * the run plus one byte for the delimiter, whether or not a NUL was found.
 */
module Reader {
  import opened Wrappers
  import opened Bytes

  /** scroll's error kinds that this core can produce. */
  datatype ScrollError =
    | BadOffset(offset: nat)
    | TooBig(size: nat, len: nat)
    | BadInput(size: nat)

  /** A borrowed string: `len` bytes of the slice starting at `start`. */
  datatype StrView = StrView(start: nat, len: nat)

  /** The error a fixed-width read of `width` bytes at `at` reports in a slice of `avail` bytes. */
  function ReadError(avail: nat, at: nat, width: nat): ScrollError
  {
    if at >= avail then BadOffset(at) else TooBig(width, avail - at)
  }

  /** An unsigned read of `width` bytes at `at`: the value and the advanced cursor. */
  function ReadUInt(src: seq<u8>, at: nat, width: nat, e: Endian): (r: Result<(nat, nat), ScrollError>)
    requires width > 0
    ensures r.Ok? <==> at + width <= |src|
    ensures r.Ok? ==> r.value.1 == at + width && r.value.0 < Pow256(width)
                      && Encode(r.value.0, width, e) == src[at..at + width]
    ensures r.Err? ==> r.error == ReadError(|src|, at, width)
  {
    if at >= |src| then Err(BadOffset(at))
    else if width > |src| - at then Err(TooBig(width, |src| - at))
    else
      var bs := src[at..at + width];
      EncodeDecode(bs, e);
      Ok((Decode(bs, e), at + width))
  }

  function ReadU16(src: seq<u8>, at: nat, e: Endian): (r: Result<(u16, nat), ScrollError>)
    ensures r.Ok? <==> at + 2 <= |src|
    ensures r.Ok? ==> r.value.1 == at + 2 && Encode(r.value.0, 2, e) == src[at..at + 2]
    ensures r.Err? ==> r.error == ReadError(|src|, at, 2)
  {
    var (v, next) :- ReadUInt(src, at, 2, e);
    Ok((v, next))
  }

  function ReadU32(src: seq<u8>, at: nat, e: Endian): (r: Result<(u32, nat), ScrollError>)
    ensures r.Ok? <==> at + 4 <= |src|
    ensures r.Ok? ==> r.value.1 == at + 4 && Encode(r.value.0, 4, e) == src[at..at + 4]
    ensures r.Err? ==> r.error == ReadError(|src|, at, 4)
  {
    var (v, next) :- ReadUInt(src, at, 4, e);
    Ok((v, next))
  }

  /** The number of bytes before the first NUL in `s`, or `|s|` when there is none. */
  function NulFreeRun(s: seq<u8>): (n: nat)
    ensures n <= |s|
    ensures forall i | 0 <= i < n :: s[i] != 0
    ensures n < |s| ==> s[n] == 0
  {
    if |s| == 0 || s[0] == 0 then 0 else 1 + NulFreeRun(s[1..])
  }

  /**
   * A NUL-delimited string read at `at`. `validText` stands for the UTF-8
   * validity check applied to the bytes of the run.
   */
  function ReadStr(src: seq<u8>, at: nat, validText: seq<u8> -> bool): (r: Result<(StrView, nat), ScrollError>)
    ensures r.Ok? <==> at < |src| && validText(src[at..at + NulFreeRun(src[at..])])
    ensures r.Ok? ==> var v := r.value.0;
                      v.start == at && at + v.len <= |src| && r.value.1 == at + v.len + 1
                      && (forall i | at <= i < at + v.len :: src[i] != 0)
                      && (at + v.len < |src| ==> src[at + v.len] == 0)
    ensures r.Err? && at < |src| ==> r.error == BadInput(|src| - at)
    ensures r.Err? && at >= |src| ==> r.error == BadOffset(at)
  {
    if at >= |src| then Err(BadOffset(at))
    else
      var n := NulFreeRun(src[at..]);
      if validText(src[at..at + n]) then Ok((StrView(at, n), at + n + 1))
      else Err(BadInput(|src| - at))
  }

  /**
   * The caller's cursor (`&mut usize`): each read advances it by the bytes the
   * read consumed, and a failed read leaves it where it was.
   */
  class Cursor {
    var offset: nat

    constructor ()
      ensures offset == 0
    {
      offset := 0;
    }

    method GreadU16(src: seq<u8>, e: Endian) returns (r: Result<u16, ScrollError>)
      modifies this
      ensures match ReadU16(src, old(offset), e)
              case Ok(p) => r == Ok(p.0) && offset == p.1
              case Err(err) => r == Err(err) && offset == old(offset)
    {
      var read := ReadU16(src, offset, e);
      if read.Ok? {
        offset := read.value.1;
        r := Ok(read.value.0);
      } else {
        r := Err(read.error);
      }
    }

    method GreadU32(src: seq<u8>, e: Endian) returns (r: Result<u32, ScrollError>)
      modifies this
      ensures match ReadU32(src, old(offset), e)
              case Ok(p) => r == Ok(p.0) && offset == p.1
              case Err(err) => r == Err(err) && offset == old(offset)
    {
      var read := ReadU32(src, offset, e);
      if read.Ok? {
        offset := read.value.1;
        r := Ok(read.value.0);
      } else {
        r := Err(read.error);
      }
    }

    method GreadStr(src: seq<u8>, validText: seq<u8> -> bool) returns (r: Result<StrView, ScrollError>)
      modifies this
      ensures match ReadStr(src, old(offset), validText)
              case Ok(p) => r == Ok(p.0) && offset == p.1
              case Err(err) => r == Err(err) && offset == old(offset)
    {
      var read := ReadStr(src, offset, validText);
      if read.Ok? {
        offset := read.value.1;
        r := Ok(read.value.0);
      } else {
        r := Err(read.error);
      }
    }
  }
}
