/**
 * Byte buffers and the hex text form in which the file store keeps key, IV
 * and authentication tag of every fragment (`toString('hex')` when writing,
 * `Buffer.from(s, 'hex')` when reading).
 */
module Bytes {
  import opened Wrappers

  type byte = x: int | 0 <= x < 256

  /** Node's `buf.slice(start, end)`: both ends clamped to the length, empty when end <= start. */
  function Slice(b: seq<byte>, start: nat, end: nat): (r: seq<byte>)
    ensures start <= end <= |b| ==> r == b[start..end]
    ensures end <= start || |b| <= start ==> r == []
  {
    var s := if start < |b| then start else |b|;
    var e := if end < |b| then end else |b|;
    if e <= s then [] else b[s..e]
  }

  /** `Buffer.concat(list)`: the buffers joined in list order. */
  function Concat(parts: seq<seq<byte>>): (r: seq<byte>)
  {
    if parts == [] then [] else Concat(parts[..|parts| - 1]) + parts[|parts| - 1]
  }

  lemma ConcatAppend(parts: seq<seq<byte>>, last: seq<byte>)
    ensures Concat(parts + [last]) == Concat(parts) + last
  {
    assert (parts + [last])[..|parts|] == parts;
  }

  // ---- hex text ----------------------------------------------------------

  /** The lower-case digit `toString('hex')` writes for a value below 16. */
  function HexDigit(d: nat): (c: char)
    requires d < 16
    ensures HexValue(c) == Some(d)
  {
    if d < 10 then ('0' as int + d) as char else ('a' as int + d - 10) as char
  }

  /** Value of one hex digit, either case, as Node accepts it. */
  function HexValue(c: char): (r: Option<nat>)
    ensures r.Some? ==> r.value < 16
  {
    if '0' <= c <= '9' then Some(c as int - '0' as int)
    else if 'a' <= c <= 'f' then Some(c as int - 'a' as int + 10)
    else if 'A' <= c <= 'F' then Some(c as int - 'A' as int + 10)
    else None
  }

  /** `b.toString('hex')`: two lower-case digits per byte. */
  function HexEncode(b: seq<byte>): (r: string)
    ensures |r| == 2 * |b|
  {
    if b == [] then "" else [HexDigit(b[0] / 16), HexDigit(b[0] % 16)] + HexEncode(b[1..])
  }

  /**
   * `Buffer.from(s, 'hex')`: digits are read in pairs from the front and
   * decoding stops at the first pair that is not two hex digits, so an odd
   * trailing digit or any stray character truncates the result.
   */
  function HexDecode(s: string): (r: seq<byte>)
    ensures |r| <= |s| / 2
  {
    if |s| < 2 then []
    else match (HexValue(s[0]), HexValue(s[1]))
      case (Some(hi), Some(lo)) => [hi * 16 + lo] + HexDecode(s[2..])
      case _ => []
  }

  lemma {:induction false} HexRoundTrip(b: seq<byte>)
    ensures HexDecode(HexEncode(b)) == b
  {
    if b != [] {
      var hi, lo := b[0] / 16, b[0] % 16;
      var s := HexEncode(b);
      assert s == [HexDigit(hi), HexDigit(lo)] + HexEncode(b[1..]);
      assert s[0] == HexDigit(hi) && s[1] == HexDigit(lo);
      assert s[2..] == HexEncode(b[1..]);
      assert HexDecode(s) == [hi * 16 + lo] + HexDecode(s[2..]);
      HexRoundTrip(b[1..]);
      assert hi * 16 + lo == b[0];
      assert b == [b[0]] + b[1..];
    }
  }
}
