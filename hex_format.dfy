/**
 * The payload formatter of a frame log line: every byte as two upper-case
 * hexadecimal digits, bytes separated by single spaces. ParseHex is the
 * inverse that shows the format loses nothing.
 */
module HexFormat {
  import opened Wrappers

  type byte = b: int | 0 <= b < 256

  predicate IsUpperHexDigit(c: char)
  {
    '0' <= c <= '9' || 'A' <= c <= 'F'
  }

  /** The digit for a value below sixteen, upper case. */
  function HexDigit(n: int): (c: char)
    requires 0 <= n < 16
    ensures IsUpperHexDigit(c)
  {
    if n < 10 then ('0' as int + n) as char else ('A' as int + n - 10) as char
  }

  /** The value of an upper-case hexadecimal digit; None for anything else. */
  function DigitValue(c: char): (r: Option<int>)
    ensures r.Some? <==> IsUpperHexDigit(c)
    ensures r.Some? ==> 0 <= r.value < 16
  {
    if '0' <= c <= '9' then Some(c as int - '0' as int)
    else if 'A' <= c <= 'F' then Some(c as int - 'A' as int + 10)
    else None
  }

  lemma DigitRoundTrip(n: int)
    requires 0 <= n < 16
    ensures DigitValue(HexDigit(n)) == Some(n)
  {
  }

  lemma DigitValueInverse(c: char)
    requires DigitValue(c).Some?
    ensures HexDigit(DigitValue(c).value) == c
  {
  }

  /** One byte as two digits, high nibble first (the source's `02X`). */
  function ByteHex(b: byte): (s: string)
    ensures |s| == 2 && IsUpperHexDigit(s[0]) && IsUpperHexDigit(s[1])
    ensures DigitValue(s[0]).Some? && DigitValue(s[1]).Some?
    ensures DigitValue(s[0]).value * 16 + DigitValue(s[1]).value == b
  {
    DigitRoundTrip(b / 16);
    DigitRoundTrip(b % 16);
    [HexDigit(b / 16), HexDigit(b % 16)]
  }

  /** The bytes' two-digit forms joined by single spaces. */
  function Hex(bs: seq<byte>): (s: string)
    ensures |s| == if bs == [] then 0 else 3 * |bs| - 1
  {
    if |bs| == 0 then ""
    else if |bs| == 1 then ByteHex(bs[0])
    else ByteHex(bs[0]) + " " + Hex(bs[1..])
  }

  /** Byte i sits at characters 3i and 3i+1, followed by a space unless it is the last. */
  lemma {:induction false} HexLayout(bs: seq<byte>, i: int)
    requires 0 <= i < |bs|
    ensures Hex(bs)[3 * i..3 * i + 2] == ByteHex(bs[i])
    ensures i + 1 < |bs| ==> Hex(bs)[3 * i + 2] == ' '
  {
    var s := Hex(bs);
    if |bs| == 1 {
      assert s == ByteHex(bs[0]);
    } else {
      var head := ByteHex(bs[0]) + " ";
      var t := Hex(bs[1..]);
      assert s == head + t;
      if i > 0 {
        HexLayout(bs[1..], i - 1);
        assert bs[1..][i - 1] == bs[i];
        SliceAfterPrefix(head, t, 3 * (i - 1), 3 * (i - 1) + 2);
        if i + 1 < |bs| {
          assert s[3 * i + 2] == t[3 * (i - 1) + 2];
        }
      }
    }
  }

  lemma SliceAfterPrefix<T>(p: seq<T>, t: seq<T>, j: int, k: int)
    requires 0 <= j <= k <= |t|
    ensures (p + t)[|p| + j..|p| + k] == t[j..k]
  {
  }

  /** Every character of the encoding is an upper-case digit or a space. */
  lemma {:induction false} HexAlphabet(bs: seq<byte>, k: int)
    requires 0 <= k < |Hex(bs)|
    ensures IsUpperHexDigit(Hex(bs)[k]) || Hex(bs)[k] == ' '
  {
    var i := k / 3;
    HexLayout(bs, i);
    if k % 3 < 2 {
      assert Hex(bs)[k] == Hex(bs)[3 * i..3 * i + 2][k % 3];
    }
  }

  /** Reads back space-separated pairs of upper-case digits; None on anything else. */
  function ParseHex(s: string): (r: Option<seq<byte>>)
  {
    if s == [] then Some([]) else ParseItems(s)
  }

  /** One or more pairs of digits, separated by single spaces. */
  function ParseItems(s: string): (r: Option<seq<byte>>)
    decreases |s|
  {
    if |s| < 2 || DigitValue(s[0]).None? || DigitValue(s[1]).None? then None
    else
      var b: byte := DigitValue(s[0]).value * 16 + DigitValue(s[1]).value;
      if |s| == 2 then Some([b])
      else if s[2] != ' ' then None
      else match ParseItems(s[3..])
        case Some(rest) => Some([b] + rest)
        case None => None
  }

  /** Parsing the encoding gives back the bytes, in order. */
  lemma {:induction false} ParseHexRoundTrip(bs: seq<byte>)
    ensures ParseHex(Hex(bs)) == Some(bs)
  {
    if |bs| > 0 {
      ParseItemsRoundTrip(bs);
    }
  }

  lemma {:induction false} ParseItemsRoundTrip(bs: seq<byte>)
    requires |bs| > 0
    ensures ParseItems(Hex(bs)) == Some(bs)
  {
    var s := Hex(bs);
    var h := ByteHex(bs[0]);
    assert s[..2] == h;
    assert s[0] == h[0] && s[1] == h[1];
    assert DigitValue(s[0]).value * 16 + DigitValue(s[1]).value == bs[0];
    if |bs| == 1 {
      assert s == h && bs == [bs[0]];
    } else {
      ParseItemsRoundTrip(bs[1..]);
      assert s[2] == ' ';
      assert s[3..] == Hex(bs[1..]);
      assert [bs[0]] + bs[1..] == bs;
    }
  }

  /** The encoding is canonical: whatever parses is exactly the encoding of its result. */
  lemma {:induction false} ParseHexCanonical(s: string, bs: seq<byte>)
    requires ParseHex(s) == Some(bs)
    ensures Hex(bs) == s
  {
    if s != [] {
      ParseItemsCanonical(s, bs);
    }
  }

  lemma {:induction false} ParseItemsCanonical(s: string, bs: seq<byte>)
    requires ParseItems(s) == Some(bs)
    ensures |bs| > 0 && Hex(bs) == s
    decreases |s|
  {
    assert |s| >= 2 && DigitValue(s[0]).Some? && DigitValue(s[1]).Some?;
    var hi := DigitValue(s[0]).value;
    var lo := DigitValue(s[1]).value;
    DigitValueInverse(s[0]);
    DigitValueInverse(s[1]);
    var b: byte := hi * 16 + lo;
    assert bs[0] == b;
    assert ByteHex(b) == s[..2];
    if |s| > 2 {
      var rest := ParseItems(s[3..]).value;
      ParseItemsCanonical(s[3..], rest);
      assert bs == [b] + rest;
      assert bs[1..] == rest;
      assert s == s[..2] + " " + s[3..];
    }
  }
}
