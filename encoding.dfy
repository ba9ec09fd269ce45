/** Python's `str.encode()` with its default codec, UTF-8: the bytes that the
    ledger feeds to SHA-256. */
module Encoding {

  type byte = b: int | 0 <= b < 256

  predicate IsAscii(s: string) {
    forall i :: 0 <= i < |s| ==> s[i] as int < 0x80
  }

  lemma AsciiConcat(a: string, b: string)
    requires IsAscii(a) && IsAscii(b)
    ensures IsAscii(a + b)
  {
    forall i | 0 <= i < |a + b| ensures (a + b)[i] as int < 0x80 {
      if i < |a| {
        assert (a + b)[i] == a[i];
      } else {
        assert (a + b)[i] == b[i - |a|];
      }
    }
  }

  /** The UTF-8 bytes of one Unicode scalar value (1 to 4 bytes). */
  function CharUtf8(c: char): (bs: seq<byte>)
    ensures 1 <= |bs| <= 4
    ensures (c as int < 0x80) <==> |bs| == 1
    ensures bs[0] < 0x80 <==> |bs| == 1
    ensures forall k :: 1 <= k < |bs| ==> 0x80 <= bs[k] < 0xC0
  {
    var n := c as int;
    if n < 0x80 then [n]
    else if n < 0x800 then [0xC0 + n / 0x40, 0x80 + n % 0x40]
    else if n < 0x10000 then [0xE0 + n / 0x1000, 0x80 + (n / 0x40) % 0x40, 0x80 + n % 0x40]
    else [0xF0 + n / 0x40000, 0x80 + (n / 0x1000) % 0x40, 0x80 + (n / 0x40) % 0x40, 0x80 + n % 0x40]
  }

  /** `s.encode()`: the UTF-8 encoding of `s`, character by character. */
  function Utf8(s: string): seq<byte> {
    if s == [] then [] else CharUtf8(s[0]) + Utf8(s[1..])
  }

  /** The character codes of an ASCII string, one byte each. */
  function AsciiCodes(s: string): (bs: seq<byte>)
    requires IsAscii(s)
    ensures |bs| == |s| && forall i :: 0 <= i < |s| ==> bs[i] == s[i] as int
  {
    seq(|s|, i requires 0 <= i < |s| => s[i] as int)
  }

  /** For ASCII text, UTF-8 is one byte per character: the byte is the code. */
  lemma {:induction false} Utf8OfAscii(s: string)
    requires IsAscii(s)
    ensures Utf8(s) == AsciiCodes(s)
  {
    if s != [] {
      Utf8OfAscii(s[1..]);
      assert AsciiCodes(s) == [s[0] as int] + AsciiCodes(s[1..]);
    }
  }

  /** Different ASCII strings encode to different byte strings. */
  lemma Utf8AsciiInjective(s: string, t: string)
    requires IsAscii(s) && IsAscii(t) && Utf8(s) == Utf8(t)
    ensures s == t
  {
    Utf8OfAscii(s);
    Utf8OfAscii(t);
    assert |s| == |t|;
    forall i | 0 <= i < |s| ensures s[i] == t[i] {
      assert AsciiCodes(s)[i] == AsciiCodes(t)[i];
    }
  }
}
