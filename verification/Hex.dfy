/** Hex text as encoding/hex writes and reads it. */
module Hex {
  import opened Options
  import opened Octets

  function Digit(n: int): char
    requires 0 <= n < 16
  {
    "0123456789abcdef"[n]
  }

  // The value of a hex digit of either case.
  function FromDigit(c: char): (n: Option<int>)
    ensures n.Some? ==> 0 <= n.value < 16
  {
    if '0' <= c <= '9' then Some(c as int - '0' as int)
    else if 'a' <= c <= 'f' then Some(c as int - 'a' as int + 10)
    else if 'A' <= c <= 'F' then Some(c as int - 'A' as int + 10)
    else None
  }

  function Encode(bs: Bytes): string {
    if bs == [] then "" else [Digit(bs[0] as int / 16), Digit(bs[0] as int % 16)] + Encode(bs[1..])
  }

  // None for an odd length or a character that is no hex digit.
  function Decode(s: string): Option<Bytes>
    decreases |s|
  {
    if s == "" then Some([])
    else if |s| == 1 then None
    else match (FromDigit(s[0]), FromDigit(s[1]), Decode(s[2..]))
      case (Some(a), Some(b), Some(rest)) => Some([(a * 16 + b) as byte] + rest)
      case _ => None
  }

  lemma DigitRoundTrip(n: int)
    requires 0 <= n < 16
    ensures FromDigit(Digit(n)) == Some(n)
  {
    if n < 10 {
      assert Digit(n) == ('0' as int + n) as char;
    } else {
      assert Digit(n) == ('a' as int + n - 10) as char;
    }
  }

  // A digit in lower case, and all digits of a text.
  function LowerDigit(c: char): char {
    if 'A' <= c <= 'F' then (c as int + 32) as char else c
  }

  function Lowered(s: string): string {
    seq(|s|, i requires 0 <= i < |s| => LowerDigit(s[i]))
  }

  predicate IsHexDigit(c: char) {
    '0' <= c <= '9' || 'a' <= c <= 'f' || 'A' <= c <= 'F'
  }

  predicate IsHexText(s: string) {
    |s| % 2 == 0 && forall i :: 0 <= i < |s| ==> IsHexDigit(s[i])
  }

  lemma DigitBack(c: char)
    ensures FromDigit(c).Some? <==> IsHexDigit(c)
    ensures FromDigit(c).Some? ==> Digit(FromDigit(c).value) == LowerDigit(c)
  {
    if FromDigit(c).Some? {
      DigitRoundTrip(FromDigit(c).value);
    }
  }

  lemma HexTextTwo(s: string)
    requires |s| >= 2
    ensures IsHexText(s) <==> IsHexDigit(s[0]) && IsHexDigit(s[1]) && IsHexText(s[2..])
    ensures Lowered(s) == [LowerDigit(s[0]), LowerDigit(s[1])] + Lowered(s[2..])
  {
    assert forall i :: 2 <= i < |s| ==> s[i] == s[2..][i - 2];
  }

  lemma EncodeFirst(x: byte, hi: int, lo: int, rest: Bytes)
    requires 0 <= hi < 16 && 0 <= lo < 16 && x as int == hi * 16 + lo
    ensures Encode([x] + rest) == [Digit(hi), Digit(lo)] + Encode(rest)
  {
    var bs, v := [x] + rest, x as int;
    assert v / 16 == hi && v % 16 == lo by { Halves(v, hi, lo); }
    assert bs[0] == x && bs[1..] == rest;
    assert Encode(bs) == [Digit(v / 16), Digit(v % 16)] + Encode(bs[1..]);
  }

  lemma Halves(v: int, hi: int, lo: int)
    requires 0 <= hi < 16 && 0 <= lo < 16 && v == hi * 16 + lo
    ensures v / 16 == hi && v % 16 == lo
  {
  }

  /** Exactly the texts of an even number of hex digits, in either case, decode, and their bytes encode
      to the same text in lower case. */
  lemma {:induction false} EncodeDecode(s: string)
    ensures Decode(s).Some? <==> IsHexText(s)
    ensures Decode(s).Some? ==> Encode(Decode(s).value) == Lowered(s)
    decreases |s|
  {
    if |s| >= 2 {
      EncodeDecode(s[2..]);
      HexTextTwo(s);
      DigitBack(s[0]);
      DigitBack(s[1]);
      if IsHexText(s) {
        var a, b, rest := FromDigit(s[0]).value, FromDigit(s[1]).value, Decode(s[2..]).value;
        var x := (a * 16 + b) as byte;
        DecodeStep(s, a, b, x, rest);
        EncodeFirst(x, a, b, rest);
      }
    }
  }

  lemma DecodeStep(s: string, a: int, b: int, x: byte, rest: Bytes)
    requires |s| >= 2 && FromDigit(s[0]) == Some(a) && FromDigit(s[1]) == Some(b) && Decode(s[2..]) == Some(rest)
    requires x as int == a * 16 + b
    ensures Decode(s) == Some([x] + rest)
  {
  }

  lemma DecodeByte(b: byte, text: string, rest: Bytes)
    requires Decode(text) == Some(rest)
    ensures Decode([Digit(b as int / 16), Digit(b as int % 16)] + text) == Some([b] + rest)
  {
    var s := [Digit(b as int / 16), Digit(b as int % 16)] + text;
    DigitRoundTrip(b as int / 16);
    DigitRoundTrip(b as int % 16);
    assert s[2..] == text;
  }

  lemma {:induction false} DecodeEncode(bs: Bytes)
    ensures Decode(Encode(bs)) == Some(bs)
  {
    if bs != [] {
      DecodeEncode(bs[1..]);
      DecodeByte(bs[0], Encode(bs[1..]), bs[1..]);
      assert bs == [bs[0]] + bs[1..];
    }
  }
}
