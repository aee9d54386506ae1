/** String literals in the generated assembly code. */
module Literals {

  type Byte = b: nat | b < 256

  const QUOTE: Byte := 34
  const BACKSLASH: Byte := 92
  const ZERO: Byte := 48

  /** The value of a `char`, whose sign depends on the host. */
  function CharValue(b: Byte, signed: bool): (r: int) {
    if signed && b >= 128 then b as int - 256 else b as int
  }

  /** One octal digit: `'0' + ((c >> shift) & mask)`, with `scale` 2^shift. */
  function Digit(c: int, scale: nat, mask: nat): (d: Byte)
    requires scale > 0 && mask < 8
  {
    ZERO + (c / scale) % (mask + 1)
  }

  function Escape(b: Byte, signed: bool): (r: seq<Byte>) {
    var c := CharValue(b, signed);
    if b == QUOTE || b == BACKSLASH then [BACKSLASH, b]
    else if 32 <= c < 127 then [b]
    else [BACKSLASH, Digit(c, 64, 3), Digit(c, 8, 7), Digit(c, 1, 7)]
  }

  function EscapeAll(s: seq<Byte>, signed: bool): (r: seq<Byte>) {
    if s == [] then [] else EscapeAll(s[..|s|-1], signed) + Escape(s[|s|-1], signed)
  }

  datatype Decoded = Bad | Literal(bytes: seq<Byte>, rest: seq<Byte>)

  predicate IsOctal(b: Byte) {
    ZERO <= b < ZERO + 8
  }

  /** Only printable characters are printed, and a byte stands for itself unless
      it is a quote, a backslash or not printable. */
  lemma Printable(b: Byte, signed: bool)
    ensures forall x :: x in Escape(b, signed) ==> 32 <= x <= 126
    ensures Escape(b, signed) == [b] <==> 32 <= b <= 126 && b != QUOTE && b != BACKSLASH
    ensures |Escape(b, signed)| == 2 <==> b == QUOTE || b == BACKSLASH
  {
  }

  lemma {:induction false} AllPrintable(s: seq<Byte>, signed: bool)
    ensures forall x :: x in EscapeAll(s, signed) ==> 32 <= x <= 126
  {
    if s != [] {
      AllPrintable(s[..|s|-1], signed);
      Printable(s[|s|-1], signed);
    }
  }

  /** Reads a literal body up to its closing quote: a backslash before a quote
      or a backslash, or before three octal digits. */
  function Decode(t: seq<Byte>): (r: Decoded) {
    if t == [] then Bad
    else if t[0] == QUOTE then Literal([], t[1..])
    else if t[0] != BACKSLASH then
      match Decode(t[1..])
      case Bad => Bad
      case Literal(bs, rest) => Literal([t[0]] + bs, rest)
    else if |t| >= 2 && (t[1] == QUOTE || t[1] == BACKSLASH) then
      match Decode(t[2..])
      case Bad => Bad
      case Literal(bs, rest) => Literal([t[1]] + bs, rest)
    else if |t| >= 4 && IsOctal(t[1]) && IsOctal(t[2]) && IsOctal(t[3]) then
      var v := (t[1] - ZERO) * 64 + (t[2] - ZERO) * 8 + (t[3] - ZERO);
      if v >= 256 then Bad
      else
        match Decode(t[4..])
        case Bad => Bad
        case Literal(bs, rest) => Literal([v] + bs, rest)
    else Bad
  }

  /** The three digits give the byte back whether `char` is signed or not. */
  lemma DigitsDecode(b: Byte, signed: bool)
    ensures var c := CharValue(b, signed);
            && IsOctal(Digit(c, 64, 3)) && IsOctal(Digit(c, 8, 7)) && IsOctal(Digit(c, 1, 7))
            && (Digit(c, 64, 3) - ZERO) * 64 + (Digit(c, 8, 7) - ZERO) * 8 + (Digit(c, 1, 7) - ZERO) == b
  {
    if signed && b >= 128 {
      var c := b as int - 256;
      assert c / 64 == b / 64 - 4 && c / 8 == b / 8 - 32 && c / 1 == c;
    }
  }

  lemma DecodeEscape(b: Byte, signed: bool, t: seq<Byte>)
    requires Decode(t).Literal?
    ensures Decode(Escape(b, signed) + t) == Literal([b] + Decode(t).bytes, Decode(t).rest)
  {
    var e := Escape(b, signed);
    assert (e + t)[|e|..] == t;
    if |e| == 4 {
      hide Escape;
      OctalEscape(b, signed);
      DecodeOctal(e + t, b);
    }
  }

  lemma OctalEscape(b: Byte, signed: bool)
    requires |Escape(b, signed)| == 4
    ensures var e := Escape(b, signed);
            && e[0] == BACKSLASH && IsOctal(e[1]) && IsOctal(e[2]) && IsOctal(e[3])
            && (e[1] - ZERO) * 64 + (e[2] - ZERO) * 8 + (e[3] - ZERO) == b
  {
    DigitsDecode(b, signed);
  }

  lemma DecodeOctal(t: seq<Byte>, b: Byte)
    requires |t| >= 4 && t[0] == BACKSLASH && IsOctal(t[1]) && IsOctal(t[2]) && IsOctal(t[3])
    requires (t[1] - ZERO) * 64 + (t[2] - ZERO) * 8 + (t[3] - ZERO) == b
    requires Decode(t[4..]).Literal?
    ensures Decode(t) == Literal([b] + Decode(t[4..]).bytes, Decode(t[4..]).rest)
  {
  }

  lemma {:induction false} DecodePrefix(s: seq<Byte>, signed: bool, t: seq<Byte>)
    requires Decode(t).Literal?
    ensures Decode(EscapeAll(s, signed) + t) == Literal(s + Decode(t).bytes, Decode(t).rest)
    decreases |s|
  {
    hide Decode, Escape;
    if s == [] {
      assert [] + t == t && [] + Decode(t).bytes == Decode(t).bytes;
    } else {
      var before, last := s[..|s|-1], s[|s|-1];
      DecodeEscape(last, signed, t);
      DecodePrefix(before, signed, Escape(last, signed) + t);
      assert EscapeAll(s, signed) + t == EscapeAll(before, signed) + (Escape(last, signed) + t);
      assert before + ([last] + Decode(t).bytes) == s + Decode(t).bytes;
    }
  }

  /** Reading back a printed literal gives the original bytes, and the first
      unescaped quote is the closing one. */
  lemma RoundTrip(s: seq<Byte>, signed: bool, after: seq<Byte>)
    ensures Decode(EscapeAll(s, signed) + [QUOTE] + after) == Literal(s, after)
  {
    var t := [QUOTE] + after;
    assert t[1..] == after;
    DecodePrefix(s, signed, t);
    assert EscapeAll(s, signed) + [QUOTE] + after == EscapeAll(s, signed) + t;
    assert s + [] == s;
  }

  /** The three cases of the loop body. */
  method PrintByte(b: Byte, signed: bool) returns (output: seq<Byte>)
    ensures output == Escape(b, signed)
  {
    var c := CharValue(b, signed);
    if b == QUOTE || b == BACKSLASH {
      output := [BACKSLASH, b];
    } else if c >= 32 && c < 127 {
      output := [b];
    } else {
      output := [BACKSLASH, ZERO + (c / 64) % 4, ZERO + (c / 8) % 8, ZERO + c % 8];
    }
  }

  /** The loop of `ILGenLoadString` and of `JavaGenStringConst`. */
  method PrintString(str: seq<Byte>, signed: bool) returns (output: seq<Byte>)
    ensures output == [QUOTE] + EscapeAll(str, signed) + [QUOTE]
    ensures Decode(output[1..]) == Literal(str, [])
    ensures forall x :: x in output ==> 32 <= x <= 126
  {
    hide Escape, Decode;
    output := [QUOTE];
    var k := 0;
    while k < |str|
      invariant k <= |str|
      invariant output == [QUOTE] + EscapeAll(str[..k], signed)
    {
      var text := PrintByte(str[k], signed);
      output := output + text;
      assert str[..k + 1][..k] == str[..k];
      k := k + 1;
    }
    assert str[..k] == str;
    output := output + [QUOTE];
    RoundTrip(str, signed, []);
    AllPrintable(str, signed);
    assert output[1..] == EscapeAll(str, signed) + [QUOTE] + [];
  }
}
