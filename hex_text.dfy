/**
 * Colours written as eight hexadecimal digits (snprintf "%08X" in the quad-tree splitter,
 * std::hex << std::setw(8) in the viewport assembler) and the loop that reads them back.
 */
module HexText {
  import opened FixedWidth

  predicate IsHexChar(c: char) {
    '0' <= c <= '9' || 'A' <= c <= 'F' || 'a' <= c <= 'f'
  }

  /** The value a character contributes in the parse loops: its digit value when it is a
      hexadecimal digit in either case, and nothing otherwise. */
  function HexValue(c: char): (v: nat)
    ensures v < 16
    ensures IsHexChar(c) || v == 0
  {
    if '0' <= c <= '9' then (c as int) - ('0' as int)
    else if 'A' <= c <= 'F' then (c as int) - ('A' as int) + 10
    else if 'a' <= c <= 'f' then (c as int) - ('a' as int) + 10
    else 0
  }

  /** The upper-case digit for d, as %X prints it. */
  function HexDigitUpper(d: nat): (c: char)
    requires d < 16
    ensures IsHexChar(c) && !('a' <= c <= 'f') && HexValue(c) == d
  {
    "0123456789ABCDEF"[d]
  }

  /** `color <<= 4; color |= d;` on a uint32_t: the top four bits fall off. */
  function ShiftIn(color: u32, d: nat): u32
    requires d < 16
  {
    (color % 0x1000_0000) * 16 + d
  }

  /** The value the parse loop leaves in its uint32_t accumulator after reading all of s. */
  function HexFold(s: string): u32
  {
    if s == [] then 0 else ShiftIn(HexFold(s[..|s| - 1]), HexValue(s[|s| - 1]))
  }

  function Pow16(n: nat): (p: nat)
    requires n <= 8
    ensures p > 0 && (n <= 7 ==> p <= 0x1000_0000) && (n == 8 ==> p == 0x1_0000_0000)
    ensures n > 0 ==> p == 16 * Pow16(n - 1)
  {
    if n == 0 then 1 else if n == 1 then 0x10 else if n == 2 then 0x100
    else if n == 3 then 0x1000 else if n == 4 then 0x1_0000 else if n == 5 then 0x10_0000
    else if n == 6 then 0x100_0000 else if n == 7 then 0x1000_0000 else 0x1_0000_0000
  }

  /** The n lowest hexadecimal digits of c, most significant first, upper case. */
  function HexDigits(c: nat, n: nat): (s: string)
    ensures |s| == n
  {
    if n == 0 then [] else HexDigits(c / 16, n - 1) + [HexDigitUpper(c % 16)]
  }

  /** snprintf(buf, 10, "%08X", c): every uint32_t has at most eight digits, so exactly eight are printed. */
  function Format08X(c: u32): (s: string)
    ensures |s| == 8
  {
    HexDigits(c, 8)
  }

  lemma DivModStep(c: nat, p: nat)
    requires p > 0
    ensures ((c / 16) % p) * 16 + c % 16 == c % (16 * p)
  {
    var q, r := c / 16, c % 16;
    var a, b := q / p, q % p;
    assert c == (16 * p) * a + (16 * b + r) by {
      assert c == 16 * q + r;
      assert q == p * a + b;
    }
    assert 0 <= 16 * b + r < 16 * p;
    DivModUnique(c, 16 * p, a, 16 * b + r);
  }

  /** Every digit %08X prints is an upper-case hexadecimal digit. */
  lemma {:induction false} HexDigitsAreHex(c: nat, n: nat)
    ensures forall i :: 0 <= i < n ==> IsHexChar(HexDigits(c, n)[i]) && !('a' <= HexDigits(c, n)[i] <= 'f')
  {
    if n > 0 {
      HexDigitsAreHex(c / 16, n - 1);
      var s := HexDigits(c, n);
      assert forall i :: 0 <= i < n - 1 ==> s[i] == HexDigits(c / 16, n - 1)[i];
    }
  }

  /** Reading back n printed digits recovers c modulo 16^n. */
  lemma HexFoldLastDigit(c: nat, n: nat)
    requires n > 0
    ensures HexFold(HexDigits(c, n)) == ShiftIn(HexFold(HexDigits(c / 16, n - 1)), c % 16)
  {
    var s := HexDigits(c, n);
    assert s[..|s| - 1] == HexDigits(c / 16, n - 1);
    assert s[|s| - 1] == HexDigitUpper(c % 16);
  }

  lemma ShiftInStep(c: nat, p: nat)
    requires 0 < p <= 0x1000_0000
    ensures ShiftIn((c / 16) % p, c % 16) == c % (16 * p)
  {
    var prev := (c / 16) % p;
    assert prev % 0x1000_0000 == prev by {
      DivModUnique(prev, 0x1000_0000, 0, prev);
    }
    DivModStep(c, p);
  }

  lemma {:induction false} HexFoldOfHexDigits(c: nat, n: nat)
    requires n <= 8
    ensures HexFold(HexDigits(c, n)) == c % Pow16(n)
  {
    if n == 0 {
      DivModUnique(c, 1, c, 0);
    } else {
      HexFoldLastDigit(c, n);
      HexFoldOfHexDigits(c / 16, n - 1);
      ShiftInStep(c, Pow16(n - 1));
    }
  }

  /** The parse loop inverts %08X: every uint32_t colour comes back unchanged. */
  lemma ParseFormat08X(c: u32)
    ensures HexFold(Format08X(c)) == c
    ensures forall i :: 0 <= i < 8 ==> IsHexChar(Format08X(c)[i]) && !('a' <= Format08X(c)[i] <= 'f')
  {
    HexFoldOfHexDigits(c, 8);
    DivModUnique(c, 0x1_0000_0000, 0, c);
    HexDigitsAreHex(c, 8);
  }

  /** Two colours with the same %08X text are the same colour. */
  lemma Format08XInjective(c: u32, d: u32)
    requires Format08X(c) == Format08X(d)
    ensures c == d
  {
    ParseFormat08X(c);
    ParseFormat08X(d);
  }

  /**
   * The loop shared by QuadTreeSplitter::parseColorFromFileName and
   * ViewportAssembler::parseColorFromFileName: for each character, shift the colour
   * left by four bits and or in the character's digit value.
   */
  method FoldHexDigits(name: string) returns (color: u32)
    ensures color == HexFold(name)
  {
    color := 0;
    var i := 0;
    while i < |name|
      invariant 0 <= i <= |name|
      invariant color == HexFold(name[..i])
    {
      assert name[..i + 1][..i] == name[..i];
      color := ShiftIn(color, HexValue(name[i]));
      i := i + 1;
    }
    assert name[..i] == name;
  }
}
