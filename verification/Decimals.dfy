/** Decimal digit strings: `atoi`, `strtoul` and zero-padded printing. */
module Decimals {
  import opened Words

  predicate IsDigit(c: char) { '0' <= c <= '9' }

  predicate AllDigits(s: seq<char>) {
    forall i | 0 <= i < |s| :: IsDigit(s[i])
  }

  type Digits = s: seq<char> | AllDigits(s)

  function DigitValue(c: char): nat
    requires IsDigit(c)
  {
    c as int - '0' as int
  }

  /** `atoi` on a string of decimal digits. */
  function Decimal(s: Digits): nat {
    if s == [] then 0 else 10 * Decimal(s[..|s| - 1]) + DigitValue(s[|s| - 1])
  }

  function Pow10(n: nat): nat {
    if n == 0 then 1 else 10 * Pow10(n - 1)
  }

  lemma {:induction false} DecimalBound(s: Digits)
    ensures Decimal(s) < Pow10(|s|)
  {
    if s != [] {
      DecimalBound(s[..|s| - 1]);
    }
  }

  lemma {:induction false} DecimalSplit(s: Digits, t: Digits)
    ensures Decimal(s + t) == Decimal(s) * Pow10(|t|) + Decimal(t)
    decreases |t|
  {
    if t == [] {
      assert s + t == s;
    } else {
      var init := t[..|t| - 1];
      DecimalSplit(s, init);
      assert (s + t)[..|s + t| - 1] == s + init;
      assert Decimal(s + t) == 10 * Decimal(s + init) + DigitValue(t[|t| - 1]);
      TimesTen(Decimal(s), Pow10(|init|));
    }
  }

  lemma TimesTen(a: nat, p: nat)
    ensures 10 * (a * p) == a * (10 * p)
  {
  }

  lemma SmallPowers()
    ensures Pow10(3) == 1000 && Pow10(5) == 100_000 && Pow10(6) == 1_000_000
  {
    assert Pow10(1) == 10 && Pow10(2) == 100 && Pow10(4) == 10_000;
  }

  function DigitChar(d: nat): char
    requires d < 10
  {
    '0' + d as char
  }

  /** `n` in decimal with `width` digits. */
  function Spell(n: nat, width: nat): (s: Digits)
    ensures |s| == width
  {
    if width == 0 then [] else Spell(n / 10, width - 1) + [DigitChar(n % 10)]
  }

  lemma {:induction false} SpellReads(n: nat, width: nat)
    requires n < Pow10(width)
    ensures Decimal(Spell(n, width)) == n
  {
    if width > 0 {
      SpellReads(n / 10, width - 1);
      assert Spell(n, width)[..width - 1] == Spell(n / 10, width - 1);
    }
  }

  lemma Spelled(n: nat, width: nat) returns (s: Digits)
    requires n < Pow10(width)
    ensures |s| == width && Decimal(s) == n
  {
    s := Spell(n, width);
    SpellReads(n, width);
  }

  // ------------------------------------------------------------------------ strtoul

  predicate IsBlank(c: char) { c == ' ' || '\t' <= c <= '\r' }

  function SkipBlanks(s: string): string {
    if s == [] || !IsBlank(s[0]) then s else SkipBlanks(s[1..])
  }

  function LeadingDigits(s: string): Digits {
    if s == [] || !IsDigit(s[0]) then [] else [s[0]] + LeadingDigits(s[1..])
  }

  /** `strtoul(s, NULL, 10)` where `unsigned long` has 32 bits: blanks, a sign,
      digits; too large a number saturates, and a minus sign negates modulo 2^32. */
  function Strtoul(s: string): u32 {
    var t := SkipBlanks(s);
    var signed := t != [] && (t[0] == '-' || t[0] == '+');
    var n := Decimal(LeadingDigits(if signed then t[1..] else t));
    if n > UINT32_MAX then UINT32_MAX
    else if signed && t[0] == '-' then (TWO_32 - n) % 0x1_0000_0000
    else n
  }

  predicate NoDigitFirst(s: string) { s == [] || !IsDigit(s[0]) }

  lemma {:induction false} AllLeading(s: Digits, rest: string)
    requires NoDigitFirst(rest)
    ensures LeadingDigits(s + rest) == s
  {
    if s != [] {
      AllLeading(s[1..], rest);
      assert (s + rest)[1..] == s[1..] + rest;
    } else {
      assert s + rest == rest;
    }
  }

  lemma {:induction false} BlanksSkipped(blanks: string, s: string)
    requires forall i | 0 <= i < |blanks| :: blanks[i] == ' ' || '\t' <= blanks[i] <= '\r'
    requires s == [] || !IsBlank(s[0])
    ensures SkipBlanks(blanks + s) == s
  {
    if blanks == [] {
      assert blanks + s == s;
    } else {
      BlanksSkipped(blanks[1..], s);
      assert (blanks + s)[1..] == blanks[1..] + s;
    }
  }

  /** `strtoul` reads digits behind blanks and a sign, up to the first other character,
      none of them as 0; what does not fit saturates, and a minus sign negates. */
  lemma StrtoulIs(blanks: string, sign: string, s: Digits, rest: string)
    requires forall i | 0 <= i < |blanks| :: blanks[i] == ' ' || '\t' <= blanks[i] <= '\r'
    requires sign == "" || sign == "-" || sign == "+"
    requires NoDigitFirst(rest)
    requires sign == "" && s == [] && rest != [] ==> rest[0] != '-' && rest[0] != '+' && !IsBlank(rest[0])
    ensures Strtoul(blanks + (sign + (s + rest))) ==
              if Decimal(s) >= 0x1_0000_0000 then 0xFFFF_FFFF
              else if sign == "-" && Decimal(s) > 0 then 0x1_0000_0000 - Decimal(s)
              else Decimal(s)
  {
    hide Decimal, LeadingDigits, SkipBlanks;
    var t := sign + (s + rest);
    AllLeading(s, rest);
    if t != [] {
      assert t[0] == if sign != "" then sign[0] else if s != [] then s[0] else rest[0];
    }
    BlanksSkipped(blanks, t);
    if sign != "" {
      assert t[1..] == s + rest;
    } else {
      assert t == s + rest;
    }
  }

  /** On plain digits `strtoul` is the decimal value, as long as it fits. */
  lemma StrtoulReads(s: Digits)
    ensures Strtoul(s) == if Decimal(s) > UINT32_MAX then UINT32_MAX else Decimal(s)
  {
    StrtoulIs("", "", s, "");
    assert "" + ("" + (s + "")) == s;
  }
}
