/** Base32 without padding (RFC 4648 section 6), through a 32-bit bit buffer. */
module Base32 {
  import opened Words

  const UPPER := "ABCDEFGHIJKLMNOPQRSTUVWXYZ"
  const OTHER := "234567"
  const B32_CHARS := UPPER + OTHER

  /** The alphabet of RFC 4648 section 6. */
  function Symbol(i: nat): char
    requires i < 32
  {
    if i < 26 then 'A' + i as char else '2' + (i - 26) as char
  }

  /** The table that the encoder indexes is that alphabet. */
  lemma TableIsAlphabet(i: nat)
    requires i < 32
    ensures B32_CHARS[i] == Symbol(i)
  {
    if i < 26 {
      assert B32_CHARS[i] == UPPER[i];
    } else {
      assert B32_CHARS[i] == OTHER[i - 26];
    }
  }

  // --------------------------------------------------------------------- reference

  /** `v << k` without a word limit. */
  function Shl(v: nat, k: nat): nat {
    if k == 0 then v else 2 * Shl(v, k - 1)
  }

  /** `v >> k`. */
  function Shr(v: nat, k: nat): nat {
    if k == 0 then v else Shr(v, k - 1) / 2
  }

  /** Symbols for `n` bytes: one for every five bits, the last one filled up. */
  function SymbolCount(n: nat): nat { (8 * n + 4) / 5 }

  /** The `count` lowest base-32 digits of `v`, most significant first. */
  function Digits32(v: nat, count: nat): (d: seq<nat>)
    ensures |d| == count && forall k | 0 <= k < count :: d[k] < 32
  {
    if count == 0 then [] else Digits32(v / 32, count - 1) + [v % 32]
  }

  /** RFC 4648 section 6: the input as one bit string, filled up on the right with
      zero bits to whole groups of five, group by group. */
  function Groups(x: bytes): (d: seq<nat>)
    ensures |d| == SymbolCount(|x|) && forall k | 0 <= k < |d| :: d[k] < 32
  {
    var count := SymbolCount(|x|);
    Digits32(Shl(BigEndian(x), 5 * count - 8 * |x|), count)
  }

  function Encode(x: bytes): (s: seq<char>)
    ensures |s| == SymbolCount(|x|)
  {
    var groups := Groups(x);
    seq(|groups|, k requires 0 <= k < |groups| => Symbol(groups[k]))
  }

  // ------------------------------------------------------------------------ shifts

  lemma {:induction false} ShlAdd(v: nat, a: nat, b: nat)
    ensures Shl(Shl(v, a), b) == Shl(v, a + b)
    decreases b
  {
    if b > 0 {
      ShlAdd(v, a, b - 1);
    }
  }

  lemma {:induction false} ShrAdd(v: nat, a: nat, b: nat)
    ensures Shr(Shr(v, a), b) == Shr(v, a + b)
    decreases b
  {
    if b > 0 {
      ShrAdd(v, a, b - 1);
    }
  }

  /** Shifting right takes the shift back off and keeps what lies above. */
  lemma {:induction false} ShrSplit(q: nat, r: nat, n: nat, k: nat)
    requires k <= n
    ensures Shr(Shl(q, n) + r, k) == Shl(q, n - k) + Shr(r, k)
    decreases k
  {
    if k > 0 {
      ShrSplit(q, r, n, k - 1);
      assert Shl(q, n - k + 1) == 2 * Shl(q, n - k);
    }
  }

  lemma {:induction false} ShrZero(k: nat)
    ensures Shr(0, k) == 0
  {
    if k > 0 {
      ShrZero(k - 1);
    }
  }

  lemma ShlShr(v: nat, a: nat, b: nat)
    ensures Shr(Shl(v, a), a + b) == Shr(v, b)
  {
    ShrSplit(v, 0, a, a);
    ShrZero(a);
    ShrAdd(Shl(v, a), a, b);
  }

  lemma ShlFive(v: nat)
    ensures Shl(v, 5) == 32 * v
  {
    assert Shl(v, 1) == 2 * v;
    assert Shl(v, 3) == 8 * v;
  }

  lemma ShlEight(v: nat)
    ensures Shl(v, 8) == 0x100 * v
  {
    ShlFive(v);
    assert Shl(v, 6) == 64 * v;
  }

  lemma ShlWord(v: nat)
    ensures Shl(v, 32) == 0x1_0000_0000 * v
  {
    ShlEight(v);
    ShlAdd(v, 8, 8);
    ShlEight(0x100 * v);
    ShlAdd(v, 16, 8);
    ShlEight(0x1_0000 * v);
    ShlAdd(v, 24, 8);
    ShlEight(0x100_0000 * v);
  }

  lemma ShrFive(v: nat)
    ensures Shr(v, 5) == v / 32
  {
    assert Shr(v, 1) == v / 2;
    assert Shr(v, 2) == v / 4;
    assert Shr(v, 3) == v / 8;
    assert Shr(v, 4) == v / 16;
  }

  lemma ShrSmall(y: u8)
    ensures Shr(y, 8) == 0
  {
    ShrFive(y);
    assert Shr(y, 6) < 4;
    assert Shr(y, 7) < 2;
  }

  lemma DropMultiple(a: int, b: int)
    ensures (32 * a + b) % 32 == b % 32
  {
  }

  /** Five bits read from the wrapped buffer are those of the whole number. */
  lemma ReadGroup(v: nat, shift: nat)
    requires shift <= 27
    ensures Shr(v % 0x1_0000_0000, shift) % 32 == Shr(v, shift) % 32
  {
    var (q, r) := (v / 0x1_0000_0000, v % 0x1_0000_0000);
    ShlWord(q);
    ShrSplit(q, r, 32, shift);
    ShlAdd(q, 27 - shift, 5);
    ShlFive(Shl(q, 27 - shift));
    DropMultiple(Shl(q, 27 - shift), Shr(r, shift));
  }

  /** Taking in a byte leaves the bits above the ones pending. */
  lemma TakeByte(v: nat, y: u8, pending: nat)
    ensures Shr(0x100 * v + y, pending + 8) == Shr(v, pending)
  {
    ShlEight(v);
    ShrSplit(v, y, 8, 8);
    ShrSmall(y);
    ShrAdd(0x100 * v + y, 8, pending);
  }

  /** Emitting a group moves the boundary down by five bits. */
  lemma EmitGroup(v: nat, pending: nat, count: nat)
    requires pending >= 5
    ensures Digits32(Shr(v, pending - 5), count + 1)
         == Digits32(Shr(v, pending), count) + [Shr(v, pending - 5) % 32]
  {
    ShrAdd(v, pending - 5, 5);
    ShrFive(Shr(v, pending - 5));
  }

  /** The last group is filled up on the right. */
  lemma FillGroup(v: nat, pending: nat, count: nat)
    requires 0 < pending < 5
    ensures Digits32(Shl(v, 5 - pending), count + 1)
         == Digits32(Shr(v, pending), count) + [Shl(v, 5 - pending) % 32]
  {
    ShlShr(v, 5 - pending, pending);
    ShrFive(Shl(v, 5 - pending));
  }

  // ---------------------------------------------------------------------- encoding

  /** `symbols` spells the number `v` in base 32. */
  ghost predicate Spells(symbols: seq<char>, v: nat) {
    var d := Digits32(v, |symbols|);
    forall k | 0 <= k < |symbols| :: symbols[k] == Symbol(d[k])
  }

  lemma SpellMore(symbols: seq<char>, v: nat, w: nat)
    requires Spells(symbols, v)
    requires Digits32(w, |symbols| + 1) == Digits32(v, |symbols|) + [w % 32]
    ensures Spells(symbols + [Symbol(w % 32)], w)
  {
  }

  lemma SpellsAll(x: bytes, symbols: seq<char>)
    requires |symbols| == SymbolCount(|x|)
    requires Spells(symbols, Shl(BigEndian(x), 5 * |symbols| - 8 * |x|))
    ensures symbols == Encode(x)
  {
    hide Digits32, Shl, BigEndian, SymbolCount, Symbol;
    forall k | 0 <= k < |symbols| ensures symbols[k] == Encode(x)[k] {
    }
  }

  /** The encoder's inner loop: write out whole groups. */
  method WriteGroups(ghost v: nat, buffer: u32, bits: nat, out: array<char>, start: nat, ghost n: nat)
      returns (bitsLeft: nat, outLen: nat)
    requires bits <= 12 && buffer == v % 0x1_0000_0000
    requires start <= n < out.Length && 5 * start + bits <= 5 * n
    requires Spells(out[..start], Shr(v, bits))
    modifies out
    ensures bitsLeft < 5 && 5 * outLen + bitsLeft == 5 * start + bits && outLen <= n
    ensures Spells(out[..outLen], Shr(v, bitsLeft)) && out[n..] == old(out[n..])
  {
    hide Spells, Symbol, Digits32, Shl, Shr;
    bitsLeft, outLen := bits, start;
    while bitsLeft >= 5
      invariant 0 <= bitsLeft <= 12 && 5 * outLen + bitsLeft == 5 * start + bits && outLen <= n
      invariant Spells(out[..outLen], Shr(v, bitsLeft))
      invariant out[n..] == old(out[n..])
    {
      EmitGroup(v, bitsLeft, outLen);
      SpellMore(out[..outLen], Shr(v, bitsLeft), Shr(v, bitsLeft - 5));
      bitsLeft := bitsLeft - 5;
      ReadGroup(v, bitsLeft);
      ghost var done := out[..outLen];
      out[outLen] := Symbol(Shr(buffer, bitsLeft) % 32);
      outLen := outLen + 1;
      assert out[..outLen] == done + [Symbol(Shr(v, bitsLeft) % 32)];
    }
  }

  /** The encoder's tail: the last, filled up group. */
  method WriteLast(ghost v: nat, buffer: u32, bitsLeft: nat, out: array<char>, start: nat) returns (outLen: nat)
    requires bitsLeft < 5 && start < out.Length && buffer == v % 0x1_0000_0000
    requires Spells(out[..start], Shr(v, bitsLeft))
    modifies out
    ensures outLen == if bitsLeft > 0 then start + 1 else start
    ensures Spells(out[..outLen], Shl(v, 5 * (outLen - start) - bitsLeft)) && out[outLen..] == old(out[outLen..])
  {
    hide Spells, Symbol, Digits32, Shl, Shr;
    outLen := start;
    if bitsLeft > 0 {
      FillGroup(v, bitsLeft, outLen);
      SpellMore(out[..outLen], Shr(v, bitsLeft), Shl(v, 5 - bitsLeft));
      FillWrapped(v, 5 - bitsLeft);
      ghost var done := out[..outLen];
      out[outLen] := Symbol(Shl(buffer, 5 - bitsLeft) % 0x1_0000_0000 % 32);
      outLen := outLen + 1;
      assert out[..outLen] == done + [Symbol(Shl(v, 5 - bitsLeft) % 32)];
    } else {
      NoShift(v);
    }
  }

  /** The encoder's end: the last group, and a NUL. */
  method WriteEnd(ghost input: bytes, buffer: u32, bitsLeft: nat, out: array<char>, start: nat)
    requires bitsLeft < 5 && 5 * start + bitsLeft == 8 * |input|
    requires SymbolCount(|input|) < out.Length && start <= SymbolCount(|input|)
    requires buffer == BigEndian(input) % 0x1_0000_0000 && Spells(out[..start], Shr(BigEndian(input), bitsLeft))
    modifies out
    ensures var n := SymbolCount(|input|);
            out[..n] == Encode(input) && out[n] == '\0' && out[n + 1..] == old(out[n + 1..])
  {
    CountBounds(|input|);
    hide Encode, Spells, Symbol, SymbolCount, Digits32, Shl, Shr, BigEndian;
    var outLen := WriteLast(BigEndian(input), buffer, bitsLeft, out, start);
    SpellsAll(input, out[..outLen]);
    out[outLen] := '\0';
  }

  /** `base32_encode`: the symbols, a NUL, and nothing after it. */
  method Base32Encode(input: bytes, out: array<char>)
    requires SymbolCount(|input|) < out.Length
    modifies out
    ensures var n := SymbolCount(|input|);
            out[..n] == Encode(input) && out[n] == '\0' && out[n + 1..] == old(out[n + 1..])
  {
    CountBounds(|input|);
    hide Encode, Spells, Symbol, SymbolCount, Digits32, Shl, Shr, BigEndian;
    ghost var n := SymbolCount(|input|);
    var buffer: u32 := 0;
    var bitsLeft, outLen := 0, 0;
    ghost var v := 0;
    var i := 0;
    EmptyInput(input, out[..0]);
    while i < |input|
      invariant 0 <= i <= |input| && 0 <= bitsLeft < 5 && 5 * outLen + bitsLeft == 8 * i
      invariant v == BigEndian(input[..i]) && buffer == v % 0x1_0000_0000
      invariant outLen <= n && Spells(out[..outLen], Shr(v, bitsLeft))
      invariant out[n..] == old(out[n..])
    {
      BigEndianLast(input, i);
      TakeByte(v, input[i], bitsLeft);
      WrapByte(v, input[i]);
      v := 0x100 * v + input[i] as int;
      buffer := (buffer as int * 0x100 + input[i]) % 0x1_0000_0000;
      bitsLeft := bitsLeft + 8;
      i := i + 1;
      bitsLeft, outLen := WriteGroups(v, buffer, bitsLeft, out, outLen, n);
    }
    assert input[..i] == input;
    WriteEnd(input, buffer, bitsLeft, out, outLen);
  }

  lemma CountBounds(n: nat)
    ensures 8 * n <= 5 * SymbolCount(n) < 8 * n + 5
  {
  }

  lemma NoShift(v: nat)
    ensures Shr(v, 0) == Shl(v, 0)
  {
  }

  lemma EmptyInput(input: bytes, symbols: seq<char>)
    requires symbols == []
    ensures BigEndian(input[..0]) == 0 && Spells(symbols, Shr(0, 0))
  {
  }

  lemma Residue(n: nat, q: nat, r: nat)
    requires n == 0x1_0000_0000 * q + r
    ensures n % 0x1_0000_0000 == r % 0x1_0000_0000
  {
  }

  lemma WrapByte(v: nat, y: u8)
    ensures (v % 0x1_0000_0000 * 0x100 + y) % 0x1_0000_0000 == (0x100 * v + y) % 0x1_0000_0000
  {
    var (q, r) := (v / 0x1_0000_0000, v % 0x1_0000_0000);
    Residue(0x100 * v + y, 0x100 * q, r * 0x100 + y);
  }

  lemma WordTimes32(n: nat)
    ensures n % 0x1_0000_0000 % 32 == n % 32
  {
    var (q, r) := (n / 0x1_0000_0000, n % 0x1_0000_0000);
    DropMultiple(0x800_0000 * q, r);
  }

  /** The bits that the last shift pushes out of the buffer do not matter. */
  lemma FillWrapped(v: nat, shift: nat)
    requires shift <= 5
    ensures Shl(v % 0x1_0000_0000, shift) % 0x1_0000_0000 % 32 == Shl(v, shift) % 32
  {
    hide Shl;
    var (q, r) := (v / 0x1_0000_0000, v % 0x1_0000_0000);
    WordTimes32(Shl(r, shift));
    ShlSum(0x1_0000_0000 * q, r, shift);
    ShlScale(q, 0x1_0000_0000, shift);
    ShiftedOut(Shl(q, shift), Shl(r, shift));
  }

  lemma ShiftedOut(a: nat, b: nat)
    ensures (0x1_0000_0000 * a + b) % 32 == b % 32
  {
    DropMultiple(0x800_0000 * a, b);
  }

  lemma {:induction false} ShlSum(a: nat, b: nat, k: nat)
    ensures Shl(a + b, k) == Shl(a, k) + Shl(b, k)
    decreases k
  {
    if k > 0 {
      ShlSum(a, b, k - 1);
    }
  }

  lemma {:induction false} ShlScale(a: nat, c: nat, k: nat)
    ensures Shl(c * a, k) == c * Shl(a, k)
    decreases k
  {
    if k > 0 {
      ShlScale(a, c, k - 1);
    }
  }

  // ------------------------------------------------------------------- injectivity

  /** Numbers of at most `count` digits are told apart by their digits. */
  lemma {:induction false} Digits32Injective(v: nat, w: nat, count: nat)
    requires Shr(v, 5 * count) == 0 && Shr(w, 5 * count) == 0
    requires Digits32(v, count) == Digits32(w, count)
    ensures v == w
    decreases count
  {
    if count > 0 {
      var (d, e) := (Digits32(v, count), Digits32(w, count));
      assert d[..count - 1] == Digits32(v / 32, count - 1) && e[..count - 1] == Digits32(w / 32, count - 1);
      assert d[count - 1] == v % 32 && e[count - 1] == w % 32;
      ShrFive(v);
      ShrFive(w);
      ShrAdd(v, 5, 5 * count - 5);
      ShrAdd(w, 5, 5 * count - 5);
      Digits32Injective(v / 32, w / 32, count - 1);
    }
  }

  lemma {:induction false} BigEndianBound(x: bytes)
    ensures Shr(BigEndian(x), 8 * |x|) == 0
  {
    if x != [] {
      BigEndianBound(x[..|x| - 1]);
      TakeByte(BigEndian(x[..|x| - 1]), x[|x| - 1], 8 * |x| - 8);
    }
  }

  lemma SymbolInjective(i: nat, j: nat)
    requires i < 32 && j < 32 && Symbol(i) == Symbol(j)
    ensures i == j
  {
  }

  /** Inputs of equal length with the same encoding are equal. */
  lemma EncodeInjective(x: bytes, y: bytes)
    requires |x| == |y| && Encode(x) == Encode(y)
    ensures x == y
  {
    var (g, h) := (Groups(x), Groups(y));
    forall k | 0 <= k < |g| ensures g[k] == h[k] {
      assert Encode(x)[k] == Encode(y)[k];
      SymbolInjective(g[k], h[k]);
    }
    assert g == h;
    var count := SymbolCount(|x|);
    var fill := 5 * count - 8 * |x|;
    BigEndianBound(x);
    BigEndianBound(y);
    ShlShr(BigEndian(x), fill, 8 * |x|);
    ShlShr(BigEndian(y), fill, 8 * |x|);
    Digits32Injective(Shl(BigEndian(x), fill), Shl(BigEndian(y), fill), count);
    ShlShr(BigEndian(x), fill, 0);
    ShlShr(BigEndian(y), fill, 0);
    BigEndianInjective(x, y);
  }
}
