/** Base64 with padding (RFC 4648 section 4), decoding only canonical input
    (section 3.5) and only into the given capacity. */
module Base64 {
  import opened Words

  const UPPER := "ABCDEFGHIJKLMNOPQRSTUVWXYZ"
  const LOWER := "abcdefghijklmnopqrstuvwxyz"
  const OTHER := "0123456789+/"
  const B64_CHARS := UPPER + LOWER + OTHER

  /** The alphabet of RFC 4648 section 4. */
  function Symbol(i: nat): char
    requires i < 64
  {
    if i < 26 then 'A' + i as char
    else if i < 52 then 'a' + (i - 26) as char
    else if i < 62 then '0' + (i - 52) as char
    else if i == 62 then '+' else '/'
  }

  /** The table that the encoder indexes is that alphabet. */
  lemma TableIsAlphabet(i: nat)
    requires i < 64
    ensures B64_CHARS[i] == Symbol(i)
  {
    if i < 26 {
      assert B64_CHARS[i] == UPPER[i];
    } else if i < 52 {
      assert B64_CHARS[i] == LOWER[i - 26];
    } else {
      assert B64_CHARS[i] == OTHER[i - 52];
    }
  }

  /** `b64_val`. */
  function B64Val(c: char): int {
    if 'A' <= c <= 'Z' then c as int - 'A' as int
    else if 'a' <= c <= 'z' then c as int - 'a' as int + 26
    else if '0' <= c <= '9' then c as int - '0' as int + 52
    else if c == '+' then 62
    else if c == '/' then 63
    else if c == '=' then 0
    else -1
  }

  lemma ValOfSymbol(i: nat)
    requires i < 64
    ensures B64Val(Symbol(i)) == i && Symbol(i) != '='
  {
  }

  lemma SymbolOfVal(c: char)
    requires B64Val(c) >= 0 && c != '='
    ensures B64Val(c) < 64 && Symbol(B64Val(c)) == c
  {
  }

  // --------------------------------------------------------------------- reference

  /** One to three bytes, filled up with zero bits to 24. */
  function Bits(x: bytes): (n: nat)
    requires 1 <= |x| <= 3
  {
    x[0] as int * 0x1_0000 + (if |x| > 1 then x[1] as int * 0x100 else 0) + (if |x| > 2 then x[2] as int else 0)
  }

  /** RFC 4648 section 4: the 24 bits as four groups of six; a group without any
      input bits becomes '='. */
  function Group(x: bytes): (s: seq<char>)
    requires 1 <= |x| <= 3
    ensures |s| == 4
  {
    [Symbol(Bits(x) / 0x4_0000 % 64),
     Symbol(Bits(x) / 0x1000 % 64),
     if |x| > 1 then Symbol(Bits(x) / 64 % 64) else '=',
     if |x| > 2 then Symbol(Bits(x) % 64) else '=']
  }

  function Encode(x: bytes): (s: seq<char>) {
    if x == [] then []
    else if |x| <= 3 then Group(x)
    else Group(x[..3]) + Encode(x[3..])
  }

  // ---------------------------------------------------------------------- encoding

  /** Groups for `n` bytes. */
  function Groups(n: nat): nat { (n + 2) / 3 }

  lemma GroupsStep(n: nat)
    requires n > 3
    ensures Groups(n) == 1 + Groups(n - 3)
  {
  }

  lemma {:induction false} EncodeLength(x: bytes)
    ensures |Encode(x)| == 4 * Groups(|x|)
    decreases |x|
  {
    hide Group;
    if |x| > 3 {
      EncodeLength(x[3..]);
      GroupsStep(|x|);
    }
  }

  /** Encoding appends group by group. */
  lemma {:induction false} EncodeAppend(groups: nat, x: bytes, y: bytes)
    requires |x| == 3 * groups
    ensures Encode(x + y) == Encode(x) + Encode(y)
    decreases groups
  {
    hide Group;
    if groups == 0 {
      assert x + y == y;
    } else if y == [] {
      assert x + y == x;
    } else {
      assert (x + y)[..3] == x[..3] && (x + y)[3..] == x[3..] + y;
      EncodeAppend(groups - 1, x[3..], y);
      assert groups == 1 ==> x[..3] == x && x[3..] == [];
      assert Encode(x) == Group(x[..3]) + Encode(x[3..]);
    }
  }

  lemma Quotient(n: int, d: int, q: int, r: int)
    requires n == d * q + r && 0 <= r < d && (d == 4 || d == 16 || d == 64 || d == 256 || d == 0x1000 || d == 0x4_0000)
    ensures n / d == q && n % d == r
  {
  }

  lemma SextetsOf(ah: int, al: int, bh: int, bl: int, ch: int, cl: int)
    requires 0 <= ah < 64 && 0 <= al < 4 && 0 <= bh < 16 && 0 <= bl < 16 && 0 <= ch < 4 && 0 <= cl < 64
    ensures var bits := (ah * 4 + al) * 0x1_0000 + (bh * 16 + bl) * 0x100 + (ch * 64 + cl);
            && bits / 0x4_0000 % 64 == ah
            && bits / 0x1000 % 64 == al * 16 + bh
            && bits / 64 % 64 == bl * 4 + ch
            && bits % 64 == cl
  {
    var bits := (ah * 4 + al) * 0x1_0000 + (bh * 16 + bl) * 0x100 + (ch * 64 + cl);
    var (first, second) := (ah * 64 + (al * 16 + bh), 64 * (ah * 64 + (al * 16 + bh)) + (bl * 4 + ch));
    Quotient(bits, 0x4_0000, ah, al * 0x1_0000 + bh * 0x1000 + bl * 0x100 + ch * 64 + cl);
    Quotient(bits, 0x1000, first, bl * 0x100 + ch * 64 + cl);
    Quotient(first, 64, ah, al * 16 + bh);
    Quotient(bits, 64, second, cl);
    Quotient(second, 64, first, bl * 4 + ch);
  }

  /** The shifts and masks of the code, on disjoint bits, pick the 6-bit groups. */
  lemma Sextets(a: u8, b: u8, c: u8)
    ensures var bits := a as int * 0x1_0000 + b as int * 0x100 + c as int;
            && bits / 0x4_0000 % 64 == a / 4
            && bits / 0x1000 % 64 == a % 4 * 16 + b / 16
            && bits / 64 % 64 == b % 16 * 4 + c / 64
            && bits % 64 == c % 64
  {
    SextetsOf(a / 4, a % 4, b / 16, b % 16, c / 64, c % 64);
    assert a / 4 * 4 + a % 4 == a && b / 16 * 16 + b % 16 == b && c / 64 * 64 + c % 64 == c;
  }

  lemma GroupOfThree(a: u8, b: u8, c: u8)
    ensures Group([a, b, c]) ==
              [Symbol(a / 4), Symbol(a % 4 * 16 + b / 16), Symbol(b % 16 * 4 + c / 64), Symbol(c % 64)]
  {
    Sextets(a, b, c);
  }

  lemma GroupOfTwo(a: u8, b: u8)
    ensures Group([a, b]) == [Symbol(a / 4), Symbol(a % 4 * 16 + b / 16), Symbol(b % 16 * 4), '=']
  {
    Sextets(a, b, 0);
  }

  lemma GroupOfOne(a: u8)
    ensures Group([a]) == [Symbol(a / 4), Symbol(a % 4 * 16), '=', '=']
  {
    Sextets(a, 0, 0);
  }

  /** One round of the encoder's loop: four symbols for three bytes. */
  method EmitThree(a: u8, b: u8, c: u8, out: array<char>, j: nat)
    requires j + 4 <= out.Length
    modifies out
    ensures out[..j + 4] == old(out[..j]) + Group([a, b, c]) && out[j + 4..] == old(out[j + 4..])
  {
    GroupOfThree(a, b, c);
    hide Group;
    out[j] := Symbol(a / 4);
    out[j + 1] := Symbol(a % 4 * 16 + b / 16);
    out[j + 2] := Symbol(b % 16 * 4 + c / 64);
    out[j + 3] := Symbol(c % 64);
  }

  /** The encoder's tail: four symbols for the last one or two bytes. */
  method EmitLast(x: bytes, out: array<char>, j: nat)
    requires 1 <= |x| <= 2 && j + 4 <= out.Length
    modifies out
    ensures out[..j + 4] == old(out[..j]) + Group(x) && out[j + 4..] == old(out[j + 4..])
  {
    var a := x[0];
    out[j] := Symbol(a / 4);
    if |x| > 1 {
      var b := x[1];
      out[j + 1] := Symbol(a % 4 * 16 + b / 16);
      out[j + 2] := Symbol(b % 16 * 4);
      GroupOfTwo(a, b);
      assert x == [a, b];
    } else {
      out[j + 1] := Symbol(a % 4 * 16);
      out[j + 2] := '=';
      GroupOfOne(a);
      assert x == [a];
    }
    out[j + 3] := '=';
  }

  /** `base64_encode`: the encoding, a NUL, and nothing after it. */
  method Base64Encode(input: bytes, out: array<char>)
    requires 4 * Groups(|input|) < out.Length
    modifies out
    ensures var n := 4 * Groups(|input|);
            out[..n] == Encode(input) && out[n] == '\0' && out[n + 1..] == old(out[n + 1..])
  {
    hide Encode, Group, Symbol;
    ghost var n := 4 * Groups(|input|);
    ghost var groups := 0;
    var i, j := 0, 0;
    EncodeLength(input[..0]);
    while i + 2 < |input|
      invariant i == 3 * groups <= |input| && j == 4 * groups <= n
      invariant out[..j] == Encode(input[..i])
      invariant out[n + 1..] == old(out[n + 1..])
    {
      OneMoreGroup(input, groups);
      EmitThree(input[i], input[i + 1], input[i + 2], out, j);
      assert out[n + 1..] == out[j + 4..][n + 1 - (j + 4)..];
      i := i + 3;
      j := j + 4;
      groups := groups + 1;
    }
    LastGroup(input, groups);
    if i < |input| {
      EmitLast(input[i..], out, j);
      assert out[n + 1..] == out[j + 4..][n + 1 - (j + 4)..];
      j := j + 4;
    }
    EncodeLength(input);
    assert out[..j] == Encode(input);
    out[j] := '\0';
  }

  lemma AppendGroup(groups: nat, head: bytes, last: bytes)
    requires |head| == 3 * groups && 1 <= |last| <= 3
    ensures Encode(head + last) == Encode(head) + Group(last)
  {
    EncodeAppend(groups, head, last);
  }

  lemma OneMoreGroup(input: bytes, groups: nat)
    requires 3 * groups + 3 <= |input|
    ensures var i := 3 * groups;
            Encode(input[..i + 3]) == Encode(input[..i]) + Group([input[i], input[i + 1], input[i + 2]])
  {
    hide Encode, Group;
    var i := 3 * groups;
    var group := [input[i], input[i + 1], input[i + 2]];
    assert input[..i + 3] == input[..i] + group;
    AppendGroup(groups, input[..i], group);
  }

  lemma LastGroup(input: bytes, groups: nat)
    requires 3 * groups <= |input| < 3 * groups + 3
    ensures var i := 3 * groups;
            Encode(input) == Encode(input[..i]) + if i < |input| then Group(input[i..]) else []
  {
    hide Encode, Group;
    var i := 3 * groups;
    if i < |input| {
      AppendGroup(groups, input[..i], input[i..]);
      assert input == input[..i] + input[i..];
    } else {
      assert input[..i] == input;
    }
  }

  // ---------------------------------------------------------------------- decoding

  // The three bytes that four 6-bit values make, as `unsigned char`.
  function Byte0(a: int, b: int): u8 { (a * 4 + b / 16) % 256 }
  function Byte1(b: int, c: int): u8 { (b * 16 + c / 4) % 256 }
  function Byte2(c: int, d: int): u8 { (c * 64 + d) % 256 }

  /** The bytes of one quad, if `base64_decode` accepts it there. */
  function DecodeQuad(q: seq<char>, final: bool): Option<bytes>
    requires |q| == 4
  {
    var (pad2, pad3) := (q[2] == '=', q[3] == '=');
    var (a, b, c, d) := (B64Val(q[0]), B64Val(q[1]), B64Val(q[2]), B64Val(q[3]));
    if ((pad2 || pad3) && !final) || (pad2 && !pad3) || q[0] == '=' || q[1] == '=' || a < 0 || b < 0 then None
    else if pad2 then
      if b % 16 != 0 then None else Some([Byte0(a, b)])
    else if pad3 then
      if c < 0 || c % 4 != 0 then None else Some([Byte0(a, b), Byte1(b, c)])
    else
      if c < 0 || d < 0 then None
      else Some([Byte0(a, b), Byte1(b, c), Byte2(c, d)])
  }

  function DecodeQuads(s: seq<char>): Option<bytes> {
    if s == [] then Some([])
    else if |s| < 4 then None
    else
      match (DecodeQuad(s[..4], |s| == 4), DecodeQuads(s[4..]))
      case (Some(x), Some(y)) => Some(x + y)
      case _ => None
  }

  lemma SplitByte0(a: int, b: int)
    requires 0 <= a < 64 && 0 <= b < 64
    ensures Byte0(a, b) / 4 == a && Byte0(a, b) % 4 == b / 16
  {
    Quotient(a * 4 + b / 16, 256, 0, a * 4 + b / 16);
    Quotient(a * 4 + b / 16, 4, a, b / 16);
  }

  lemma SplitByte1(b: int, c: int)
    requires 0 <= b < 64 && 0 <= c < 64
    ensures Byte1(b, c) / 16 == b % 16 && Byte1(b, c) % 16 == c / 4
  {
    var (bh, bl) := (b / 16, b % 16);
    assert b == bh * 16 + bl;
    Quotient(b * 16 + c / 4, 256, bh, bl * 16 + c / 4);
    Quotient(bl * 16 + c / 4, 16, bl, c / 4);
  }

  lemma SplitByte2(c: int, d: int)
    requires 0 <= c < 64 && 0 <= d < 64
    ensures Byte2(c, d) / 64 == c % 4 && Byte2(c, d) % 64 == d
  {
    var (ch, cl) := (c / 4, c % 4);
    assert c == ch * 4 + cl;
    Quotient(c * 64 + d, 256, ch, cl * 64 + d);
    Quotient(cl * 64 + d, 64, cl, d);
  }

  /** Four 6-bit values make three bytes that split into the same values. */
  lemma Octets(a: int, b: int, c: int, d: int)
    requires 0 <= a < 64 && 0 <= b < 64 && 0 <= c < 64 && 0 <= d < 64
    ensures var (x, y, z) := (Byte0(a, b), Byte1(b, c), Byte2(c, d));
            x / 4 == a && x % 4 * 16 + y / 16 == b && y % 16 * 4 + z / 64 == c && z % 64 == d
  {
    hide Byte0, Byte1, Byte2;
    SplitByte0(a, b);
    SplitByte1(b, c);
    SplitByte2(c, d);
    assert b / 16 * 16 + b % 16 == b && c / 4 * 4 + c % 4 == c;
  }

  /** Three bytes split into four 6-bit values that make the same bytes. */
  lemma Rejoin(x: u8, y: u8, z: u8)
    ensures Byte0(x / 4, x % 4 * 16 + y / 16) == x
    ensures Byte1(x % 4 * 16 + y / 16, y % 16 * 4 + z / 64) == y
    ensures Byte2(y % 16 * 4 + z / 64, z % 64) == z
  {
    hide Byte0, Byte1, Byte2;
    RejoinOf(x / 4, x % 4, y / 16, y % 16, z / 64, z % 64);
    assert x / 4 * 4 + x % 4 == x && y / 16 * 16 + y % 16 == y && z / 64 * 64 + z % 64 == z;
  }

  lemma RejoinOf(ah: int, al: int, bh: int, bl: int, ch: int, cl: int)
    requires 0 <= ah < 64 && 0 <= al < 4 && 0 <= bh < 16 && 0 <= bl < 16 && 0 <= ch < 4 && 0 <= cl < 64
    ensures Byte0(ah, al * 16 + bh) == ah * 4 + al
    ensures Byte1(al * 16 + bh, bl * 4 + ch) == bh * 16 + bl
    ensures Byte2(bl * 4 + ch, cl) == ch * 64 + cl
  {
    Quotient(al * 16 + bh, 16, al, bh);
    Quotient(bl * 4 + ch, 4, bl, ch);
    Quotient(ah * 4 + al, 256, 0, ah * 4 + al);
    Quotient((al * 16 + bh) * 16 + bl, 256, al, bh * 16 + bl);
    Quotient((bl * 4 + ch) * 64 + cl, 256, bl, ch * 64 + cl);
  }

  lemma ThreeBytes(q: seq<char>)
    requires |q| == 4 && forall k | 0 <= k < 4 :: B64Val(q[k]) >= 0 && q[k] != '='
    ensures Group([Byte0(B64Val(q[0]), B64Val(q[1])), Byte1(B64Val(q[1]), B64Val(q[2])),
                   Byte2(B64Val(q[2]), B64Val(q[3]))]) == q
  {
    SymbolOfVal(q[0]);
    SymbolOfVal(q[1]);
    SymbolOfVal(q[2]);
    SymbolOfVal(q[3]);
    var (a, b, c, d) := (B64Val(q[0]), B64Val(q[1]), B64Val(q[2]), B64Val(q[3]));
    Octets(a, b, c, d);
    GroupOfThree(Byte0(a, b), Byte1(b, c), Byte2(c, d));
  }

  lemma TwoBytes(q: seq<char>)
    requires |q| == 4 && q[3] == '=' && forall k | 0 <= k < 3 :: B64Val(q[k]) >= 0 && q[k] != '='
    requires B64Val(q[2]) % 4 == 0
    ensures Group([Byte0(B64Val(q[0]), B64Val(q[1])), Byte1(B64Val(q[1]), B64Val(q[2]))]) == q
  {
    SymbolOfVal(q[0]);
    SymbolOfVal(q[1]);
    SymbolOfVal(q[2]);
    var (a, b, c) := (B64Val(q[0]), B64Val(q[1]), B64Val(q[2]));
    Octets(a, b, c, 0);
    assert Byte2(c, 0) / 64 == 0 by { SplitByte2(c, 0); }
    GroupOfTwo(Byte0(a, b), Byte1(b, c));
  }

  lemma OneByte(q: seq<char>)
    requires |q| == 4 && q[2] == q[3] == '=' && forall k | 0 <= k < 2 :: B64Val(q[k]) >= 0 && q[k] != '='
    requires B64Val(q[1]) % 16 == 0
    ensures Group([Byte0(B64Val(q[0]), B64Val(q[1]))]) == q
  {
    SymbolOfVal(q[0]);
    SymbolOfVal(q[1]);
    SplitByte0(B64Val(q[0]), B64Val(q[1]));
    GroupOfOne(Byte0(B64Val(q[0]), B64Val(q[1])));
  }

  /** A quad that decodes is the encoding of its bytes. */
  lemma QuadDecodes(q: seq<char>, final: bool)
    requires |q| == 4
    ensures var x := DecodeQuad(q, final);
            x.Some? ==> 1 <= |x.value| <= 3 && (|x.value| < 3 ==> final) && Group(x.value) == q
  {
    if DecodeQuad(q, final).Some? {
      if q[2] == '=' {
        OneByte(q);
      } else if q[3] == '=' {
        TwoBytes(q);
      } else {
        ThreeBytes(q);
      }
    }
  }

  lemma OneDecodes(a: u8)
    ensures DecodeQuad([Symbol(a / 4), Symbol(a % 4 * 16), '=', '='], true) == Some([a])
  {
    ValOfSymbol(a / 4);
    ValOfSymbol(a % 4 * 16);
    Rejoin(a, 0, 0);
    Trailing(a % 4, 16);
  }

  lemma TwoDecode(a: u8, b: u8)
    ensures DecodeQuad([Symbol(a / 4), Symbol(a % 4 * 16 + b / 16), Symbol(b % 16 * 4), '='], true) == Some([a, b])
  {
    ValOfSymbol(a / 4);
    ValOfSymbol(a % 4 * 16 + b / 16);
    ValOfSymbol(b % 16 * 4);
    Rejoin(a, b, 0);
    Trailing(b % 16, 4);
  }

  lemma ThreeDecode(a: u8, b: u8, c: u8, final: bool)
    ensures DecodeQuad([Symbol(a / 4), Symbol(a % 4 * 16 + b / 16), Symbol(b % 16 * 4 + c / 64), Symbol(c % 64)], final)
         == Some([a, b, c])
  {
    ValOfSymbol(a / 4);
    ValOfSymbol(a % 4 * 16 + b / 16);
    ValOfSymbol(b % 16 * 4 + c / 64);
    ValOfSymbol(c % 64);
    Rejoin(a, b, c);
  }

  lemma Trailing(n: int, unit: int)
    requires unit == 4 || unit == 16
    ensures n * unit % unit == 0
  {
  }

  /** An encoded group decodes to its bytes. */
  lemma GroupDecodes(x: bytes, final: bool)
    requires 1 <= |x| <= 3 && (|x| < 3 ==> final)
    ensures DecodeQuad(Group(x), final) == Some(x)
  {
    if |x| == 1 {
      assert x == [x[0]];
      GroupOfOne(x[0]);
      OneDecodes(x[0]);
    } else if |x| == 2 {
      assert x == [x[0], x[1]];
      GroupOfTwo(x[0], x[1]);
      TwoDecode(x[0], x[1]);
    } else {
      assert x == [x[0], x[1], x[2]];
      GroupOfThree(x[0], x[1], x[2]);
      ThreeDecode(x[0], x[1], x[2], final);
    }
  }

  /** Exactly the encodings decode, each to the bytes it encodes. */
  lemma {:induction false} DecodesIffEncoded(s: seq<char>, x: bytes)
    ensures DecodeQuads(s) == Some(x) <==> s == Encode(x)
    decreases |s|
  {
    if s != [] && |s| >= 4 {
      var (head, tail, final) := (s[..4], s[4..], |s| == 4);
      QuadDecodes(head, final);
      if DecodeQuads(s) == Some(x) {
        var (y, z) := (DecodeQuad(head, final).value, DecodeQuads(tail).value);
        DecodesIffEncoded(tail, z);
        assert s == head + tail;
        if z == [] {
          assert x == y;
        } else {
          assert x[..3] == y && x[3..] == z;
        }
      }
      if s == Encode(x) {
        var y := if |x| <= 3 then x else x[..3];
        var z := if |x| <= 3 then [] else x[3..];
        assert head == Group(y) && tail == Encode(z);
        DecodesIffEncoded(tail, z);
        EncodeLength(z);
        GroupDecodes(y, final);
        assert x == y + z;
      }
    } else {
      EncodeLength(x);
    }
  }

  /** What does not decode within the capacity encodes nothing that would fit. */
  lemma Refused(s: seq<char>, cap: nat)
    requires DecodeQuads(s).Some? ==> |DecodeQuads(s).value| > cap
    ensures forall x: bytes :: |x| <= cap ==> s != Encode(x)
  {
    forall x: bytes | |x| <= cap ensures s != Encode(x) {
      DecodesIffEncoded(s, x);
    }
  }

  lemma NotInQuads(s: seq<char>)
    requires |s| % 4 != 0
    ensures forall x: bytes :: s != Encode(x)
  {
    hide Encode;
    forall x: bytes ensures s != Encode(x) {
      EncodeLength(x);
      assert 4 * Groups(|x|) % 4 == 0;
    }
  }

  /** One round of the decoder's loop: -1, or the new output length. */
  method DecodeOne(q: seq<char>, isFinal: bool, out: array<u8>, outCap: nat, start: nat) returns (len: int)
    requires |q| == 4 && start <= outCap <= out.Length
    modifies out
    ensures out[..start] == old(out[..start]) && out[outCap..] == old(out[outCap..])
    ensures match DecodeQuad(q, isFinal)
            case None => len == -1
            case Some(x) =>
              if start + |x| > outCap then len == -1
              else len == start + |x| && out[start..len] == x
  {
    var outLen := start;
    var pad2 := q[2] == '=';
    var pad3 := q[3] == '=';
    if (pad2 || pad3) && !isFinal { return -1; }
    if pad2 && !pad3 { return -1; }
    if q[0] == '=' || q[1] == '=' { return -1; }
    var a := B64Val(q[0]);
    var b := B64Val(q[1]);
    if a < 0 || b < 0 { return -1; }
    if pad2 {
      if b % 16 != 0 { return -1; }
      if outLen >= outCap { return -1; }
      out[outLen] := Byte0(a, b);
      outLen := outLen + 1;
    } else if pad3 {
      var c := B64Val(q[2]);
      if c < 0 { return -1; }
      if c % 4 != 0 { return -1; }
      if outLen >= outCap { return -1; }
      out[outLen] := Byte0(a, b);
      outLen := outLen + 1;
      if outLen >= outCap { return -1; }
      out[outLen] := Byte1(b, c);
      outLen := outLen + 1;
    } else {
      var c := B64Val(q[2]);
      var d := B64Val(q[3]);
      if c < 0 || d < 0 { return -1; }
      if outLen >= outCap { return -1; }
      out[outLen] := Byte0(a, b);
      outLen := outLen + 1;
      if outLen >= outCap { return -1; }
      out[outLen] := Byte1(b, c);
      outLen := outLen + 1;
      if outLen >= outCap { return -1; }
      out[outLen] := Byte2(c, d);
      outLen := outLen + 1;
    }
    return outLen;
  }

  /** `done` is what the input before quad `k` decodes to. */
  ghost predicate DecodedUpTo(s: seq<char>, k: nat, done: bytes)
    requires 4 * k <= |s|
  {
    DecodeQuads(s) == match DecodeQuads(s[4 * k..]) case None => None case Some(rest) => Some(done + rest)
  }

  lemma NothingDecoded(s: seq<char>)
    ensures DecodedUpTo(s, 0, [])
  {
    assert s[0..] == s;
    if DecodeQuads(s).Some? {
      assert [] + DecodeQuads(s).value == DecodeQuads(s).value;
    }
  }

  lemma AllDecoded(s: seq<char>, k: nat, done: bytes)
    requires 4 * k == |s| && DecodedUpTo(s, k, done)
    ensures s == Encode(done)
  {
    hide Encode;
    assert s[4 * k..] == [] && done + [] == done;
    DecodesIffEncoded(s, done);
  }

  lemma OneMoreQuad(s: seq<char>, k: nat, done: bytes)
    requires 4 * k + 4 <= |s| && DecodedUpTo(s, k, done)
    ensures var x := DecodeQuad(s[4 * k..4 * k + 4], 4 * k + 4 == |s|);
            if x.None? then DecodeQuads(s) == None
            else DecodedUpTo(s, k + 1, done + x.value)
                 && (DecodeQuads(s).Some? ==> |DecodeQuads(s).value| >= |done| + |x.value|)
  {
    var rest := s[4 * k..];
    assert rest[..4] == s[4 * k..4 * k + 4] && rest[4..] == s[4 * (k + 1)..];
    var x := DecodeQuad(rest[..4], |rest| == 4);
    if x.Some? && DecodeQuads(rest[4..]).Some? {
      assert done + (x.value + DecodeQuads(rest[4..]).value) == (done + x.value) + DecodeQuads(rest[4..]).value;
    }
  }

  /** `base64_decode`: -1, or the number of bytes written to the front of `out`. */
  method Base64Decode(input: seq<char>, out: array<u8>, outCap: nat) returns (len: int)
    requires outCap <= out.Length
    modifies out
    ensures -1 <= len <= outCap
    ensures len >= 0 ==> input == Encode(out[..len])
    ensures len < 0 ==> forall x: bytes :: |x| <= outCap ==> input != Encode(x)
    ensures out[outCap..] == old(out[outCap..])
  {
    hide Encode, DecodeQuads, DecodeQuad, DecodedUpTo;
    if |input| % 4 != 0 {
      NotInQuads(input);
      return -1;
    }
    ghost var quads := 0;
    var outLen, i := 0, 0;
    NothingDecoded(input);
    assert out[..0] == [];
    while i < |input|
      invariant i == 4 * quads <= |input| && 0 <= outLen <= outCap
      invariant DecodedUpTo(input, quads, out[..outLen])
      invariant out[outCap..] == old(out[outCap..])
    {
      ghost var done := out[..outLen];
      OneMoreQuad(input, quads, done);
      var n := DecodeOne(input[i..i + 4], i + 4 == |input|, out, outCap, outLen);
      if n < 0 {
        Refused(input, outCap);
        return -1;
      }
      assert out[..n] == done + out[outLen..n];
      outLen := n;
      i := i + 4;
      quads := quads + 1;
    }
    AllDecoded(input, quads, out[..outLen]);
    return outLen;
  }

  /** Different byte strings have different encodings. */
  lemma EncodeInjective(x: bytes, y: bytes)
    requires Encode(x) == Encode(y)
    ensures x == y
  {
    DecodesIffEncoded(Encode(x), x);
    DecodesIffEncoded(Encode(x), y);
  }

  /** Decoding what was encoded, into at least that much room, gives it back. */
  method RoundTrip(x: bytes, text: array<char>, out: array<u8>) returns (len: int)
    requires 4 * Groups(|x|) < text.Length && |x| <= out.Length
    modifies text, out
    ensures len == |x| && out[..len] == x
  {
    Base64Encode(x, text);
    EncodeLength(x);
    len := Base64Decode(text[..4 * Groups(|x|)], out, out.Length);
    if len >= 0 {
      EncodeInjective(x, out[..len]);
    }
  }
}
