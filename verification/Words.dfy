/** Machine words of the firmware, as ranges of the integers, and strings of bytes. */
module Words {
  const TWO_32: nat := 0x1_0000_0000
  const TWO_64: nat := 0x1_0000_0000_0000_0000
  const UINT32_MAX: nat := 0xFFFF_FFFF

  type u8 = x: int | 0 <= x < 0x100
  type u16 = x: int | 0 <= x < 0x1_0000
  type u32 = x: int | 0 <= x < 0x1_0000_0000
  type u64 = x: int | 0 <= x < 0x1_0000_0000_0000_0000

  type i8 = x: int | -0x80 <= x < 0x80
  type i16 = x: int | -0x8000 <= x < 0x8000

  type bytes = seq<u8>

  datatype Option<+T> = None | Some(value: T)

  /** The value of a byte string read with the most significant byte first. */
  function BigEndian(b: bytes): (n: nat) {
    if b == [] then 0 else 0x100 * BigEndian(b[..|b| - 1]) + b[|b| - 1]
  }

  lemma BigEndianLast(b: bytes, k: nat)
    requires k < |b|
    ensures BigEndian(b[..k + 1]) == 0x100 * BigEndian(b[..k]) + b[k]
  {
    assert b[..k + 1][..k] == b[..k];
  }

  function Word(b0: int, b1: int, b2: int, b3: int): int {
    b0 * 0x100_0000 + b1 * 0x1_0000 + b2 * 0x100 + b3
  }

  lemma BigEndianFour(b: bytes)
    requires |b| == 4
    ensures BigEndian(b) == Word(b[0], b[1], b[2], b[3])
  {
    BigEndianLast(b, 0);
    BigEndianLast(b, 1);
    BigEndianLast(b, 2);
    BigEndianLast(b, 3);
    assert b[..4] == b;
  }

  lemma {:induction false} BigEndianInjective(x: bytes, y: bytes)
    requires |x| == |y| && BigEndian(x) == BigEndian(y)
    ensures x == y
  {
    if x != [] {
      var n := |x| - 1;
      assert x[n] == y[n] && BigEndian(x[..n]) == BigEndian(y[..n]);
      BigEndianInjective(x[..n], y[..n]);
      assert x == x[..n] + [x[n]] && y == y[..n] + [y[n]];
    }
  }
}
