/** Key records as bytes: the packed layout, the checksum, and the way back. */
module Records {
  import opened Words

  const KEY_MAX_COUNT := 128
  const KEY_ID_MAX := KEY_MAX_COUNT - 1
  const KEY_NAME_MAX := 16
  const BODY_LEN := 44
  const STORED_LEN := 48

  type Name = b: bytes | |b| == 16 witness seq(16, _ => 0)
  type Secret = b: bytes | |b| == 20 witness seq(20, _ => 0)

  /** The fields of a key, common to flash, backup and memory. */
  datatype Fields = Fields(id: u16, name: Name, secret: Secret, isEnabled: bool, isAdmin: bool, createdAt: u32)

  /** `key_record_t`. */
  datatype KeyRecord = KeyRecord(fields: Fields, isChecksumValid: bool)

  // ------------------------------------------------------------------ little endian

  function Le2(x: u16): (b: bytes)
    ensures |b| == 2
  {
    [x % 0x100, x / 0x100]
  }

  function Le4(x: u32): (b: bytes)
    ensures |b| == 4
  {
    [x % 0x100, x / 0x100 % 0x100, x / 0x1_0000 % 0x100, x / 0x100_0000]
  }

  function FromLe2(b: bytes): u16
    requires |b| == 2
  {
    b[0] as int + 0x100 * b[1] as int
  }

  function FromLe4(b: bytes): u32
    requires |b| == 4
  {
    b[0] as int + 0x100 * b[1] as int + 0x1_0000 * b[2] as int + 0x100_0000 * b[3] as int
  }

  lemma Le2RoundTrip(x: u16)
    ensures FromLe2(Le2(x)) == x
  {
  }

  lemma Le4RoundTrip(x: u32)
    ensures FromLe4(Le4(x)) == x
  {
    assert x / 0x1_0000 == x / 0x100 / 0x100 && x / 0x100_0000 == x / 0x1_0000 / 0x100;
  }

  // ----------------------------------------------------------------------- checksum

  /** One byte of `lfs_crc`, which is not part of this model. */
  type CrcStep = (u32, u8) -> u32

  /** `lfs_crc` folds its step over a buffer. */
  function Crc(step: CrcStep, crc: u32, b: bytes): u32 {
    if b == [] then crc else step(Crc(step, crc, b[..|b| - 1]), b[|b| - 1])
  }

  /** Checksumming piece by piece is checksumming the whole. */
  lemma {:induction false} CrcChains(step: CrcStep, crc: u32, a: bytes, b: bytes)
    ensures Crc(step, Crc(step, crc, a), b) == Crc(step, crc, a + b)
    decreases |b|
  {
    if b == [] {
      assert a + b == a;
    } else {
      assert (a + b)[..|a + b| - 1] == a + b[..|b| - 1];
      CrcChains(step, crc, a, b[..|b| - 1]);
    }
  }

  // ------------------------------------------------------------------------- layout

  function Flag(b: bool): u8 { if b then 1 else 0 }

  /** The packed layout of a record: id, name, secret, two flags, creation time. */
  function Body(f: Fields): (b: bytes)
    ensures |b| == BODY_LEN
  {
    Le2(f.id) + f.name + f.secret + [Flag(f.isEnabled), Flag(f.isAdmin)] + Le4(f.createdAt)
  }

  /** The fields at their offsets; any nonzero byte is a set flag. */
  function FromBody(b: bytes): Fields
    requires |b| == BODY_LEN
  {
    Fields(FromLe2(b[0..2]), b[2..18], b[18..38], b[38] != 0, b[39] != 0, FromLe4(b[40..44]))
  }

  lemma BodyRoundTrip(f: Fields)
    ensures FromBody(Body(f)) == f
  {
    hide Le2, Le4, FromLe2, FromLe4;
    var b := Body(f);
    assert b[0..2] == Le2(f.id) && b[2..18] == f.name && b[18..38] == f.secret && b[40..44] == Le4(f.createdAt);
    Le2RoundTrip(f.id);
    Le4RoundTrip(f.createdAt);
  }

  /** Where the fields lie in the packed record. */
  lemma BodyLayout(f: Fields)
    ensures var b := Body(f);
            && |b| == 44
            && b[0] as int + 0x100 * b[1] as int == f.id
            && b[2..18] == f.name && b[18..38] == f.secret
            && b[38] == (if f.isEnabled then 1 else 0) && b[39] == (if f.isAdmin then 1 else 0)
            && BigEndian([b[43], b[42], b[41], b[40]]) == f.createdAt
  {
    var b := Body(f);
    Le4Bytes(f.createdAt);
    assert b[40..44] == Le4(f.createdAt);
    hide BigEndian;
    assert [b[43], b[42], b[41], b[40]] == [b[40..44][3], b[40..44][2], b[40..44][1], b[40..44][0]];
  }

  /** Little endian is big endian backwards. */
  lemma Le4Bytes(x: u32)
    ensures var b := Le4(x); BigEndian([b[3], b[2], b[1], b[0]]) == x
  {
    var b := Le4(x);
    BigEndianFour([b[3], b[2], b[1], b[0]]);
    Le4RoundTrip(x);
  }

  lemma FromLe4Bytes(b: bytes)
    requires |b| == 4
    ensures FromLe4(b) == BigEndian([b[3], b[2], b[1], b[0]])
  {
    BigEndianFour([b[3], b[2], b[1], b[0]]);
  }

  /** `name[KEY_NAME_MAX - 1] = '\0'`. */
  function Terminate(f: Fields): Fields {
    f.(name := f.name[..KEY_NAME_MAX - 1] + [0])
  }

  /** `key_checksum`, one `lfs_crc` call for each field as it lies in memory. */
  function KeyChecksum(step: CrcStep, b: bytes): u32
    requires |b| == BODY_LEN
  {
    var c1 := Crc(step, UINT32_MAX, b[0..2]);
    var c2 := Crc(step, c1, b[2..18]);
    var c3 := Crc(step, c2, b[18..38]);
    var c4 := Crc(step, c3, b[38..39]);
    var c5 := Crc(step, c4, b[39..40]);
    Crc(step, c5, b[40..44])
  }

  /** The chained checksum is one over the whole packed record. */
  lemma KeyChecksumCoversBody(step: CrcStep, b: bytes)
    requires |b| == BODY_LEN
    ensures KeyChecksum(step, b) == Crc(step, UINT32_MAX, b)
  {
    hide Crc;
    CrcChains(step, UINT32_MAX, b[0..2], b[2..18]);
    CrcChains(step, UINT32_MAX, b[0..18], b[18..38]);
    CrcChains(step, UINT32_MAX, b[0..38], b[38..39]);
    CrcChains(step, UINT32_MAX, b[0..39], b[39..40]);
    CrcChains(step, UINT32_MAX, b[0..40], b[40..44]);
    assert b[0..2] + b[2..18] == b[0..18] && b[0..18] + b[18..38] == b[0..38];
    assert b[0..38] + b[38..39] == b[0..39] && b[0..39] + b[39..40] == b[0..40] && b[0..40] + b[40..44] == b;
  }

  /** `to_stored`: the record as it goes to flash. */
  function ToStored(step: CrcStep, f: Fields): (b: bytes)
    ensures |b| == STORED_LEN
  {
    Body(f) + Le4(KeyChecksum(step, Body(f)))
  }

  /** `to_record`: what is read back from flash. */
  function ToRecord(step: CrcStep, b: bytes): KeyRecord
    requires |b| == STORED_LEN
  {
    var body := b[..BODY_LEN];
    KeyRecord(Terminate(FromBody(body)), FromLe4(b[BODY_LEN..]) == KeyChecksum(step, body))
  }

  /** Reading back what was written gives a valid record of the same fields, the
      name cut off at fifteen bytes. */
  lemma StoredRoundTrip(step: CrcStep, f: Fields)
    ensures ToRecord(step, ToStored(step, f)) == KeyRecord(f.(name := f.name[..15] + [0]), true)
  {
    hide Body, KeyChecksum, Le4, FromLe4, FromBody;
    var b := ToStored(step, f);
    assert b[..BODY_LEN] == Body(f) && b[BODY_LEN..] == Le4(KeyChecksum(step, Body(f)));
    BodyRoundTrip(f);
    Le4RoundTrip(KeyChecksum(step, Body(f)));
  }

  // ---------------------------------------------------------------------- corruption

  /** The CRC step tells registers and bytes apart, as that of `lfs_crc` does. */
  ghost predicate Distinguishes(step: CrcStep) {
    && (forall c: u32, b: u8, b': u8 | step(c, b) == step(c, b') :: b == b')
    && (forall c: u32, c': u32, b: u8 | step(c, b) == step(c', b) :: c == c')
  }

  lemma {:induction false} CrcInjective(step: CrcStep, c: u32, c': u32, b: bytes)
    requires Distinguishes(step) && Crc(step, c, b) == Crc(step, c', b)
    ensures c == c'
  {
    if b != [] {
      CrcInjective(step, c, c', b[..|b| - 1]);
    }
  }

  /** One byte more or another byte in a place changes the checksum. */
  lemma CrcDetects(step: CrcStep, c: u32, b: bytes, i: nat, x: u8)
    requires Distinguishes(step) && i < |b| && x != b[i]
    ensures Crc(step, c, b[i := x]) != Crc(step, c, b)
  {
    var (head, tail) := (b[..i], b[i + 1..]);
    var changed := b[i := x];
    assert b == head + ([b[i]] + tail) && changed == head + ([x] + tail);
    CrcChains(step, c, head, [b[i]] + tail);
    CrcChains(step, c, head, [x] + tail);
    var before := Crc(step, c, head);
    CrcChains(step, before, [b[i]], tail);
    CrcChains(step, before, [x], tail);
    CrcOne(step, before, b[i]);
    CrcOne(step, before, x);
    if Crc(step, c, changed) == Crc(step, c, b) {
      CrcInjective(step, step(before, b[i]), step(before, x), tail);
    }
  }

  lemma CrcOne(step: CrcStep, c: u32, x: u8)
    ensures Crc(step, c, [x]) == step(c, x)
  {
    assert [x][..0] == [];
    assert Crc(step, c, []) == c;
  }

  /** A stored record reads as valid exactly if its last four bytes are the CRC, from
      all ones, of the 44 before them, so that one changed byte of the record or of
      its checksum makes it invalid. */
  lemma ChangedByteDetected(step: CrcStep, b: bytes, i: nat, x: u8)
    requires |b| == 48
    ensures ToRecord(step, b).isChecksumValid <==>
              BigEndian([b[47], b[46], b[45], b[44]]) == Crc(step, 0xFFFF_FFFF, b[..44])
    ensures Distinguishes(step) && ToRecord(step, b).isChecksumValid && i < 48 && x != b[i] ==>
              !ToRecord(step, b[i := x]).isChecksumValid
  {
    ValidIs(step, b);
    if Distinguishes(step) && i < 48 && x != b[i] {
      var changed := b[i := x];
      ValidIs(step, changed);
      if i < 44 {
        assert changed[..44] == b[..44][i := x] && changed[44..] == b[44..];
        CrcDetects(step, 0xFFFF_FFFF, b[..44], i, x);
      } else {
        assert changed[..44] == b[..44];
        assert b[44..][i - 44] != changed[44..][i - 44];
        FromLe4Injective(b[44..], changed[44..]);
      }
    }
  }

  lemma ValidIs(step: CrcStep, b: bytes)
    requires |b| == 48
    ensures ToRecord(step, b).isChecksumValid <==> FromLe4(b[44..]) == Crc(step, 0xFFFF_FFFF, b[..44])
    ensures FromLe4(b[44..]) == BigEndian([b[47], b[46], b[45], b[44]])
  {
    KeyChecksumCoversBody(step, b[..44]);
    FromLe4Bytes(b[44..]);
    hide BigEndian, FromBody, KeyChecksum, Crc;
    assert [b[44..][3], b[44..][2], b[44..][1], b[44..][0]] == [b[47], b[46], b[45], b[44]];
  }

  lemma FromLe4Injective(a: bytes, b: bytes)
    requires |a| == |b| == 4
    ensures FromLe4(a) == FromLe4(b) ==> a == b
  {
    FromLe4Bytes(a);
    FromLe4Bytes(b);
    hide BigEndian, FromLe4;
    var (ra, rb) := ([a[3], a[2], a[1], a[0]], [b[3], b[2], b[1], b[0]]);
    if BigEndian(ra) == BigEndian(rb) {
      BigEndianInjective(ra, rb);
      assert ra[0] == rb[0] && ra[1] == rb[1] && ra[2] == rb[2] && ra[3] == rb[3];
    }
  }
}
