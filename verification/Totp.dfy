/** Time-based one-time passwords (RFC 6238 over RFC 4226); HMAC-SHA-1 is a parameter. */
module Totp {
  import opened Words

  const STEP_SECONDS := 30
  const WINDOW := 1

  type Digest = d: bytes | |d| == 20 witness seq(20, _ => 0)
  type Hmac = (bytes, bytes) -> Digest

  /** The step as the eight bytes that `totp_at` fills in by shifting. */
  function PackStep(step: u64): (msg: bytes)
    ensures |msg| == 8
  {
    [(step / 0x100_0000_0000_0000) % 0x100,
     (step / 0x1_0000_0000_0000) % 0x100,
     (step / 0x100_0000_0000) % 0x100,
     (step / 0x1_0000_0000) % 0x100,
     (step / 0x100_0000) % 0x100,
     (step / 0x1_0000) % 0x100,
     (step / 0x100) % 0x100,
     step % 0x100]
  }

  /** `totp_at`: the shifts of the dynamic truncation as products, its masks as remainders. */
  function TotpAt(hmac: Hmac, secret: bytes, step: u64): u32 {
    var d := hmac(secret, PackStep(step));
    var offset := d[19] % 0x10;
    Word(d[offset] % 0x80, d[offset + 1], d[offset + 2], d[offset + 3]) % 1_000_000
  }

  /** HOTP of RFC 4226 section 5.3: the last 31 bits of the four bytes at the
      offset named by the last four bits of the digest, modulo 10^6. */
  function Hotp(d: Digest): nat {
    var offset := d[19] % 0x10;
    BigEndian(d[offset..offset + 4]) % 0x8000_0000 % 1_000_000
  }

  /** Dropping eight bits at a time is the same as dropping them at once. */
  lemma Shifts(step: u64)
    ensures step / 0x1_0000 == step / 0x100 / 0x100
    ensures step / 0x100_0000 == step / 0x1_0000 / 0x100
    ensures step / 0x1_0000_0000 == step / 0x100_0000 / 0x100
    ensures step / 0x100_0000_0000 == step / 0x1_0000_0000 / 0x100
    ensures step / 0x1_0000_0000_0000 == step / 0x100_0000_0000 / 0x100
    ensures step / 0x100_0000_0000_0000 == step / 0x1_0000_0000_0000 / 0x100
    ensures step / 0x100_0000_0000_0000 < 0x100
  {
  }

  /** Bytes that are the successive quotients' remainders spell the last quotient. */
  lemma {:induction false} Spells(b: bytes, quotients: seq<nat>, k: nat)
    requires k < |b| == |quotients|
    requires quotients[0] < 0x100
    requires forall i | 0 <= i < |b| :: b[i] == quotients[i] % 0x100
    requires forall i | 0 < i < |b| :: quotients[i - 1] == quotients[i] / 0x100
    ensures BigEndian(b[..k + 1]) == quotients[k]
  {
    BigEndianLast(b, k);
    if k > 0 {
      Spells(b, quotients, k - 1);
      assert quotients[k - 1] == quotients[k] / 0x100;
    } else {
      assert b[..0] == [];
    }
  }

  /** The message is the step as an eight-byte big-endian number. */
  lemma PackStepIsBigEndian(step: u64)
    ensures BigEndian(PackStep(step)) == step
  {
    hide BigEndian;
    var b := PackStep(step);
    Shifts(step);
    Spells(b, [step / 0x100_0000_0000_0000, step / 0x1_0000_0000_0000, step / 0x100_0000_0000, step / 0x1_0000_0000,
               step / 0x100_0000, step / 0x1_0000, step / 0x100, step], 7);
    assert b[..8] == b;
  }

  /** `totp_at` is HOTP of the big-endian step counter. */
  lemma TotpIsHotp(hmac: Hmac, secret: bytes, step: u64)
    ensures TotpAt(hmac, secret, step) == Hotp(hmac(secret, PackStep(step)))
    ensures BigEndian(PackStep(step)) == step
  {
    PackStepIsBigEndian(step);
    var d := hmac(secret, PackStep(step));
    var offset := d[19] % 0x10;
    var p := d[offset..offset + 4];
    BigEndianFour(p);
    Low31(p[0], p[1], p[2], p[3]);
  }

  lemma Low31(b0: u8, b1: u8, b2: u8, b3: u8)
    ensures Word(b0, b1, b2, b3) % 0x8000_0000 == Word(b0 % 0x80, b1, b2, b3)
  {
    assert Word(b0, b1, b2, b3) == (b0 as int / 0x80) * 0x8000_0000 + Word(b0 % 0x80, b1, b2, b3);
  }

  /** Adding a signed offset to an unsigned 64-bit step wraps. */
  function StepAt(unixTime: u32, delta: int): u64 {
    (unixTime / STEP_SECONDS + delta) % 0x1_0000_0000_0000_0000
  }

  /** Whether `code` is the password of the RTC's step, the one before or the one after. */
  predicate Accepts(hmac: Hmac, secret: bytes, rtc: Option<u32>, code: u32) {
    rtc.Some? && exists delta | -WINDOW <= delta <= WINDOW :: TotpAt(hmac, secret, StepAt(rtc.value, delta)) == code
  }

  /** `totp_verify`, with the RTC reading passed in. */
  method TotpVerify(hmac: Hmac, secret: bytes, rtc: Option<u32>, code: u32) returns (ok: bool)
    ensures ok <==> Accepts(hmac, secret, rtc, code)
  {
    if rtc.None? {
      return false;
    }
    var delta := -WINDOW;
    while delta <= WINDOW
      invariant -WINDOW <= delta <= WINDOW + 1
      invariant forall d | -WINDOW <= d < delta :: TotpAt(hmac, secret, StepAt(rtc.value, d)) != code
    {
      if TotpAt(hmac, secret, StepAt(rtc.value, delta)) == code {
        return true;
      }
      delta := delta + 1;
    }
    return false;
  }

  /** Steps last 30 s. In step 0 the earlier neighbour is the last 64-bit step, not a
      negative one; otherwise the three steps are the plain neighbours. */
  lemma WindowSteps(unixTime: u32)
    ensures StepAt(unixTime, 0) == unixTime / 30
    ensures StepAt(unixTime, 1) == unixTime / 30 + 1
    ensures StepAt(unixTime, -1) == if unixTime < 30 then TWO_64 - 1 else unixTime / 30 - 1
  {
  }

  /** Step `n` is the 30 s step of that time, or one next to it. */
  predicate InWindow(unixTime: u32, n: u64) {
    unixTime / 30 - 1 <= n <= unixTime / 30 + 1 || (unixTime < 30 && n == TWO_64 - 1)
  }

  /** A code is accepted exactly if it is the HOTP value of a step in the window. */
  lemma AcceptsIff(hmac: Hmac, secret: bytes, lock: u32, code: u32)
    ensures Accepts(hmac, secret, Some(lock), code) <==>
            exists n: u64 :: InWindow(lock, n) && Hotp(hmac(secret, PackStep(n))) == code
  {
    hide TotpAt, Hotp, PackStep;
    WindowSteps(lock);
    if Accepts(hmac, secret, Some(lock), code) {
      var delta :| -1 <= delta <= 1 && TotpAt(hmac, secret, StepAt(lock, delta)) == code;
      TotpIsHotp(hmac, secret, StepAt(lock, delta));
      assert InWindow(lock, StepAt(lock, delta));
    }
    if n: u64 :| InWindow(lock, n) && Hotp(hmac(secret, PackStep(n))) == code {
      var delta := if n == TWO_64 - 1 then -1 else n - lock / 30;
      assert StepAt(lock, delta) == n;
      TotpIsHotp(hmac, secret, n);
    }
  }

  /** A code shown by a token is accepted while token and lock are at most one
      step apart. */
  lemma CodeAcceptedWithinOneStep(hmac: Hmac, secret: bytes, token: u32, lock: u32)
    requires -1 <= token / 30 - lock / 30 <= 1
    ensures Accepts(hmac, secret, Some(lock), TotpAt(hmac, secret, token / 30))
  {
    var delta := token / 30 - lock / 30;
    assert StepAt(lock, delta) == token / 30;
  }
}
