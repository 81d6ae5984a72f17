/** What the device knows when it judges a code: storage, clock and keys. */
module Device {
  import opened Words
  import opened Records
  import opened Storage
  import opened Totp

  /** The computations that are not part of this model: one CRC step, and HMAC-SHA-1. */
  datatype Primitives = Primitives(step: CrcStep, hmac: Hmac)

  /** Storage and clock at one moment; files may fail to open or be read, and the clock
      may be unset. */
  datatype Snapshot = Snapshot(mounted: bool, files: Files, unreadable: set<string>, rtc: Option<u32>)

  /** Key `id` is stored intact and enabled, and can be read, and `code` is one of its
      codes now. */
  predicate KeyAccepts(p: Primitives, now: Snapshot, id: u16, code: u32) {
    && now.mounted && FileName(id) !in now.unreadable
    && var key := Lookup(p.step, now.files, id);
    && key.Some?
    && key.value.isChecksumValid
    && key.value.fields.isEnabled
    && Accepts(p.hmac, key.value.fields.secret, now.rtc, code)
  }

  /** The rule of the door, as the function that the mailbox model takes. */
  function DoorRule(p: Primitives): (Snapshot, u16, u32) -> bool {
    (now: Snapshot, id: u16, code: u32) => KeyAccepts(p, now, id, code)
  }

  /** A key is stored under `id` that is intact, enabled and readable, and its HOTP
      value for the clock's step or a neighbouring one is `code`. */
  ghost predicate RightCode(p: Primitives, now: Snapshot, id: u16, code: u32) {
    && now.mounted && FileName(id) !in now.unreadable && now.rtc.Some?
    && var key := Lookup(p.step, now.files, id);
    && key.Some? && key.value.isChecksumValid && key.value.fields.isEnabled
    && exists step: u64 ::
         InWindow(now.rtc.value, step) && Hotp(p.hmac(key.value.fields.secret, PackStep(step))) == code
  }

  lemma RightCodeIff(p: Primitives, now: Snapshot, id: u16, code: u32)
    ensures KeyAccepts(p, now, id, code) <==> RightCode(p, now, id, code)
  {
    hide Lookup, Accepts, InWindow, Hotp, PackStep, FileName;
    var key := Lookup(p.step, now.files, id);
    if key.Some? {
      var secret := key.value.fields.secret;
      if now.rtc.Some? {
        AcceptsIff(p.hmac, secret, now.rtc.value, code);
      } else {
        NoClock(p.hmac, secret, code);
      }
    }
  }

  lemma NoClock(hmac: Hmac, secret: bytes, code: u32)
    ensures !Accepts(hmac, secret, None, code)
  {
  }
}
