/** `cmd_login`: who may enter admin mode, and what that means for a whole run. */
module Login {
  import opened Words
  import opened Records
  import opened Storage
  import opened Backup
  import opened Totp
  import opened Device
  import S = Session
  import T = SessionTrace

  // if the clock stays unset, login opens after five minutes
  const BOOT_BYPASS_WINDOW_US := 300_000_000

  /** What `cmd_login` consults: storage and clock, how listing the keys goes, the
      Wi-Fi settings and whether they can be read, whether the clock was set when
      first asked, and the time since boot. */
  datatype World = World(now: Snapshot, dir: Directory, wifiStored: bool, wifiReadable: bool, rtcSet: bool,
                         uptimeUs: u64)

  predicate AdminListed(step: CrcStep, files: Files, order: seq<string>) {
    exists r | r in Listing(step, files, order, KEY_MAX_COUNT) :: UsableAdmin(r)
  }

  predicate UsableAdmin(r: KeyRecord) {
    r.fields.isAdmin && r.fields.isEnabled && r.isChecksumValid
  }

  /** The presented key is an admin key that the code unlocks. */
  predicate Presented(p: Primitives, w: World, id: u16, code: u32) {
    KeyAccepts(p, w.now, id, code) && Lookup(p.step, w.now.files, id).value.fields.isAdmin
  }

  /** The scan of `cmd_login` comes across a usable admin key. */
  predicate AdminSeen(step: CrcStep, w: World) {
    AdminListed(step, w.now.files, Seen(w.dir))
  }

  /** The login rule: storage must be mounted; then the device is open as long as
      it looks not set up (no Wi-Fi settings read, no clock after five minutes, no
      admin key seen), and otherwise asks for an admin key's code. */
  predicate Permits(p: Primitives, w: World, id: u16, code: u32) {
    w.now.mounted &&
    if !(w.wifiStored && w.wifiReadable) then true
    else if !w.rtcSet then w.uptimeUs >= BOOT_BYPASS_WINDOW_US
    else AdminSeen(p.step, w) ==> Presented(p, w, id, code)
  }

  function Rule(p: Primitives): (World, u16, u32) -> bool {
    (w: World, id: u16, code: u32) => Permits(p, w, id, code)
  }

  /** `cmd_login` from the listing on, with id and code parsed. */
  method CmdLogin(session: S.AdminSession, p: Primitives, store: Store, w: World, id: u16, code: u32, now: u64)
      returns (granted: bool)
    requires store.step == p.step && store.mounted == w.now.mounted && store.files == w.now.files
    requires Entries(w.dir.order, w.now.files)
    modifies session
    ensures granted <==> Permits(p, w, id, code)
    ensures session.State() == if granted then S.Grant(now) else old(session.State())
  {
    var keys := store.KeyList(w.dir, KEY_MAX_COUNT);
    var count := if keys.Some? then |keys.value| else -1;
    var anyAdmin := false;
    var i := 0;
    while i < count
      invariant 0 <= i && (count >= 0 ==> i <= count)
      invariant !anyAdmin && (keys.Some? ==> forall j | 0 <= j < i :: !UsableAdmin(keys.value[j]))
    {
      if keys.value[i].fields.isAdmin && keys.value[i].fields.isEnabled && keys.value[i].isChecksumValid {
        anyAdmin := true;
        break;
      }
      i := i + 1;
    }
    assert w.now.mounted ==> (anyAdmin <==> AdminSeen(p.step, w)) by {
      if anyAdmin {
        assert keys.value[i] in Listing(p.step, w.now.files, Seen(w.dir), KEY_MAX_COUNT);
      }
    }
    if !store.mounted {
      return false;
    }
    var wifi := w.wifiStored && w.wifiReadable;  // storage_wifi_get
    if !wifi {
      session.AdminGrant(now);
      return true;
    }
    if !w.rtcSet {
      if w.uptimeUs >= BOOT_BYPASS_WINDOW_US {
        session.AdminGrant(now);
        return true;
      }
      return false;
    }
    if !anyAdmin {
      session.AdminGrant(now);
      return true;
    }
    var key := store.KeyGet(id, FileName(id) !in w.now.unreadable);
    if key.None? {
      return false;
    }
    if !key.value.fields.isEnabled || !key.value.fields.isAdmin || !key.value.isChecksumValid {
      return false;
    }
    var ok := TotpVerify(p.hmac, key.value.fields.secret, w.now.rtc, code);
    if !ok {
      return false;
    }
    session.AdminGrant(now);
    return true;
  }

  /** In a well-formed store the listing shows an admin key exactly if it sees the file
      of one. */
  lemma AdminListedIff(step: CrcStep, files: Files, order: seq<string>)
    requires WellFormed(files) && Entries(order, files)
    ensures AdminListed(step, files, order) <==> exists id: u16 :: AdminAt(step, files, id) && FileName(id) in order
  {
    hide Lookup, Listing, FileRecord, ParseId, FileName;
    ListingComplete(step, files, order);
    var records := Listing(step, files, order, KEY_MAX_COUNT);
    if AdminListed(step, files, order) {
      var i :| 0 <= i < |records| && UsableAdmin(records[i]);
      assert order[i] in order;
      FileIsLookup(step, files, order[i]);
      assert AdminAt(step, files, ParseId(order[i]));
    }
    if id: u16 :| AdminAt(step, files, id) && FileName(id) in order {
      var i :| 0 <= i < |order| && order[i] == FileName(id);
      FileIsLookup(step, files, order[i]);
      NameRoundTrip(id);
      assert UsableAdmin(records[i]);
    }
  }

  /** Wi-Fi, clock and storage are in place, and storage holds an admin key. */
  ghost predicate SetUp(p: Primitives, w: World) {
    && w.now.mounted && w.wifiStored && w.rtcSet
    && WellFormed(w.now.files) && HasAdmin(p.step, w.now.files) && Entries(w.dir.order, w.now.files)
  }

  /** No admin key's file is seen: the directory does not open, or every such file
      is not returned by it or cannot be read. */
  ghost predicate AdminsHidden(p: Primitives, w: World) {
    !w.dir.openable
    || forall id: u16 | AdminAt(p.step, w.now.files, id) ::
         FileName(id) !in w.dir.order || FileName(id) in w.dir.unreadable
  }

  /** Whatever is typed logs in exactly if storage is mounted and the device looks not
      set up (the Wi-Fi settings are not read, or the clock was not set five minutes
      after boot), or with the clock set no admin key is seen, or the typed id and code
      are right for an admin key. */
  lemma PermitsIff(p: Primitives, w: World, id: u16, code: u32)
    requires WellFormed(w.now.files) && Entries(w.dir.order, w.now.files)
    ensures Permits(p, w, id, code) <==>
              && w.now.mounted
              && (|| !w.wifiStored || !w.wifiReadable
                  || (!w.rtcSet && w.uptimeUs >= 300_000_000)
                  || (w.rtcSet && AdminsHidden(p, w))
                  || (&& w.rtcSet && RightCode(p, w.now, id, code)
                      && Lookup(p.step, w.now.files, id).value.fields.isAdmin))
  {
    RightCodeIff(p, w.now, id, code);
    hide AdminAt, WellFormed, AdminListed, HasAdmin, Entries, FileName, Seen, Accepts, Lookup;
    SeenEntries(w.dir, w.now.files);
    AdminListedIff(p.step, w.now.files, Seen(w.dir));
  }

  /** On a device that is set up, whatever is typed logs in exactly if it presents an
      admin key, or the Wi-Fi settings cannot be read, or no admin key is seen. */
  lemma SetUpPermitsIff(p: Primitives, w: World, id: u16, code: u32)
    requires SetUp(p, w)
    ensures Permits(p, w, id, code) <==> Presented(p, w, id, code) || !w.wifiReadable || AdminsHidden(p, w)
  {
    PermitsIff(p, w, id, code);
    RightCodeIff(p, w.now, id, code);
    hide Permits, RightCode, KeyAccepts, WellFormed, HasAdmin, Entries, AdminsHidden, Lookup;
  }

  /** A device that is set up, with the admin key `f` in its mounted, well-formed
      store. Any id and code log in if the key directory does not open, if it opens
      and is read to its end but the file of `f` cannot be read, or if all keys are
      seen but the Wi-Fi settings cannot be read. */
  lemma FailuresOpen(p: Primitives, f: Fields, rtc: u32, id: u16, code: u32)
      returns (shut: World, skipped: World, offline: World)
    requires IsAdmin(f) && f.id <= KEY_ID_MAX
    ensures forall w | w in [shut, skipped, offline] ::
              SetUp(p, w) && AdminAt(p.step, w.now.files, f.id) && Permits(p, w, id, code)
    ensures !shut.dir.openable && shut.wifiReadable
    ensures skipped.dir.openable && Lists(skipped.dir.order, skipped.now.files) && skipped.wifiReadable
    ensures Lists(Seen(offline.dir), offline.now.files)
  {
    hide FileName, Lookup, Listing, ToStored;
    var files, dir := OneFile(p.step, f);
    assert AdminAt(p.step, files, f.id);
    var now := Snapshot(true, files, {}, Some(rtc));
    var order := [FileName(f.id)];
    shut := World(now, Directory(false, [], {}), true, true, true, 0);
    skipped := World(now, Directory(true, order, {FileName(f.id)}), true, true, true, 0);
    offline := World(now, Directory(true, order, {}), true, false, true, 0);
    assert Readable(order, {}) == order;
    assert Lists(order, files);
    NothingSeen(p, shut, id, code);
    OnlyAdmin(p.step, f, files);
    NothingSeen(p, skipped, id, code);
  }

  lemma NothingSeen(p: Primitives, w: World, id: u16, code: u32)
    requires SetUp(p, w) && AdminsHidden(p, w)
    ensures Permits(p, w, id, code)
  {
    SetUpPermitsIff(p, w, id, code);
  }

  lemma OnlyAdmin(step: CrcStep, f: Fields, files: Files)
    requires files == Save(step, map[], f)
    ensures forall id: u16 | AdminAt(step, files, id) :: id == f.id
  {
    hide FileName, ToStored, ToRecord;
    forall id: u16 | AdminAt(step, files, id) ensures id == f.id {
      LookupAfterSave(step, map[], f, id);
    }
  }

  /** On a device that is set up, every admin-gated handler runs in a session granted
      less than five minutes before, and opened with an accepted code of an enabled,
      valid admin key unless the Wi-Fi settings could not be read or no admin key
      was seen. */
  lemma GatedNeedsAdminKey(p: Primitives, inputs: seq<S.Input<World>>, k: nat) returns (l: nat, g: nat)
    requires var trace := S.Run(Rule(p), inputs).1;
             k < |trace| && trace[k].Started? && trace[k].command.requiresAdmin
    ensures var trace := S.Run(Rule(p), inputs).1;
            && T.Live(trace[..k], l, g)
            && trace[k].at < trace[g].at + 300_000_000
            && var w := trace[l].world;
            && w.now.mounted
            && (SetUp(p, w) ==> Presented(p, w, trace[l].id, trace[l].code) || !w.wifiReadable || AdminsHidden(p, w))
  {
    hide S.Run, T.Live, AdminListed, SetUp, AdminSeen, Presented, AdminsHidden;
    l, g := T.GatedNeedsSession(Rule(p), inputs, k);
    var e := S.Run(Rule(p), inputs).1[l];
    if SetUp(p, e.world) {
      SetUpPermitsIff(p, e.world, e.id, e.code);
    }
  }
}
