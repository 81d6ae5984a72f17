/** Backup blobs: export of the valid keys, validation, and import that replaces the store. */
module Backup {
  import opened Words
  import opened Records
  import opened Storage

  const MAGIC: u32 := 0x4C4C_5348
  const VERSION: u32 := 1
  const HEADER_LEN := 16

  // --------------------------------------------------------------------- blob format

  /** The records, packed one after the other. */
  function EncodeKeys(keys: seq<Fields>): (b: bytes)
    ensures |b| == BODY_LEN * |keys|
  {
    if keys == [] then [] else EncodeKeys(keys[..|keys| - 1]) + Body(keys[|keys| - 1])
  }

  function Header(count: u32, checksum: u32): (b: bytes)
    ensures |b| == HEADER_LEN
  {
    Le4(MAGIC) + Le4(VERSION) + Le4(count) + Le4(checksum)
  }

  /** A backup of these keys. */
  function Blob(step: CrcStep, keys: seq<Fields>): bytes
    requires |keys| <= KEY_MAX_COUNT
  {
    Header(|keys|, Crc(step, UINT32_MAX, EncodeKeys(keys))) + EncodeKeys(keys)
  }

  function BlobMagic(b: bytes): u32 requires |b| >= HEADER_LEN { FromLe4(b[0..4]) }
  function BlobVersion(b: bytes): u32 requires |b| >= HEADER_LEN { FromLe4(b[4..8]) }
  function BlobCount(b: bytes): u32 requires |b| >= HEADER_LEN { FromLe4(b[8..12]) }
  function BlobChecksum(b: bytes): u32 requires |b| >= HEADER_LEN { FromLe4(b[12..16]) }

  predicate Holds(b: bytes, count: nat) {
    |b| >= HEADER_LEN + BODY_LEN * count
  }

  /** The `i`th record, as its fields lie in the blob. */
  function BlobFields(b: bytes, i: nat): Fields
    requires Holds(b, i + 1)
  {
    FromBody(b[HEADER_LEN + BODY_LEN * i..HEADER_LEN + BODY_LEN * i + BODY_LEN])
  }

  /** `to_key_record` for the first `count` records. */
  function BlobKeys(b: bytes, count: nat): (keys: seq<Fields>)
    requires Holds(b, count)
    ensures |keys| == count
  {
    if count == 0 then [] else BlobKeys(b, count - 1) + [Terminate(BlobFields(b, count - 1))]
  }

  predicate IsAdmin(f: Fields) { f.isEnabled && f.isAdmin }

  /** Every check that `backup_import` makes before it touches the store. */
  predicate ValidBlob(step: CrcStep, b: bytes) {
    && |b| >= HEADER_LEN
    && BlobMagic(b) == MAGIC && BlobVersion(b) == VERSION
    && 1 <= BlobCount(b) <= KEY_MAX_COUNT
    && Holds(b, BlobCount(b))
    && BlobChecksum(b) == Crc(step, UINT32_MAX, b[HEADER_LEN..HEADER_LEN + BODY_LEN * BlobCount(b)])
    && (forall i | 0 <= i < BlobCount(b) :: 0 in BlobFields(b, i).name)
    && (forall i | 0 <= i < BlobCount(b) :: BlobFields(b, i).id <= KEY_ID_MAX)
    && (exists i | 0 <= i < BlobCount(b) :: IsAdmin(BlobFields(b, i)))
  }

  // ---------------------------------------------------------------------- validation

  method NamesTerminated(b: bytes, count: nat) returns (ok: bool)
    requires Holds(b, count)
    ensures ok <==> forall i | 0 <= i < count :: 0 in BlobFields(b, i).name
  {
    hide FromBody;
    var i := 0;
    while i < count
      invariant 0 <= i <= count
      invariant forall k | 0 <= k < i :: 0 in BlobFields(b, k).name
    {
      var name := BlobFields(b, i).name;
      var terminated := false;
      var j := 0;
      while j < KEY_NAME_MAX && !terminated
        invariant 0 <= j <= KEY_NAME_MAX
        invariant terminated ==> 0 in name
        invariant !terminated ==> forall k | 0 <= k < j :: name[k] != 0
      {
        if name[j] == 0 {
          terminated := true;
        }
        j := j + 1;
      }
      if !terminated { return false; }
      i := i + 1;
    }
    return true;
  }

  method IdsInRange(b: bytes, count: nat) returns (ok: bool)
    requires Holds(b, count)
    ensures ok <==> forall i | 0 <= i < count :: BlobFields(b, i).id <= KEY_ID_MAX
  {
    hide FromBody;
    var i := 0;
    while i < count
      invariant 0 <= i <= count
      invariant forall k | 0 <= k < i :: BlobFields(b, k).id <= KEY_ID_MAX
    {
      if BlobFields(b, i).id > KEY_ID_MAX { return false; }
      i := i + 1;
    }
    return true;
  }

  method AnyAdmin(b: bytes, count: nat) returns (found: bool)
    requires Holds(b, count)
    ensures found <==> exists i | 0 <= i < count :: IsAdmin(BlobFields(b, i))
  {
    hide FromBody, IsAdmin;
    var i := 0;
    while i < count
      invariant 0 <= i <= count
      invariant forall k | 0 <= k < i :: !IsAdmin(BlobFields(b, k))
    {
      if IsAdmin(BlobFields(b, i)) { return true; }
      i := i + 1;
    }
    return false;
  }

  /** The checks of `backup_import`, in its order. */
  method Validate(step: CrcStep, b: bytes) returns (ok: bool)
    ensures ok <==> ValidBlob(step, b)
  {
    if |b| < HEADER_LEN { return false; }
    if BlobMagic(b) != MAGIC { return false; }
    if BlobVersion(b) != VERSION { return false; }
    var count := BlobCount(b);
    if count > KEY_MAX_COUNT { return false; }
    if count < 1 { return false; }
    var expected := HEADER_LEN + BODY_LEN * count;
    if |b| < expected { return false; }
    hide FromLe4, BlobFields, Crc, IsAdmin, BlobChecksum, BlobCount, BlobMagic, BlobVersion;
    if BlobChecksum(b) != Crc(step, UINT32_MAX, b[HEADER_LEN..expected]) { return false; }
    var terminated := NamesTerminated(b, count);
    if !terminated { return false; }
    var inRange := IdsInRange(b, count);
    if !inRange { return false; }
    ok := AnyAdmin(b, count);
  }

  // -------------------------------------------------------------------------- import

  /** Saving keys in order; a later key replaces an earlier one of the same id. */
  function SaveAll(step: CrcStep, files: Files, keys: seq<Fields>): Files {
    if keys == [] then files
    else Save(step, SaveAll(step, files, keys[..|keys| - 1]), keys[|keys| - 1])
  }

  /** Deleting what a listing found, in its order. */
  function DeleteAll(files: Files, records: seq<KeyRecord>, removals: nat -> Removal): Files {
    if records == [] then files
    else
      var last := |records| - 1;
      Deleted(DeleteAll(files, records[..last], removals), records[last].fields.id, removals(last))
  }

  /** The files after the delete loop. */
  function Cleared(step: CrcStep, files: Files, dir: Directory, removals: nat -> Removal): Files {
    DeleteAll(files, Listing(step, files, Seen(dir), KEY_MAX_COUNT), removals)
  }

  /** Saving keys in order up to the first that is reported as not saved. */
  function WriteKeys(step: CrcStep, files: Files, keys: seq<Fields>, writes: nat -> Write): (Files, bool) {
    if keys == [] then (files, true)
    else
      var last := |keys| - 1;
      var (before, ok) := WriteKeys(step, files, keys[..last], writes);
      if ok then (Written(step, before, keys[last], writes(last)), Reported(writes(last))) else (before, false)
  }

  /** The delete loop. */
  method DeleteExisting(store: Store, dir: Directory, removals: nat -> Removal)
    requires Entries(dir.order, store.files)
    modifies store`files
    ensures store.files == if store.mounted then Cleared(store.step, old(store.files), dir, removals)
                           else old(store.files)
  {
    var existing := store.KeyList(dir, KEY_MAX_COUNT);
    if existing.None? {
      return;
    }
    var records := existing.value;
    hide Deleted, Listing;
    var i := 0;
    assert records[..0] == [];
    while i < |records|
      invariant 0 <= i <= |records| && store.files == DeleteAll(old(store.files), records[..i], removals)
    {
      assert records[..i + 1][..i] == records[..i];
      var deleted := store.KeyDelete(records[i].fields.id, removals(i));
      i := i + 1;
    }
    assert records[..i] == records;
  }

  /** The write loop: stops at the first key that cannot be saved. */
  method WriteAll(store: Store, b: bytes, count: nat, writes: nat -> Write) returns (ok: bool)
    requires Holds(b, count) && forall i | 0 <= i < count :: BlobFields(b, i).id <= KEY_ID_MAX
    modifies store`files
    ensures if store.mounted then
              (store.files, ok) == WriteKeys(store.step, old(store.files), BlobKeys(b, count), writes)
            else store.files == old(store.files) && (ok <==> count == 0)
  {
    hide FromBody, Written;
    var i := 0;
    while i < count
      invariant 0 <= i <= count && (i > 0 ==> store.mounted)
      invariant (store.files, true) == WriteKeys(store.step, old(store.files), BlobKeys(b, i), writes)
    {
      var rec := Terminate(BlobFields(b, i));
      assert BlobKeys(b, i + 1)[..i] == BlobKeys(b, i);
      var saved := store.KeySave(rec, writes(i));
      if !saved {
        if store.mounted {
          BlobKeysPrefix(b, count, i + 1);
          StopsThere(store.step, old(store.files), BlobKeys(b, count), writes, i + 1);
        }
        return false;
      }
      i := i + 1;
    }
    return true;
  }

  lemma {:induction false} BlobKeysPrefix(b: bytes, count: nat, k: nat)
    requires Holds(b, count) && k <= count
    ensures BlobKeys(b, count)[..k] == BlobKeys(b, k)
  {
    hide FromBody;
    if k < count {
      BlobKeysPrefix(b, count - 1, k);
      assert BlobKeys(b, count)[..k] == BlobKeys(b, count - 1)[..k];
    }
  }

  /** Once a write has failed nothing more is written. */
  lemma {:induction false} StopsThere(step: CrcStep, files: Files, keys: seq<Fields>, writes: nat -> Write, k: nat)
    requires k <= |keys| && !WriteKeys(step, files, keys[..k], writes).1
    ensures WriteKeys(step, files, keys, writes) == WriteKeys(step, files, keys[..k], writes)
    decreases |keys|
  {
    hide Written;
    if k == |keys| {
      assert keys[..k] == keys;
    } else {
      assert keys[..|keys| - 1][..k] == keys[..k];
      StopsThere(step, files, keys[..|keys| - 1], writes, k);
    }
  }

  /** `backup_import`. `dir`, `removals` and `writes` are what the file system does:
      what it lists, and how far deletions and writes get. */
  method BackupImport(store: Store, b: bytes, dir: Directory, removals: nat -> Removal, writes: nat -> Write)
      returns (ok: bool)
    requires Entries(dir.order, store.files)
    modifies store`files
    ensures !ValidBlob(store.step, b) || !store.mounted ==> !ok && store.files == old(store.files)
    ensures ValidBlob(store.step, b) && store.mounted ==>
              (store.files, ok) == WriteKeys(store.step, Cleared(store.step, old(store.files), dir, removals),
                                             BlobKeys(b, BlobCount(b)), writes)
    ensures ValidBlob(store.step, b) && store.mounted ==>
              (ok <==> forall i | 0 <= i < BlobCount(b) :: Reported(writes(i)))
    ensures ok && WellFormed(old(store.files)) && Lists(Seen(dir), old(store.files))
            && (forall i :: removals(i).removed) ==>
              var keys := BlobKeys(b, BlobCount(b));
              store.files == SaveAll(store.step, map[], keys) <==> AllLanded(store.step, keys, writes)
  {
    var valid := Validate(store.step, b);
    if !valid {
      return false;
    }
    hide Cleared, WriteKeys, BlobKeys, SaveAll, WellFormed, Seen, Lists, BlobFields, Crc, Reported, AllLanded;
    ImportOutcome(store.step, store.files, dir, removals, BlobKeys(b, BlobCount(b)), writes);
    DeleteExisting(store, dir, removals);
    ok := WriteAll(store, b, BlobCount(b), writes);
  }

  // ------------------------------------------------------- what an import leaves behind

  /** The last of the keys with this id. */
  function LastWith(keys: seq<Fields>, id: u16): Option<Fields> {
    if keys == [] then None
    else if keys[|keys| - 1].id == id then Some(keys[|keys| - 1])
    else LastWith(keys[..|keys| - 1], id)
  }

  /** After the keys are written, every id finds the last key written under it,
      valid and field for field, or what it found before. */
  lemma {:induction false} LastWins(step: CrcStep, files: Files, keys: seq<Fields>, id: u16)
    ensures Lookup(step, SaveAll(step, files, keys), id) ==
              match LastWith(keys, id)
              case None => Lookup(step, files, id)
              case Some(f) => Some(KeyRecord(f.(name := f.name[..15] + [0]), true))
    decreases |keys|
  {
    if keys != [] {
      var before := keys[..|keys| - 1];
      LastWins(step, files, before, id);
      hide Lookup, Save;
      LookupAfterSave(step, SaveAll(step, files, before), keys[|keys| - 1], id);
    }
  }

  /** The ids in the listing of a well-formed store lead back to the entries read. */
  lemma NamesOfListing(step: CrcStep, files: Files, order: seq<string>)
    requires WellFormed(files) && Entries(order, files)
    ensures var records := Listing(step, files, order, KEY_MAX_COUNT);
            && |records| == |order|
            && (forall i | 0 <= i < |order| :: FileName(records[i].fields.id) == order[i])
  {
    ListingComplete(step, files, order);
    hide FileRecord, Listing;
    forall i | 0 <= i < |order| ensures FileName(Listing(step, files, order, KEY_MAX_COUNT)[i].fields.id) == order[i] {
      assert order[i] in order;
      FileIsLookup(step, files, order[i]);
    }
  }

  /** Some listed record has the id of this name, and its deletion removes the file. */
  ghost predicate Removes(records: seq<KeyRecord>, removals: nat -> Removal, name: string) {
    exists i :: 0 <= i < |records| && FileName(records[i].fields.id) == name && removals(i).removed
  }

  lemma RemovesLast(records: seq<KeyRecord>, removals: nat -> Removal, name: string)
    requires records != []
    ensures var last := |records| - 1;
            Removes(records, removals, name) <==>
              Removes(records[..last], removals, name)
              || (FileName(records[last].fields.id) == name && removals(last).removed)
  {
    hide FileName;
    var last := |records| - 1;
    if i :| 0 <= i < last && FileName(records[..last][i].fields.id) == name && removals(i).removed {
      assert FileName(records[i].fields.id) == name;
    }
    if i :| 0 <= i < |records| && FileName(records[i].fields.id) == name && removals(i).removed && i < last {
      assert records[..last][i] == records[i];
    }
  }

  /** The delete loop removes exactly the files named after the ids inside the listed
      records whose removal succeeds, in any store. */
  lemma {:induction false} DeletedNames(files: Files, records: seq<KeyRecord>, removals: nat -> Removal, name: string)
    ensures name in DeleteAll(files, records, removals) <==> name in files && !Removes(records, removals, name)
    decreases |records|
  {
    if records != [] {
      hide FileName, Removes, Overwritten;
      DeletedNames(files, records[..|records| - 1], removals, name);
      RemovesLast(records, removals, name);
    } else {
      hide FileName;
    }
  }

  /** In a well-formed store these are the files that the listing sees and whose
      removal succeeds ... */
  lemma ClearedExactly(step: CrcStep, files: Files, dir: Directory, removals: nat -> Removal, name: string)
    requires WellFormed(files) && Entries(dir.order, files)
    ensures name in Cleared(step, files, dir, removals) <==>
            name in files && !exists i :: 0 <= i < |Seen(dir)| && Seen(dir)[i] == name && removals(i).removed
  {
    hide Listing, WellFormed, Entries, FileName, Seen;
    SeenEntries(dir, files);
    NamesOfListing(step, files, Seen(dir));
    DeletedNames(files, Listing(step, files, Seen(dir), KEY_MAX_COUNT), removals, name);
  }

  /** ... hence all of them if the listing sees every file and every removal succeeds ... */
  lemma ClearedWellFormed(step: CrcStep, files: Files, dir: Directory, removals: nat -> Removal)
    requires WellFormed(files) && Lists(Seen(dir), files) && Entries(dir.order, files)
    requires forall i :: removals(i).removed
    ensures Cleared(step, files, dir, removals) == map[]
  {
    hide Cleared, WellFormed, Seen;
    forall name ensures name !in Cleared(step, files, dir, removals) {
      ClearedExactly(step, files, dir, removals, name);
      if name in files {
        assert name in Seen(dir);
        var i :| 0 <= i < |Seen(dir)| && Seen(dir)[i] == name;
        assert removals(i).removed;
      }
    }
  }

  /** ... while a file that an earlier deletion overwrote but could not remove stays,
      however the listing and the removals go: the record in it has lost its id. */
  lemma OverwrittenFileStays(step: CrcStep, files: Files, id: u16, r: Removal, dir: Directory, removals: nat -> Removal)
    requires WellFormed(files) && FileName(id) in files && id != 0
    requires !r.removed && r.pieces > 0
    requires Entries(dir.order, Deleted(files, id, r))
    ensures FileName(id) in Cleared(step, Deleted(files, id, r), dir, removals)
  {
    var after := Deleted(files, id, r);
    var records := Listing(step, after, Seen(dir), KEY_MAX_COUNT);
    DeletedNames(after, records, removals, FileName(id));
    SeenEntries(dir, after);
    hide Listing, Deleted, FileName, Seen, WellFormed;
    forall i | 0 <= i < |records| ensures FileName(records[i].fields.id) != FileName(id) {
      assert records[i] in records;
      ListingFrom(step, after, Seen(dir), KEY_MAX_COUNT, records[i]);
      var name :| name in Seen(dir) && Lookup(step, after, ParseId(name)) == Some(records[i]);
      NotTheId(step, files, id, r, name, records[i]);
      NameRoundTrip(records[i].fields.id);
      NameRoundTrip(id);
    }
  }

  lemma NotTheId(step: CrcStep, files: Files, id: u16, r: Removal, name: string, rec: KeyRecord)
    requires WellFormed(files) && FileName(id) in files && id != 0 && !r.removed && r.pieces > 0
    requires name in Deleted(files, id, r) && Lookup(step, Deleted(files, id, r), ParseId(name)) == Some(rec)
    ensures rec.fields.id != id
  {
    hide KeyChecksum, FileName;
    NameRoundTrip(id);
    if name == FileName(id) {
      var b := Overwritten(files[name], r.pieces);
      assert b[..STORED_LEN][..BODY_LEN][0..2] == [0, 0];
    } else {
      FileIsLookup(step, files, name);
    }
  }

  // ------------------------------------------------------------- how an import ends

  predicate AllReported(writes: nat -> Write, n: nat) {
    forall i | 0 <= i < n :: Reported(writes(i))
  }

  /** The write loop succeeds exactly if every write is reported as done; if every
      write is done, all keys have been saved. */
  lemma {:induction false} AllWritten(step: CrcStep, files: Files, keys: seq<Fields>, writes: nat -> Write)
    ensures WriteKeys(step, files, keys, writes).1 <==> AllReported(writes, |keys|)
    ensures (forall i | 0 <= i < |keys| :: writes(i).Done?) ==>
              WriteKeys(step, files, keys, writes) == (SaveAll(step, files, keys), true)
    decreases |keys|
  {
    hide ToStored;
    if keys != [] {
      AllWritten(step, files, keys[..|keys| - 1], writes);
    }
  }

  /** How many keys the write loop tries: up to the first reported as not saved. */
  function Tried(keys: seq<Fields>, writes: nat -> Write): (t: nat)
    ensures t <= |keys|
  {
    if keys == [] then 0
    else if AllReported(writes, |keys| - 1) then |keys|
    else Tried(keys[..|keys| - 1], writes)
  }

  /** That is all of them in an import that succeeds, and all up to and including the
      first failure in one that does not. */
  lemma {:induction false} TriedIs(keys: seq<Fields>, writes: nat -> Write, k: nat)
    requires k < |keys| && AllReported(writes, k)
    ensures !Reported(writes(k)) ==> Tried(keys, writes) == k + 1
    ensures AllReported(writes, |keys|) ==> Tried(keys, writes) == |keys|
    decreases |keys|
  {
    if k < |keys| - 1 {
      TriedIs(keys[..|keys| - 1], writes, k);
    }
  }

  /** Writing keys without looking at the outcome. */
  function Attempted(step: CrcStep, files: Files, keys: seq<Fields>, writes: nat -> Write): Files {
    if keys == [] then files
    else
      var last := |keys| - 1;
      Written(step, Attempted(step, files, keys[..last], writes), keys[last], writes(last))
  }

  lemma {:induction false} WriteKeysTries(step: CrcStep, files: Files, keys: seq<Fields>, writes: nat -> Write)
    ensures WriteKeys(step, files, keys, writes) ==
              (Attempted(step, files, keys[..Tried(keys, writes)], writes), AllReported(writes, |keys|))
    decreases |keys|
  {
    hide Written;
    if keys == [] {
      assert keys[..0] == [];
    } else {
      var init := keys[..|keys| - 1];
      WriteKeysTries(step, files, init, writes);
      if AllReported(writes, |init|) {
        if init != [] {
          TriedIs(init, writes, 0);
        }
        assert init[..|init|] == init && keys[..|keys|] == keys;
      } else {
        assert keys[..Tried(init, writes)] == init[..Tried(init, writes)];
      }
    }
  }

  /** The last write that had a handle on the file of this name, or -1. */
  function LastTry(keys: seq<Fields>, writes: nat -> Write, name: string): (i: int)
    ensures -1 <= i < |keys|
    ensures i >= 0 ==> FileName(keys[i].id) == name && !writes(i).NoHandle?
    ensures forall j | i < j < |keys| :: FileName(keys[j].id) != name || writes(j).NoHandle?
  {
    if keys == [] then -1
    else
      var last := |keys| - 1;
      if FileName(keys[last].id) == name && !writes(last).NoHandle? then last
      else LastTry(keys[..last], writes, name)
  }

  function At(files: Files, name: string): Option<bytes> {
    if name in files then Some(files[name]) else None
  }

  lemma {:induction false} AttemptedAt(step: CrcStep, files: Files, keys: seq<Fields>, writes: nat -> Write,
                                       name: string)
    ensures var i := LastTry(keys, writes, name);
            At(Attempted(step, files, keys, writes), name) ==
              if i < 0 then At(files, name) else Leaves(step, keys[i], writes(i))
    decreases |keys|
  {
    hide FileName, Leaves;
    if keys != [] {
      AttemptedAt(step, files, keys[..|keys| - 1], writes, name);
    }
  }

  /** The record in what a file holds. */
  function Found(step: CrcStep, content: Option<bytes>): Option<KeyRecord> {
    if content.Some? && |content.value| >= STORED_LEN then Some(ToRecord(step, content.value[..STORED_LEN])) else None
  }

  /** A committed record is found valid, field for field. */
  lemma FoundStored(step: CrcStep, f: Fields)
    ensures Found(step, Some(ToStored(step, f))) == Some(KeyRecord(Terminate(f), true))
  {
    StoredRoundTrip(step, f);
    hide ToStored, ToRecord;
    assert ToStored(step, f)[..STORED_LEN] == ToStored(step, f);
  }

  /** A reported write stored the key: it was committed, or left just that record. */
  predicate Landed(step: CrcStep, f: Fields, w: Write) {
    w.Done? || w == Unsynced(Some(ToStored(step, f)))
  }

  lemma LandedLeaves(step: CrcStep, f: Fields, w: Write)
    requires Landed(step, f, w)
    ensures Leaves(step, f, w) == Some(ToStored(step, f))
  {
  }

  lemma LookupIs(step: CrcStep, files: Files, id: u16)
    ensures Lookup(step, files, id) == Found(step, At(files, FileName(id)))
  {
    hide FileName, ToRecord;
  }

  /** After an import, successful or not, and over any store: every id finds the record
      in what the last try at its file left, which is the key if that was stored, or
      what it found before. */
  lemma ImportLookup(step: CrcStep, files: Files, keys: seq<Fields>, writes: nat -> Write, id: u16)
    ensures var i := LastTry(keys[..Tried(keys, writes)], writes, FileName(id));
            Lookup(step, WriteKeys(step, files, keys, writes).0, id) ==
              if i < 0 then Lookup(step, files, id) else Found(step, Leaves(step, keys[i], writes(i)))
    ensures var i := LastTry(keys[..Tried(keys, writes)], writes, FileName(id));
            i >= 0 && Landed(step, keys[i], writes(i)) ==>
              Lookup(step, WriteKeys(step, files, keys, writes).0, id) ==
                Some(KeyRecord(keys[i].(name := keys[i].name[..15] + [0]), true))
  {
    hide FileName, ToRecord, ToStored, WriteKeys, Attempted, Tried, LastTry, Leaves, Landed;
    var i := LastTry(keys[..Tried(keys, writes)], writes, FileName(id));
    WriteKeysTries(step, files, keys, writes);
    AttemptedAt(step, files, keys[..Tried(keys, writes)], writes, FileName(id));
    LookupIs(step, WriteKeys(step, files, keys, writes).0, id);
    LookupIs(step, files, id);
    if i >= 0 && Landed(step, keys[i], writes(i)) {
      LandedLeaves(step, keys[i], writes(i));
      FoundStored(step, keys[i]);
    }
  }

  predicate AdminRecord(r: Option<KeyRecord>) {
    r.Some? && r.value.isChecksumValid && IsAdmin(r.value.fields)
  }

  /** The last try at the file of key `i` left an enabled admin there. */
  predicate AdminLeft(step: CrcStep, tried: seq<Fields>, writes: nat -> Write, i: nat)
    requires i < |tried|
  {
    && LastTry(tried, writes, FileName(tried[i].id)) == i
    && AdminRecord(Found(step, Leaves(step, tried[i], writes(i))))
  }

  /** The store had an enabled admin in a file that no write touched. */
  predicate AdminKept(step: CrcStep, files: Files, tried: seq<Fields>, writes: nat -> Write, id: u16) {
    AdminAt(step, files, id) && LastTry(tried, writes, FileName(id)) < 0
  }

  lemma AdminAfter(step: CrcStep, files: Files, keys: seq<Fields>, writes: nat -> Write, id: u16)
    ensures var tried := keys[..Tried(keys, writes)];
            var i := LastTry(tried, writes, FileName(id));
            AdminAt(step, WriteKeys(step, files, keys, writes).0, id) <==>
              if i < 0 then AdminKept(step, files, tried, writes, id) else AdminLeft(step, tried, writes, i)
  {
    hide Lookup, WriteKeys, Tried, LastTry, FileName, Found, Leaves;
    ImportLookup(step, files, keys, writes, id);
  }

  /** An import, successful or not, over any store leaves an enabled admin exactly if
      the last try at some key's file left one there, or the store had one in a file
      that was not touched. */
  lemma ImportAdminIff(step: CrcStep, files: Files, keys: seq<Fields>, writes: nat -> Write)
    ensures var tried := keys[..Tried(keys, writes)];
            HasAdmin(step, WriteKeys(step, files, keys, writes).0) <==>
              || (exists i | 0 <= i < |tried| :: AdminLeft(step, tried, writes, i))
              || (exists id: u16 :: AdminKept(step, files, tried, writes, id))
  {
    hide AdminAt, WriteKeys, Tried, LastTry, FileName, Found, Leaves;
    var tried := keys[..Tried(keys, writes)];
    if id: u16 :| AdminAt(step, WriteKeys(step, files, keys, writes).0, id) {
      AdminAfter(step, files, keys, writes, id);
    }
    if i :| 0 <= i < |tried| && AdminLeft(step, tried, writes, i) {
      AdminAfter(step, files, keys, writes, tried[i].id);
    }
    if id: u16 :| AdminKept(step, files, tried, writes, id) {
      AdminAfter(step, files, keys, writes, id);
    }
  }

  // -------------------------------------------------------- what a success is worth

  /** Every write that no later one of the same id follows stored its key. */
  predicate AllLanded(step: CrcStep, keys: seq<Fields>, writes: nat -> Write) {
    forall i | 0 <= i < |keys| && (forall j | i < j < |keys| :: keys[j].id != keys[i].id) ::
      Landed(step, keys[i], writes(i))
  }

  lemma {:induction false} SavedAt(step: CrcStep, files: Files, keys: seq<Fields>, writes: nat -> Write, name: string)
    requires AllReported(writes, |keys|)
    ensures var i := LastTry(keys, writes, name);
            At(SaveAll(step, files, keys), name) ==
              if i < 0 then At(files, name) else Some(ToStored(step, keys[i]))
    decreases |keys|
  {
    hide FileName, ToStored;
    if keys != [] {
      SavedAt(step, files, keys[..|keys| - 1], writes, name);
    }
  }

  lemma ReportedAt(step: CrcStep, files: Files, keys: seq<Fields>, writes: nat -> Write, name: string)
    requires AllReported(writes, |keys|)
    ensures var i := LastTry(keys, writes, name);
            At(WriteKeys(step, files, keys, writes).0, name) ==
              if i < 0 then At(files, name) else Leaves(step, keys[i], writes(i))
  {
    hide WriteKeys, Attempted, LastTry, Leaves;
    WriteKeysTries(step, files, keys, writes);
    if keys != [] {
      TriedIs(keys, writes, 0);
    }
    assert keys[..|keys|] == keys;
    AttemptedAt(step, files, keys, writes, name);
  }

  lemma SameFiles(a: Files, b: Files)
    requires forall name :: At(a, name) == At(b, name)
    ensures a == b
  {
    forall name ensures name in a <==> name in b {
      assert At(a, name) == At(b, name);
    }
    forall name | name in a ensures a[name] == b[name] {
      assert At(a, name) == At(b, name);
    }
  }

  lemma LastOfId(keys: seq<Fields>, writes: nat -> Write, i: nat)
    requires i < |keys| && AllReported(writes, |keys|)
    ensures LastTry(keys, writes, FileName(keys[i].id)) == i <==> forall j | i < j < |keys| :: keys[j].id != keys[i].id
  {
    hide FileName;
    var last := LastTry(keys, writes, FileName(keys[i].id));
    NameRoundTrip(keys[i].id);
    forall j | 0 <= j < |keys| ensures FileName(keys[j].id) == FileName(keys[i].id) <==> keys[j].id == keys[i].id {
      NameRoundTrip(keys[j].id);
    }
  }

  /** If the files named by the keys are as if all had been saved, every last write of
      an id stored its key. */
  lemma SavedMeansLanded(step: CrcStep, files: Files, base: Files, keys: seq<Fields>, writes: nat -> Write)
    requires AllReported(writes, |keys|)
    requires WriteKeys(step, files, keys, writes).0 == SaveAll(step, base, keys)
    ensures AllLanded(step, keys, writes)
  {
    hide WriteKeys, SaveAll, LastTry, FileName, ToStored;
    forall i | 0 <= i < |keys| && (forall j | i < j < |keys| :: keys[j].id != keys[i].id)
      ensures Landed(step, keys[i], writes(i))
    {
      LastOfId(keys, writes, i);
      ReportedAt(step, files, keys, writes, FileName(keys[i].id));
      SavedAt(step, base, keys, writes, FileName(keys[i].id));
      assert Reported(writes(i));
    }
  }

  /** A successful import into any store has saved all its keys if and only if the last
      write of every id was committed, or left just the record it was to write. */
  lemma ImportStoresIff(step: CrcStep, files: Files, keys: seq<Fields>, writes: nat -> Write)
    requires AllReported(writes, |keys|)
    ensures WriteKeys(step, files, keys, writes).0 == SaveAll(step, files, keys) <==> AllLanded(step, keys, writes)
  {
    hide WriteKeys, SaveAll, LastTry, FileName, ToStored, AllLanded;
    var (after, saved) := (WriteKeys(step, files, keys, writes).0, SaveAll(step, files, keys));
    if after == saved {
      SavedMeansLanded(step, files, files, keys, writes);
    }
    if AllLanded(step, keys, writes) {
      forall name ensures At(after, name) == At(saved, name) {
        ReportedAt(step, files, keys, writes, name);
        SavedAt(step, files, keys, writes, name);
        LandedAt(step, keys, writes, name);
      }
      SameFiles(after, saved);
    }
  }

  lemma LandedAt(step: CrcStep, keys: seq<Fields>, writes: nat -> Write, name: string)
    requires AllReported(writes, |keys|) && AllLanded(step, keys, writes)
    ensures var i := LastTry(keys, writes, name);
            i >= 0 ==> Leaves(step, keys[i], writes(i)) == Some(ToStored(step, keys[i]))
  {
    hide LastTry, FileName, ToStored;
    var i := LastTry(keys, writes, name);
    if i >= 0 {
      LastOfId(keys, writes, i);
      assert Landed(step, keys[i], writes(i));
    }
  }

  /** A device on which no commit succeeds or leaves a file: every write is reported,
      the import into an emptied store succeeds, and leaves nothing. */
  lemma {:induction false} UnsyncedReported(step: CrcStep, keys: seq<Fields>, writes: nat -> Write)
    requires forall i | 0 <= i < |keys| :: writes(i) == Unsynced(None)
    ensures WriteKeys(step, map[], keys, writes) == (map[], true)
    decreases |keys|
  {
    hide FileName;
    if keys != [] {
      UnsyncedReported(step, keys[..|keys| - 1], writes);
      var none: Files := map[];
      assert none - {FileName(keys[|keys| - 1].id)} == none;
    }
  }

  lemma ImportOutcome(step: CrcStep, files: Files, dir: Directory, removals: nat -> Removal, keys: seq<Fields>,
                      writes: nat -> Write)
    requires Entries(dir.order, files)
    ensures var (after, ok) := WriteKeys(step, Cleared(step, files, dir, removals), keys, writes);
            && (ok <==> AllReported(writes, |keys|))
            && (ok && WellFormed(files) && Lists(Seen(dir), files) && (forall i :: removals(i).removed) ==>
                  (after == SaveAll(step, map[], keys) <==> AllLanded(step, keys, writes)))
  {
    hide Cleared, WriteKeys, SaveAll, WellFormed, Seen, AllLanded;
    AllWritten(step, Cleared(step, files, dir, removals), keys, writes);
    if AllReported(writes, |keys|) && WellFormed(files) && Lists(Seen(dir), files) && forall i :: removals(i).removed {
      ClearedWellFormed(step, files, dir, removals);
      ImportStoresIff(step, map[], keys, writes);
    }
  }

  lemma NothingFound(step: CrcStep, id: u16)
    ensures Lookup(step, map[], id) == None
  {
  }

  lemma LastIndex(keys: seq<Fields>, id: u16) returns (i: nat)
    requires LastWith(keys, id).Some? && IsAdmin(LastWith(keys, id).value)
    ensures i < |keys| && keys[i].id == id && Survives(keys, i)
  {
    LastWithFinds(keys, id);
    i :| 0 <= i < |keys| && keys[i] == LastWith(keys, id).value && forall j | i < j < |keys| :: keys[j].id != id;
  }

  lemma SurvivorIsLast(keys: seq<Fields>, i: nat)
    requires i < |keys| && Survives(keys, i)
    ensures LastWith(keys, keys[i].id) == Some(keys[i]) && IsAdmin(keys[i])
  {
    LastWithFinds(keys, keys[i].id);
  }

  lemma SaveOver(step: CrcStep, files: Files, more: Files, f: Fields)
    ensures Save(step, files + more, f) == files + Save(step, more, f)
  {
    hide ToStored, FileName;
  }

  /** Saving over other files keeps those under other names. */
  lemma {:induction false} SavedOver(step: CrcStep, files: Files, keys: seq<Fields>)
    ensures SaveAll(step, files, keys) == files + SaveAll(step, map[], keys)
    decreases |keys|
  {
    if keys != [] {
      hide ToStored, FileName;
      SavedOver(step, files, keys[..|keys| - 1]);
      SaveOver(step, files, SaveAll(step, map[], keys[..|keys| - 1]), keys[|keys| - 1]);
    }
  }

  /** Some key goes by this file name. */
  ghost predicate Named(keys: seq<Fields>, name: string) {
    exists i | 0 <= i < |keys| :: FileName(keys[i].id) == name
  }

  lemma NamedLast(keys: seq<Fields>, name: string)
    requires keys != []
    ensures Named(keys, name) <==> Named(keys[..|keys| - 1], name) || FileName(keys[|keys| - 1].id) == name
  {
    hide FileName;
    var init := keys[..|keys| - 1];
    if i :| 0 <= i < |init| && FileName(init[i].id) == name {
      assert keys[i] == init[i];
    }
    if i :| 0 <= i < |keys| && FileName(keys[i].id) == name && i < |init| {
      assert init[i] == keys[i];
    }
  }

  lemma {:induction false} SavedNames(step: CrcStep, keys: seq<Fields>, name: string)
    ensures name in SaveAll(step, map[], keys) <==> Named(keys, name)
    decreases |keys|
  {
    if keys != [] {
      hide FileName, ToStored, Named;
      SavedNames(step, keys[..|keys| - 1], name);
      NamedLast(keys, name);
    }
  }

  /** What a successful import leaves in a well-formed store are exactly its own keys if
      and only if the last write of every id stored its key, and every earlier file is
      written anew, or was seen by the listing and then removed. */
  lemma ImportReplacesIff(step: CrcStep, files: Files, dir: Directory, removals: nat -> Removal, keys: seq<Fields>,
                          writes: nat -> Write)
    requires WellFormed(files) && Entries(dir.order, files) && AllReported(writes, |keys|)
    ensures WriteKeys(step, Cleared(step, files, dir, removals), keys, writes).0 == SaveAll(step, map[], keys) <==>
            && AllLanded(step, keys, writes)
            && forall name | name in files ::
                 Named(keys, name) || exists i :: 0 <= i < |Seen(dir)| && Seen(dir)[i] == name && removals(i).removed
  {
    hide Cleared, WellFormed, Named, Entries, Seen, WriteKeys, SaveAll, AllLanded;
    var base := Cleared(step, files, dir, removals);
    if WriteKeys(step, base, keys, writes).0 == SaveAll(step, map[], keys) {
      SavedMeansLanded(step, base, map[], keys, writes);
    }
    ImportStoresIff(step, base, keys, writes);
    SavedReplacesIff(step, files, dir, removals, keys);
  }

  lemma SavedReplacesIff(step: CrcStep, files: Files, dir: Directory, removals: nat -> Removal, keys: seq<Fields>)
    requires WellFormed(files) && Entries(dir.order, files)
    ensures SaveAll(step, Cleared(step, files, dir, removals), keys) == SaveAll(step, map[], keys) <==>
            forall name | name in files ::
              Named(keys, name) || exists i :: 0 <= i < |Seen(dir)| && Seen(dir)[i] == name && removals(i).removed
  {
    hide Cleared, WellFormed, Named, Entries, Seen;
    var (base, m) := (Cleared(step, files, dir, removals), SaveAll(step, map[], keys));
    SavedOver(step, base, keys);
    forall name ensures name in m <==> Named(keys, name) {
      SavedNames(step, keys, name);
    }
    forall name ensures name in base <==>
                name in files && !exists i :: 0 <= i < |Seen(dir)| && Seen(dir)[i] == name && removals(i).removed {
      ClearedExactly(step, files, dir, removals, name);
    }
    MergedIs(base, m);
    assert base.Keys <= m.Keys <==> forall name | name in base :: name in m;
  }

  /** A store of one key, listed in full; its removal fails. An import of other keys
      reports success, and the old key is still there, valid and field for field. */
  lemma RemovalIgnored(step: CrcStep, f: Fields, removals: nat -> Removal, keys: seq<Fields>, writes: nat -> Write)
      returns (files: Files, dir: Directory)
    requires f.id <= KEY_ID_MAX && forall i | 0 <= i < |keys| :: keys[i].id != f.id
    requires (forall i :: removals(i) == Removal(0, false)) && AllReported(writes, |keys|)
    ensures files == Save(step, map[], f) && WellFormed(files) && Lists(Seen(dir), files)
    ensures var (after, ok) := WriteKeys(step, Cleared(step, files, dir, removals), keys, writes);
            ok && Lookup(step, after, f.id) == Some(KeyRecord(f.(name := f.name[..15] + [0]), true))
  {
    hide *;
    files, dir := OneFile(step, f);
    ClearsNothing(step, files, dir, removals);
    AllWritten(step, files, keys, writes);
    ImportLookup(step, files, keys, writes, f.id);
    NotTried(keys, writes, f.id);
  }

  lemma NotTried(keys: seq<Fields>, writes: nat -> Write, id: u16)
    requires forall i | 0 <= i < |keys| :: keys[i].id != id
    ensures LastTry(keys[..Tried(keys, writes)], writes, FileName(id)) < 0
  {
    hide FileName;
    var i := LastTry(keys[..Tried(keys, writes)], writes, FileName(id));
    if i >= 0 {
      NameRoundTrip(id);
      NameRoundTrip(keys[i].id);
    }
  }

  /** A store of one key, and a listing that sees it. */
  lemma OneFile(step: CrcStep, f: Fields) returns (files: Files, dir: Directory)
    requires f.id <= KEY_ID_MAX
    ensures files == Save(step, map[], f) && WellFormed(files) && Lists(Seen(dir), files)
    ensures Lookup(step, files, f.id) == Some(KeyRecord(f.(name := f.name[..15] + [0]), true))
  {
    hide FileName, ToStored, Lookup;
    var name := FileName(f.id);
    files, dir := Save(step, map[], f), Directory(true, [name], {});
    assert Readable([name], {}) == [name];
    SaveKeepsWellFormed(step, map[], f);
    LookupAfterSave(step, map[], f, f.id);
  }

  lemma ClearsNothing(step: CrcStep, files: Files, dir: Directory, removals: nat -> Removal)
    requires forall i :: removals(i) == Removal(0, false)
    ensures Cleared(step, files, dir, removals) == files
  {
    hide Listing, Seen;
    DeletesNothing(files, Listing(step, files, Seen(dir), KEY_MAX_COUNT), removals);
  }

  lemma {:induction false} DeletesNothing(files: Files, records: seq<KeyRecord>, removals: nat -> Removal)
    requires forall i :: removals(i) == Removal(0, false)
    ensures DeleteAll(files, records, removals) == files
    decreases |records|
  {
    hide FileName;
    if records != [] {
      DeletesNothing(files, records[..|records| - 1], removals);
      var id := records[|records| - 1].fields.id;
      if FileName(id) in files {
        assert Overwritten(files[FileName(id)], 0) == files[FileName(id)];
      }
    }
  }

  lemma MergedIs(base: Files, m: Files)
    ensures base + m == m <==> base.Keys <= m.Keys
  {
    assert (base + m).Keys == base.Keys + m.Keys;
    if base.Keys <= m.Keys {
      assert base + m == m;
    }
  }

  lemma {:induction false} BlobKeysAt(b: bytes, count: nat, i: nat)
    requires Holds(b, count) && i < count
    ensures BlobKeys(b, count)[i] == Terminate(BlobFields(b, i))
  {
    hide FromBody;
    if i < count - 1 {
      BlobKeysAt(b, count - 1, i);
    }
  }

  lemma {:induction false} LastWithFinds(keys: seq<Fields>, id: u16)
    ensures match LastWith(keys, id)
            case None => forall i | 0 <= i < |keys| :: keys[i].id != id
            case Some(f) => f.id == id && exists i :: 0 <= i < |keys| && keys[i] == f &&
                                                      forall j | i < j < |keys| :: keys[j].id != id
    decreases |keys|
  {
    if keys != [] {
      var before := keys[..|keys| - 1];
      LastWithFinds(before, id);
      if keys[|keys| - 1].id != id && LastWith(before, id).Some? {
        var i :| && 0 <= i < |before| && before[i] == LastWith(before, id).value
                 && forall j | i < j < |before| :: before[j].id != id;
        assert keys[i] == LastWith(keys, id).value;
      }
    }
  }

  /** Some id finds a valid, enabled admin record. */
  ghost predicate HasAdmin(step: CrcStep, files: Files) {
    exists id: u16 :: AdminAt(step, files, id)
  }

  predicate AdminAt(step: CrcStep, files: Files, id: u16) {
    var r := Lookup(step, files, id);
    r.Some? && r.value.isChecksumValid && IsAdmin(r.value.fields)
  }

  /** An enabled admin key that no later key of the same id replaces. */
  predicate Survives(keys: seq<Fields>, i: nat)
    requires i < |keys|
  {
    IsAdmin(keys[i]) && forall j | i < j < |keys| :: keys[j].id != keys[i].id
  }

  /** Saving keys over any store leaves an enabled admin in it exactly if one of them
      is not replaced by a later one, or the store had one under an id that none of
      them has. The scan before the import asks for neither. */
  lemma AdminIffSurvives(step: CrcStep, base: Files, keys: seq<Fields>)
    ensures HasAdmin(step, SaveAll(step, base, keys)) <==>
              (exists i | 0 <= i < |keys| :: Survives(keys, i))
              || exists id: u16 :: AdminAt(step, base, id) && LastWith(keys, id).None?
  {
    hide Lookup, Survives, SaveAll, LastWith;
    var files := SaveAll(step, base, keys);
    if HasAdmin(step, files) {
      var id: u16 :| AdminAt(step, files, id);
      LastWins(step, base, keys, id);
      if LastWith(keys, id).Some? {
        var i := LastIndex(keys, id);
      }
    }
    if i :| 0 <= i < |keys| && Survives(keys, i) {
      LastWins(step, base, keys, keys[i].id);
      SurvivorIsLast(keys, i);
      assert AdminAt(step, files, keys[i].id);
    }
    if id: u16 :| AdminAt(step, base, id) && LastWith(keys, id).None? {
      LastWins(step, base, keys, id);
      assert AdminAt(step, files, id);
    }
  }

  /** Saving over an emptied store, only the keys themselves count. */
  lemma AdminIffSurvivesAlone(step: CrcStep, keys: seq<Fields>)
    ensures HasAdmin(step, SaveAll(step, map[], keys)) <==> exists i | 0 <= i < |keys| :: Survives(keys, i)
  {
    hide SaveAll, Survives, HasAdmin;
    AdminIffSurvives(step, map[], keys);
    forall id: u16 ensures !AdminAt(step, map[], id) {
      NothingFound(step, id);
    }
  }

  /** A valid blob with pairwise distinct ids leaves one, over any store. */
  lemma DistinctIdsKeepAdmin(step: CrcStep, base: Files, b: bytes)
    requires ValidBlob(step, b)
    requires forall i, j | 0 <= i < j < BlobCount(b) :: BlobFields(b, i).id != BlobFields(b, j).id
    ensures HasAdmin(step, SaveAll(step, base, BlobKeys(b, BlobCount(b))))
  {
    hide FromBody, FromLe4, Crc, SaveAll, HasAdmin;
    var count := BlobCount(b);
    var keys := BlobKeys(b, count);
    forall i | 0 <= i < count ensures keys[i] == Terminate(BlobFields(b, i)) {
      BlobKeysAt(b, count, i);
    }
    var i :| 0 <= i < count && IsAdmin(BlobFields(b, i));
    assert Survives(keys, i);
    AdminIffSurvives(step, base, keys);
  }

  // -------------------------------------------------------------------------- export

  /** The fields of the records whose checksum is valid. */
  function ValidKeys(records: seq<KeyRecord>): (keys: seq<Fields>)
    ensures |keys| <= |records|
  {
    if records == [] then []
    else
      var last := records[|records| - 1];
      ValidKeys(records[..|records| - 1]) + if last.isChecksumValid then [last.fields] else []
  }

  /** `memcpy` of the next record behind those already in `buf[HEADER_LEN..end]`. */
  method AppendRecord(buf: array<u8>, end: nat, b: bytes)
    requires HEADER_LEN <= end && end + |b| <= buf.Length
    modifies buf
    ensures buf[HEADER_LEN..end + |b|] == old(buf[HEADER_LEN..end]) + b
    ensures buf[end + |b|..] == old(buf[end + |b|..])
  {
    forall k | 0 <= k < |b| {
      buf[end + k] := b[k];
    }
  }

  /** `memcpy` of the header to the front. */
  method PutHeader(buf: array<u8>, header: bytes, end: nat)
    requires |header| == HEADER_LEN <= end <= buf.Length
    modifies buf
    ensures buf[..end] == header + old(buf[HEADER_LEN..end]) && buf[end..] == old(buf[end..])
  {
    forall k | 0 <= k < HEADER_LEN {
      buf[k] := header[k];
    }
  }

  /** `backup_export`: -1, or the length of the blob written to the front of `buf`. */
  method BackupExport(store: Store, dir: Directory, buf: array<u8>) returns (len: int)
    requires Entries(dir.order, store.files)
    modifies buf
    ensures var records := Listing(store.step, store.files, Seen(dir), KEY_MAX_COUNT);
            if !store.mounted || !dir.openable || buf.Length < HEADER_LEN + BODY_LEN * |records| then
              len == -1 && buf[..] == old(buf[..])
            else
              var blob := Blob(store.step, ValidKeys(records));
              len == |blob| && buf[..len] == blob && buf[len..] == old(buf[len..])
  {
    hide Listing, Body, Crc, EncodeKeys, ValidKeys, Header;
    var listed := store.KeyList(dir, KEY_MAX_COUNT);
    if listed.None? {
      return -1;
    }
    var records := listed.value;
    var needed := HEADER_LEN + BODY_LEN * |records|;
    if buf.Length < needed {
      return -1;
    }
    var exported := 0;
    var i := 0;
    ExportNone(records[..0]);
    while i < |records|
      invariant 0 <= i <= |records| && exported == |ValidKeys(records[..i])|
      invariant buf[HEADER_LEN..HEADER_LEN + BODY_LEN * exported] == EncodeKeys(ValidKeys(records[..i]))
      invariant buf[HEADER_LEN + BODY_LEN * exported..] == old(buf[HEADER_LEN + BODY_LEN * exported..])
    {
      ExportOne(records, i);
      if records[i].isChecksumValid {
        ghost var rest := buf[HEADER_LEN + BODY_LEN * exported..];
        AppendRecord(buf, HEADER_LEN + BODY_LEN * exported, Body(records[i].fields));
        exported := exported + 1;
        assert buf[HEADER_LEN + BODY_LEN * exported..] == rest[BODY_LEN..];
      }
      i := i + 1;
    }
    assert records[..i] == records;
    var end := HEADER_LEN + BODY_LEN * exported;
    var checksum := Crc(store.step, UINT32_MAX, buf[HEADER_LEN..end]);
    PutHeader(buf, Header(exported, checksum), end);
    return end;
  }

  lemma ExportNone(records: seq<KeyRecord>)
    requires records == []
    ensures ValidKeys(records) == [] && EncodeKeys([]) == []
  {
  }

  lemma ExportOne(records: seq<KeyRecord>, i: nat)
    requires i < |records|
    ensures var (before, after) := (ValidKeys(records[..i]), ValidKeys(records[..i + 1]));
            if records[i].isChecksumValid then
              after == before + [records[i].fields]
              && EncodeKeys(after) == EncodeKeys(before) + Body(records[i].fields)
            else after == before
  {
    hide Body;
    assert records[..i + 1][..i] == records[..i];
    var before := ValidKeys(records[..i]);
    assert (before + [records[i].fields])[..|before|] == before;
  }

  // ---------------------------------------------------------------- export and import

  lemma {:induction false} EncodedAt(keys: seq<Fields>, i: nat)
    requires i < |keys|
    ensures EncodeKeys(keys)[BODY_LEN * i..BODY_LEN * i + BODY_LEN] == Body(keys[i])
    decreases |keys|
  {
    hide Body;
    if i < |keys| - 1 {
      var before := keys[..|keys| - 1];
      EncodedAt(before, i);
      assert EncodeKeys(keys)[BODY_LEN * i..BODY_LEN * i + BODY_LEN]
          == EncodeKeys(before)[BODY_LEN * i..BODY_LEN * i + BODY_LEN];
    }
  }

  lemma BlobHeader(step: CrcStep, keys: seq<Fields>)
    requires |keys| <= KEY_MAX_COUNT
    ensures var b := Blob(step, keys);
            && |b| == HEADER_LEN + BODY_LEN * |keys|
            && BlobMagic(b) == MAGIC && BlobVersion(b) == VERSION && BlobCount(b) == |keys|
            && b[HEADER_LEN..HEADER_LEN + BODY_LEN * |keys|] == EncodeKeys(keys)
            && BlobChecksum(b) == Crc(step, UINT32_MAX, EncodeKeys(keys))
  {
    hide Le4, FromLe4, Crc, EncodeKeys;
    var b := Blob(step, keys);
    var crc := Crc(step, UINT32_MAX, EncodeKeys(keys));
    assert b[0..4] == Le4(MAGIC) && b[4..8] == Le4(VERSION) && b[8..12] == Le4(|keys|) && b[12..16] == Le4(crc);
    Le4RoundTrip(MAGIC);
    Le4RoundTrip(VERSION);
    Le4RoundTrip(|keys|);
    Le4RoundTrip(crc);
  }

  /** A blob holds the fields it was made from. */
  lemma BlobFieldsAt(step: CrcStep, keys: seq<Fields>, i: nat)
    requires i < |keys| <= KEY_MAX_COUNT
    ensures Holds(Blob(step, keys), i + 1) && BlobFields(Blob(step, keys), i) == keys[i]
  {
    hide Body, FromBody, Crc, Header;
    var b := Blob(step, keys);
    EncodedAt(keys, i);
    BodyRoundTrip(keys[i]);
    assert b[HEADER_LEN + BODY_LEN * i..HEADER_LEN + BODY_LEN * i + BODY_LEN]
        == EncodeKeys(keys)[BODY_LEN * i..BODY_LEN * i + BODY_LEN];
  }

  lemma {:induction false} ValidKeysAre(records: seq<KeyRecord>, f: Fields)
    ensures f in ValidKeys(records) <==> KeyRecord(f, true) in records
    decreases |records|
  {
    if records != [] {
      ValidKeysAre(records[..|records| - 1], f);
      assert records == records[..|records| - 1] + [records[|records| - 1]];
    }
  }

  /** The keys that the export of a well-formed store contains: exactly the valid
      records whose files the listing sees, each found under its own id, in range and
      with a terminated name. A key whose file is not seen is left out unnoticed. */
  lemma ExportedKeys(step: CrcStep, files: Files, order: seq<string>, f: Fields)
    requires WellFormed(files) && Entries(order, files)
    ensures var keys := ValidKeys(Listing(step, files, order, KEY_MAX_COUNT));
            && (f in keys <==> Lookup(step, files, f.id) == Some(KeyRecord(f, true)) && FileName(f.id) in order)
            && (f in keys ==> f.id <= KEY_ID_MAX && Terminate(f) == f && 0 in f.name)
  {
    var records := Listing(step, files, order, KEY_MAX_COUNT);
    ListingComplete(step, files, order);
    ValidKeysAre(records, f);
    var record := KeyRecord(f, true);
    hide Listing, ValidKeys;
    if record in records {
      var i :| 0 <= i < |records| && records[i] == record;
      assert order[i] in order;
      FileIsLookup(step, files, order[i]);
      assert f.name[KEY_NAME_MAX - 1] == 0;
    }
    if Lookup(step, files, f.id) == Some(record) && FileName(f.id) in order {
      var name := FileName(f.id);
      var i :| 0 <= i < |order| && order[i] == name;
      FileIsLookup(step, files, name);
      NameRoundTrip(f.id);
    }
  }

  /** Exporting a well-formed store and importing the blob into an emptied one leaves
      exactly the checksum-valid records whose files the listing saw, field for field.
      The import accepts the blob exactly if an enabled admin is among them. */
  lemma ExportThenImport(step: CrcStep, files: Files, order: seq<string>, id: u16)
    requires WellFormed(files) && Entries(order, files)
    ensures var keys := ValidKeys(Listing(step, files, order, KEY_MAX_COUNT));
            var b := Blob(step, keys);
            && (ValidBlob(step, b) <==> exists id: u16 :: AdminAt(step, files, id) && FileName(id) in order)
            && BlobCount(b) == |keys| && Holds(b, |keys|)
            && Lookup(step, SaveAll(step, map[], BlobKeys(b, BlobCount(b))), id) ==
                 match Lookup(step, files, id)
                 case None => None
                 case Some(r) => if r.isChecksumValid && FileName(id) in order then Some(r) else None
  {
    hide Listing, ValidKeys, Lookup, WellFormed, Entries, Blob, BlobKeys, SaveAll, LastWith, ValidBlob, AdminAt;
    hide FileName;
    var keys := ValidKeys(Listing(step, files, order, KEY_MAX_COUNT));
    BlobHeader(step, keys);
    ExportIsValid(step, files, order);
    ImportedKeys(step, keys, files, order);
    LastWins(step, map[], keys, id);
    NothingFound(step, id);
    LastWithFinds(keys, id);
    ExportedLookup(step, files, order, id);
  }

  lemma ExportIsValid(step: CrcStep, files: Files, order: seq<string>)
    requires WellFormed(files) && Entries(order, files)
    ensures var keys := ValidKeys(Listing(step, files, order, KEY_MAX_COUNT));
            ValidBlob(step, Blob(step, keys)) <==> exists id: u16 :: AdminAt(step, files, id) && FileName(id) in order
  {
    hide Listing, ValidKeys, Lookup, WellFormed, Entries, FileName;
    hide BlobFields, BlobMagic, BlobVersion, BlobCount, BlobChecksum, Blob, Crc;
    var keys := ValidKeys(Listing(step, files, order, KEY_MAX_COUNT));
    var b := Blob(step, keys);
    BlobHeader(step, keys);
    forall i | 0 <= i < |keys|
      ensures BlobFields(b, i) == keys[i] && keys[i].id <= KEY_ID_MAX && 0 in keys[i].name
      ensures IsAdmin(keys[i]) ==> AdminAt(step, files, keys[i].id) && FileName(keys[i].id) in order
    {
      BlobFieldsAt(step, keys, i);
      ExportedKeys(step, files, order, keys[i]);
    }
    if id: u16 :| AdminAt(step, files, id) && FileName(id) in order {
      var f := Lookup(step, files, id).value.fields;
      LookupId(step, files, id);
      ExportedKeys(step, files, order, f);
      var i :| 0 <= i < |keys| && keys[i] == f;
      assert IsAdmin(BlobFields(b, i));
    }
  }

  /** In a well-formed store a record carries the id it is found under. */
  lemma LookupId(step: CrcStep, files: Files, id: u16)
    requires WellFormed(files) && Lookup(step, files, id).Some?
    ensures Lookup(step, files, id).value.fields.id == id
  {
    FileIsLookup(step, files, FileName(id));
    NameRoundTrip(id);
  }

  lemma {:induction false} BlobKeysBack(step: CrcStep, keys: seq<Fields>, count: nat)
    requires count <= |keys| <= KEY_MAX_COUNT
    requires forall i | 0 <= i < |keys| :: Terminate(keys[i]) == keys[i]
    ensures Holds(Blob(step, keys), count) && BlobKeys(Blob(step, keys), count) == keys[..count]
  {
    hide BlobFields, Blob, Terminate;
    BlobHeader(step, keys);
    if count > 0 {
      BlobKeysBack(step, keys, count - 1);
      BlobFieldsAt(step, keys, count - 1);
      assert keys[..count] == keys[..count - 1] + [keys[count - 1]];
    }
  }

  lemma ImportedKeys(step: CrcStep, keys: seq<Fields>, files: Files, order: seq<string>)
    requires WellFormed(files) && Entries(order, files) && keys == ValidKeys(Listing(step, files, order, KEY_MAX_COUNT))
    ensures Holds(Blob(step, keys), |keys|) && BlobKeys(Blob(step, keys), |keys|) == keys
  {
    hide Listing, ValidKeys, WellFormed, Entries, Blob, BlobKeys;
    forall i | 0 <= i < |keys| ensures Terminate(keys[i]) == keys[i] {
      ExportedKeys(step, files, order, keys[i]);
    }
    BlobKeysBack(step, keys, |keys|);
    assert keys[..|keys|] == keys;
  }

  lemma ExportedLookup(step: CrcStep, files: Files, order: seq<string>, id: u16)
    requires WellFormed(files) && Entries(order, files)
    ensures var keys := ValidKeys(Listing(step, files, order, KEY_MAX_COUNT));
            match LastWith(keys, id)
            case None =>
              Lookup(step, files, id).Some? ==>
                !Lookup(step, files, id).value.isChecksumValid || FileName(id) !in order
            case Some(f) =>
              Lookup(step, files, id) == Some(KeyRecord(f, true)) && Terminate(f) == f && FileName(id) in order
  {
    hide Listing, ValidKeys, Lookup, WellFormed, Entries, LastWith, Terminate, FileName;
    var keys := ValidKeys(Listing(step, files, order, KEY_MAX_COUNT));
    LastWithFinds(keys, id);
    match LastWith(keys, id)
    case Some(f) => ExportedKeys(step, files, order, f);
    case None =>
      if Lookup(step, files, id).Some? {
        LookupId(step, files, id);
        ExportedKeys(step, files, order, Lookup(step, files, id).value.fields);
      }
  }

  // -------------------------------------------------------------------------- layout

  /** The 44 bytes of record `i`, behind the header of 16. */
  function RecordAt(b: bytes, i: nat): (r: bytes)
    requires |b| >= 60 + 44 * i
    ensures |r| == 44
  {
    b[16 + 44 * i..60 + 44 * i]
  }

  /** A backup byte for byte: "HSLL", version 1, the number of keys and the CRC of the
      rest, each in four bytes with the least significant first; then the records. */
  lemma BlobLayout(step: CrcStep, keys: seq<Fields>)
    requires |keys| <= 128
    ensures var b := Blob(step, keys);
            && |b| == 16 + 44 * |keys|
            && b[0..4] == [0x48, 0x53, 0x4C, 0x4C] && b[4..8] == [1, 0, 0, 0] && b[8..12] == [|keys|, 0, 0, 0]
            && BigEndian([b[15], b[14], b[13], b[12]]) == Crc(step, 0xFFFF_FFFF, b[16..])
            && forall i | 0 <= i < |keys| :: RecordAt(b, i) == Body(keys[i])
  {
    hide BigEndian, Body, Crc, EncodeKeys, Blob, BlobMagic, BlobVersion, BlobChecksum;
    var b := Blob(step, keys);
    BlobHeader(step, keys);
    HeaderBytes(b);
    FromLe4Injective(b[8..12], [|keys|, 0, 0, 0]);
    hide BlobCount, FromLe4;
    assert b[16..] == EncodeKeys(keys);
    forall i | 0 <= i < |keys| ensures RecordAt(b, i) == Body(keys[i]) {
      EncodedAt(keys, i);
      assert b[16..][44 * i..44 * i + 44] == RecordAt(b, i);
    }
  }

  /** The checks of the import, byte for byte. */
  lemma ValidBlobIff(step: CrcStep, b: bytes)
    ensures ValidBlob(step, b) <==>
              && |b| >= 16 && b[0..4] == [0x48, 0x53, 0x4C, 0x4C] && b[4..8] == [1, 0, 0, 0]
              && var n: nat := BigEndian([b[11], b[10], b[9], b[8]]);
              && 1 <= n <= 128 && |b| >= 16 + 44 * n
              && BigEndian([b[15], b[14], b[13], b[12]]) == Crc(step, 0xFFFF_FFFF, b[16..16 + 44 * n])
              && (forall i | 0 <= i < n :: ValidRecord(RecordAt(b, i)))
              && (exists i | 0 <= i < n :: AdminBytes(RecordAt(b, i)))
  {
    hide BlobMagic, BlobVersion, BlobCount, BlobChecksum, Crc, BigEndian, BlobFields, ValidRecord, AdminBytes;
    hide IsAdmin, RecordAt;
    if |b| >= 16 {
      HeaderBytes(b);
      if |b| >= 16 + 44 * BlobCount(b) {
        RecordsBytes(b, BlobCount(b));
      }
    }
  }

  lemma RecordsBytes(b: bytes, n: nat)
    requires |b| >= 16 + 44 * n
    ensures (forall i | 0 <= i < n :: ValidRecord(RecordAt(b, i)))
              <==> forall i | 0 <= i < n :: 0 in BlobFields(b, i).name && BlobFields(b, i).id <= 127
    ensures (exists i | 0 <= i < n :: AdminBytes(RecordAt(b, i)))
              <==> exists i | 0 <= i < n :: IsAdmin(BlobFields(b, i))
  {
    forall i | 0 <= i < n
      ensures ValidRecord(RecordAt(b, i)) <==> 0 in BlobFields(b, i).name && BlobFields(b, i).id <= 127
      ensures AdminBytes(RecordAt(b, i)) <==> IsAdmin(BlobFields(b, i))
    {
      RecordBytes(b, i);
    }
    hide BlobFields, ValidRecord, AdminBytes, IsAdmin, RecordAt;
  }

  /** A NUL in the name, and an id of at most 127. */
  predicate ValidRecord(r: bytes)
    requires |r| == 44
  {
    0 in r[2..18] && r[0] <= 127 && r[1] == 0
  }

  /** The enabled byte and the admin byte are both nonzero. */
  predicate AdminBytes(r: bytes)
    requires |r| == 44
  {
    r[38] != 0 && r[39] != 0
  }

  lemma RecordBytes(b: bytes, i: nat)
    requires Holds(b, i + 1)
    ensures var r := RecordAt(b, i);
            && (ValidRecord(r) <==> 0 in BlobFields(b, i).name && BlobFields(b, i).id <= 127)
            && (AdminBytes(r) <==> IsAdmin(BlobFields(b, i)))
  {
    var r := RecordAt(b, i);
    assert BlobFields(b, i) == FromBody(r);
  }

  lemma HeaderBytes(b: bytes)
    requires |b| >= 16
    ensures BlobMagic(b) == MAGIC <==> b[0..4] == [0x48, 0x53, 0x4C, 0x4C]
    ensures BlobVersion(b) == VERSION <==> b[4..8] == [1, 0, 0, 0]
    ensures BlobCount(b) == BigEndian([b[11], b[10], b[9], b[8]])
    ensures BlobChecksum(b) == BigEndian([b[15], b[14], b[13], b[12]])
  {
    FromLe4Injective(b[0..4], [0x48, 0x53, 0x4C, 0x4C]);
    FromLe4Injective(b[4..8], [1, 0, 0, 0]);
    FromLe4Bytes(b[8..12]);
    FromLe4Bytes(b[12..16]);
    hide BigEndian;
    assert [b[8..12][3], b[8..12][2], b[8..12][1], b[8..12][0]] == [b[11], b[10], b[9], b[8]];
    assert [b[12..16][3], b[12..16][2], b[12..16][1], b[12..16][0]] == [b[15], b[14], b[13], b[12]];
  }

  // ------------------------------------------------------------------ a lost admin

  /** A blob with an enabled admin first and a plain key of the same id after it
      passes every check, and its import leaves a store without an admin. */
  lemma DuplicateLosesAdmin(step: CrcStep)
    ensures exists b :: ValidBlob(step, b) && !HasAdmin(step, SaveAll(step, map[], BlobKeys(b, BlobCount(b))))
  {
    hide SaveAll, HasAdmin, BlobFields, Blob, Crc;
    var zeros16: Name := seq(16, _ => 0);
    var zeros20: Secret := seq(20, _ => 0);
    var keys := [Fields(1, zeros16, zeros20, true, true, 0), Fields(1, zeros16, zeros20, true, false, 0)];
    var b := Blob(step, keys);
    BlobHeader(step, keys);
    BlobFieldsAt(step, keys, 0);
    BlobFieldsAt(step, keys, 1);
    assert zeros16[0] == 0;
    assert IsAdmin(BlobFields(b, 0));
    assert ValidBlob(step, b);
    BlobKeysBack(step, keys, 2);
    assert keys[..2] == keys;
    AdminIffSurvivesAlone(step, keys);
  }

  // ----------------------------------------------------------------- reached stores

  /** A call on a mounted store, with what the file system makes of it. */
  datatype Operation =
    | Saves(f: Fields, write: Write)
    | Deletes(id: u16, removal: Removal)
    | Imports(b: bytes, dir: Directory, removals: nat -> Removal, writes: nat -> Write)

  /** The files after a call, as `KeySave`, `KeyDelete` and `BackupImport` state them. */
  ghost function Operate(step: CrcStep, files: Files, op: Operation): Files {
    match op
    case Saves(f, write) => if f.id <= KEY_ID_MAX then Written(step, files, f, write) else files
    case Deletes(id, removal) => Deleted(files, id, removal)
    case Imports(b, dir, removals, writes) =>
      if ValidBlob(step, b) then
        WriteKeys(step, Cleared(step, files, dir, removals), BlobKeys(b, BlobCount(b)), writes).0
      else files
  }

  predicate Intact(w: Write) { w.Done? || w.NoHandle? || w.left.None? }

  /** Nothing is left half done: no write leaves part of a file, no overwritten file stays. */
  ghost predicate Finishes(op: Operation) {
    match op
    case Saves(_, write) => Intact(write)
    case Deletes(_, removal) => removal.removed || removal.pieces == 0
    case Imports(_, _, removals, writes) =>
      forall i: nat :: Intact(writes(i)) && (removals(i).removed || removals(i).pieces == 0)
  }

  ghost function Reached(step: CrcStep, ops: seq<Operation>): Files {
    if ops == [] then map[] else Operate(step, Reached(step, ops[..|ops| - 1]), ops[|ops| - 1])
  }

  lemma {:induction false} DeletesWellFormed(files: Files, records: seq<KeyRecord>, removals: nat -> Removal)
    requires WellFormed(files) && forall i: nat :: removals(i).removed || removals(i).pieces == 0
    ensures WellFormed(DeleteAll(files, records, removals))
    decreases |records|
  {
    hide Deleted, WellFormed;
    if records != [] {
      var last := |records| - 1;
      DeletesWellFormed(files, records[..last], removals);
      DeletedWellFormedIff(DeleteAll(files, records[..last], removals), records[last].fields.id, removals(last));
    }
  }

  /** What an import writes over a well-formed store is again one, failed or not. */
  lemma {:induction false} ImportWellFormed(step: CrcStep, files: Files, keys: seq<Fields>, writes: nat -> Write)
    requires WellFormed(files) && forall i | 0 <= i < |keys| :: keys[i].id <= KEY_ID_MAX && Intact(writes(i))
    ensures WellFormed(WriteKeys(step, files, keys, writes).0)
    decreases |keys|
  {
    hide Written, WellFormed;
    if keys != [] {
      var last := |keys| - 1;
      ImportWellFormed(step, files, keys[..last], writes);
      WrittenWellFormedIff(step, WriteKeys(step, files, keys[..last], writes).0, keys[last], writes(last));
    }
  }

  /** Every store reached from an empty directory by saves, deletions and imports that
      leave nothing half done is well formed. */
  lemma {:induction false} ReachedWellFormed(step: CrcStep, ops: seq<Operation>)
    requires forall op | op in ops :: Finishes(op)
    ensures WellFormed(Reached(step, ops))
    decreases |ops|
  {
    if ops != [] {
      var (files, op) := (Reached(step, ops[..|ops| - 1]), ops[|ops| - 1]);
      ReachedWellFormed(step, ops[..|ops| - 1]);
      assert op in ops;
      OperateWellFormed(step, files, op);
    }
  }

  lemma OperateWellFormed(step: CrcStep, files: Files, op: Operation)
    requires WellFormed(files) && Finishes(op)
    ensures WellFormed(Operate(step, files, op))
  {
    hide WellFormed, Written, Deleted, DeleteAll, WriteKeys, Listing;
    match op
    case Saves(f, write) =>
      if f.id <= KEY_ID_MAX {
        WrittenWellFormedIff(step, files, f, write);
      }
    case Deletes(id, removal) => DeletedWellFormedIff(files, id, removal);
    case Imports(b, dir, removals, writes) =>
      if ValidBlob(step, b) {
        DeletesWellFormed(files, Listing(step, files, Seen(dir), KEY_MAX_COUNT), removals);
        var count := BlobCount(b);
        forall i | 0 <= i < count ensures BlobKeys(b, count)[i].id <= KEY_ID_MAX {
          BlobKeysAt(b, count, i);
        }
        ImportWellFormed(step, Cleared(step, files, dir, removals), BlobKeys(b, count), writes);
      }
  }
}
