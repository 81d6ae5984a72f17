/** Which keys still open the door after a deletion or an import. */
module Revocation {
  import opened Words
  import opened Records
  import opened Storage
  import opened Backup
  import opened Totp
  import opened Device

  /** Acceptance depends on the files only through the record found. */
  lemma SameRecord(p: Primitives, now: Snapshot, files: Files, id: u16, code: u32)
    requires Lookup(p.step, now.files, id) == Lookup(p.step, files, id)
    ensures KeyAccepts(p, now, id, code) <==> KeyAccepts(p, now.(files := files), id, code)
  {
  }

  /** A key that has been saved opens the door exactly if it is enabled and the code
      is one of its secret's; every other key opens it as before. */
  lemma SavedKeyOpensIff(p: Primitives, now: Snapshot, f: Fields, id: u16, code: u32)
    requires now.mounted && FileName(f.id) !in now.unreadable
    ensures var after := now.(files := Save(p.step, now.files, f));
            KeyAccepts(p, after, id, code) <==>
              if id == f.id then f.isEnabled && Accepts(p.hmac, f.secret, now.rtc, code)
              else KeyAccepts(p, now, id, code)
  {
    hide FileName, Accepts, Lookup;
    LookupAfterSave(p.step, now.files, f, id);
  }

  predicate Spares(r: Removal) { !r.removed && r.pieces == 0 }

  /** A deletion revokes a key exactly if it removes the file or overwrites any of
      it, whether it reports success or not. */
  lemma DeletedOpensIff(p: Primitives, now: Snapshot, id: u16, r: Removal, code: u32)
    ensures KeyAccepts(p, now.(files := Deleted(now.files, id, r)), id, code) <==>
            KeyAccepts(p, now, id, code) && Spares(r)
  {
    hide FileName, KeyChecksum;
    var name := FileName(id);
    if name in now.files && !r.removed {
      var b := Overwritten(now.files[name], r.pieces);
      if r.pieces == 0 {
        assert b == now.files[name];
      } else if |b| >= STORED_LEN {
        assert b[..STORED_LEN][..BODY_LEN][38] == 0;
      }
    }
  }

  lemma DeletedElsewhere(step: CrcStep, files: Files, deleted: u16, r: Removal, id: u16)
    requires deleted != id
    ensures Lookup(step, Deleted(files, deleted, r), id) == Lookup(step, files, id)
  {
    hide FileName, ToRecord, Overwritten;
    NameRoundTrip(deleted);
    NameRoundTrip(id);
  }

  lemma WrittenElsewhere(step: CrcStep, files: Files, f: Fields, w: Write, id: u16)
    requires f.id != id
    ensures Lookup(step, Written(step, files, f, w), id) == Lookup(step, files, id)
  {
    hide FileName, ToRecord, ToStored;
    NameRoundTrip(f.id);
    NameRoundTrip(id);
  }

  lemma {:induction false} WriteKeysElsewhere(step: CrcStep, files: Files, keys: seq<Fields>, writes: nat -> Write,
                                              id: u16)
    requires LastWith(keys, id).None?
    ensures Lookup(step, WriteKeys(step, files, keys, writes).0, id) == Lookup(step, files, id)
    decreases |keys|
  {
    hide Lookup, Written;
    if keys != [] {
      var last := |keys| - 1;
      WriteKeysElsewhere(step, files, keys[..last], writes, id);
      WrittenElsewhere(step, WriteKeys(step, files, keys[..last], writes).0, keys[last], writes(last), id);
    }
  }

  /** Some listed record of this id was removed or overwritten. */
  ghost predicate Revokes(records: seq<KeyRecord>, removals: nat -> Removal, id: u16) {
    exists i :: 0 <= i < |records| && records[i].fields.id == id && !Spares(removals(i))
  }

  lemma RevokesLast(records: seq<KeyRecord>, removals: nat -> Removal, id: u16)
    requires records != []
    ensures var last := |records| - 1;
            Revokes(records, removals, id) <==>
              Revokes(records[..last], removals, id) || (records[last].fields.id == id && !Spares(removals(last)))
  {
    hide Spares;
    var last := |records| - 1;
    if i :| 0 <= i < last && records[..last][i].fields.id == id && !Spares(removals(i)) {
      assert records[i].fields.id == id;
    }
    if i :| 0 <= i < |records| && records[i].fields.id == id && !Spares(removals(i)) && i < last {
      assert records[..last][i] == records[i];
    }
  }

  lemma {:induction false} DeleteAllOpensIff(p: Primitives, now: Snapshot, records: seq<KeyRecord>,
                                             removals: nat -> Removal, id: u16, code: u32)
    ensures KeyAccepts(p, now.(files := DeleteAll(now.files, records, removals)), id, code) <==>
            KeyAccepts(p, now, id, code) && !Revokes(records, removals, id)
    decreases |records|
  {
    if records != [] {
      hide KeyAccepts, Revokes, Deleted, Lookup, Spares;
      var last := |records| - 1;
      DeleteAllOpensIff(p, now, records[..last], removals, id, code);
      RevokesLast(records, removals, id);
      var before := now.(files := DeleteAll(now.files, records[..last], removals));
      if records[last].fields.id == id {
        DeletedOpensIff(p, before, id, removals(last), code);
      } else {
        DeletedElsewhere(p.step, before.files, records[last].fields.id, removals(last), id);
        SameRecord(p, before, Deleted(before.files, records[last].fields.id, removals(last)), id, code);
      }
    }
  }

  /** An import, successful or not, over a well-formed store: a key that the blob does
      not name opens the door as before, unless the listing saw its file and then
      removed or overwrote it. */
  lemma OldKeyOpensIff(p: Primitives, now: Snapshot, dir: Directory, removals: nat -> Removal, keys: seq<Fields>,
                       writes: nat -> Write, id: u16, code: u32)
    requires WellFormed(now.files) && Entries(dir.order, now.files) && LastWith(keys, id).None?
    ensures var after := WriteKeys(p.step, Cleared(p.step, now.files, dir, removals), keys, writes).0;
            KeyAccepts(p, now.(files := after), id, code) <==>
              && KeyAccepts(p, now, id, code)
              && !exists i :: 0 <= i < |Seen(dir)| && Seen(dir)[i] == FileName(id) && !Spares(removals(i))
  {
    hide KeyAccepts, Lookup, Listing, WriteKeys, WellFormed, Entries, FileName, Seen, Spares, DeleteAll;
    var records := Listing(p.step, now.files, Seen(dir), KEY_MAX_COUNT);
    var cleared := now.(files := Cleared(p.step, now.files, dir, removals));
    DeleteAllOpensIff(p, now, records, removals, id, code);
    WriteKeysElsewhere(p.step, cleared.files, keys, writes, id);
    SameRecord(p, cleared, WriteKeys(p.step, cleared.files, keys, writes).0, id, code);
    SeenEntries(dir, now.files);
    NamesOfListing(p.step, now.files, Seen(dir));
    NameRoundTrip(id);
    forall i | 0 <= i < |records| ensures records[i].fields.id == id <==> Seen(dir)[i] == FileName(id) {
      NameRoundTrip(records[i].fields.id);
    }
  }
}
