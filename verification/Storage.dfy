/** The key store: one file for each key, in a directory of an abstract file system. */
module Storage {
  import opened Words
  import opened Decimals
  import opened Records

  // -------------------------------------------------------------------- file names

  /** `key_path`: the id as "%05u". */
  function FileName(id: u16): (name: Digits)
    ensures |name| == 5
  {
    Spell(id, 5)
  }

  /** `(uint16_t)strtoul(name, NULL, 10)`. */
  function ParseId(name: string): u16 {
    Strtoul(name) % 0x1_0000
  }

  /** Parsing a file name gives back the id it was made from. */
  lemma NameRoundTrip(id: u16)
    ensures ParseId(FileName(id)) == id
  {
    hide Strtoul, Spell, Pow10, Decimal;
    StrtoulReads(FileName(id));
    SmallPowers();
    SpellReads(id, 5);
  }

  // ------------------------------------------------------------------ specification

  type Files = map<string, bytes>

  /** `storage_key_get` on a mounted store: a file that is too short is no key. */
  function Lookup(step: CrcStep, files: Files, id: u16): Option<KeyRecord> {
    var name := FileName(id);
    if name in files && |files[name]| >= STORED_LEN then Some(ToRecord(step, files[name][..STORED_LEN]))
    else None
  }

  /** The file holds one record, of an id in range, under that id's name. */
  predicate HoldsRecord(name: string, b: bytes) {
    |b| == STORED_LEN && FromLe2(b[0..2]) <= KEY_ID_MAX && name == FileName(FromLe2(b[0..2]))
  }

  ghost predicate WellFormed(files: Files) {
    forall name | name in files :: HoldsRecord(name, files[name])
  }

  function Save(step: CrcStep, files: Files, f: Fields): Files {
    files[FileName(f.id) := ToStored(step, f)]
  }

  lemma StoredId(step: CrcStep, f: Fields)
    ensures FromLe2(ToStored(step, f)[0..2]) == f.id
  {
    hide KeyChecksum, Le4;
    assert ToStored(step, f)[0..2] == Le2(f.id);
    Le2RoundTrip(f.id);
  }

  lemma SaveKeepsWellFormed(step: CrcStep, files: Files, f: Fields)
    requires WellFormed(files) && f.id <= KEY_ID_MAX
    ensures WellFormed(Save(step, files, f))
  {
    StoredId(step, f);
  }

  /** Saving a key and looking ids up: the saved key is there, valid and field for
      field; every other id finds what it found before. */
  lemma LookupAfterSave(step: CrcStep, files: Files, f: Fields, id: u16)
    ensures Lookup(step, Save(step, files, f), id) ==
              if id == f.id then Some(KeyRecord(f.(name := f.name[..15] + [0]), true)) else Lookup(step, files, id)
  {
    StoredRoundTrip(step, f);
    NameRoundTrip(id);
    NameRoundTrip(f.id);
    assert ToStored(step, f)[..STORED_LEN] == ToStored(step, f);
  }

  // ---------------------------------------------------------------------- the store

  /** How a write to flash goes: done and committed, no file handle, or one that fails,
      which is noticed when writing but not when closing. What a failed one leaves of
      the file, or none, is up to the file system. */
  datatype Write = Done | NoHandle | Failed(left: Option<bytes>) | Unsynced(left: Option<bytes>)

  /** `storage_key_save` reports success: it does not look at how closing goes. */
  predicate Reported(w: Write) { w.Done? || w.Unsynced? }

  /** What the file of the key holds after a write that had a file handle. */
  function Leaves(step: CrcStep, f: Fields, w: Write): Option<bytes>
    requires !w.NoHandle?
  {
    if w.Done? then Some(ToStored(step, f)) else w.left
  }

  function Put(files: Files, name: string, content: Option<bytes>): Files {
    match content
    case None => files - {name}
    case Some(b) => files[name := b]
  }

  /** The files after an attempt to save a key. */
  function Written(step: CrcStep, files: Files, f: Fields, w: Write): Files {
    if w.NoHandle? then files else Put(files, FileName(f.id), Leaves(step, f, w))
  }

  /** How a deletion goes: the record-sized pieces that are overwritten with zeros,
      none if the file does not open, and whether the file is then removed. */
  datatype Removal = Removal(pieces: nat, removed: bool)

  function Overwritten(b: bytes, pieces: nat): bytes {
    var n := if STORED_LEN * pieces < |b| then STORED_LEN * pieces else |b|;
    seq(n, _ => 0) + b[n..]
  }

  /** The files after an attempt to delete a key. */
  function Deleted(files: Files, id: u16, r: Removal): Files {
    var name := FileName(id);
    if name !in files then files
    else if r.removed then files - {name}
    else files[name := Overwritten(files[name], r.pieces)]
  }

  class Store {
    const step: CrcStep
    var mounted: bool
    var files: Files   // the directory /keys

    constructor (step: CrcStep, mounted: bool, files: Files)
      ensures this.step == step && this.mounted == mounted && this.files == files
    {
      this.step, this.mounted, this.files := step, mounted, files;
    }

    /** `storage_key_get`; `readable` says whether the file, if there is one, opens
        and can be read. */
    method KeyGet(id: u16, readable: bool) returns (record: Option<KeyRecord>)
      ensures record == if mounted && readable then Lookup(step, files, id) else None
    {
      if !mounted {
        return None;
      }
      var path := FileName(id);
      if path !in files || !readable {
        return None;
      }
      var n := if |files[path]| < STORED_LEN then |files[path]| else STORED_LEN;
      var stored := files[path][..n];
      if n != STORED_LEN {
        return None;
      }
      return Some(ToRecord(step, stored));
    }

    /** `storage_key_save`: ids out of range are refused before anything is written. */
    method KeySave(f: Fields, write: Write) returns (ok: bool)
      modifies this`files
      ensures ok <==> mounted && f.id <= KEY_ID_MAX && Reported(write)
      ensures files == if mounted && f.id <= KEY_ID_MAX then Written(step, old(files), f, write) else old(files)
    {
      if !mounted {
        return false;
      }
      if f.id > KEY_ID_MAX {
        return false;
      }
      var path := FileName(f.id);
      var stored := ToStored(step, f);
      if write.NoHandle? {
        return false;
      }
      files := files[path := stored];
      if !write.Done? {
        files := Put(files, path, write.left);
      }
      return !write.Failed?;
    }

    /** `storage_key_delete`: zeros are written over the content, as far as that
        goes, and the file is removed, if that succeeds. */
    method KeyDelete(id: u16, removal: Removal) returns (ok: bool)
      modifies this`files
      ensures ok <==> mounted && FileName(id) in old(files) && removal.removed
      ensures files == if mounted then Deleted(old(files), id, removal) else old(files)
    {
      if !mounted {
        return false;
      }
      var path := FileName(id);
      if path !in files {
        return false;
      }
      var content := files[path];
      var size, done, pieces := |content|, 0, 0;
      while done < size && pieces < removal.pieces
        invariant 0 <= pieces <= removal.pieces
        invariant done == if STORED_LEN * pieces < size then STORED_LEN * pieces else size
        invariant content == Overwritten(files[path], pieces)
        decreases size - done
      {
        var chunk := if size - done > STORED_LEN then STORED_LEN else size - done;
        content := content[..done] + seq(chunk, _ => 0) + content[done + chunk..];
        done, pieces := done + chunk, pieces + 1;
      }
      assert content == Overwritten(files[path], removal.pieces);
      files := files[path := content];
      if removal.removed {
        files := files - {path};
        return true;
      }
      return false;
    }

    /** `storage_key_list`. */
    method KeyList(dir: Directory, maxCount: nat) returns (records: Option<seq<KeyRecord>>)
      requires Entries(dir.order, files)
      ensures records == if mounted && dir.openable then Some(Listing(step, files, Seen(dir), AtMostAll(maxCount)))
                         else None
    {
      if !mounted {
        return None;
      }
      if !dir.openable {
        return None;
      }
      assert Seen(dir) == Readable(dir.order, dir.unreadable);
      hide *;
      var limit := AtMostAll(maxCount);
      var out: seq<KeyRecord> := [];
      var next := 0;
      ListedNone(step, files, dir, limit);
      while |out| < limit && next < |dir.order|
        invariant 0 <= next <= |dir.order| && |out| <= limit
        invariant Listed(step, files, dir, limit, next, out)
        decreases |dir.order| - next
      {
        var id := ParseId(dir.order[next]);
        var record := KeyGet(id, dir.order[next] !in dir.unreadable);
        ListedOne(step, files, dir, limit, next, out);
        if record.Some? {
          out := out + [record.value];
        }
        next := next + 1;
      }
      ListedAll(step, files, dir, limit, next, out);
      return Some(out);
    }
  }

  function AtMostAll(count: nat): nat {
    if count > KEY_MAX_COUNT then KEY_MAX_COUNT else count
  }

  /** How a listing goes: whether the directory opens, which files it returns, in
      which order, before it ends or fails, and which of them cannot be read. */
  datatype Directory = Directory(openable: bool, order: seq<string>, unreadable: set<string>)

  function Readable(order: seq<string>, unreadable: set<string>): seq<string> {
    if order == [] then []
    else if order[0] in unreadable then Readable(order[1..], unreadable)
    else [order[0]] + Readable(order[1..], unreadable)
  }

  /** The files that a listing gets to see; the rest it skips without notice. */
  function Seen(dir: Directory): seq<string> {
    if dir.openable then Readable(dir.order, dir.unreadable) else []
  }

  /** What reading the directory yields: files, each at most once. */
  ghost predicate Entries(order: seq<string>, files: Files) {
    && (forall name | name in order :: name in files)
    && (forall i, j | 0 <= i < j < |order| :: order[i] != order[j])
  }

  /** Every file is seen. */
  ghost predicate Lists(order: seq<string>, files: Files) {
    Entries(order, files) && forall name | name in files :: name in order
  }

  lemma {:induction false} ReadableEntries(order: seq<string>, unreadable: set<string>, files: Files)
    requires Entries(order, files)
    ensures Entries(Readable(order, unreadable), files)
    ensures forall name :: name in Readable(order, unreadable) <==> name in order && name !in unreadable
  {
    if order != [] {
      var rest := order[1..];
      assert Entries(rest, files);
      ReadableEntries(rest, unreadable, files);
      assert order == [order[0]] + rest && order[0] !in rest;
    }
  }

  lemma SeenEntries(dir: Directory, files: Files)
    requires Entries(dir.order, files)
    ensures Entries(Seen(dir), files)
    ensures forall name :: name in Seen(dir) <==> dir.openable && name in dir.order && name !in dir.unreadable
  {
    ReadableEntries(dir.order, dir.unreadable, files);
  }

  /** The records found for the first names of the listing, at most `limit` of them. */
  function Listing(step: CrcStep, files: Files, order: seq<string>, limit: nat): (records: seq<KeyRecord>)
    ensures |records| <= limit
  {
    if order == [] || limit == 0 then []
    else
      match Lookup(step, files, ParseId(order[0]))
      case None => Listing(step, files, order[1..], limit)
      case Some(r) => [r] + Listing(step, files, order[1..], limit - 1)
  }

  lemma ListingStep(step: CrcStep, files: Files, order: seq<string>, limit: nat)
    requires order != [] && limit > 0
    ensures Listing(step, files, order, limit) ==
              match Lookup(step, files, ParseId(order[0]))
              case None => Listing(step, files, order[1..], limit)
              case Some(r) => [r] + Listing(step, files, order[1..], limit - 1)
  {
  }

  lemma ListingEnds(step: CrcStep, files: Files, order: seq<string>, limit: nat)
    requires order == [] || limit == 0
    ensures Listing(step, files, order, limit) == []
  {
  }

  /** `out` is what the first `next` entries contribute. */
  ghost predicate Listed(step: CrcStep, files: Files, dir: Directory, limit: nat, next: nat, out: seq<KeyRecord>) {
    && next <= |dir.order| && |out| <= limit
    && Listing(step, files, Readable(dir.order, dir.unreadable), limit) ==
         out + Listing(step, files, Readable(dir.order[next..], dir.unreadable), limit - |out|)
  }

  lemma ListedNone(step: CrcStep, files: Files, dir: Directory, limit: nat)
    ensures Listed(step, files, dir, limit, 0, [])
  {
    hide Listing, Readable;
    assert dir.order[0..] == dir.order;
  }

  lemma ReadableHead(order: seq<string>, unreadable: set<string>)
    requires order != []
    ensures var (all, rest) := (Readable(order, unreadable), Readable(order[1..], unreadable));
            if order[0] in unreadable then all == rest else all != [] && all[0] == order[0] && all[1..] == rest
  {
  }

  lemma ListedOne(step: CrcStep, files: Files, dir: Directory, limit: nat, next: nat, out: seq<KeyRecord>)
    requires Listed(step, files, dir, limit, next, out) && next < |dir.order| && |out| < limit
    ensures var found := if dir.order[next] in dir.unreadable then None
                         else Lookup(step, files, ParseId(dir.order[next]));
            match found
            case None => Listed(step, files, dir, limit, next + 1, out)
            case Some(r) => Listed(step, files, dir, limit, next + 1, out + [r])
  {
    hide Listing, Lookup, ParseId, Readable;
    var rest := dir.order[next..];
    assert rest[0] == dir.order[next] && rest[1..] == dir.order[next + 1..];
    ReadableHead(rest, dir.unreadable);
    if rest[0] !in dir.unreadable {
      ListingStep(step, files, Readable(rest, dir.unreadable), limit - |out|);
    }
  }

  lemma ListedAll(step: CrcStep, files: Files, dir: Directory, limit: nat, next: nat, out: seq<KeyRecord>)
    requires Listed(step, files, dir, limit, next, out) && (next == |dir.order| || |out| == limit)
    ensures Listing(step, files, Readable(dir.order, dir.unreadable), limit) == out
  {
    hide Listing;
    ListingEnds(step, files, Readable(dir.order[next..], dir.unreadable), limit - |out|);
  }

  // ------------------------------------------------------------- complete listings

  /** The record in a file of a well-formed store. */
  function FileRecord(step: CrcStep, files: Files, name: string): KeyRecord
    requires name in files && |files[name]| == STORED_LEN
  {
    ToRecord(step, files[name])
  }

  lemma FileIsLookup(step: CrcStep, files: Files, name: string)
    requires WellFormed(files) && name in files
    ensures ParseId(name) <= KEY_ID_MAX && name == FileName(ParseId(name))
    ensures Lookup(step, files, ParseId(name)) == Some(FileRecord(step, files, name))
    ensures FileRecord(step, files, name).fields.id == ParseId(name)
  {
    var b := files[name];
    NameRoundTrip(FromLe2(b[0..2]));
    assert b[..STORED_LEN] == b;
    assert b[..BODY_LEN][0..2] == b[0..2];
  }

  /** Distinct ids below 128 are at most 128. */
  lemma {:induction false} FewIds(ids: seq<u16>, bound: nat)
    requires forall i | 0 <= i < |ids| :: ids[i] < bound
    requires forall i, j | 0 <= i < j < |ids| :: ids[i] != ids[j]
    ensures |ids| <= bound
    decreases bound
  {
    if ids != [] {
      assert ids[0] < bound;
      if i :| 0 <= i < |ids| && ids[i] == bound - 1 {
        FewIds(ids[..i] + ids[i + 1..], bound - 1);
      } else {
        FewIds(ids, bound - 1);
      }
    }
  }

  lemma FewFiles(files: Files, order: seq<string>)
    requires WellFormed(files) && Entries(order, files)
    ensures |order| <= KEY_MAX_COUNT
  {
    var ids := seq(|order|, i requires 0 <= i < |order| => ParseId(order[i]));
    forall i | 0 <= i < |ids| ensures ids[i] <= KEY_ID_MAX && FileName(ids[i]) == order[i] {
      assert order[i] in order;
      FileIsLookup((c, b) => 0, files, order[i]);
    }
    FewIds(ids, KEY_MAX_COUNT);
  }

  lemma {:induction false} ListingInFull(step: CrcStep, files: Files, order: seq<string>, limit: nat)
    requires WellFormed(files) && |order| <= limit && forall i | 0 <= i < |order| :: order[i] in files
    ensures var records := Listing(step, files, order, limit);
            |records| == |order| && forall i | 0 <= i < |order| :: records[i] == FileRecord(step, files, order[i])
    decreases |order|
  {
    hide ToRecord, FileName, ParseId, Lookup, FileRecord, Listing;
    if order == [] {
      ListingEnds(step, files, order, limit);
    } else {
      FileIsLookup(step, files, order[0]);
      ListingStep(step, files, order, limit);
      ListingInFull(step, files, order[1..], limit - 1);
      forall i | 0 < i < |order| ensures Listing(step, files, order, limit)[i] == FileRecord(step, files, order[i]) {
        assert order[1..][i - 1] == order[i];
      }
    }
  }

  /** Of a well-formed store, the 128-entry listing omits no entry. */
  lemma ListingComplete(step: CrcStep, files: Files, order: seq<string>)
    requires WellFormed(files) && Entries(order, files)
    ensures var records := Listing(step, files, order, KEY_MAX_COUNT);
            |records| == |order| && forall i | 0 <= i < |order| :: records[i] == FileRecord(step, files, order[i])
  {
    FewFiles(files, order);
    ListingInFull(step, files, order, KEY_MAX_COUNT);
  }

  // -------------------------------------------------------------- what keeps a store

  /** An attempt to save a key keeps a store well formed exactly if it is done or
      never starts, or leaves no file or one with a record of that id. */
  lemma WrittenWellFormedIff(step: CrcStep, files: Files, f: Fields, w: Write)
    requires WellFormed(files) && f.id <= KEY_ID_MAX
    ensures WellFormed(Written(step, files, f, w)) <==>
              w.Done? || w.NoHandle? || w.left.None? || HoldsRecord(FileName(f.id), w.left.value)
  {
    hide ToStored;
    if w.Done? {
      SaveKeepsWellFormed(step, files, f);
    } else if !w.NoHandle? && w.left.Some? {
      assert Written(step, files, f, w)[FileName(f.id)] == w.left.value;
    }
  }

  lemma ZerosHoldRecord(id: u16, b: bytes, pieces: nat)
    requires |b| == STORED_LEN && pieces > 0
    ensures HoldsRecord(FileName(id), Overwritten(b, pieces)) <==> id == 0
  {
    hide FileName;
    assert Overwritten(b, pieces)[0..2] == [0, 0] && FromLe2([0, 0]) == 0;
    NameRoundTrip(id);
    NameRoundTrip(0);
  }

  /** An attempt to delete a key keeps a store well formed exactly if it removes the
      file, or there is none, or nothing was overwritten; a record of zeros passes
      for one of id 0. */
  lemma DeletedWellFormedIff(files: Files, id: u16, r: Removal)
    requires WellFormed(files)
    ensures WellFormed(Deleted(files, id, r)) <==> FileName(id) !in files || r.removed || r.pieces == 0 || id == 0
  {
    var name := FileName(id);
    assert name in files ==> |files[name]| == STORED_LEN && Overwritten(files[name], 0) == files[name];
    if name in files && !r.removed && r.pieces > 0 {
      ZerosHoldRecord(id, files[name], r.pieces);
    }
    hide FileName, HoldsRecord, Overwritten;
    assert name in files && !r.removed ==> Deleted(files, id, r)[name] == Overwritten(files[name], r.pieces);
  }

  /** Every listed record was found under the name of some entry. */
  lemma {:induction false} ListingFrom(step: CrcStep, files: Files, order: seq<string>, limit: nat, r: KeyRecord)
    requires r in Listing(step, files, order, limit)
    ensures exists name :: name in order && Lookup(step, files, ParseId(name)) == Some(r)
    decreases |order|
  {
    hide Lookup, ParseId;
    if Lookup(step, files, ParseId(order[0])) == Some(r) {
      assert order[0] in order;
    } else {
      var rest := match Lookup(step, files, ParseId(order[0])) case None => limit case Some(_) => limit - 1;
      ListingFrom(step, files, order[1..], rest, r);
      var name :| name in order[1..] && Lookup(step, files, ParseId(name)) == Some(r);
      assert name in order;
    }
  }
}
