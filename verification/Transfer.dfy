/** Moving keys between devices: export as base64 text, paste, import. */
module Transfer {
  import opened Words
  import opened Records
  import opened Storage
  import opened Backup
  import B = Base64

  const BLOB_CAP := HEADER_LEN + BODY_LEN * KEY_MAX_COUNT  // sizeof(import_buf)
  const TEXT_CAP := (BLOB_CAP + 2) / 3 * 4 + 1             // sizeof(b64_buf)
  const LINE_CAP := 256

  // ------------------------------------------------------------------------- export

  /** `cmd_export_keys`: its buffers are large enough for every store. */
  method ExportKeys(store: Store, dir: Directory) returns (text: Option<string>)
    requires Entries(dir.order, store.files)
    ensures text == if !store.mounted || !dir.openable then None
                    else
                      var records := Listing(store.step, store.files, Seen(dir), KEY_MAX_COUNT);
                      Some(B.Encode(Blob(store.step, ValidKeys(records))))
  {
    hide B.Encode, Blob, ValidKeys, Listing, Entries, Seen;
    var exportBuf := new u8[BLOB_CAP];
    var b64Buf := new char[TEXT_CAP];
    var len := BackupExport(store, dir, exportBuf);
    if len < 0 {
      return None;
    }
    ExportLength(store.step, ValidKeys(Listing(store.step, store.files, Seen(dir), KEY_MAX_COUNT)));
    B.Base64Encode(exportBuf[..len], b64Buf);
    return Some(b64Buf[..4 * B.Groups(len)]);
  }

  // ---------------------------------------------------------------------- the paste

  /** What the paste loop of `cmd_import_keys` has collected. */
  datatype Paste = Paste(text: string, line: string, overflow: bool, done: bool)

  const START := Paste([], [], false, false)

  /** One received character; a line's characters after the 255th are dropped. */
  function Take(p: Paste, c: char): Paste {
    if p.done || c == '\r' then p
    else if c == '\n' then
      if p.line == [] then p.(done := true)
      else if |p.text| + |p.line| < TEXT_CAP then p.(text := p.text + p.line, line := [])
      else p.(overflow := true, line := [])
    else if |p.line| < LINE_CAP - 1 then p.(line := p.line + [c])
    else p
  }

  function Feed(p: Paste, input: string): Paste {
    if input == [] then p else Take(Feed(p, input[..|input| - 1]), input[|input| - 1])
  }

  lemma {:induction false} FeedAppend(p: Paste, a: string, b: string)
    ensures Feed(p, a + b) == Feed(Feed(p, a), b)
    decreases |b|
  {
    if b == [] {
      assert a + b == a;
    } else {
      assert (a + b)[..|a + b| - 1] == a + b[..|b| - 1];
      FeedAppend(p, a, b[..|b| - 1]);
    }
  }

  lemma {:induction false} FeedDone(p: Paste, input: string)
    requires p.done
    ensures Feed(p, input) == p
  {
    if input != [] {
      FeedDone(p, input[..|input| - 1]);
    }
  }

  lemma FeedNext(p: Paste, input: string, i: nat)
    requires i < |input|
    ensures Feed(p, input[..i + 1]) == Take(Feed(p, input[..i]), input[i])
  {
    assert input[..i + 1][..i] == input[..i];
  }

  lemma FeedRest(p: Paste, input: string, i: nat)
    requires i <= |input| && Feed(p, input[..i]).done
    ensures Feed(p, input) == Feed(p, input[..i])
  {
    FeedDone(Feed(p, input[..i]), input[i..]);
    FeedAppend(p, input[..i], input[i..]);
    assert input[..i] + input[i..] == input;
  }

  /** `memcpy` of the line behind the text. */
  method AppendLine(b64Buf: array<char>, b64Len: nat, line: array<char>, lineLen: nat)
    requires b64Buf != line && lineLen <= line.Length && b64Len + lineLen <= b64Buf.Length
    modifies b64Buf
    ensures b64Buf[..b64Len + lineLen] == old(b64Buf[..b64Len]) + line[..lineLen]
  {
    forall k | 0 <= k < lineLen {
      b64Buf[b64Len + k] := line[k];
    }
  }

  /** The paste loop over what is received before its deadline. */
  method ReadPaste(input: string, b64Buf: array<char>, line: array<char>) returns (b64Len: nat, overflow: bool)
    requires b64Buf.Length == TEXT_CAP && line.Length == LINE_CAP && b64Buf != line
    modifies b64Buf, line
    ensures b64Len <= 7532
    ensures b64Buf[..b64Len] == Feed(START, input).text && overflow == Feed(START, input).overflow
  {
    b64Len, overflow := 0, false;
    var lineLen := 0;
    var i := 0;
    assert Feed(START, input[..0]) == START;
    hide Feed;
    while i < |input|
      invariant 0 <= i <= |input| && b64Len < TEXT_CAP && lineLen < LINE_CAP
      invariant Feed(START, input[..i]) == Paste(b64Buf[..b64Len], line[..lineLen], overflow, false)
    {
      var c := input[i];
      FeedNext(START, input, i);
      i := i + 1;
      if c == '\r' {
        continue;
      }
      if c == '\n' {
        if lineLen == 0 {
          FeedRest(START, input, i);
          return;
        }
        if b64Len + lineLen < TEXT_CAP {
          AppendLine(b64Buf, b64Len, line, lineLen);
          b64Len := b64Len + lineLen;
        } else {
          overflow := true;
        }
        lineLen := 0;
      } else if lineLen < LINE_CAP - 1 {
        ghost var before := line[..lineLen];
        line[lineLen] := c;
        lineLen := lineLen + 1;
        assert line[..lineLen] == before + [c];
      }
    }
    assert input[..i] == input;
  }

  // ------------------------------------------------------------------------- import

  /** The pasted input passes every check before `backup_import`, which gets `b`. */
  ghost predicate Delivers(input: string, b: bytes) {
    var p := Feed(START, input);
    && !p.overflow && p.text != []
    && |p.text| / 4 * 3 <= BLOB_CAP
    && |b| <= BLOB_CAP && p.text == B.Encode(b)
  }

  lemma DeliversOne(input: string, b: bytes, b': bytes)
    requires Delivers(input, b) && Delivers(input, b')
    ensures b == b'
  {
    hide B.Encode, Feed;
    B.EncodeInjective(b, b');
  }

  /** `cmd_import_keys` once it is confirmed: the blob that the input delivers, if
      any, goes to `backup_import`. */
  method ImportKeys(store: Store, input: string, dir: Directory, removals: nat -> Removal, writes: nat -> Write)
      returns (ok: bool)
    requires Entries(dir.order, store.files)
    modifies store`files
    ensures (ok || store.files != old(store.files)) ==>
              store.mounted && exists b :: Delivers(input, b) && ValidBlob(store.step, b)
    ensures forall b | Delivers(input, b) && ValidBlob(store.step, b) && store.mounted ::
              && (store.files, ok) == WriteKeys(store.step, Cleared(store.step, old(store.files), dir, removals),
                                                BlobKeys(b, BlobCount(b)), writes)
              && (ok <==> forall i | 0 <= i < BlobCount(b) :: Reported(writes(i)))
    ensures forall b | Delivers(input, b) && ok ::
              && ValidBlob(store.step, b)
              && (WellFormed(old(store.files)) && Lists(Seen(dir), old(store.files))
                  && (forall i :: removals(i).removed) ==>
                    var keys := BlobKeys(b, BlobCount(b));
                    store.files == SaveAll(store.step, map[], keys) <==> AllLanded(store.step, keys, writes))
  {
    hide Feed, B.Encode, ValidBlob, WellFormed, SaveAll, BlobKeys, Lists, Entries, Cleared, WriteKeys, Seen;
    hide AllLanded, Reported;
    var b64Buf := new char[TEXT_CAP];
    var line := new char[LINE_CAP];
    var b64Len, overflow := ReadPaste(input, b64Buf, line);
    if overflow {
      return false;
    }
    if b64Len == 0 {
      return false;
    }
    if b64Len / 4 * 3 > BLOB_CAP {
      return false;
    }
    var importBuf := new u8[BLOB_CAP];
    var len := B.Base64Decode(b64Buf[..b64Len], importBuf, BLOB_CAP);
    if len < 0 {
      return false;
    }
    var blob := importBuf[..len];
    assert Delivers(input, blob);
    forall b | Delivers(input, b) ensures b == blob {
      DeliversOne(input, b, blob);
    }
    ok := BackupImport(store, blob, dir, removals, writes);
  }

  // ------------------------------------------------------ what the paste does to text

  predicate IsPlain(s: string) { '\r' !in s && '\n' !in s }

  function Cut(s: string): string {
    if |s| < LINE_CAP then s else s[..LINE_CAP - 1]
  }

  /** Without line ends, characters gather on the line up to the 255th. */
  lemma {:induction false} FeedLine(p: Paste, s: string)
    requires !p.done && p.line == [] && IsPlain(s)
    ensures Feed(p, s) == p.(line := Cut(s))
  {
    if s != [] {
      FeedLine(p, s[..|s| - 1]);
    }
  }

  predicate IsEol(eol: string) { eol == "\n" || eol == "\r\n" }

  lemma FeedEol(p: Paste, eol: string)
    requires IsEol(eol)
    ensures Feed(p, eol) == Take(p, '\n')
  {
    assert Feed(p, eol[..0]) == p;
    if eol == "\r\n" {
      assert eol[..1][..0] == [] && Feed(p, eol[..1]) == Take(p, '\r');
    } else {
      assert eol[..|eol| - 1] == [];
    }
  }

  /** The lines, each with its end. */
  function Wrapped(lines: seq<string>, eol: string): string {
    if lines == [] then [] else Wrapped(lines[..|lines| - 1], eol) + (lines[|lines| - 1] + eol)
  }

  function Flat(lines: seq<string>): string {
    if lines == [] then [] else Flat(lines[..|lines| - 1]) + lines[|lines| - 1]
  }

  predicate IsLine(s: string) { s != [] && IsPlain(s) }

  /** Lines arrive one after the other, each cut at 255 characters. */
  lemma {:induction false} FeedLines(lines: seq<string>, eol: string)
    requires IsEol(eol) && |Flat(lines)| < TEXT_CAP
    requires forall l | l in lines :: IsLine(l) && |l| <= 255
    ensures Feed(START, Wrapped(lines, eol)) == Paste(Flat(lines), [], false, false)
  {
    if lines != [] {
      var (init, last) := (lines[..|lines| - 1], lines[|lines| - 1]);
      FeedLines(init, eol);
      FeedOneLine(Feed(START, Wrapped(init, eol)), last, eol);
      FeedAppend(START, Wrapped(init, eol), last + eol);
    }
  }

  lemma FeedOneLine(p: Paste, l: string, eol: string)
    requires IsEol(eol) && IsLine(l) && !p.done && p.line == []
    requires |p.text| + |Cut(l)| < TEXT_CAP
    ensures Feed(p, l + eol) == p.(text := p.text + Cut(l))
  {
    hide Feed;
    FeedAppend(p, l, eol);
    FeedLine(p, l);
    FeedEol(Feed(p, l), eol);
  }

  /** An empty line ends the paste, whatever follows. */
  lemma FeedEnd(input: string, eol: string, tail: string, p: Paste)
    requires IsEol(eol) && Feed(START, input) == p && p.line == []
    ensures Feed(START, input + eol + tail) == p.(done := true)
  {
    FeedAppend(START, input, eol);
    FeedEol(p, eol);
    FeedAppend(START, input + eol, tail);
    FeedDone(Feed(START, input + eol), tail);
  }

  lemma GroupIsPlain(x: bytes)
    requires 1 <= |x| <= 3
    ensures IsPlain(B.Group(x))
  {
    hide B.Bits;
  }

  lemma {:induction false} EncodeIsPlain(x: bytes)
    ensures IsPlain(B.Encode(x))
    decreases |x|
  {
    hide B.Group;
    if |x| > 3 {
      GroupIsPlain(x[..3]);
      EncodeIsPlain(x[3..]);
    } else if x != [] {
      GroupIsPlain(x);
    }
  }

  // -------------------------------------------------------------------------- results

  /** The length of an export as text. */
  lemma ExportLength(step: CrcStep, keys: seq<Fields>)
    requires |keys| <= 128
    ensures |Blob(step, keys)| == 16 + 44 * |keys| <= BLOB_CAP
    ensures |B.Encode(Blob(step, keys))| == 4 * ((18 + 44 * |keys|) / 3) < TEXT_CAP
  {
    B.EncodeLength(Blob(step, keys));
  }

  /** An export pasted in lines of at most 255 characters reaches the import
      unchanged, unless it is that of a full store: 128 keys make 7532 characters,
      whose upper bound of 5649 bytes fails the size check, though the blob fits. */
  lemma WrappedDelivers(step: CrcStep, keys: seq<Fields>, lines: seq<string>, eol: string, tail: string)
    requires |keys| <= 128 && IsEol(eol)
    requires Flat(lines) == B.Encode(Blob(step, keys)) && forall l | l in lines :: IsLine(l) && |l| <= 255
    ensures (exists b :: Delivers(Wrapped(lines, eol) + eol + tail, b)) <==> |keys| < 128
    ensures |keys| < 128 ==> Delivers(Wrapped(lines, eol) + eol + tail, Blob(step, keys))
  {
    hide Feed, Wrapped, Flat, B.Encode, Blob;
    ExportLength(step, keys);
    FeedLines(lines, eol);
    FeedEnd(Wrapped(lines, eol), eol, tail, Paste(Flat(lines), [], false, false));
    var input := Wrapped(lines, eol) + eol + tail;
    if |keys| < KEY_MAX_COUNT {
      assert Delivers(input, Blob(step, keys));
    } else {
      assert forall b :: !Delivers(input, b);
    }
  }

  /** An export pasted back as it is printed, on one line, reaches the import only
      if it has at most three keys: longer lines are cut to 255 characters, which
      no base64 text has. */
  lemma PrintedDelivers(step: CrcStep, keys: seq<Fields>, eol: string, tail: string)
    requires |keys| <= 128 && IsEol(eol)
    ensures var input := B.Encode(Blob(step, keys)) + eol + eol + tail;
            && ((exists b :: Delivers(input, b)) <==> |keys| <= 3)
            && (|keys| <= 3 ==> Delivers(input, Blob(step, keys)))
  {
    hide Feed, B.Encode, Blob;
    var text := B.Encode(Blob(step, keys));
    ExportLength(step, keys);
    EncodeIsPlain(Blob(step, keys));
    FeedOneLine(START, text, eol);
    FeedEnd(text + eol, eol, tail, Paste(Cut(text), [], false, false));
    var input := text + eol + eol + tail;
    if |keys| <= 3 {
      assert Delivers(input, Blob(step, keys));
    }
    forall b | Delivers(input, b) ensures |keys| <= 3 {
      B.EncodeLength(b);
    }
  }

  /** What a device exports, pasted into another in lines that fit, restores there
      every checksum-valid record whose file the export's listing saw, field for
      field, and nothing else. */
  lemma TransferRestores(step: CrcStep, files: Files, dir: Directory, lines: seq<string>, eol: string, tail: string,
                         id: u16) returns (b: bytes)
    requires WellFormed(files) && Entries(dir.order, files) && IsEol(eol)
    requires exists id: u16 :: AdminAt(step, files, id) && FileName(id) in Seen(dir)
    requires |ValidKeys(Listing(step, files, Seen(dir), KEY_MAX_COUNT))| < 128
    requires Flat(lines) == B.Encode(Blob(step, ValidKeys(Listing(step, files, Seen(dir), KEY_MAX_COUNT))))
    requires forall l | l in lines :: IsLine(l) && |l| <= 255
    ensures Delivers(Wrapped(lines, eol) + eol + tail, b) && ValidBlob(step, b)
    ensures Lookup(step, SaveAll(step, map[], BlobKeys(b, BlobCount(b))), id) ==
              match Lookup(step, files, id)
              case None => None
              case Some(r) => if r.isChecksumValid && FileName(id) in Seen(dir) then Some(r) else None
  {
    hide *;
    SeenEntries(dir, files);
    var keys := ValidKeys(Listing(step, files, Seen(dir), KEY_MAX_COUNT));
    b := Blob(step, keys);
    WrappedDelivers(step, keys, lines, eol, tail);
    ExportThenImport(step, files, Seen(dir), id);
  }
}
