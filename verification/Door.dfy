/** The two ends of the door mailbox as code, and the lock as a whole. */
module Door {
  import opened Words
  import opened Decimals
  import opened Storage
  import opened Totp
  import opened Device
  import L = MailboxLive
  import M = Mailbox
  import T = MailboxTrace
  import W = MailboxWrap

  /** `door_verify_mailbox`. */
  class SharedMailbox {
    var requestSeq: u32
    var requestId: u16
    var requestCode: u32
    var responseSeq: u32
    var responseGranted: bool

    function Fields(): Shared reads this {
      Shared(requestSeq, requestId, requestCode, responseSeq, responseGranted)
    }
  }

  /** The five words of the mailbox. */
  datatype Shared = Shared(reqSeq: u32, reqId: u16, reqCode: u32, respSeq: u32, respGranted: bool)

  function InMemory(m: M.Memory): Shared {
    Shared(m.reqSeq.word, m.reqId, m.reqCode, m.respSeq.word, m.respGranted)
  }

  // ------------------------------------------------------------------------- core 0

  /** Core 0's answer to a mailbox: nothing new, or the verdict on the payload. */
  function Answered<V>(judge: (V, u16, u32) -> bool, world: V, last: u32, m: Shared): (u32, Shared) {
    if m.reqSeq == last then (last, m)
    else (m.reqSeq, m.(respSeq := m.reqSeq, respGranted := judge(world, m.reqId, m.reqCode)))
  }

  class VerifyCore {
    var lastHandledSeq: u32

    constructor ()
      ensures lastHandledSeq == 0
    {
      lastHandledSeq := 0;
    }

    /** `core0_handle_door_verify`, undisturbed. */
    method HandleDoorVerify(mailbox: SharedMailbox, p: Primitives, store: Store, unreadable: set<string>,
                            rtc: Option<u32>)
      requires store.step == p.step
      modifies this, mailbox
      ensures (lastHandledSeq, mailbox.Fields()) ==
                Answered(DoorRule(p), Snapshot(store.mounted, store.files, unreadable, rtc),
                         old(lastHandledSeq), old(mailbox.Fields()))
    {
      var seqNo := mailbox.requestSeq;
      if seqNo == lastHandledSeq {
        return;
      }
      var id := mailbox.requestId;
      var code := mailbox.requestCode;
      var granted := false;
      var key := store.KeyGet(id, FileName(id) !in unreadable);
      if key.None? {
      } else if !key.value.isChecksumValid {
      } else if !key.value.fields.isEnabled {
      } else {
        var ok := TotpVerify(p.hmac, key.value.fields.secret, rtc, code);
        if ok {
          granted := true;
        }
      }
      mailbox.responseGranted := granted;
      mailbox.responseSeq := seqNo;
      lastHandledSeq := seqNo;
    }
  }

  /** The handler's atomic steps, run without interruption, do the same. */
  function HandlerRun<V>(world: V): seq<M.Action<V>> {
    [M.Run0(world), M.Run0(world)] + W.Settle(world) + W.Reply(world)
  }

  lemma HandlerRefines<V>(judge: (V, u16, u32) -> bool, s: M.State<V>, world: V)
    requires s.core0.pc == M.Watch && s.core0.buffer == M.Buffer0([], [])
    ensures s.mem.reqSeq.word == s.core0.last.word ==> M.Step(judge, s, M.Run0(world)) == s
    ensures s.mem.reqSeq.word != s.core0.last.word ==>
              var t := M.Exec(judge, s, HandlerRun(world));
              && t.core0.pc == M.Watch && t.core1 == s.core1
              && (t.core0.last.word, InMemory(t.mem)) ==
                   Answered(judge, world, s.core0.last.word, InMemory(s.mem))
  {
    if s.mem.reqSeq.word != s.core0.last.word {
      var first := [M.Run0(world), M.Run0(world)];
      assert first[..1][..0] == [] && first[..1] == [M.Run0(world)];
      var t1 := M.Exec(judge, s, first);
      assert t1 == s.(core0 := s.core0.(pc := M.LoadId, stamp := s.mem.reqSeq)) by {
        assert M.Exec(judge, s, first[..1]) == M.Step(judge, s, M.Run0(world));
      }
      W.Settled(judge, t1, world);
      W.Replied(judge, M.Exec(judge, t1, W.Settle(world)), world);
      M.ExecAppend(judge, s, first, W.Settle(world));
      M.ExecAppend(judge, s, first + W.Settle(world), W.Reply(world));
    }
  }

  // ------------------------------------------------------------------------- core 1

  class KeypadCore {
    const inputBuf: array<char>
    var inputLen: nat
    var nextSeq: u32
    ghost var keys: seq<char>   // every key so far

    ghost predicate Valid() reads this, inputBuf {
      && inputBuf.Length == M.INPUT_MAX_LEN + 1 && inputLen <= M.INPUT_MAX_LEN
      && inputBuf[..inputLen] == T.FirstNine(T.SinceClear(keys))
    }

    constructor ()
      ensures Valid() && keys == [] && nextSeq == 0 && fresh(inputBuf)
    {
      inputBuf := new char[M.INPUT_MAX_LEN + 1](_ => '\0');
      inputLen, nextSeq, keys := 0, 0, [];
    }

    /** One key of `main1`; on '#' the request side of `process_input`. */
    method Press(mailbox: SharedMailbox, key: char) returns (asked: bool)
      requires Valid()
      modifies this, inputBuf, mailbox
      ensures Valid() && keys == old(keys) + [key]
      ensures mailbox.responseSeq == old(mailbox.responseSeq) && mailbox.responseGranted == old(mailbox.responseGranted)
      ensures asked <==> key == '#' && 7 <= |T.SinceClear(old(keys))|
      ensures asked ==>
                && L.Spells(T.SinceClear(old(keys)), mailbox.requestId, mailbox.requestCode)
                && mailbox.requestSeq == nextSeq == (old(nextSeq) + 1) % 0x1_0000_0000
      ensures !asked ==> mailbox.Fields() == old(mailbox.Fields()) && nextSeq == old(nextSeq)
    {
      asked := false;
      if key == '*' {
        Clear();
      } else if key == '#' {
        if inputLen < M.INPUT_MIN_LEN || inputLen > M.INPUT_MAX_LEN {
          Clear();
        } else {
          var input: Digits := inputBuf[..inputLen];
          T.TypedReads(input);
          var id, code := M.TypedId(input), M.TypedCode(input);
          Clear();
          nextSeq := (nextSeq + 1) % 0x1_0000_0000;
          mailbox.requestId := id;
          mailbox.requestCode := code;
          mailbox.requestSeq := nextSeq;
          asked := true;
        }
      } else if IsDigit(key) {
        if inputLen < M.INPUT_MAX_LEN {
          inputBuf[inputLen] := key;
          inputLen := inputLen + 1;
        }
      }
      assert (keys + [key])[..|keys|] == keys;
      keys := keys + [key];
    }

    /** `input_clear`. */
    method Clear()
      modifies inputBuf, this`inputLen
      ensures inputLen == 0
    {
      forall i | 0 <= i < inputBuf.Length {
        inputBuf[i] := '\0';
      }
      inputLen := 0;
    }
  }

  // ----------------------------------------------------------------------- end to end

  /** The right code opens the door, and no other: from every reachable state between
      attempts with an idle core 0, at least seven digits and '#' open the latch, if
      both cores go on undisturbed, exactly if the id and code they spell are right. */
  lemma RightCodeOpens(p: Primitives, s: M.State<Snapshot>, now: Snapshot, expired: bool)
      returns (id: u16, code: u32)
    requires M.Reachable(DoorRule(p), s) && s.core1.pc == M.Scan && s.core0.pc == M.Watch
    requires s.core0.last.word != (s.core1.next.word + 1) % 0x1_0000_0000
    requires 7 <= |T.SinceClear(T.Keys(s.trace))|
    ensures L.Spells(T.SinceClear(T.Keys(s.trace)), id, code)
    ensures var trace := M.Exec(DoorRule(p), s, L.Attempt(now, expired)).trace;
            && |trace| == |s.trace| + 5
            && (trace[|trace| - 1].Opened? <==> RightCode(p, now, id, code))
            && (trace[|trace| - 1].Refused? <==> !RightCode(p, now, id, code))
  {
    hide M.Reachable, M.Exec, L.Attempt, L.Spells, T.Keys, T.SinceClear, KeyAccepts, RightCode;
    id, code := L.AttemptAnswered(DoorRule(p), s, now, expired);
    RightCodeIff(p, now, id, code);
  }

  /** In every schedule of the two cores and every history of storage and clock,
      while fewer than 2^32 attempts lie between an answer and its use: if the
      latch opens, then the first nine digits typed since the last clear are an id
      and a six-digit code, and core 0 found, after that, a key of this id that is
      intact and enabled, and whose HOTP value (RFC 4226) for the clock's step or
      a neighbouring one is the code. */
  lemma DoorOpensRightly(p: Primitives, s: M.State<Snapshot>, k: nat) returns (q: nat, j: nat, step: u64)
    requires M.Reachable(DoorRule(p), s)
    requires k < |s.trace| && s.trace[k].Opened? && s.trace[k].attempt < s.trace[k].answered + TWO_32
    ensures q < j < k && s.trace[q].Asked? && s.trace[j].Decided?
    ensures var keys := T.Keys(s.trace[..q]);
            && keys != [] && keys[|keys| - 1] == '#'
            && var digits := T.FirstNine(T.SinceClear(keys[..|keys| - 1]));
            && 7 <= |digits| <= 9
            && Decimal(digits) == 1_000_000 * s.trace[q].id + s.trace[q].code
            && s.trace[q].code < 1_000_000
    ensures var now := s.trace[j].world;
            var key := Lookup(p.step, now.files, s.trace[q].id);
            && now.mounted && key.Some? && key.value.isChecksumValid && key.value.fields.isEnabled
            && now.rtc.Some? && InWindow(now.rtc.value, step)
            && s.trace[q].code == Hotp(p.hmac(key.value.fields.secret, PackStep(step)))
  {
    var i: nat;
    q, i, j := OpenedBy(p, s, k);
    var now, code := s.trace[j].world, s.trace[q].code;
    var secret := Lookup(p.step, now.files, s.trace[q].id).value.fields.secret;
    AcceptsIff(p.hmac, secret, now.rtc.value, code);
    step :| InWindow(now.rtc.value, step) && Hotp(p.hmac(secret, PackStep(step))) == code;
  }

  lemma OpenedBy(p: Primitives, s: M.State<Snapshot>, k: nat) returns (q: nat, i: nat, j: nat)
    requires M.Reachable(DoorRule(p), s)
    requires k < |s.trace| && s.trace[k].Opened? && s.trace[k].attempt < s.trace[k].answered + TWO_32
    ensures T.OpensRightly(DoorRule(p), s.trace, k, q, i, j)
    ensures KeyAccepts(p, s.trace[j].world, s.trace[q].id, s.trace[q].code)
  {
    hide M.Reachable;
    T.LatchOpensRightly(DoorRule(p), s, k);
    q, i, j :| T.OpensRightly(DoorRule(p), s.trace, k, q, i, j);
  }
}
