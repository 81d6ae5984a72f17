/** What the 32-bit sequence number costs, and that a prompt core 0 is heard. */
module MailboxWrap {
  import opened Words
  import opened Decimals
  import opened Mailbox
  import opened MailboxSafety
  import opened MailboxTrace

  lemma ReachableStep<W(!new)>(judge: (W, u16, u32) -> bool, s: State<W>, a: Action<W>)
    requires Reachable(judge, s)
    ensures Reachable(judge, Step(judge, s, a))
  {
    var schedule: seq<Action<W>> :| s == Exec(judge, Init(), schedule);
    assert (schedule + [a])[..|schedule|] == schedule;
    assert Step(judge, s, a) == Exec(judge, Init(), schedule + [a]);
  }

  // ------------------------------------------------------------ a prompt handler

  /** Core 0 notices the request and gets past its first barrier. */
  function Notice<W>(world: W): seq<Action<W>> {
    [Drain1(ReqSeq), Run0(world), Drain0(RespSeq), Drain0(RespGranted), Run0(world)]
  }

  /** Core 0 reads id and code, decides, and stores its verdict. */
  function Settle<W>(world: W): seq<Action<W>> {
    [Run0(world), Run0(world), Run0(world), Run0(world), Drain0(RespGranted)]
  }

  /** Core 0 passes the second barrier, stores the echoed number and is done. */
  function Reply<W>(world: W): seq<Action<W>> {
    [Run0(world), Run0(world), Drain0(RespSeq), Run0(world), Drain0(RespGranted)]
  }

  /** Core 1 polls once more, and on a match goes on to the verdict. */
  function PollOnce<W>(expired: bool): seq<Action<W>> {
    [Run1(expired), Run1(expired), Run1(expired)]
  }

  lemma ExecThree<W>(judge: (W, u16, u32) -> bool, s: State<W>, a: seq<Action<W>>)
    requires |a| == 3
    ensures Exec(judge, s, a) == Step(judge, Step(judge, Step(judge, s, a[0]), a[1]), a[2])
  {
    assert a[..2][..1] == a[..1] == [] + [a[0]];
    assert Exec(judge, s, a[..1]) == Step(judge, s, a[0]);
  }

  lemma ExecFive<W>(judge: (W, u16, u32) -> bool, s: State<W>, a: seq<Action<W>>)
    requires |a| == 5
    ensures Exec(judge, s, a) ==
            Step(judge, Step(judge, Step(judge, Step(judge, Step(judge, s, a[0]), a[1]), a[2]), a[3]), a[4])
  {
    ExecThree(judge, s, a[..3]);
    assert a[..4][..3] == a[..3];
    assert Exec(judge, s, a[..4]) == Step(judge, Exec(judge, s, a[..3]), a[3]);
  }

  /** While core 1 polls, at most its sequence number is still on the way. */
  lemma RequestDrained<W>(s: State<W>)
    requires RequestInv(s) && s.core1.pc == Poll
    ensures var t := DrainCore1(s, ReqSeq);
            && t == s.(core1 := s.core1.(buffer := Buffer1([], [], [])), mem := s.mem.(reqSeq := t.mem.reqSeq))
            && t.mem.reqSeq.attempt == s.core1.next.attempt && t.mem.reqSeq.word == s.core1.next.word
            && s.mem.reqId == s.core1.id && s.mem.reqCode == s.core1.code
  {
  }

  lemma HandlerDrained<W>(s: State<W>)
    requires |s.core0.buffer.seqs| <= 1 && |s.core0.buffer.verdicts| <= 1
    ensures var t := DrainCore0(DrainCore0(s, RespSeq), RespGranted);
            && t.core1 == s.core1 && t.trace == s.trace && t.core0 == s.core0.(buffer := Buffer0([], []))
            && t.mem == s.mem.(respSeq := t.mem.respSeq, respGranted := t.mem.respGranted)
  {
  }

  lemma NoticeIs<W>(judge: (W, u16, u32) -> bool, s: State<W>, world: W)
    ensures Exec(judge, s, Notice(world)) ==
            StepCore0(judge, DrainCore0(DrainCore0(StepCore0(judge, DrainCore1(s, ReqSeq), world), RespSeq),
                                        RespGranted), world)
  {
    hide Exec, StepCore0, DrainCore0, DrainCore1;
    ExecFive(judge, s, Notice(world));
  }

  lemma SettleIs<W>(judge: (W, u16, u32) -> bool, s: State<W>, world: W)
    ensures Exec(judge, s, Settle(world)) ==
            DrainCore0(StepCore0(judge, StepCore0(judge, StepCore0(judge, StepCore0(judge, s, world), world), world),
                                 world), RespGranted)
  {
    hide Exec, StepCore0, DrainCore0;
    ExecFive(judge, s, Settle(world));
  }

  lemma WatchStep<W>(judge: (W, u16, u32) -> bool, s: State<W>, world: W)
    requires s.core0.pc == Watch && s.mem.reqSeq.word != s.core0.last.word
    ensures StepCore0(judge, s, world) == s.(core0 := s.core0.(pc := HandleFence, stamp := s.mem.reqSeq))
  {
  }

  lemma FenceStep<W>(judge: (W, u16, u32) -> bool, s: State<W>, world: W)
    requires s.core0.pc == HandleFence && s.core0.buffer == Buffer0([], [])
    ensures StepCore0(judge, s, world) == s.(core0 := s.core0.(pc := LoadId))
  {
  }

  lemma Noticed<W>(judge: (W, u16, u32) -> bool, s: State<W>, world: W)
    requires RequestInv(s) && HandlerInv(judge, s)
    requires s.core1.pc == Poll && s.core0.pc == Watch && s.core0.last.word != s.core1.next.word
    ensures var t := Exec(judge, s, Notice(world));
            && t.core1 == s.core1.(buffer := Buffer1([], [], []))
            && t.core0 == s.core0.(pc := LoadId, stamp := t.core0.stamp, buffer := Buffer0([], []))
            && t.core0.stamp.attempt == s.core1.next.attempt && t.core0.stamp.word == s.core1.next.word
            && t.mem.reqId == s.core1.id && t.mem.reqCode == s.core1.code && t.trace == s.trace
  {
    NoticeIs(judge, s, world);
    RequestDrained(s);
    assert |s.core0.buffer.seqs| <= 1 && |s.core0.buffer.verdicts| <= 1;
    hide RequestInv, HandlerInv, DrainCore0, DrainCore1, StepCore0, Exec, Notice;
    var t1 := DrainCore1(s, ReqSeq);
    WatchStep(judge, t1, world);
    var t2 := StepCore0(judge, t1, world);
    HandlerDrained(t2);
    FenceStep(judge, DrainCore0(DrainCore0(t2, RespSeq), RespGranted), world);
  }

  /** Core 0 reads the payload and decides. */
  lemma DecideSteps<W>(judge: (W, u16, u32) -> bool, s: State<W>, world: W) returns (t: State<W>)
    requires s.core0.pc == LoadId && s.core0.buffer == Buffer0([], [])
    ensures t == StepCore0(judge, StepCore0(judge, StepCore0(judge, s, world), world), world)
    ensures var (id, code) := (s.mem.reqId, s.mem.reqCode);
            t == s.(core0 := s.core0.(pc := StoreVerdict, id := id, code := code, granted := judge(world, id, code)),
                    trace := s.trace + [Decided(s.core0.stamp.attempt, id, code, world, judge(world, id, code))])
  {
    var c := s.core0;
    var t1 := StepCore0(judge, s, world);
    assert t1 == s.(core0 := c.(pc := LoadCode, id := s.mem.reqId));
    var t2 := StepCore0(judge, t1, world);
    assert t2 == s.(core0 := c.(pc := Decide, id := s.mem.reqId, code := s.mem.reqCode));
    t := StepCore0(judge, t2, world);
  }

  lemma StoreSteps<W>(judge: (W, u16, u32) -> bool, s: State<W>, world: W) returns (t: State<W>)
    requires s.core0.pc == StoreVerdict && s.core0.buffer == Buffer0([], [])
    ensures t == DrainCore0(StepCore0(judge, s, world), RespGranted)
    ensures t == s.(core0 := s.core0.(pc := VerdictFence), mem := s.mem.(respGranted := s.core0.granted))
  {
    var t1 := StepCore0(judge, s, world);
    assert t1.core0.buffer == Buffer0([], [s.core0.granted]);
    t := DrainCore0(t1, RespGranted);
  }

  lemma Settled<W>(judge: (W, u16, u32) -> bool, s: State<W>, world: W)
    requires s.core0.pc == LoadId && s.core0.buffer == Buffer0([], [])
    ensures var t := Exec(judge, s, Settle(world));
            var granted := judge(world, s.mem.reqId, s.mem.reqCode);
            && t.core1 == s.core1
            && t.core0 == s.core0.(pc := VerdictFence, id := s.mem.reqId, code := s.mem.reqCode, granted := granted)
            && t.mem == s.mem.(respGranted := granted)
            && t.trace == s.trace + [Decided(s.core0.stamp.attempt, s.mem.reqId, s.mem.reqCode, world, granted)]
  {
    SettleIs(judge, s, world);
    hide Exec, StepCore0, DrainCore0, Settle;
    var t3 := DecideSteps(judge, s, world);
    var t5 := StoreSteps(judge, t3, world);
  }

  lemma ReplySteps<W>(judge: (W, u16, u32) -> bool, s: State<W>, world: W) returns (t: State<W>)
    requires s.core0.pc == VerdictFence && s.core0.buffer == Buffer0([], [])
    ensures t == DrainCore0(StepCore0(judge, DrainCore0(StepCore0(judge, StepCore0(judge, s, world), world), RespSeq),
                                      world), RespGranted)
    ensures t == s.(core0 := s.core0.(pc := Watch, last := s.core0.stamp), mem := s.mem.(respSeq := s.core0.stamp))
  {
    var c := s.core0;
    var t1 := StepCore0(judge, s, world);
    assert t1 == s.(core0 := c.(pc := StoreResp));
    var t2 := StepCore0(judge, t1, world);
    assert t2 == s.(core0 := c.(pc := Remember, buffer := Buffer0([c.stamp], [])));
    var t3 := DrainCore0(t2, RespSeq);
    assert t3 == s.(core0 := c.(pc := Remember), mem := s.mem.(respSeq := c.stamp));
    t := DrainCore0(StepCore0(judge, t3, world), RespGranted);
  }

  lemma Replied<W>(judge: (W, u16, u32) -> bool, s: State<W>, world: W)
    requires s.core0.pc == VerdictFence && s.core0.buffer == Buffer0([], [])
    ensures Exec(judge, s, Reply(world))
         == s.(core0 := s.core0.(pc := Watch, last := s.core0.stamp), mem := s.mem.(respSeq := s.core0.stamp))
  {
    ExecFive(judge, s, Reply(world));
    var t := ReplySteps(judge, s, world);
  }

  lemma Polled<W>(judge: (W, u16, u32) -> bool, s: State<W>, expired: bool)
    requires s.core1.pc == Poll && s.core1.buffer == Buffer1([], [], [])
    requires s.mem.respSeq.word == s.core1.next.word
    ensures var t := Exec(judge, s, PollOnce(expired));
            && t.core1.pc == Scan
            && t.trace == s.trace + [if s.mem.respGranted then Opened(s.core1.next.attempt, s.mem.respSeq.attempt)
                                     else Refused(s.core1.next.attempt, s.mem.respSeq.attempt)]
  {
    hide TypedId, TypedCode, Bump;
    ExecThree(judge, s, PollOnce(expired));
    hide Exec, PollOnce;
    var t1 := StepCore1(s, expired);
    assert t1 == s.(core1 := s.core1.(pc := AcceptFence, matched := s.mem.respSeq));
    var t2 := StepCore1(t1, expired);
    assert t2 == t1.(core1 := t1.core1.(pc := ReadVerdict));
  }

  /** One uninterrupted run of core 0's handler during a poll makes the next
      poll return that run's verdict on this attempt, deadline or not. */
  lemma PromptVerdict<W(!new)>(judge: (W, u16, u32) -> bool, s: State<W>, world: W, expired: bool)
    requires Reachable(judge, s)
    requires s.core1.pc == Poll && s.core0.pc == Watch && s.core0.last.word != s.core1.next.word
    ensures var t := Exec(judge, s, Notice(world) + Settle(world) + Reply(world) + PollOnce(expired));
            var (n, id, code) := (s.core1.next.attempt, s.core1.id, s.core1.code);
            && t.core1.pc == Scan
            && t.trace == s.trace + [Decided(n, id, code, world, judge(world, id, code)),
                                     if judge(world, id, code) then Opened(n, n) else Refused(n, n)]
  {
    ReachableInv(judge, s);
    Noticed(judge, s, world);
    var t1 := Exec(judge, s, Notice(world));
    Settled(judge, t1, world);
    var t2 := Exec(judge, t1, Settle(world));
    Replied(judge, t2, world);
    var t3 := Exec(judge, t2, Reply(world));
    Polled(judge, t3, expired);
    ExecAppend(judge, s, Notice(world), Settle(world));
    ExecAppend(judge, s, Notice(world) + Settle(world), Reply(world));
    ExecAppend(judge, s, Notice(world) + Settle(world) + Reply(world), PollOnce(expired));
  }

  // ----------------------------------------------------------------- wrap-around

  lemma SpelledInput(id: u16, code: u32) returns (digits: Digits)
    requires id < 1000 && code < 1_000_000
    ensures |digits| == INPUT_MAX_LEN && TypedId(digits) == id && TypedCode(digits) == code
  {
    SmallPowers();
    var a := Spelled(id, 3);
    var b := Spelled(code, 6);
    digits := a + b;
    assert IdPart(digits) == a && CodePart(digits) == b;
  }

  /** The only attempt that core 0 has decided is the first. */
  ghost predicate FirstOnly<W>(trace: seq<Event<W>>) {
    forall k | 0 <= k < |trace| && trace[k].Decided? :: trace[k].attempt == 1
  }

  lemma Go1<W(!new)>(judge: (W, u16, u32) -> bool, s: State<W>, expired: bool) returns (t: State<W>)
    requires Reachable(judge, s) && FirstOnly(s.trace)
    ensures t == StepCore1(s, expired) && Reachable(judge, t) && FirstOnly(t.trace)
  {
    t := Step(judge, s, Run1(expired));
    ReachableStep(judge, s, Run1(expired));
  }

  lemma GoDrain<W(!new)>(judge: (W, u16, u32) -> bool, s: State<W>, at: Location1) returns (t: State<W>)
    requires Reachable(judge, s)
    ensures t == DrainCore1(s, at) && Reachable(judge, t)
  {
    t := Step(judge, s, Drain1(at));
    ReachableStep(judge, s, Drain1(at));
  }

  lemma GoPress<W(!new)>(judge: (W, u16, u32) -> bool, s: State<W>, key: char) returns (t: State<W>)
    requires Reachable(judge, s) && FirstOnly(s.trace)
    ensures t == PressKey(s, key) && Reachable(judge, t) && FirstOnly(t.trace)
  {
    t := Step(judge, s, Press(key));
    ReachableStep(judge, s, Press(key));
  }

  lemma TypeOne<W(!new)>(judge: (W, u16, u32) -> bool, s: State<W>, key: char) returns (t: State<W>)
    requires Reachable(judge, s) && FirstOnly(s.trace)
    requires s.core1.pc == Scan && |s.core1.input| < INPUT_MAX_LEN && IsDigit(key)
    ensures t == s.(core1 := s.core1.(input := s.core1.input + [key]), trace := t.trace)
    ensures Reachable(judge, t) && FirstOnly(t.trace)
  {
    t := GoPress(judge, s, key);
  }

  /** Typing digits into an empty input collects them. */
  lemma {:induction false} Type<W(!new)>(judge: (W, u16, u32) -> bool, s: State<W>, digits: Digits)
      returns (t: State<W>)
    requires Reachable(judge, s) && FirstOnly(s.trace) && s.core1.pc == Scan && s.core1.input == []
    requires |digits| <= INPUT_MAX_LEN
    ensures t == s.(core1 := s.core1.(input := digits), trace := t.trace)
    ensures Reachable(judge, t) && FirstOnly(t.trace)
    decreases |digits|
  {
    if digits == [] {
      t := s;
    } else {
      var (init, last) := (digits[..|digits| - 1], digits[|digits| - 1]);
      var u := Type(judge, s, init);
      t := TypeOne(judge, u, last);
      assert init + [last] == digits;
    }
  }

  lemma Submitted<W(!new)>(judge: (W, u16, u32) -> bool, s: State<W>, id: u16, code: u32) returns (t: State<W>)
    requires Reachable(judge, s) && FirstOnly(s.trace) && id < 1000 && code < 1_000_000
    requires s.core1.pc == Scan && s.core1.input == []
    ensures t == s.(core1 := s.core1.(pc := StoreId, next := Bump(s.core1.next), id := id, code := code),
                    trace := t.trace)
    ensures Reachable(judge, t) && FirstOnly(t.trace)
  {
    var digits := SpelledInput(id, code);
    var t1 := Type(judge, s, digits);
    var t2 := GoPress(judge, t1, '#');
    assert t2 == t1.(core1 := t1.core1.(pc := Submit), trace := t2.trace);
    t := Go1(judge, t2, false);
  }

  lemma PayloadOut<W(!new)>(judge: (W, u16, u32) -> bool, s: State<W>) returns (t: State<W>)
    requires Reachable(judge, s) && FirstOnly(s.trace)
    requires s.core1.pc == StoreId && s.core1.buffer == Buffer1([], [], [])
    ensures t == s.(core1 := s.core1.(pc := RequestFence), mem := s.mem.(reqId := s.core1.id, reqCode := s.core1.code))
    ensures Reachable(judge, t)
  {
    var (c, id, code) := (s.core1, s.core1.id, s.core1.code);
    var t1 := Go1(judge, s, false);
    assert t1 == s.(core1 := c.(pc := StoreCode, buffer := Buffer1([], [id], [])));
    var t2 := Go1(judge, t1, false);
    assert t2 == s.(core1 := c.(pc := RequestFence, buffer := Buffer1([], [id], [code])));
    var t3 := GoDrain(judge, t2, ReqId);
    assert t3 == s.(core1 := c.(pc := RequestFence, buffer := Buffer1([], [], [code])), mem := s.mem.(reqId := id));
    t := GoDrain(judge, t3, ReqCode);
  }

  /** A complete request for `id` and `code`, up to the first poll. */
  lemma Request<W(!new)>(judge: (W, u16, u32) -> bool, s: State<W>, id: u16, code: u32) returns (t: State<W>)
    requires Reachable(judge, s) && FirstOnly(s.trace) && id < 1000 && code < 1_000_000
    requires s.core1.pc == Scan && s.core1.input == [] && s.core1.buffer == Buffer1([], [], [])
    ensures t == s.(core1 := s.core1.(pc := Poll, next := Bump(s.core1.next), id := id, code := code),
                    mem := s.mem.(reqSeq := Bump(s.core1.next), reqId := id, reqCode := code),
                    trace := t.trace)
    ensures Reachable(judge, t) && FirstOnly(t.trace)
  {
    var t1 := Submitted(judge, s, id, code);
    var t2 := PayloadOut(judge, t1);
    var t3 := Go1(judge, t2, false);
    assert t3 == t2.(core1 := t2.core1.(pc := StoreSeq));
    var t4 := Go1(judge, t3, false);
    assert t4 == t3.(core1 := t3.core1.(pc := Poll, buffer := Buffer1([t3.core1.next], [], [])), trace := t4.trace);
    t := GoDrain(judge, t4, ReqSeq);
  }

  /** Core 0 has granted attempt 1, and its verdict but not its sequence number
      has reached memory; core 1 is between attempts, `n` of them made. */
  ghost predicate Stalled<W>(s: State<W>, n: nat) {
    && s.core1.pc == Scan && s.core1.input == [] && s.core1.buffer == Buffer1([], [], [])
    && n < TWO_32 && s.core1.next == Stamp(n, n)
    && s.core0.pc == VerdictFence && s.mem.respSeq == ZERO && s.mem.respGranted
    && FirstOnly(s.trace)
  }

  /** Core 0 grants attempt 1 and stalls before it stores the echoed number. */
  lemma GrantAndStall<W(!new)>(judge: (W, u16, u32) -> bool, world: W, id: u16, code: u32) returns (t: State<W>)
    requires judge(world, id, code) && id < 1000 && code < 1_000_000
    ensures Reachable(judge, t) && Stalled(t, 1)
  {
    var s: State<W> := Init();
    assert s == Exec(judge, Init(), []);
    var t1 := Request(judge, s, id, code);
    NextWord(0);
    var t2 := FirstNoticed(judge, t1, world);
    Settled(judge, t2, world);
    var t3 := Exec(judge, t2, Settle(world));
    ReachableExec(judge, t2, Settle(world));
    t := Go1(judge, t3, true);
    assert t == t3.(core1 := t3.core1.(pc := Scan), trace := t.trace);
  }

  lemma FirstNoticed<W(!new)>(judge: (W, u16, u32) -> bool, s: State<W>, world: W) returns (t: State<W>)
    requires Reachable(judge, s) && s.core0 == Core0(Watch, ZERO, ZERO, 0, 0, false, Buffer0([], []))
    requires s.mem.reqSeq == Stamp(1, 1)
    ensures t == s.(core0 := s.core0.(pc := LoadId, stamp := Stamp(1, 1)))
    ensures Reachable(judge, t)
  {
    var u := Step(judge, s, Run0(world));
    ReachableStep(judge, s, Run0(world));
    assert u == s.(core0 := s.core0.(pc := HandleFence, stamp := Stamp(1, 1)));
    t := Step(judge, u, Run0(world));
    ReachableStep(judge, u, Run0(world));
  }

  lemma ReachableExec<W(!new)>(judge: (W, u16, u32) -> bool, s: State<W>, more: seq<Action<W>>)
    requires Reachable(judge, s)
    ensures Reachable(judge, Exec(judge, s, more))
  {
    var schedule: seq<Action<W>> :| s == Exec(judge, Init(), schedule);
    ExecAppend(judge, Init(), schedule, more);
  }

  /** With core 0 stalled, every attempt whose word is not 0 times out. */
  lemma {:induction false} TimeOutUntil<W(!new)>(judge: (W, u16, u32) -> bool, s: State<W>, n: nat)
      returns (t: State<W>)
    requires Reachable(judge, s) && Stalled(s, 1) && 1 <= n < TWO_32
    ensures Reachable(judge, t) && Stalled(t, n)
    decreases n
  {
    if n == 1 {
      t := s;
    } else {
      var t1 := TimeOutUntil(judge, s, n - 1);
      t := TimeOutOnce(judge, t1, n);
    }
  }

  lemma TimeOutOnce<W(!new)>(judge: (W, u16, u32) -> bool, s: State<W>, n: nat) returns (t: State<W>)
    requires 1 < n < TWO_32
    requires Reachable(judge, s) && Stalled(s, n - 1)
    ensures Reachable(judge, t) && Stalled(t, n)
  {
    var u := Request(judge, s, 0, 0);
    assert u.core1.next == Stamp(n, n) by { NextWord(n - 1); }
    t := Go1(judge, u, true);
    assert t == u.(core1 := u.core1.(pc := Scan), trace := t.trace);
  }

  lemma NextWord(n: nat)
    requires n < TWO_32
    ensures Bump(Stamp(n, n)) == Stamp(if n + 1 == TWO_32 then 0 else n + 1, n + 1)
  {
  }

  /** Attempt 2^32 wraps to the initial word 0, matches a mailbox that core 0 has
      not answered yet, and opens on the verdict meant for attempt 1. */
  lemma WrappedAttemptOpens<W(!new)>(judge: (W, u16, u32) -> bool, world: W, id: u16, code: u32)
      returns (s: State<W>, k: nat)
    requires judge(world, id, code) && id < 1000 && code < 1_000_000
    ensures Reachable(judge, s) && k < |s.trace| && s.trace[k] == Opened(TWO_32, 0)
    ensures !Justified(judge, s.trace[..k], TWO_32, true)
  {
    var t := GrantAndStall(judge, world, id, code);
    var t1 := TimeOutUntil(judge, t, TWO_32 - 1);
    var t2 := Request(judge, t1, 0, 0);
    assert t2.core1.next == Stamp(0, TWO_32) by { NextWord(TWO_32 - 1); }
    s, k := MatchAndOpen(judge, t2);
  }

  lemma MatchAndOpen<W(!new)>(judge: (W, u16, u32) -> bool, s: State<W>) returns (t: State<W>, k: nat)
    requires Reachable(judge, s) && FirstOnly(s.trace)
    requires s.core1.pc == Poll && s.core1.next == Stamp(0, TWO_32) && s.core1.buffer == Buffer1([], [], [])
    requires s.mem.respSeq == ZERO && s.mem.respGranted
    ensures Reachable(judge, t) && k < |t.trace| && t.trace[k] == Opened(TWO_32, 0) && FirstOnly(t.trace)
  {
    var t1 := Go1(judge, s, false);
    assert t1 == s.(core1 := s.core1.(pc := AcceptFence, matched := ZERO));
    var t2 := Go1(judge, t1, false);
    assert t2 == t1.(core1 := t1.core1.(pc := ReadVerdict));
    t := Go1(judge, t2, false);
    k := |t2.trace|;
  }

  /** No run in which at most `bound` attempts are made opens the latch without
      core 0 having granted that very attempt. */
  ghost predicate SafeFor<W(!new)>(judge: (W, u16, u32) -> bool, bound: nat) {
    forall s: State<W>, k | Reachable(judge, s) && 0 <= k < |s.trace| ::
      s.trace[k].Opened? && s.trace[k].attempt <= bound ==>
        Justified(judge, s.trace[..k], s.trace[k].attempt, true)
  }

  /** The mailbox is safe exactly as long as fewer than 2^32 attempts are made. */
  lemma SafeUntilWrap<W(!new)>(judge: (W, u16, u32) -> bool, bound: nat, world: W, id: u16, code: u32)
    requires judge(world, id, code) && id < 1000 && code < 1_000_000
    ensures SafeFor(judge, bound) <==> bound < TWO_32
  {
    if bound < TWO_32 {
      forall s: State<W>, k | && Reachable(judge, s) && 0 <= k < |s.trace|
                              && s.trace[k].Opened? && s.trace[k].attempt <= bound
        ensures Justified(judge, s.trace[..k], s.trace[k].attempt, true)
      {
        VerdictIsOwn(judge, s, k);
      }
    } else {
      var s, k := WrappedAttemptOpens(judge, world, id, code);
    }
  }

  // ------------------------------------------------------- what a wrap cannot do

  predicate IsGrant<W>(e: Event<W>) { e.Decided? && e.granted }

  ghost predicate GrantBy<W>(trace: seq<Event<W>>, n: nat)
    requires n <= |trace|
  {
    exists j :: 0 <= j < n && IsGrant(trace[j])
  }

  /** Nothing opens before core 0 grants something, and until then no verdict that is
      stored, on its way or in memory is a grant. */
  ghost predicate GrantInv<W>(s: State<W>) {
    && (forall k | 0 <= k < |s.trace| :: s.trace[k].Opened? ==> GrantBy(s.trace, k))
    && (|| GrantBy(s.trace, |s.trace|)
        || (&& !s.mem.respGranted && true !in s.core0.buffer.verdicts
            && (s.core0.pc == StoreVerdict ==> !s.core0.granted)))
  }

  lemma GrantGrows<W>(trace: seq<Event<W>>, e: Event<W>, n: nat)
    requires n <= |trace|
    ensures GrantBy(trace + [e], n) <==> GrantBy(trace, n)
    ensures GrantBy(trace + [e], |trace| + 1) <==> GrantBy(trace, |trace|) || IsGrant(e)
  {
    var longer := trace + [e];
    if j :| 0 <= j < |trace| && IsGrant(trace[j]) {
      assert IsGrant(longer[j]);
    }
    if j :| 0 <= j < n && IsGrant(trace[j]) {
      assert IsGrant(longer[j]);
    }
    assert longer[|trace|] == e;
    forall j | 0 <= j < |trace| && IsGrant(longer[j]) ensures IsGrant(trace[j]) {
    }
  }

  lemma GrantStep<W>(judge: (W, u16, u32) -> bool, s: State<W>, a: Action<W>)
    requires GrantInv(s)
    ensures GrantInv(Step(judge, s, a))
  {
    hide TypedId, TypedCode, Bump, GrantBy;
    var s' := Step(judge, s, a);
    if s'.trace != s.trace {
      var e := s'.trace[|s.trace|];
      assert s'.trace == s.trace + [e];
      forall k | 0 <= k <= |s.trace| ensures GrantBy(s.trace + [e], k) <==> GrantBy(s.trace, k) {
        GrantGrows(s.trace, e, k);
      }
      GrantGrows(s.trace, e, 0);
    }
  }

  lemma {:induction false} GrantHolds<W>(judge: (W, u16, u32) -> bool, schedule: seq<Action<W>>)
    ensures GrantInv(Exec(judge, Init(), schedule))
    decreases |schedule|
  {
    if schedule != [] {
      hide GrantInv, Step;
      GrantHolds(judge, schedule[..|schedule| - 1]);
      GrantStep(judge, Exec(judge, Init(), schedule[..|schedule| - 1]), schedule[|schedule| - 1]);
    } else {
      assert Exec(judge, Init(), schedule) == Init();
    }
  }

  /** However often the numbers wrap, nothing opens before core 0 has granted
      something. */
  lemma OpenedNeedsGrant<W(!new)>(judge: (W, u16, u32) -> bool, s: State<W>, k: nat) returns (j: nat)
    requires Reachable(judge, s) && k < |s.trace| && s.trace[k].Opened?
    ensures j < k && s.trace[j].Decided? && s.trace[j].granted
  {
    var schedule: seq<Action<W>> :| s == Exec(judge, Init(), schedule);
    GrantHolds(judge, schedule);
    assert GrantBy(s.trace, k);
    j :| 0 <= j < k && IsGrant(s.trace[j]);
  }
}
