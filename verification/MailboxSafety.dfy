/** No schedule makes core 1 act on a verdict for another attempt, as long as
    sequence numbers have not wrapped since the response was computed. */
module MailboxSafety {
  import opened Words
  import opened Mailbox

  // ------------------------------------------------------------- what to prove

  /** `d` is core 0's decision on exactly the request that `p` published as attempt `n`. */
  ghost predicate Answers<W>(judge: (W, u16, u32) -> bool, p: Event<W>, d: Event<W>, n: nat, granted: bool) {
    && p.Published? && d.Decided? && p.attempt == n
    && d == Decided(n, p.id, p.code, d.world, granted)
    && granted == judge(d.world, p.id, p.code)
  }

  /** Attempt `n` was published and then decided with verdict `granted`. */
  ghost predicate Justified<W>(judge: (W, u16, u32) -> bool, trace: seq<Event<W>>, n: nat, granted: bool) {
    exists i, j :: 0 <= i < j < |trace| && Answers(judge, trace[i], trace[j], n, granted)
  }

  predicate IsVerdict<W>(e: Event<W>) { e.Opened? || e.Refused? }

  /** The verdict event at `k` uses a response of the same word, and of the same
      attempt only if that attempt was decided that way before. */
  ghost predicate VerdictOk<W>(judge: (W, u16, u32) -> bool, trace: seq<Event<W>>, k: nat)
    requires k < |trace|
  {
    var e := trace[k];
    IsVerdict(e) ==>
      && e.answered <= e.attempt
      && e.answered % TWO_32 == e.attempt % TWO_32
      && (e.answered == e.attempt ==> Justified(judge, trace[..k], e.attempt, e.Opened?))
  }

  ghost predicate TraceOk<W>(judge: (W, u16, u32) -> bool, trace: seq<Event<W>>) {
    forall k | 0 <= k < |trace| :: VerdictOk(judge, trace, k)
  }

  // --------------------------------------------------------- inductive invariant

  ghost predicate Tagged(s: Stamp) { s.word == s.attempt % TWO_32 }

  predicate Preparing(pc: Pc1) { pc in {StoreId, StoreCode, RequestFence, StoreSeq} }

  /** The value that a location holds once its pending stores have drained. */
  function Latest<T>(pending: seq<T>, inMemory: T): T {
    if pending == [] then inMemory else pending[|pending| - 1]
  }

  /** Core 1's stores: the sequence number that vouches for a payload is never
      ahead of the payload. */
  ghost predicate RequestInv<W>(s: State<W>) {
    var (m, c, b) := (s.mem, s.core1, s.core1.buffer);
    && Tagged(c.next) && Tagged(m.reqSeq)
    && |b.seqs| <= 1 && |b.ids| <= 1 && |b.codes| <= 1
    && (b.seqs != [] ==> Tagged(b.seqs[0]) && m.reqSeq.attempt < b.seqs[0].attempt)
    && Latest(b.seqs, m.reqSeq).attempt == c.next.attempt - (if Preparing(c.pc) then 1 else 0)
    && (c.pc == StoreId ==> b.ids == [] && b.codes == [])
    && (c.pc == StoreCode ==> b.codes == [] && Latest(b.ids, m.reqId) == c.id)
    && (c.pc == RequestFence ==> Latest(b.ids, m.reqId) == c.id && Latest(b.codes, m.reqCode) == c.code)
    && (c.pc == StoreSeq ==> b.seqs == [])
    && (c.pc == StoreSeq || !Preparing(c.pc) ==>
          b.ids == [] && b.codes == [] && m.reqId == c.id && m.reqCode == c.code)
    && (!Preparing(c.pc) && c.next.attempt > 0 ==> Published(c.next.attempt, c.id, c.code) in s.trace)
  }

  /** Core 0 answers in attempt order, and while it works on the attempt that
      core 1 waits for, its locals are that attempt's payload and verdict. */
  ghost predicate HandlerInv<W>(judge: (W, u16, u32) -> bool, s: State<W>) {
    var (m, c, b) := (s.mem, s.core0, s.core0.buffer);
    && Tagged(c.last) && c.last.attempt <= m.reqSeq.attempt
    && |b.seqs| <= 1 && |b.verdicts| <= 1
    && (c.pc != Watch ==> Tagged(c.stamp) && c.last.attempt < c.stamp.attempt <= m.reqSeq.attempt)
    && (c.pc != VerdictFence ==> b.verdicts == [])
    && (c.pc in {LoadId, LoadCode, Decide, StoreVerdict, StoreResp} ==> b.seqs == [])
    && (c.pc == VerdictFence ==> Latest(b.verdicts, m.respGranted) == c.granted)
    && (c.pc in {StoreResp, Remember} ==> m.respGranted == c.granted)
    && (c.pc != Watch && c.stamp.attempt == s.core1.next.attempt ==>
          && (c.pc in {LoadCode, Decide} ==> c.id == s.core1.id)
          && (c.pc == Decide ==> c.code == s.core1.code)
          && (c.pc in {StoreVerdict, VerdictFence, StoreResp, Remember} ==>
                Justified(judge, s.trace, c.stamp.attempt, c.granted)))
  }

  /** Responses, pending or in memory: the current attempt's is justified. */
  ghost predicate ResponseInv<W>(judge: (W, u16, u32) -> bool, s: State<W>) {
    var (m, c, b) := (s.mem, s.core0, s.core0.buffer);
    var newest := Latest(b.seqs, m.respSeq);
    && Tagged(m.respSeq)
    && (b.seqs != [] ==> Tagged(b.seqs[0]) && m.respSeq.attempt < b.seqs[0].attempt)
    && newest.attempt == (if c.pc == Remember then c.stamp else c.last).attempt
    && (newest.attempt == s.core1.next.attempt && newest.attempt > 0 ==>
          Justified(judge, s.trace, newest.attempt, m.respGranted))
  }

  ghost predicate MatchInv<W>(s: State<W>) {
    var c := s.core1;
    && (c.pc in {Poll, AcceptFence, ReadVerdict} ==> c.next.attempt > 0)
    && (c.pc == ReadVerdict ==> c.buffer.seqs == [])
    && (c.pc in {AcceptFence, ReadVerdict} ==>
          && c.matched.word == c.next.word && Tagged(c.matched) && c.matched.attempt <= c.next.attempt
          && (c.matched.attempt == c.next.attempt ==> s.mem.respSeq.attempt == c.next.attempt))
  }

  ghost predicate Inv<W>(judge: (W, u16, u32) -> bool, s: State<W>) {
    && RequestInv(s) && HandlerInv(judge, s) && ResponseInv(judge, s) && MatchInv(s)
    && TraceOk(judge, s.trace)
  }

  lemma JustifiedGrows<W>(judge: (W, u16, u32) -> bool, trace: seq<Event<W>>, e: Event<W>, n: nat, granted: bool)
    requires Justified(judge, trace, n, granted)
    ensures Justified(judge, trace + [e], n, granted)
  {
    var i, j :| 0 <= i < j < |trace| && Answers(judge, trace[i], trace[j], n, granted);
    assert Answers(judge, (trace + [e])[i], (trace + [e])[j], n, granted);
  }

  /** One more event keeps the trace right and whatever was justified. */
  lemma Grow<W>(judge: (W, u16, u32) -> bool, trace: seq<Event<W>>, e: Event<W>)
    requires TraceOk(judge, trace)
    requires IsVerdict(e) ==> VerdictOk(judge, trace + [e], |trace|)
    ensures TraceOk(judge, trace + [e])
    ensures forall n, g :: Justified(judge, trace, n, g) ==> Justified(judge, trace + [e], n, g)
  {
    forall k | 0 <= k < |trace + [e]| ensures VerdictOk(judge, trace + [e], k) {
      if k < |trace| {
        assert (trace + [e])[..k] == trace[..k];
        assert VerdictOk(judge, trace, k);
      }
    }
    forall n, g | Justified(judge, trace, n, g) ensures Justified(judge, trace + [e], n, g) {
      JustifiedGrows(judge, trace, e, n, g);
    }
  }

  lemma NewVerdict<W>(judge: (W, u16, u32) -> bool, s: State<W>, e: Event<W>)
    requires Inv(judge, s) && s.core1.pc == ReadVerdict
    requires e == if s.mem.respGranted then Opened(s.core1.next.attempt, s.core1.matched.attempt)
                  else Refused(s.core1.next.attempt, s.core1.matched.attempt)
    ensures VerdictOk(judge, s.trace + [e], |s.trace|)
  {
    assert (s.trace + [e])[..|s.trace|] == s.trace;
  }

  /** What was justified, or written to the trace, stays so after a step of core 1. */
  lemma TraceCore1<W>(judge: (W, u16, u32) -> bool, s: State<W>, expired: bool)
    requires Inv(judge, s)
    ensures TraceOk(judge, StepCore1(s, expired).trace)
    ensures forall n, g :: Justified(judge, s.trace, n, g) ==> Justified(judge, StepCore1(s, expired).trace, n, g)
  {
    var trace' := StepCore1(s, expired).trace;
    if trace' != s.trace {
      var e := trace'[|s.trace|];
      if s.core1.pc == ReadVerdict {
        NewVerdict(judge, s, e);
      }
      Grow(judge, s.trace, e);
    }
  }

  lemma BumpTagged(s: Stamp)
    requires Tagged(s)
    ensures Tagged(Bump(s)) && Bump(s).attempt == s.attempt + 1
  {
  }

  lemma RequestCore1<W>(s: State<W>, expired: bool)
    requires RequestInv(s)
    ensures RequestInv(StepCore1(s, expired))
  {
    BumpTagged(s.core1.next);
    hide Tagged, Bump, TypedId, TypedCode;
    if s.core1.pc == StoreSeq {
      assert s.core1.buffer.seqs + [s.core1.next] == [s.core1.next];
    }
  }

  /** A step of core 1 leaves core 0 and memory alone; a new attempt is ahead of
      everything core 0 has handled. */
  lemma Core1Frame<W>(judge: (W, u16, u32) -> bool, s: State<W>, s': State<W>)
    requires HandlerInv(judge, s) && ResponseInv(judge, s)
    requires s'.mem == s.mem && s'.core0 == s.core0
    requires s'.core1.next.attempt > s.mem.reqSeq.attempt
          || (&& s'.core1.next.attempt == s.core1.next.attempt
              && s'.core1.id == s.core1.id && s'.core1.code == s.core1.code)
    requires forall n, g :: Justified(judge, s.trace, n, g) ==> Justified(judge, s'.trace, n, g)
    ensures HandlerInv(judge, s') && ResponseInv(judge, s')
  {
  }

  lemma MatchCore1<W>(s: State<W>, expired: bool)
    requires MatchInv(s) && Tagged(s.mem.respSeq) && s.mem.respSeq.attempt <= s.core1.next.attempt
    requires s.core1.pc == StoreSeq ==> s.core1.next.attempt > 0
    ensures MatchInv(StepCore1(s, expired))
  {
    hide Tagged, TypedId, TypedCode, Bump;
  }

  /** No response is ahead of the attempts made. */
  lemma ResponseBehind<W>(judge: (W, u16, u32) -> bool, s: State<W>)
    requires RequestInv(s) && HandlerInv(judge, s) && ResponseInv(judge, s)
    ensures Tagged(s.mem.respSeq) && s.mem.respSeq.attempt <= s.core1.next.attempt
    ensures s.core1.pc == StoreSeq ==> s.core1.next.attempt > 0
  {
    hide Tagged, Justified;
  }

  lemma Core1Effect<W>(s: State<W>, expired: bool)
    ensures var s' := StepCore1(s, expired);
            && s'.mem == s.mem && s'.core0 == s.core0
            && (s'.core1.next.attempt == s.core1.next.attempt + 1
                || (s'.core1.next == s.core1.next && s'.core1.id == s.core1.id && s'.core1.code == s.core1.code))
  {
  }

  lemma CarryCore1<W>(judge: (W, u16, u32) -> bool, s: State<W>, s': State<W>)
    requires Inv(judge, s)
    requires s'.mem == s.mem && s'.core0 == s.core0
    requires s'.core1.next.attempt == s.core1.next.attempt + 1
          || (s'.core1.next == s.core1.next && s'.core1.id == s.core1.id && s'.core1.code == s.core1.code)
    requires forall n, g :: Justified(judge, s.trace, n, g) ==> Justified(judge, s'.trace, n, g)
    ensures HandlerInv(judge, s') && ResponseInv(judge, s')
  {
    Core1Frame(judge, s, s');
  }

  lemma InvPress<W>(judge: (W, u16, u32) -> bool, s: State<W>, key: char)
    requires Inv(judge, s)
    ensures Inv(judge, PressKey(s, key))
  {
    Grow(judge, s.trace, Pressed(key));
    if s.core1.pc == Scan {
      CarryCore1(judge, s, PressKey(s, key));
    }
  }

  lemma InvCore1<W>(judge: (W, u16, u32) -> bool, s: State<W>, expired: bool)
    requires Inv(judge, s)
    ensures Inv(judge, StepCore1(s, expired))
  {
    hide RequestInv, HandlerInv, ResponseInv, MatchInv, TraceOk, Justified, StepCore1;
    TraceCore1(judge, s, expired);
    Core1Effect(s, expired);
    CarryCore1(judge, s, StepCore1(s, expired));
    RequestCore1(s, expired);
    ResponseBehind(judge, s);
    MatchCore1(s, expired);
  }

  lemma RequestDrain1<W>(s: State<W>, at: Location1)
    requires RequestInv(s) && MatchInv(s)
    ensures RequestInv(DrainCore1(s, at)) && MatchInv(DrainCore1(s, at))
  {
    hide Tagged;
  }

  /** A store of core 1 that reaches memory leaves core 0's view in order: the payload
      of the attempt in hand goes out before its sequence number. */
  lemma HandlerDrain1<W>(judge: (W, u16, u32) -> bool, s: State<W>, at: Location1)
    requires RequestInv(s) && HandlerInv(judge, s) && ResponseInv(judge, s)
    ensures HandlerInv(judge, DrainCore1(s, at)) && ResponseInv(judge, DrainCore1(s, at))
  {
    hide Tagged, Justified;
  }

  lemma InvDrain1<W>(judge: (W, u16, u32) -> bool, s: State<W>, at: Location1)
    requires Inv(judge, s)
    ensures Inv(judge, DrainCore1(s, at))
  {
    assert DrainCore1(s, at).trace == s.trace;
    hide RequestInv, HandlerInv, ResponseInv, MatchInv, TraceOk, DrainCore1;
    RequestDrain1(s, at);
    HandlerDrain1(judge, s, at);
  }

  lemma RequestDrain0<W>(s: State<W>, at: Location0)
    requires RequestInv(s)
    ensures RequestInv(DrainCore0(s, at))
  {
    hide Tagged;
  }

  lemma HandlerDrain0<W>(judge: (W, u16, u32) -> bool, s: State<W>, at: Location0)
    requires HandlerInv(judge, s)
    ensures HandlerInv(judge, DrainCore0(s, at))
  {
    hide Tagged, Justified;
  }

  /** A sequence number that core 0's buffer lets out is newer than the one in memory,
      and a verdict is let out only before its number. */
  lemma ResponseDrain0<W>(judge: (W, u16, u32) -> bool, s: State<W>, at: Location0)
    requires HandlerInv(judge, s) && ResponseInv(judge, s) && s.mem.reqSeq.attempt <= s.core1.next.attempt
    ensures ResponseInv(judge, DrainCore0(s, at))
  {
    hide Tagged, Justified;
  }

  lemma MatchDrain0<W>(judge: (W, u16, u32) -> bool, s: State<W>, at: Location0)
    requires RequestInv(s) && HandlerInv(judge, s) && ResponseInv(judge, s) && MatchInv(s)
    ensures MatchInv(DrainCore0(s, at))
  {
    hide Tagged, Justified;
  }

  lemma InvDrain0<W>(judge: (W, u16, u32) -> bool, s: State<W>, at: Location0)
    requires Inv(judge, s)
    ensures Inv(judge, DrainCore0(s, at))
  {
    assert DrainCore0(s, at).trace == s.trace;
    hide RequestInv, HandlerInv, ResponseInv, MatchInv, TraceOk, DrainCore0;
    RequestDrain0(s, at);
    HandlerDrain0(judge, s, at);
    WatchedNext(s);
    ResponseDrain0(judge, s, at);
    MatchDrain0(judge, s, at);
  }

  /** What core 0 decides on is the payload published for the attempt in hand. */
  lemma DecisionAnswers<W>(judge: (W, u16, u32) -> bool, s: State<W>, world: W)
    requires RequestInv(s) && HandlerInv(judge, s)
    requires s.core0.pc == Decide && s.core0.stamp.attempt == s.core1.next.attempt
    ensures var s' := StepCore0(judge, s, world);
            Justified(judge, s'.trace, s.core0.stamp.attempt, s'.core0.granted)
  {
    hide Tagged;
    var s' := StepCore0(judge, s, world);
    var i :| 0 <= i < |s.trace| && s.trace[i] == Published(s.core1.next.attempt, s.core1.id, s.core1.code);
    assert Answers(judge, s'.trace[i], s'.trace[|s.trace|], s.core0.stamp.attempt, s'.core0.granted);
  }

  lemma TraceCore0<W>(judge: (W, u16, u32) -> bool, s: State<W>, world: W)
    requires TraceOk(judge, s.trace)
    ensures TraceOk(judge, StepCore0(judge, s, world).trace)
    ensures forall n, g :: Justified(judge, s.trace, n, g) ==> Justified(judge, StepCore0(judge, s, world).trace, n, g)
  {
    hide TraceOk, Justified;
    if s.core0.pc == Decide {
      Grow(judge, s.trace, StepCore0(judge, s, world).trace[|s.trace|]);
    }
  }

  /** A step of core 0 leaves core 1 and memory alone. */
  lemma Core0Frame<W>(s: State<W>, s': State<W>)
    requires RequestInv(s) && MatchInv(s)
    requires s'.mem == s.mem && s'.core1 == s.core1
    requires s'.trace == s.trace || exists e :: s'.trace == s.trace + [e]
    ensures RequestInv(s') && MatchInv(s')
  {
    hide Tagged;
  }

  lemma HandlerCore0<W>(judge: (W, u16, u32) -> bool, s: State<W>, world: W)
    requires RequestInv(s) && HandlerInv(judge, s)
    requires var s' := StepCore0(judge, s, world);
             && (forall n, g :: Justified(judge, s.trace, n, g) ==> Justified(judge, s'.trace, n, g))
             && (s.core0.pc == Decide && s.core0.stamp.attempt == s.core1.next.attempt ==>
                   Justified(judge, s'.trace, s.core0.stamp.attempt, s'.core0.granted))
    ensures HandlerInv(judge, StepCore0(judge, s, world))
  {
    WatchedNext(s);
    hide Tagged, Justified, RequestInv;
  }

  /** A request that core 0 notices is newer than the last it handled. */
  lemma WatchedNext<W>(s: State<W>)
    requires RequestInv(s)
    ensures Tagged(s.mem.reqSeq) && s.mem.reqSeq.attempt <= s.core1.next.attempt
    ensures Tagged(s.core0.last) && s.core0.last.attempt <= s.mem.reqSeq.attempt ==>
              s.mem.reqSeq.word == s.core0.last.word || s.core0.last.attempt < s.mem.reqSeq.attempt
    ensures s.mem.reqSeq.attempt == s.core1.next.attempt ==> s.mem.reqId == s.core1.id && s.mem.reqCode == s.core1.code
  {
  }

  lemma ResponseCore0<W>(judge: (W, u16, u32) -> bool, s: State<W>, world: W)
    requires HandlerInv(judge, s) && ResponseInv(judge, s)
    requires forall n, g :: Justified(judge, s.trace, n, g) ==> Justified(judge, StepCore0(judge, s, world).trace, n, g)
    ensures ResponseInv(judge, StepCore0(judge, s, world))
  {
    hide Tagged, Justified;
  }

  lemma InvCore0<W>(judge: (W, u16, u32) -> bool, s: State<W>, world: W)
    requires Inv(judge, s)
    ensures Inv(judge, StepCore0(judge, s, world))
  {
    var s' := StepCore0(judge, s, world);
    assert s'.mem == s.mem && s'.core1 == s.core1;
    Core0Traces(judge, s, world);
    hide RequestInv, HandlerInv, ResponseInv, MatchInv, TraceOk, Justified, StepCore0;
    TraceCore0(judge, s, world);
    if s.core0.pc == Decide && s.core0.stamp.attempt == s.core1.next.attempt {
      DecisionAnswers(judge, s, world);
    }
    HandlerCore0(judge, s, world);
    ResponseCore0(judge, s, world);
    Core0Frame(s, s');
  }

  lemma Core0Traces<W>(judge: (W, u16, u32) -> bool, s: State<W>, world: W)
    ensures var s' := StepCore0(judge, s, world);
            s'.trace == s.trace || exists e :: s'.trace == s.trace + [e]
  {
  }

  lemma InvStep<W>(judge: (W, u16, u32) -> bool, s: State<W>, a: Action<W>)
    requires Inv(judge, s)
    ensures Inv(judge, Step(judge, s, a))
  {
    match a
    case Press(key) => InvPress(judge, s, key);
    case Run1(expired) => InvCore1(judge, s, expired);
    case Run0(world) => InvCore0(judge, s, world);
    case Drain1(at1) => InvDrain1(judge, s, at1);
    case Drain0(at0) => InvDrain0(judge, s, at0);
  }

  lemma {:induction false} InvHolds<W>(judge: (W, u16, u32) -> bool, schedule: seq<Action<W>>)
    ensures Inv(judge, Exec(judge, Init(), schedule))
    decreases |schedule|
  {
    if schedule != [] {
      var init := schedule[..|schedule| - 1];
      InvHolds(judge, init);
      InvStep(judge, Exec(judge, Init(), init), schedule[|schedule| - 1]);
    }
  }

  // -------------------------------------------------------------------- results

  lemma ReachableInv<W(!new)>(judge: (W, u16, u32) -> bool, s: State<W>)
    requires Reachable(judge, s)
    ensures Inv(judge, s)
  {
    var schedule: seq<Action<W>> :| s == Exec(judge, Init(), schedule);
    InvHolds(judge, schedule);
  }

  /** A response accepted fewer than 2^32 attempts after the request it answers
      is the verdict of core 0 on exactly this attempt's id and code, decided
      after they were published. */
  lemma VerdictIsOwn<W(!new)>(judge: (W, u16, u32) -> bool, s: State<W>, k: nat)
    requires Reachable(judge, s)
    requires k < |s.trace| && IsVerdict(s.trace[k])
    requires s.trace[k].attempt < s.trace[k].answered + TWO_32
    ensures s.trace[k].answered == s.trace[k].attempt
    ensures Justified(judge, s.trace[..k], s.trace[k].attempt, s.trace[k].Opened?)
  {
    ReachableInv(judge, s);
    assert VerdictOk(judge, s.trace, k);
    SameResidue(s.trace[k].answered, s.trace[k].attempt);
  }

  lemma SameResidue(a: nat, n: nat)
    requires a <= n < a + TWO_32 && a % TWO_32 == n % TWO_32
    ensures a == n
  {
  }

  /** Behind each barrier, every earlier store of the same core is in memory. */
  lemma BarriersDrain<W(!new)>(judge: (W, u16, u32) -> bool, s: State<W>)
    requires Reachable(judge, s)
    ensures s.core1.pc == StoreSeq || s.core1.pc == ReadVerdict ==> s.core1.buffer == Buffer1([], [], [])
    ensures s.core0.pc == LoadId || s.core0.pc == StoreResp ==> s.core0.buffer == Buffer0([], [])
  {
    ReachableInv(judge, s);
    hide Reachable, TraceOk, Justified, Tagged, ResponseInv;
  }
}
