/** The order of events in a run, and what the typed digits have to do with them. */
module MailboxTrace {
  import opened Words
  import opened Decimals
  import opened Mailbox
  import opened MailboxSafety

  // ------------------------------------------------------------ order of attempts

  /** Events that happen at most once for an attempt, by kind; keys have kind 0. */
  function Kind<W>(e: Event<W>): nat {
    match e
    case Pressed(_) => 0
    case Asked(_, _, _) => 1
    case Published(_, _, _) => 2
    case Decided(_, _, _, _, _) => 3
    case Opened(_, _) => 4
    case Refused(_, _) => 4
    case TimedOut(_) => 4
  }

  /** The last attempt for which an event of this kind has happened. */
  function Reached<W>(s: State<W>, kind: nat): int {
    var n := s.core1.next.attempt;
    if kind == 1 then n
    else if kind == 2 then if Preparing(s.core1.pc) then n - 1 else n
    else if kind == 3 then
      if s.core0.pc in {StoreVerdict, VerdictFence, StoreResp, Remember} then s.core0.stamp.attempt
      else s.core0.last.attempt
    else if Preparing(s.core1.pc) || s.core1.pc in {Poll, AcceptFence, ReadVerdict} then n - 1 else n
  }

  ghost predicate Increasing<W>(trace: seq<Event<W>>) {
    forall i, j | 0 <= i < j < |trace| ::
      Kind(trace[i]) == Kind(trace[j]) > 0 ==> trace[i].attempt < trace[j].attempt
  }

  ghost predicate OrderInv<W>(s: State<W>) {
    && Increasing(s.trace)
    && forall i | 0 <= i < |s.trace| :: Kind(s.trace[i]) > 0 ==> s.trace[i].attempt <= Reached(s, Kind(s.trace[i]))
  }

  /** Either no event happens, or one for an attempt beyond those reached. */
  ghost predicate Advances<W(!new)>(s: State<W>, s': State<W>) {
    && (forall kind | 0 < kind <= 4 :: Reached(s, kind) <= Reached(s', kind))
    && (s'.trace == s.trace
        || exists e :: s'.trace == s.trace + [e]
             && (Kind(e) > 0 ==> Reached(s, Kind(e)) < e.attempt == Reached(s', Kind(e))))
  }

  lemma BumpsAttempt(s: Stamp)
    ensures Bump(s).attempt == s.attempt + 1
  {
  }

  lemma AdvanceCore1<W(!new)>(s: State<W>, expired: bool)
    ensures Advances(s, StepCore1(s, expired))
  {
    hide TypedId, TypedCode, Bump;
    BumpsAttempt(s.core1.next);
    var s' := StepCore1(s, expired);
    if s'.trace != s.trace {
      assert s'.trace == s.trace + [s'.trace[|s.trace|]];
    }
  }

  lemma AdvanceCore0<W(!new)>(judge: (W, u16, u32) -> bool, s: State<W>, world: W)
    requires s.core0.pc != Watch ==> s.core0.last.attempt < s.core0.stamp.attempt
    ensures Advances(s, StepCore0(judge, s, world))
  {
    var s' := StepCore0(judge, s, world);
    if s'.trace != s.trace {
      assert s'.trace == s.trace + [s'.trace[|s.trace|]];
    }
  }

  lemma AdvanceStep<W(!new)>(judge: (W, u16, u32) -> bool, s: State<W>, a: Action<W>)
    requires HandlerInv(judge, s)
    ensures Advances(s, Step(judge, s, a))
  {
    assert s.core0.pc != Watch ==> s.core0.last.attempt < s.core0.stamp.attempt;
    hide HandlerInv, Advances, PressKey, StepCore1, StepCore0, DrainCore1, DrainCore0;
    match a
    case Press(key) => AdvancePress(s, key);
    case Run1(expired) => AdvanceCore1(s, expired);
    case Run0(world) => AdvanceCore0(judge, s, world);
    case Drain1(at1) => AdvanceDrain(s, at1, RespSeq);
    case Drain0(at0) => AdvanceDrain(s, ReqSeq, at0);
  }

  lemma AdvancePress<W(!new)>(s: State<W>, key: char)
    ensures Advances(s, PressKey(s, key))
  {
  }

  lemma AdvanceDrain<W(!new)>(s: State<W>, at1: Location1, at0: Location0)
    ensures Advances(s, DrainCore1(s, at1)) && Advances(s, DrainCore0(s, at0))
  {
  }

  lemma OrderStep<W(!new)>(s: State<W>, s': State<W>)
    requires OrderInv(s) && Advances(s, s')
    ensures OrderInv(s')
  {
  }

  lemma {:induction false} OrderHolds<W(!new)>(judge: (W, u16, u32) -> bool, schedule: seq<Action<W>>)
    ensures OrderInv(Exec(judge, Init(), schedule))
    decreases |schedule|
  {
    if schedule != [] {
      var init := schedule[..|schedule| - 1];
      OrderHolds(judge, init);
      InvHolds(judge, init);
      AdvanceStep(judge, Exec(judge, Init(), init), schedule[|schedule| - 1]);
      OrderStep(Exec(judge, Init(), init), Exec(judge, Init(), schedule));
    }
  }

  lemma ReachableOrder<W(!new)>(judge: (W, u16, u32) -> bool, s: State<W>)
    requires Reachable(judge, s)
    ensures OrderInv(s)
  {
    var schedule: seq<Action<W>> :| s == Exec(judge, Init(), schedule);
    OrderHolds(judge, schedule);
  }

  /** No response is consumed by two attempts. */
  lemma ResponseConsumedOnce<W(!new)>(judge: (W, u16, u32) -> bool, s: State<W>, i: nat, j: nat)
    requires Reachable(judge, s)
    requires i < j < |s.trace| && IsVerdict(s.trace[i]) && IsVerdict(s.trace[j])
    requires s.trace[j].attempt < s.trace[j].answered + TWO_32
    ensures s.trace[i].answered < s.trace[j].answered
  {
    ReachableOrder(judge, s);
    VerdictIsOwn(judge, s, j);
    ReachableInv(judge, s);
    assert VerdictOk(judge, s.trace, i);
  }

  // ------------------------------------------------------------ no attempt is lost

  ghost predicate Has<W>(trace: seq<Event<W>>, kind: nat, n: nat) {
    kind > 0 && exists k :: 0 <= k < |trace| && Kind(trace[k]) == kind && trace[k].attempt == n
  }

  /** Every attempt so far was asked, published and has an outcome, except that the
      current one may still be on its way. */
  ghost predicate AccountInv<W>(s: State<W>) {
    forall n | 1 <= n <= s.core1.next.attempt ::
      && Has(s.trace, 1, n)
      && (Has(s.trace, 2, n) || (n == s.core1.next.attempt && Preparing(s.core1.pc)))
      && (|| Has(s.trace, 4, n)
          || (&& n == s.core1.next.attempt
              && (Preparing(s.core1.pc) || s.core1.pc in {Poll, AcceptFence, ReadVerdict})))
  }

  lemma HasGrows<W>(trace: seq<Event<W>>, e: Event<W>, kind: nat, n: nat)
    requires Has(trace, kind, n) || (Kind(e) == kind > 0 && e.attempt == n)
    ensures Has(trace + [e], kind, n)
  {
    var longer := trace + [e];
    if k :| 0 <= k < |trace| && Kind(trace[k]) == kind && trace[k].attempt == n {
      assert longer[k] == trace[k];
    } else {
      assert longer[|trace|] == e;
    }
  }

  lemma HasAll<W>(trace: seq<Event<W>>, e: Event<W>)
    ensures forall kind: nat, n: nat :: Has(trace, kind, n) ==> Has(trace + [e], kind, n)
    ensures Kind(e) > 0 ==> Has(trace + [e], Kind(e), e.attempt)
  {
    forall kind: nat, n: nat | Has(trace, kind, n) ensures Has(trace + [e], kind, n) {
      HasGrows(trace, e, kind, n);
    }
    if Kind(e) > 0 {
      HasGrows(trace, e, Kind(e), e.attempt);
    }
  }

  lemma AccountStep<W>(judge: (W, u16, u32) -> bool, s: State<W>, a: Action<W>)
    requires AccountInv(s)
    ensures AccountInv(Step(judge, s, a))
  {
    hide Has, TypedId, TypedCode, Bump;
    BumpsAttempt(s.core1.next);
    var s' := Step(judge, s, a);
    if s'.trace != s.trace {
      var e := s'.trace[|s.trace|];
      assert s'.trace == s.trace + [e];
      HasAll(s.trace, e);
    }
  }

  lemma {:induction false} AccountHolds<W>(judge: (W, u16, u32) -> bool, schedule: seq<Action<W>>)
    ensures AccountInv(Exec(judge, Init(), schedule))
    decreases |schedule|
  {
    if schedule != [] {
      hide AccountInv, Step;
      AccountHolds(judge, schedule[..|schedule| - 1]);
      AccountStep(judge, Exec(judge, Init(), schedule[..|schedule| - 1]), schedule[|schedule| - 1]);
    }
  }

  /** Between attempts, every attempt so far was asked once, published once and ended
      once: in an opening, a refusal or a time-out. */
  lemma EachEndsOnce<W(!new)>(judge: (W, u16, u32) -> bool, s: State<W>, n: nat, kind: nat) returns (k: nat)
    requires Reachable(judge, s) && (s.core1.pc == Scan || s.core1.pc == Submit)
    requires 1 <= n <= s.core1.next.attempt && (kind == 1 || kind == 2 || kind == 4)
    ensures k < |s.trace| && Kind(s.trace[k]) == kind && s.trace[k].attempt == n
    ensures forall i | 0 <= i < |s.trace| :: Kind(s.trace[i]) == kind && s.trace[i].attempt == n ==> i == k
  {
    var schedule: seq<Action<W>> :| s == Exec(judge, Init(), schedule);
    AccountHolds(judge, schedule);
    ReachableOrder(judge, s);
    assert Has(s.trace, kind, n);
    k :| 0 <= k < |s.trace| && Kind(s.trace[k]) == kind && s.trace[k].attempt == n;
  }

  /** An attempt times out only if some poll finds its deadline passed. */
  lemma {:induction false} TimesOutLate<W>(judge: (W, u16, u32) -> bool, schedule: seq<Action<W>>, k: nat)
      returns (i: nat)
    requires k < |Exec(judge, Init(), schedule).trace| && Exec(judge, Init(), schedule).trace[k].TimedOut?
    ensures i < |schedule| && schedule[i] == Run1(true)
    decreases |schedule|
  {
    var last := |schedule| - 1;
    var s := Exec(judge, Init(), schedule[..last]);
    if k < |s.trace| && s.trace[k].TimedOut? {
      i := TimesOutLate(judge, schedule[..last], k);
    } else {
      LastTimesOut(judge, s, schedule[last], k);
      i := last;
    }
  }

  lemma LastTimesOut<W>(judge: (W, u16, u32) -> bool, s: State<W>, a: Action<W>, k: nat)
    requires k < |Step(judge, s, a).trace| && Step(judge, s, a).trace[k].TimedOut?
    requires k < |s.trace| ==> !s.trace[k].TimedOut?
    ensures a == Run1(true)
  {
    hide TypedId, TypedCode, Bump;
  }

  // ------------------------------------------------------------------ typed digits

  /** The keys pressed so far. */
  function Keys<W>(trace: seq<Event<W>>): seq<char> {
    if trace == [] then []
    else
      var e := trace[|trace| - 1];
      var before := Keys(trace[..|trace| - 1]);
      if e.Pressed? then before + [e.key] else before
  }

  /** The digits typed since the last '*' or '#'. */
  function SinceClear(keys: seq<char>): Digits {
    if keys == [] then []
    else
      var key := keys[|keys| - 1];
      var before := SinceClear(keys[..|keys| - 1]);
      if key == '*' || key == '#' then [] else if IsDigit(key) then before + [key] else before
  }

  function FirstNine(s: Digits): Digits {
    if |s| <= INPUT_MAX_LEN then s else s[..INPUT_MAX_LEN]
  }

  /** `input` reads as id followed by a six-digit code. */
  ghost predicate Reads(input: Digits, id: u16, code: u32) {
    && 7 <= |input| <= 9
    && id < 1000 && code < 1_000_000
    && Decimal(input) == 1_000_000 * id + code
  }

  ghost predicate TypedOk<W>(trace: seq<Event<W>>, q: nat)
    requires q < |trace|
  {
    trace[q].Asked? ==>
      var keys := Keys(trace[..q]);
      && keys != [] && keys[|keys| - 1] == '#'
      && Reads(FirstNine(SinceClear(keys[..|keys| - 1])), trace[q].id, trace[q].code)
  }

  ghost predicate AskedOk<W>(trace: seq<Event<W>>, i: nat)
    requires i < |trace|
  {
    trace[i].Published? ==> Asked(trace[i].attempt, trace[i].id, trace[i].code) in trace[..i]
  }

  ghost predicate KeyInv<W>(s: State<W>) {
    var keys := Keys(s.trace);
    && (if s.core1.pc == Submit then
          keys != [] && keys[|keys| - 1] == '#' && s.core1.input == FirstNine(SinceClear(keys[..|keys| - 1]))
        else s.core1.input == FirstNine(SinceClear(keys)))
    && (s.core1.pc !in {Scan, Submit} ==> keys != [] && keys[|keys| - 1] == '#')
    && (Preparing(s.core1.pc) ==> Asked(s.core1.next.attempt, s.core1.id, s.core1.code) in s.trace)
    && (forall q | 0 <= q < |s.trace| :: TypedOk(s.trace, q) && AskedOk(s.trace, q))
  }

  lemma TypedReads(input: Digits)
    requires 7 <= |input| <= 9
    ensures Reads(input, TypedId(input), TypedCode(input))
  {
    assert input == IdPart(input) + CodePart(input);
    DecimalSplit(IdPart(input), CodePart(input));
    DecimalBound(IdPart(input));
    DecimalBound(CodePart(input));
    SmallPowers();
  }

  lemma KeysGrow<W>(trace: seq<Event<W>>, e: Event<W>)
    ensures Keys(trace + [e]) == if e.Pressed? then Keys(trace) + [e.key] else Keys(trace)
  {
    assert (trace + [e])[..|trace|] == trace;
  }

  /** The facts about earlier events survive a new one. */
  lemma EventsGrow<W>(trace: seq<Event<W>>, e: Event<W>)
    requires forall q | 0 <= q < |trace| :: TypedOk(trace, q) && AskedOk(trace, q)
    requires e.Asked? ==> TypedOk(trace + [e], |trace|)
    requires e.Published? ==> AskedOk(trace + [e], |trace|)
    ensures forall q | 0 <= q < |trace + [e]| :: TypedOk(trace + [e], q) && AskedOk(trace + [e], q)
  {
    forall q | 0 <= q < |trace + [e]| ensures TypedOk(trace + [e], q) && AskedOk(trace + [e], q) {
      if q < |trace| {
        assert (trace + [e])[..q] == trace[..q];
        assert TypedOk(trace, q) && AskedOk(trace, q);
      }
    }
  }

  lemma KeyPress<W>(s: State<W>, key: char)
    requires KeyInv(s)
    ensures KeyInv(PressKey(s, key))
  {
    KeysGrow(s.trace, Pressed(key));
    EventsGrow(s.trace, Pressed(key));
    assert (Keys(s.trace) + [key])[..|Keys(s.trace)|] == Keys(s.trace);
  }

  lemma NewEvent<W>(s: State<W>, expired: bool, e: Event<W>)
    requires KeyInv(s) && StepCore1(s, expired).trace == s.trace + [e]
    ensures e.Asked? ==> TypedOk(s.trace + [e], |s.trace|)
    ensures e.Published? ==> AskedOk(s.trace + [e], |s.trace|)
  {
    assert (s.trace + [e])[..|s.trace|] == s.trace;
    assert (s.trace + [e])[|s.trace|] == e;
    if s.core1.pc == Submit {
      TypedReads(s.core1.input);
    }
  }

  lemma ClearedBy(keys: seq<char>)
    ensures keys != [] && keys[|keys| - 1] == '#' ==> FirstNine(SinceClear(keys)) == []
  {
  }

  lemma KeyCore1<W>(s: State<W>, expired: bool)
    requires KeyInv(s)
    ensures KeyInv(StepCore1(s, expired))
  {
    ClearedBy(Keys(s.trace));
    hide Keys, SinceClear, FirstNine, TypedOk, AskedOk, TypedId, TypedCode, Bump;
    var s' := StepCore1(s, expired);
    if s'.trace != s.trace {
      var e := s'.trace[|s.trace|];
      KeysGrow(s.trace, e);
      NewEvent(s, expired, e);
      EventsGrow(s.trace, e);
    }
  }

  lemma KeyOther<W>(s: State<W>, s': State<W>)
    requires KeyInv(s)
    requires s'.core1 == s.core1.(buffer := s'.core1.buffer)
    requires s'.trace == s.trace || exists e :: s'.trace == s.trace + [e] && e.Decided?
    ensures KeyInv(s')
  {
    if s'.trace != s.trace {
      var e :| s'.trace == s.trace + [e] && e.Decided?;
      KeysGrow(s.trace, e);
      EventsGrow(s.trace, e);
    }
  }

  lemma KeyCore0<W>(judge: (W, u16, u32) -> bool, s: State<W>, world: W)
    requires KeyInv(s)
    ensures KeyInv(StepCore0(judge, s, world))
  {
    hide KeyInv;
    KeyOther(s, StepCore0(judge, s, world));
  }

  lemma KeyStep<W>(judge: (W, u16, u32) -> bool, s: State<W>, a: Action<W>)
    requires KeyInv(s)
    ensures KeyInv(Step(judge, s, a))
  {
    hide KeyInv, PressKey, StepCore1, StepCore0;
    match a
    case Press(key) => KeyPress(s, key);
    case Run1(expired) => KeyCore1(s, expired);
    case Run0(world) => KeyCore0(judge, s, world);
    case Drain1(at1) => KeyOther(s, DrainCore1(s, at1));
    case Drain0(at0) => KeyOther(s, DrainCore0(s, at0));
  }

  lemma {:induction false} KeysHold<W>(judge: (W, u16, u32) -> bool, schedule: seq<Action<W>>)
    ensures KeyInv(Exec(judge, Init(), schedule))
    decreases |schedule|
  {
    if schedule != [] {
      var init := schedule[..|schedule| - 1];
      var s := Exec(judge, Init(), init);
      KeysHold(judge, init);
      KeyStep(judge, s, schedule[|schedule| - 1]);
    }
  }

  lemma ReachableKeys<W(!new)>(judge: (W, u16, u32) -> bool, s: State<W>)
    requires Reachable(judge, s)
    ensures KeyInv(s)
  {
    var schedule: seq<Action<W>> :| s == Exec(judge, Init(), schedule);
    KeysHold(judge, schedule);
  }

  // ------------------------------------------------------------------------ result

  /** Before `k`: the digits typed since the last clear read as id and code, this
      id and code were published as attempt `n`, and core 0 granted exactly them. */
  ghost predicate OpensRightly<W>(judge: (W, u16, u32) -> bool, trace: seq<Event<W>>, k: nat, q: nat, i: nat, j: nat) {
    && q < i < j < k < |trace|
    && trace[q].Asked? && trace[j].Decided?
    && trace[i] == Published(trace[q].attempt, trace[q].id, trace[q].code)
    && trace[j] == Decided(trace[q].attempt, trace[q].id, trace[q].code, trace[j].world, true)
    && trace[k] == Opened(trace[q].attempt, trace[q].attempt)
    && judge(trace[j].world, trace[q].id, trace[q].code)
    && TypedOk(trace, q)
    && (forall i' | 0 <= i' < |trace| && i' != i :: trace[i'].Published? ==> trace[i'].attempt != trace[q].attempt)
  }

  lemma PublishedOnce<W>(s: State<W>, i: nat, i': nat)
    requires OrderInv(s) && i < |s.trace| && i' < |s.trace| && i != i'
    requires s.trace[i].Published? && s.trace[i'].Published?
    ensures s.trace[i].attempt != s.trace[i'].attempt
  {
    hide Reached;
    assert Kind(s.trace[i]) == Kind(s.trace[i']);
  }

  /** In every schedule, core 1 opens the latch for an attempt only if core 0
      granted exactly the digits of that attempt, after they were published. */
  lemma LatchOpensRightly<W(!new)>(judge: (W, u16, u32) -> bool, s: State<W>, k: nat)
    requires Reachable(judge, s)
    requires k < |s.trace| && s.trace[k].Opened? && s.trace[k].attempt < s.trace[k].answered + TWO_32
    ensures exists q, i, j :: OpensRightly(judge, s.trace, k, q, i, j)
  {
    hide Reachable, OrderInv, TypedOk, Keys;
    var trace, n := s.trace, s.trace[k].attempt;
    VerdictIsOwn(judge, s, k);
    ReachableOrder(judge, s);
    ReachableKeys(judge, s);
    var i, j :| 0 <= i < j < k && Answers(judge, trace[..k][i], trace[..k][j], n, true);
    assert AskedOk(trace, i);
    var q :| 0 <= q < i && trace[..i][q] == Asked(trace[i].attempt, trace[i].id, trace[i].code);
    assert TypedOk(trace, q);
    forall i' | 0 <= i' < |trace| && i' != i && trace[i'].Published? ensures trace[i'].attempt != n {
      PublishedOnce(s, i, i');
    }
    assert OpensRightly(judge, trace, k, q, i, j);
  }
}
