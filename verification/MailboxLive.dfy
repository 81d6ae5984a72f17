/** What is typed is asked, and an undisturbed attempt ends as the judge says. */
module MailboxLive {
  import opened Words
  import opened Decimals
  import opened Mailbox
  import opened MailboxSafety
  import opened MailboxTrace
  import opened MailboxWrap

  /** The first nine of these digits are a key id followed by six digits of code. */
  predicate Spells(typed: Digits, id: u16, code: u32) {
    && 7 <= |typed|
    && code < 1_000_000 && 1_000_000 * id + code == Decimal(if |typed| <= 9 then typed else typed[..9])
  }

  /** '#' between two attempts, and the step of core 1 that checks the input. */
  function Enter<W>(): seq<Action<W>> { [Press('#'), Run1(false)] }

  /** Core 1 stores id and code, and its buffer drains. */
  function Payload<W>(): seq<Action<W>> {
    [Run1(false), Run1(false), Drain1(ReqSeq), Drain1(ReqId), Drain1(ReqCode)]
  }

  /** Core 1 passes the barrier and stores the sequence number. */
  function Publish<W>(): seq<Action<W>> { [Run1(false), Run1(false)] }

  lemma ExecTwo<W>(judge: (W, u16, u32) -> bool, s: State<W>, a: seq<Action<W>>)
    requires |a| == 2
    ensures Exec(judge, s, a) == Step(judge, Step(judge, s, a[0]), a[1])
  {
    assert a[..1] == [] + [a[0]] && a[..1][..0] == [];
    assert Exec(judge, s, a[..1]) == Step(judge, s, a[0]);
  }

  /** Whatever was typed before and however the cores got here: '#' starts an attempt
      exactly if at least seven digits were typed since the last clear, and asks for
      the id and code that they spell; otherwise nothing is asked. */
  lemma AsksIff<W(!new)>(judge: (W, u16, u32) -> bool, s: State<W>) returns (id: u16, code: u32)
    requires Reachable(judge, s) && s.core1.pc == Scan
    ensures var typed := SinceClear(Keys(s.trace));
            var t := Exec(judge, s, Enter());
            && t.mem == s.mem && t.core0 == s.core0
            && if 7 <= |typed| then
                 && Spells(typed, id, code)
                 && t.core1 == s.core1.(pc := StoreId, input := [], next := Bump(s.core1.next), id := id, code := code)
                 && t.trace == s.trace + [Pressed('#'), Asked(s.core1.next.attempt + 1, id, code)]
               else
                 && t.core1 == s.core1.(input := [])
                 && t.trace == s.trace + [Pressed('#')]
  {
    ExecTwo(judge, s, Enter());
    ReachableKeys(judge, s);
    hide Reachable, Exec, Keys, SinceClear, TypedOk, AskedOk, TypedId, TypedCode;
    var input := s.core1.input;
    var u := PressKey(s, '#');
    assert u == s.(core1 := s.core1.(pc := Submit), trace := s.trace + [Pressed('#')]);
    if 7 <= |input| {
      TypedReads(input);
      id, code := TypedId(input), TypedCode(input);
    } else {
      id, code := 0, 0;
    }
  }

  lemma StorePayload<W>(s: State<W>) returns (t: State<W>)
    requires s.core1.pc == StoreId && s.core1.buffer.ids == [] && s.core1.buffer.codes == []
    ensures t == StepCore1(StepCore1(s, false), false)
    ensures var c := s.core1;
            t == s.(core1 := c.(pc := RequestFence, buffer := Buffer1(c.buffer.seqs, [c.id], [c.code])))
  {
    hide TypedId, TypedCode, Bump;
    var c := s.core1;
    var u := StepCore1(s, false);
    assert u == s.(core1 := c.(pc := StoreCode, buffer := Buffer1(c.buffer.seqs, [c.id], [])));
    t := StepCore1(u, false);
  }

  lemma DrainPayload<W>(s: State<W>) returns (t: State<W>)
    requires s.core1.buffer == Buffer1(s.core1.buffer.seqs, [s.core1.id], [s.core1.code])
    requires |s.core1.buffer.seqs| <= 1
    ensures t == DrainCore1(DrainCore1(DrainCore1(s, ReqSeq), ReqId), ReqCode)
    ensures t == s.(core1 := s.core1.(buffer := Buffer1([], [], [])), mem := t.mem)
  {
    var u := DrainCore1(s, ReqSeq);
    assert u == s.(core1 := s.core1.(buffer := Buffer1([], [s.core1.id], [s.core1.code])), mem := u.mem);
    var v := DrainCore1(u, ReqId);
    assert v == u.(core1 := u.core1.(buffer := Buffer1([], [], [s.core1.code])), mem := v.mem);
    t := DrainCore1(v, ReqCode);
  }

  /** The payload reaches memory, whatever sequence number is still on its way. */
  lemma PayloadStored<W>(judge: (W, u16, u32) -> bool, s: State<W>)
    requires RequestInv(s) && s.core1.pc == StoreId
    ensures var t := Exec(judge, s, Payload());
            t == s.(core1 := s.core1.(pc := RequestFence, buffer := Buffer1([], [], [])), mem := t.mem)
  {
    ExecFive(judge, s, Payload());
    hide Exec, StepCore1, DrainCore1, Payload, Tagged;
    var t := StorePayload(s);
    t := DrainPayload(t);
  }

  lemma PublishedNow<W>(judge: (W, u16, u32) -> bool, s: State<W>)
    requires s.core1.pc == RequestFence && s.core1.buffer == Buffer1([], [], [])
    ensures Exec(judge, s, Publish()) ==
              s.(core1 := s.core1.(pc := Poll, buffer := Buffer1([s.core1.next], [], [])),
                 trace := s.trace + [Published(s.core1.next.attempt, s.core1.id, s.core1.code)])
  {
    ExecTwo(judge, s, Publish());
    hide Exec, TypedId, TypedCode, Bump;
    assert StepCore1(s, false) == s.(core1 := s.core1.(pc := StoreSeq));
  }

  function Attempt<W>(world: W, expired: bool): seq<Action<W>> {
    Enter() + Payload() + Publish() + (Notice(world) + Settle(world) + Reply(world) + PollOnce(expired))
  }

  /** From '#' to the first poll. */
  lemma RequestMade<W(!new)>(judge: (W, u16, u32) -> bool, s: State<W>) returns (t: State<W>)
    requires Reachable(judge, s) && s.core1.pc == Scan && 7 <= |SinceClear(Keys(s.trace))|
    ensures t == Exec(judge, s, Enter() + Payload() + Publish()) && Reachable(judge, t)
    ensures t.core1.pc == Poll && t.core1.next == Bump(s.core1.next) && t.core0 == s.core0
    ensures var (n, id, code) := (s.core1.next.attempt + 1, t.core1.id, t.core1.code);
            && Spells(SinceClear(Keys(s.trace)), id, code)
            && t.trace == s.trace + [Pressed('#'), Asked(n, id, code), Published(n, id, code)]
  {
    var id, code := AsksIff(judge, s);
    hide Spells, Keys, SinceClear, Reachable, Exec, Enter, Payload, Publish, Step;
    var t1 := Exec(judge, s, Enter());
    ReachableExec(judge, s, Enter());
    ReachableInv(judge, t1);
    PayloadStored(judge, t1);
    var t2 := Exec(judge, t1, Payload());
    PublishedNow(judge, t2);
    ExecAppend(judge, s, Enter(), Payload());
    ExecAppend(judge, s, Enter() + Payload(), Publish());
    ReachableExec(judge, s, Enter() + Payload() + Publish());
    t := Exec(judge, t2, Publish());
  }

  /** An attempt that both cores carry out without interruption. From every reachable
      state between attempts with an idle core 0, '#' after at least seven digits has
      exactly these consequences: the id and code typed are asked, published and
      judged, and the latch opens if and only if the judge grants them, even if the
      deadline has passed meanwhile. The one exception is a new number that repeats
      the last one handled, which takes 2^32 attempts. */
  lemma AttemptAnswered<W(!new)>(judge: (W, u16, u32) -> bool, s: State<W>, world: W, expired: bool)
      returns (id: u16, code: u32)
    requires Reachable(judge, s) && s.core1.pc == Scan && s.core0.pc == Watch
    requires s.core0.last.word != (s.core1.next.word + 1) % 0x1_0000_0000
    requires 7 <= |SinceClear(Keys(s.trace))|
    ensures Spells(SinceClear(Keys(s.trace)), id, code)
    ensures var t := Exec(judge, s, Attempt(world, expired));
            var (n, granted) := (s.core1.next.attempt + 1, judge(world, id, code));
            && t.core1.pc == Scan
            && t.trace == s.trace + [Pressed('#'), Asked(n, id, code), Published(n, id, code),
                                     Decided(n, id, code, world, granted),
                                     if granted then Opened(n, n) else Refused(n, n)]
  {
    hide Spells, Keys, SinceClear, Reachable, Exec, Enter, Payload, Publish, Notice, Settle, Reply, PollOnce;
    var t := RequestMade(judge, s);
    id, code := t.core1.id, t.core1.code;
    PromptVerdict(judge, t, world, expired);
    ExecAppend(judge, s, Enter() + Payload() + Publish(),
               Notice(world) + Settle(world) + Reply(world) + PollOnce(expired));
  }

  /** The exception needs 2^32 attempts since the one that core 0 handled last. */
  lemma NumberIsNew<W(!new)>(judge: (W, u16, u32) -> bool, s: State<W>)
    requires Reachable(judge, s) && s.core1.pc == Scan
    requires s.core1.next.attempt + 1 < s.core0.last.attempt + 0x1_0000_0000
    ensures s.core0.last.word != (s.core1.next.word + 1) % 0x1_0000_0000
  {
    hide *;
    ReachableInv(judge, s);
    HandledBehind(judge, s);
    NextDiffers(s.core0.last.attempt, s.core1.next.attempt);
  }

  lemma NextDiffers(last: nat, next: nat)
    requires last <= next && next + 1 < last + 0x1_0000_0000
    ensures last % 0x1_0000_0000 != (next % 0x1_0000_0000 + 1) % 0x1_0000_0000
  {
    var (q, r) := (last / 0x1_0000_0000, next / 0x1_0000_0000);
    assert last == q * 0x1_0000_0000 + last % 0x1_0000_0000 && next == r * 0x1_0000_0000 + next % 0x1_0000_0000;
    assert r == q || r == q + 1;
  }

  lemma HandledBehind<W>(judge: (W, u16, u32) -> bool, s: State<W>)
    requires Inv(judge, s) && s.core1.pc == Scan
    ensures s.core0.last.attempt <= s.core1.next.attempt
    ensures s.core0.last.word == s.core0.last.attempt % 0x1_0000_0000
    ensures s.core1.next.word == s.core1.next.attempt % 0x1_0000_0000
  {
    hide Justified, TraceOk, ResponseInv, MatchInv;
  }
}
