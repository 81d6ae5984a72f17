/** The lock from the key matrix on: debouncer, mailbox and verdict together. */
module Lock {
  import opened Words
  import opened Decimals
  import opened Storage
  import opened Totp
  import opened Device
  import opened Keypad
  import D = Door
  import L = MailboxLive
  import M = Mailbox
  import T = MailboxTrace
  import W = MailboxWrap

  /** A scan by core 1's main loop, or any step of the mailbox. */
  datatype Input<V> = Scanned(reading: Reading) | Stepped(action: M.Action<V>)

  /** The scans so far, the debouncer and both cores. */
  datatype Lock<V> = Lock(scans: seq<Reading>, debounce: Debounce, cores: M.State<V>)

  /** One step. The keypad is scanned only between attempts, and keys come from
      nowhere else. */
  function Next<V>(judge: (V, u16, u32) -> bool, l: Lock<V>, input: Input<V>): Lock<V> {
    match input
    case Scanned(r) =>
      if l.cores.core1.pc != M.Scan then l
      else
        var (debounce, key) := Scan(l.debounce, r);
        Lock(l.scans + [r], debounce, if key == NO_KEY then l.cores else M.PressKey(l.cores, key))
    case Stepped(a) =>
      if a.Press? then l else l.(cores := M.Step(judge, l.cores, a))
  }

  function Run<V>(judge: (V, u16, u32) -> bool, inputs: seq<Input<V>>): Lock<V> {
    if inputs == [] then Lock([], BOOT, M.Init())
    else Next(judge, Run(judge, inputs[..|inputs| - 1]), inputs[|inputs| - 1])
  }

  /** The cores are in a state of the mailbox model, whose keys are those that the
      debouncer reported. */
  ghost predicate LockInv<V(!new)>(judge: (V, u16, u32) -> bool, l: Lock<V>) {
    && l.debounce == After(l.scans)
    && T.Keys(l.cores.trace) == Emitted(l.scans)
    && M.Reachable(judge, l.cores)
  }

  lemma KeysKept<V>(judge: (V, u16, u32) -> bool, s: M.State<V>, a: M.Action<V>)
    requires !a.Press?
    ensures T.Keys(M.Step(judge, s, a).trace) == T.Keys(s.trace)
  {
    var s' := M.Step(judge, s, a);
    if s'.trace != s.trace {
      T.KeysGrow(s.trace, s'.trace[|s.trace|]);
    }
  }

  lemma ScanNext<V(!new)>(judge: (V, u16, u32) -> bool, l: Lock<V>, r: Reading)
    requires LockInv(judge, l)
    ensures LockInv(judge, Next(judge, l, Scanned(r)))
  {
    hide M.Reachable;
    if l.cores.core1.pc == M.Scan {
      var scans := l.scans + [r];
      assert scans[..|l.scans|] == l.scans;
      var key := Scan(l.debounce, r).1;
      if key != NO_KEY {
        T.KeysGrow(l.cores.trace, M.Pressed(key));
        W.ReachableStep(judge, l.cores, M.Press(key));
      }
    }
  }

  lemma {:induction false} RunInv<V(!new)>(judge: (V, u16, u32) -> bool, inputs: seq<Input<V>>)
    ensures LockInv(judge, Run(judge, inputs))
    decreases |inputs|
  {
    if inputs == [] {
      assert M.Init() == M.Exec(judge, M.Init(), []);
    } else {
      hide M.Reachable, M.Step;
      var l := Run(judge, inputs[..|inputs| - 1]);
      RunInv(judge, inputs[..|inputs| - 1]);
      match inputs[|inputs| - 1]
      case Scanned(r) => ScanNext(judge, l, r);
      case Stepped(a) =>
        if !a.Press? {
          KeysKept(judge, l.cores, a);
          W.ReachableStep(judge, l.cores, a);
        }
    }
  }

  lemma {:induction false} KeysPrefix<V>(trace: seq<M.Event<V>>, q: nat)
    requires q <= |trace|
    ensures |T.Keys(trace[..q])| <= |T.Keys(trace)| && T.Keys(trace[..q]) == T.Keys(trace)[..|T.Keys(trace[..q])|]
    decreases |trace|
  {
    if q < |trace| {
      assert trace[..|trace| - 1][..q] == trace[..q];
      KeysPrefix(trace[..|trace| - 1], q);
    } else {
      assert trace[..q] == trace;
    }
  }

  /** Scan `i` reports a key that every scan since `j` has read, for at least 20 ms. */
  ghost predicate HeldKey(scans: seq<Reading>, j: nat, i: nat, key: char) {
    && j < i < |scans| && Held(scans, j, i) && scans[i].raw == key != NO_KEY
    && scans[i].at >= scans[j].at + 20_000
  }

  ghost predicate WasHeld(scans: seq<Reading>, n: nat, key: char) {
    exists j: nat, i: nat :: i < n && HeldKey(scans, j, i, key)
  }

  /** The keys are those reported by the first `n` scans, each of them held. */
  ghost predicate ComesFromScans(scans: seq<Reading>, n: nat, keys: seq<char>) {
    && n <= |scans| && keys == Emitted(scans[..n])
    && forall m | 0 <= m < |keys| :: WasHeld(scans, n, keys[m])
  }

  lemma EmittedComes(scans: seq<Reading>, n: nat)
    requires n <= |scans|
    ensures ComesFromScans(scans, n, Emitted(scans[..n]))
  {
    var keys := Emitted(scans[..n]);
    forall m | 0 <= m < |keys| ensures WasHeld(scans, n, keys[m]) {
      var i := KeyMoment(scans[..n], m);
      EmitsBefore(scans, i, n);
      var j := EmittedWasHeld(scans, i);
      assert HeldKey(scans, j, i, keys[m]);
    }
  }

  /** What is requested in any run of the lock is what the scans up to the '#' say:
      the debounced keys, each held for 20 ms, of which the first nine digits since
      the last clear read as id and code. */
  lemma RequestFromScans<V(!new)>(judge: (V, u16, u32) -> bool, inputs: seq<Input<V>>, q: nat) returns (n: nat)
    requires q < |Run(judge, inputs).cores.trace| && Run(judge, inputs).cores.trace[q].Asked?
    ensures var (scans, trace) := (Run(judge, inputs).scans, Run(judge, inputs).cores.trace);
            var keys := T.Keys(trace[..q]);
            && ComesFromScans(scans, n, keys)
            && keys != [] && keys[|keys| - 1] == '#'
            && T.Reads(T.FirstNine(T.SinceClear(keys[..|keys| - 1])), trace[q].id, trace[q].code)
  {
    hide Run, M.Reachable, ComesFromScans, Emitted, T.Keys, T.SinceClear, T.FirstNine, T.Reads, After, T.AskedOk;
    var l := Run(judge, inputs);
    RunInv(judge, inputs);
    T.ReachableKeys(judge, l.cores);
    assert T.TypedOk(l.cores.trace, q);
    KeysPrefix(l.cores.trace, q);
    var i := KeyMoment(l.scans, |T.Keys(l.cores.trace[..q])| - 1);
    n := i + 1;
    EmittedComes(l.scans, n);
  }

  /** End to end, from the key matrix: if the latch opens, fewer than 2^32 attempts
      after the answer it acts on, then the debounced scans spell the id and code of
      an intact and enabled key whose HOTP value, at the clock's step or a
      neighbouring one, is that code. */
  lemma LockOpensRightly(p: Primitives, inputs: seq<Input<Snapshot>>, k: nat)
      returns (n: nat, q: nat, j: nat, step: u64)
    requires var trace := Run(DoorRule(p), inputs).cores.trace;
             k < |trace| && trace[k].Opened? && trace[k].attempt < trace[k].answered + TWO_32
    ensures var (scans, trace) := (Run(DoorRule(p), inputs).scans, Run(DoorRule(p), inputs).cores.trace);
            && q < j < k && trace[q].Asked? && trace[j].Decided?
            && var keys := T.Keys(trace[..q]);
            && ComesFromScans(scans, n, keys)
            && keys != [] && keys[|keys| - 1] == '#'
            && T.Reads(T.FirstNine(T.SinceClear(keys[..|keys| - 1])), trace[q].id, trace[q].code)
            && var now := trace[j].world;
            && var key := Lookup(p.step, now.files, trace[q].id);
            && now.mounted && key.Some? && key.value.isChecksumValid && key.value.fields.isEnabled
            && now.rtc.Some? && InWindow(now.rtc.value, step)
            && trace[q].code == Hotp(p.hmac(key.value.fields.secret, PackStep(step)))
  {
    hide Run, M.Reachable, ComesFromScans, Lookup, Hotp, PackStep, InWindow;
    var l := Run(DoorRule(p), inputs);
    RunInv(DoorRule(p), inputs);
    q, j, step := D.DoorOpensRightly(p, l.cores, k);
    n := RequestFromScans(DoorRule(p), inputs, q);
  }

  // -------------------------------------------------------------- an answered attempt

  /** Steps of the cores, none of them a key press. */
  function Steps<V>(actions: seq<M.Action<V>>): (inputs: seq<Input<V>>)
    ensures |inputs| == |actions|
  {
    seq(|actions|, i requires 0 <= i < |actions| => Stepped(actions[i]))
  }

  lemma {:induction false} StepsRun<V>(judge: (V, u16, u32) -> bool, inputs: seq<Input<V>>, actions: seq<M.Action<V>>)
    requires forall a | a in actions :: !a.Press?
    ensures var (before, after) := (Run(judge, inputs), Run(judge, inputs + Steps(actions)));
            after.scans == before.scans && after.cores == M.Exec(judge, before.cores, actions)
    decreases |actions|
  {
    if actions == [] {
      assert inputs + Steps(actions) == inputs;
    } else {
      var last := |actions| - 1;
      StepsRun(judge, inputs, actions[..last]);
      assert (inputs + Steps(actions))[..|inputs| + last] == inputs + Steps(actions[..last]);
      assert actions[last] in actions;
      hide M.Step;
    }
  }

  /** An attempt after its key press. */
  function Remaining<V>(world: V, expired: bool): (actions: seq<M.Action<V>>)
    ensures forall a | a in actions :: !a.Press?
    ensures [M.Press('#')] + actions == L.Attempt(world, expired)
  {
    [M.Run1(false)] + L.Payload() + L.Publish()
      + (W.Notice(world) + W.Settle(world) + W.Reply(world) + W.PollOnce(expired))
  }

  /** From the key matrix to the latch: after any run, when a scan between attempts
      reports '#' behind at least seven debounced digits and both cores go on undisturbed,
      the latch opens exactly if the id and code that these digits spell are right. */
  lemma ScannedCodeOpens(p: Primitives, inputs: seq<Input<Snapshot>>, r: Reading, now: Snapshot, expired: bool)
      returns (id: u16, code: u32)
    requires var l := Run(DoorRule(p), inputs);
             && l.cores.core1.pc == M.Scan && l.cores.core0.pc == M.Watch
             && l.cores.core0.last.word != (l.cores.core1.next.word + 1) % 0x1_0000_0000
             && 7 <= |T.SinceClear(Emitted(l.scans))|
             && Emits(l.scans + [r], |l.scans|) == '#'
    ensures L.Spells(T.SinceClear(Emitted(Run(DoorRule(p), inputs).scans)), id, code)
    ensures var l := Run(DoorRule(p), inputs + [Scanned(r)] + Steps(Remaining(now, expired)));
            && l.scans == Run(DoorRule(p), inputs).scans + [r]
            && l.cores.trace != []
            && (l.cores.trace[|l.cores.trace| - 1].Opened? <==> RightCode(p, now, id, code))
            && (l.cores.trace[|l.cores.trace| - 1].Refused? <==> !RightCode(p, now, id, code))
  {
    hide M.Reachable, M.Exec, M.Step, RightCode, L.Spells, L.Attempt, Remaining, T.SinceClear, T.Keys, Emitted;
    var judge := DoorRule(p);
    var l := Run(judge, inputs);
    RunInv(judge, inputs);
    HashScanned(judge, inputs, r);
    id, code := D.RightCodeOpens(p, l.cores, now, expired);
    hide Run;
    StepsRun(judge, inputs + [Scanned(r)], Remaining(now, expired));
    M.ExecAppend(judge, l.cores, [M.Press('#')], Remaining(now, expired));
    PressFirst(judge, l.cores);
  }

  lemma HashScanned<V(!new)>(judge: (V, u16, u32) -> bool, inputs: seq<Input<V>>, r: Reading)
    requires Run(judge, inputs).cores.core1.pc == M.Scan
    requires Emits(Run(judge, inputs).scans + [r], |Run(judge, inputs).scans|) == '#'
    ensures var (l, next) := (Run(judge, inputs), Run(judge, inputs + [Scanned(r)]));
            next.scans == l.scans + [r] && next.cores == M.PressKey(l.cores, '#')
  {
    hide M.PressKey, M.Reachable, T.Keys, Emitted, After, Scan;
    var l := Run(judge, inputs);
    RunInv(judge, inputs);
    assert (inputs + [Scanned(r)])[..|inputs|] == inputs;
    assert (l.scans + [r])[..|l.scans|] == l.scans;
  }

  lemma PressFirst<V>(judge: (V, u16, u32) -> bool, s: M.State<V>)
    ensures M.Exec(judge, s, [M.Press('#')]) == M.PressKey(s, '#')
  {
    var press: seq<M.Action<V>> := [M.Press('#')];
    assert press[..0] == [];
  }
}
