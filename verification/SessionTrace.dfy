/** Whole runs of the admin session. */
module SessionTrace {
  import opened Words
  import opened Decimals
  import opened Session

  predicate IsGrant<W>(e: Event<W>) { e.LoggedIn? || e.Refreshed? }

  /** A session that began with the login at `l`, was last granted at `g` and has
      not been revoked since. */
  ghost predicate Live<W>(trace: seq<Event<W>>, l: int, g: int): (live: bool)
    ensures live ==> 0 <= l <= g < |trace| && trace[l].LoggedIn? && IsGrant(trace[g])
  {
    && 0 <= l <= g < |trace| && trace[l].LoggedIn? && IsGrant(trace[g])
    && (forall i | l < i < |trace| :: !trace[i].Revoked?)
    && (forall i | g < i < |trace| :: !IsGrant(trace[i]))
  }

  /** The session variables say no more and no less than the trace: admin mode is
      on exactly while a session is live, with the deadline of its last grant. */
  ghost predicate SessionInv<W>(s: Session, trace: seq<Event<W>>) {
    && (s.admin <==> exists l, g :: Live(trace, l, g))
    && (forall l, g | Live(trace, l, g) :: s.deadline == Grant(trace[g].at).deadline)
  }

  /** The session after one event. */
  ghost predicate Follows<W>(s: Session, e: Event<W>, s': Session) {
    match e
    case LoggedIn(at, _, _, _) => s' == Grant(at)
    case Refreshed(at) => s.admin && s' == Grant(at)
    case Revoked => !s'.admin
    case Started(_, _) => s' == s
  }

  lemma LiveStarts<W>(trace: seq<Event<W>>, e: Event<W>)
    requires e.LoggedIn?
    ensures Live(trace + [e], |trace|, |trace|)
  {
  }

  lemma LiveStays<W>(trace: seq<Event<W>>, e: Event<W>, l: int, g: int)
    requires Live(trace, l, g) && !e.Revoked?
    ensures Live(trace + [e], l, if IsGrant(e) then |trace| else g)
  {
  }

  lemma LiveWas<W>(trace: seq<Event<W>>, e: Event<W>, l: int, g: int)
    requires Live(trace + [e], l, g)
    ensures !e.Revoked? && (e.Started? ==> Live(trace, l, g)) && (IsGrant(e) ==> g == |trace|)
  {
    var longer := trace + [e];
    assert longer[|trace|] == e;
    if e.Started? {
      forall i | l < i < |trace| ensures !trace[i].Revoked? {
        assert longer[i] == trace[i];
      }
      forall i | g < i < |trace| ensures !IsGrant(trace[i]) {
        assert longer[i] == trace[i];
      }
    }
  }

  lemma InvFollows<W>(s: Session, trace: seq<Event<W>>, e: Event<W>, s': Session)
    requires SessionInv(s, trace) && Follows(s, e, s')
    ensures SessionInv(s', trace + [e])
  {
    hide Live;
    var longer := trace + [e];
    forall l, g | Live(longer, l, g) ensures s'.admin && s'.deadline == Grant(longer[g].at).deadline {
      LiveWas(trace, e, l, g);
    }
    if s'.admin {
      if e.LoggedIn? {
        LiveStarts(trace, e);
      } else {
        var l, g :| Live(trace, l, g);
        LiveStays(trace, e, l, g);
      }
    }
  }

  // --------------------------------------------------------------- one input

  /** The check that a gated handler passed: some session was live and in time. */
  predicate Unexpired(now: u64, at: u64) {
    Grant(at).deadline == 0 || now < Grant(at).deadline
  }

  ghost predicate InSession<W>(trace: seq<Event<W>>, now: u64) {
    exists l, g :: Live(trace, l, g) && Unexpired(now, trace[g].at)
  }

  ghost predicate EventOk<W>(permits: (W, u16, u32) -> bool, trace: seq<Event<W>>, k: nat)
    requires k < |trace|
  {
    match trace[k]
    case Started(c, at) => c.requiresAdmin ==> InSession(trace[..k], at)
    case LoggedIn(_, world, id, code) => permits(world, id, code)
    case _ => true
  }

  ghost predicate RunInv<W>(permits: (W, u16, u32) -> bool, s: Session, trace: seq<Event<W>>) {
    SessionInv(s, trace) && forall k | 0 <= k < |trace| :: EventOk(permits, trace, k)
  }

  lemma InvEvent<W>(permits: (W, u16, u32) -> bool, s: Session, trace: seq<Event<W>>, e: Event<W>, s': Session)
    requires RunInv(permits, s, trace) && Follows(s, e, s')
    requires e.Started? && e.command.requiresAdmin ==> InSession(trace, e.at)
    requires e.LoggedIn? ==> permits(e.world, e.id, e.code)
    ensures RunInv(permits, s', trace + [e])
  {
    hide SessionInv, InSession;
    InvFollows(s, trace, e, s');
    forall k | 0 <= k < |trace + [e]| ensures EventOk(permits, trace + [e], k) {
      assert (trace + [e])[..k] == trace[..k];
      if k < |trace| {
        assert EventOk(permits, trace, k);
      } else {
        assert trace[..k] == trace;
      }
    }
  }

  /** In a run so far, the expiry check passes exactly for a session in time. */
  lemma CheckIsInSession<W>(s: Session, trace: seq<Event<W>>, now: u64)
    requires SessionInv(s, trace)
    ensures s.admin && !Expired(s, now) <==> InSession(trace, now)
  {
    hide Live;
    if s.admin {
      var l, g :| Live(trace, l, g);
    }
  }

  lemma InvLine<W>(permits: (W, u16, u32) -> bool, s: Session, trace: seq<Event<W>>, argv: seq<string>, call: Call<W>)
    requires RunInv(permits, s, trace) && argv != []
    ensures var (s', events) := Dispatched(permits, s, argv, call);
            RunInv(permits, s', trace + events)
  {
    hide RunInv, Commands, Find, Handle, Grant, Expired;
    var (s', events) := Dispatched(permits, s, argv, call);
    if Accepted(s, argv, call.mounted, call.checked) {
      InvAccepted(permits, s, trace, Find(argv[0], 0).value, argv, call);
    } else if events == [] {
      assert trace + events == trace;
    } else {
      InvEvent(permits, s, trace, Revoked, s');
    }
  }

  lemma InvAccepted<W>(permits: (W, u16, u32) -> bool, s: Session, trace: seq<Event<W>>, c: Command,
                       argv: seq<string>, call: Call<W>)
    requires RunInv(permits, s, trace) && (c.handler == Login ==> |argv| == 3)
    requires c.requiresAdmin ==> s.admin && !Expired(s, call.checked)
    ensures var (s', events) := Handle(permits, c.handler, s, argv, call);
            if c.requiresAdmin && s'.admin then
              RunInv(permits, Grant(call.done), trace + ([Started(c, call.checked)] + events + [Refreshed(call.done)]))
            else RunInv(permits, s', trace + ([Started(c, call.checked)] + events))
  {
    hide RunInv, InSession, Handle, Grant, Expired;
    var start := Started(c, call.checked);
    CheckHolds(permits, s, trace, call.checked);
    InvEvent(permits, s, trace, start, s);
    var (s', events) := Handle(permits, c.handler, s, argv, call);
    InvHandler(permits, s, trace + [start], c.handler, argv, call);
    assert trace + [start] + events == trace + ([start] + events);
    if c.requiresAdmin && s'.admin {
      InvEvent(permits, s', trace + [start] + events, Refreshed(call.done), Grant(call.done));
      assert trace + [start] + events + [Refreshed(call.done)] == trace + ([start] + events + [Refreshed(call.done)]);
    }
  }

  lemma CheckHolds<W>(permits: (W, u16, u32) -> bool, s: Session, trace: seq<Event<W>>, now: u64)
    requires RunInv(permits, s, trace)
    ensures s.admin && !Expired(s, now) <==> InSession(trace, now)
  {
    CheckIsInSession(s, trace, now);
  }

  lemma InvHandler<W>(permits: (W, u16, u32) -> bool, s: Session, trace: seq<Event<W>>, h: Handler,
                      argv: seq<string>, call: Call<W>)
    requires h == Login ==> |argv| == 3
    requires RunInv(permits, s, trace)
    ensures var (s', events) := Handle(permits, h, s, argv, call);
            RunInv(permits, s', trace + events)
  {
    hide RunInv;
    var (s', events) := Handle(permits, h, s, argv, call);
    if events == [] {
      assert trace + events == trace;
    } else {
      InvEvent(permits, s, trace, events[0], s');
    }
  }

  lemma InvNext<W>(permits: (W, u16, u32) -> bool, s: Session, trace: seq<Event<W>>, input: Input<W>)
    requires RunInv(permits, s, trace)
    ensures var (s', events) := Next(permits, s, input);
            RunInv(permits, s', trace + events)
  {
    hide RunInv, Dispatched;
    var (s', events) := Next(permits, s, input);
    if input.Line? && input.argv != [] {
      InvLine(permits, s, trace, input.argv, input.call);
    } else if events == [] {
      assert trace + events == trace;
    } else {
      InvEvent(permits, s, trace, Revoked, s');
    }
  }

  lemma {:induction false} InvRun<W>(permits: (W, u16, u32) -> bool, inputs: seq<Input<W>>)
    ensures var (s, trace) := Run(permits, inputs);
            RunInv(permits, s, trace)
    decreases |inputs|
  {
    if inputs != [] {
      var init := inputs[..|inputs| - 1];
      InvRun(permits, init);
      var (s, trace) := Run(permits, init);
      InvNext(permits, s, trace, inputs[|inputs| - 1]);
    }
  }

  // -------------------------------------------------------------------- results

  /** The trace of a run decides the session variables: admin mode is on exactly
      while a session is live, and its deadline is five minutes after the last grant
      in 64-bit arithmetic, hence armed unless that sum is exactly 2^64. */
  lemma AdminIffLive<W>(permits: (W, u16, u32) -> bool, inputs: seq<Input<W>>)
    ensures var (s, trace) := Run(permits, inputs);
            && (s.admin <==> exists l, g :: Live(trace, l, g))
            && (forall l, g | Live(trace, l, g) ::
                  && s.deadline == (trace[g].at + 300_000_000) % TWO_64
                  && (s.deadline == 0 <==> trace[g].at + 300_000_000 == TWO_64))
  {
    hide Live, Run;
    var (s, trace) := Run(permits, inputs);
    InvRun(permits, inputs);
    forall l, g | Live(trace, l, g)
      ensures s.deadline == (trace[g].at + 300_000_000) % TWO_64
      ensures s.deadline == 0 <==> trace[g].at + 300_000_000 == TWO_64
    {
      assert s.deadline == Grant(trace[g].at).deadline;
    }
  }

  /** An admin-gated handler starts only in a session that a permitted login began,
      that nothing has revoked since, and that was last granted less than five
      minutes before. */
  lemma GatedNeedsSession<W>(permits: (W, u16, u32) -> bool, inputs: seq<Input<W>>, k: nat) returns (l: nat, g: nat)
    requires var trace := Run(permits, inputs).1;
             k < |trace| && trace[k].Started? && trace[k].command.requiresAdmin
    ensures var trace := Run(permits, inputs).1;
            && Live(trace[..k], l, g)
            && permits(trace[l].world, trace[l].id, trace[l].code)
            && trace[k].at < trace[g].at + 300_000_000
  {
    hide Run;
    var (s, trace) := Run(permits, inputs);
    InvRun(permits, inputs);
    assert EventOk(permits, trace, k);
    l, g :| Live(trace[..k], l, g) && Unexpired(trace[k].at, trace[..k][g].at);
    assert EventOk(permits, trace, l);
  }

  /** A gated command with the right number of arguments is carried out exactly in
      a session that is live and in time. */
  lemma GatedStartsIff<W>(permits: (W, u16, u32) -> bool, inputs: seq<Input<W>>, argv: seq<string>, call: Call<W>,
                          c: Command)
    requires argv != [] && call.mounted
    requires Find(argv[0], 0) == Some(c) && c.requiresAdmin && CountOk(c, |argv|)
    ensures var (s, trace) := Run(permits, inputs);
            Starts(Dispatched(permits, s, argv, call).1) <==> InSession(trace, call.checked)
  {
    hide Run, Commands, Find, Handle, InSession, SessionInv;
    var (s, trace) := Run(permits, inputs);
    InvRun(permits, inputs);
    CheckIsInSession(s, trace, call.checked);
  }

  predicate Starts<W>(events: seq<Event<W>>) {
    events != [] && events[0].Started?
  }

  /** In time means less than five minutes after the last grant. */
  lemma UnexpiredMeans(now: u64, at: u64)
    ensures Unexpired(now, at) ==> now < at + 300_000_000
    ensures at + 300_000_000 < TWO_64 ==> (Unexpired(now, at) <==> now < at + 300_000_000)
  {
  }

  /** A permitted login, and a gated command that does not end the session, give
      five more minutes from the end of the handler. */
  lemma GrantsExtend<W>(permits: (W, u16, u32) -> bool, s: Session, argv: seq<string>, call: Call<W>, c: Command)
    requires argv != [] && Accepted(s, argv, call.mounted, call.checked) && Find(argv[0], 0) == Some(c)
    requires if c.handler == Login then permits(call.world, Strtoul(argv[1]) % 0x1_0000, Strtoul(argv[2]))
             else c.requiresAdmin && c.handler != Logout && c.handler != Reboot
    ensures Dispatched(permits, s, argv, call).0 == Session(true, (call.done + 300_000_000) % TWO_64)
  {
    hide Commands, Find, Expired, Strtoul;
  }

  /** What ends a session: the host or the device going away, or a logout that runs. */
  predicate Ends<W>(s: Session, input: Input<W>) {
    match input
    case Line(argv, call) =>
      && argv != [] && Accepted(s, argv, call.mounted, call.checked)
      && Find(argv[0], 0).value.handler == Logout
    case _ => true
  }

  /** After any of these no session is live, so that no admin-gated command starts
      before another login, whatever deadline is left behind. */
  lemma EndsSession<W>(permits: (W, u16, u32) -> bool, inputs: seq<Input<W>>, input: Input<W>, now: u64)
    requires Ends(Run(permits, inputs).0, input)
    ensures !InSession(Run(permits, inputs + [input]).1, now)
  {
    InvRun(permits, inputs + [input]);
    assert (inputs + [input])[..|inputs|] == inputs;
    NotAdmin(permits, Run(permits, inputs).0, input);
    hide Commands, Find, Next, Ends, Live;
  }

  lemma NotAdmin<W>(permits: (W, u16, u32) -> bool, s: Session, input: Input<W>)
    requires Ends(s, input)
    ensures !Next(permits, s, input).0.admin
  {
    hide Commands, Find, Expired;
  }

  /** In a session that has expired, every command of the table that is otherwise
      acceptable runs if and only if it needs no admin mode. */
  lemma ExpiredStartsIff<W>(permits: (W, u16, u32) -> bool, s: Session, argv: seq<string>, call: Call<W>, c: Command)
    requires argv != [] && call.mounted && Find(argv[0], 0) == Some(c) && CountOk(c, |argv|)
    requires Expired(s, call.checked)
    ensures Starts(Dispatched(permits, s, argv, call).1) <==> !c.requiresAdmin
    ensures c.requiresAdmin ==> Dispatched(permits, s, argv, call) == (BOOT, [Revoked])
  {
    hide Commands, Find, Handle;
  }

  /** Commands that need no admin mode, other than login and format-storage, leave
      the session as they find it, expired or not. */
  lemma UngatedIgnoresExpiry<W>(permits: (W, u16, u32) -> bool, s: Session, argv: seq<string>, call: Call<W>,
                                c: Command)
    requires argv != [] && call.mounted && Find(argv[0], 0) == Some(c) && CountOk(c, |argv|)
    requires !c.requiresAdmin && c.handler != Login && c.handler != FormatStorage
    ensures Dispatched(permits, s, argv, call) == (s, [Started(c, call.checked)])
  {
    hide Commands, Find, Expired;
    FoundRow(argv[0], c);
    var events: seq<Event<W>> := [Started(c, call.checked)];
    assert events + [] == events;
  }

  lemma FoundRow(name: string, c: Command)
    requires Find(name, 0) == Some(c)
    ensures RowOk(c)
  {
    hide Commands, RowOk;
  }

  lemma FindFirst(name: string, i: nat)
    requires i < |SystemCommands()| && SystemCommands()[i].name == name
    requires forall k | 0 <= k < i :: SystemCommands()[k].name != name
    ensures Find(name, 0) == Some(SystemCommands()[i])
  {
    hide SystemCommands, NetworkCommands, KeyCommands, KeyStateCommands, BackupCommands;
    FindFrom(name, i, 0);
  }

  lemma {:induction false} FindFrom(name: string, i: nat, k: nat)
    requires k <= i < |SystemCommands()| && SystemCommands()[i].name == name
    requires forall m | k <= m < i :: SystemCommands()[m].name != name
    ensures Find(name, k) == Some(SystemCommands()[i])
    decreases i - k
  {
    hide SystemCommands, NetworkCommands, KeyCommands, KeyStateCommands, BackupCommands;
    assert Commands()[k] == SystemCommands()[k];
    if k < i {
      FindFrom(name, i, k + 1);
    }
  }

  lemma LoginAndStatus()
    ensures Find("login", 0) == Some(Command("login", false, 2, 2, Login))
    ensures Find("status", 0) == Some(Command("status", false, 0, 0, Status))
  {
    FindFirst("login", 4);
    FindFirst("status", 2);
  }

  /** From boot: a permitted login, then `status` at any time from five minutes
      later on. It starts, and admin mode is on though the session has expired. */
  lemma StatusAfterExpiry<W>(permits: (W, u16, u32) -> bool, world: W, id: string, code: string, late: u64)
      returns (inputs: seq<Input<W>>)
    requires permits(world, Strtoul(id) % 0x1_0000, Strtoul(code)) && late >= 300_000_000
    ensures |inputs| == 2
    ensures var (s, trace) := Run(permits, inputs);
            && s.admin && Expired(s, late)
            && trace != [] && trace[|trace| - 1] == Started(Command("status", false, 0, 0, Status), late)
  {
    hide Commands, Find, Strtoul;
    LoginAndStatus();
    var login := Line(["login", id, code], Call(true, 0, world, false, 0));
    var status := Line(["status"], Call(true, late, world, false, late));
    inputs := [login, status];
    assert inputs[..1] == [login] && [login][..0] == [];
    var (s1, e1) := Next(permits, BOOT, login);
    assert s1 == Grant(0) && Expired(s1, late);
    assert Run(permits, [login]) == (s1, [] + e1);
    UngatedIgnoresExpiry(permits, s1, ["status"], status.call, Command("status", false, 0, 0, Status));
  }
}
