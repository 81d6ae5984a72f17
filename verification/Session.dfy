/** The admin session of the serial console: login, idle expiry, logout, dispatch. */
module Session {
  import opened Words
  import opened Decimals

  const ADMIN_IDLE_TIMEOUT_US := 300_000_000

  datatype Handler = Help | Status | Test | Login | Logout | Reboot | GetTime | SyncNtp | SetWifi
                   | ListKeys | GetKey | GetKeySecret | AddKey | RenameKey | EnableKey | DisableKey
                   | DeleteKey | SetKeyAdmin | UnsetKeyAdmin | ExportKeys | ImportKeys | FormatStorage

  datatype Command = Command(name: string, requiresAdmin: bool, minArgs: nat, maxArgs: nat, handler: Handler)

  /** What the rows have in common: no command takes more than two arguments, and
      all but six handlers need admin mode. */
  predicate RowOk(c: Command) {
    && c.maxArgs <= 2
    && (c.handler == Login ==> c.minArgs == 2)
    && (c.requiresAdmin <==> c.handler !in {Help, Status, Test, Login, GetTime, FormatStorage})
  }

  function SystemCommands(): (table: seq<Command>)
    ensures forall c | c in table :: RowOk(c)
  {
    [Command("help", false, 0, 0, Help),
     Command("?", false, 0, 0, Help),
     Command("status", false, 0, 0, Status),
     Command("test", false, 0, 0, Test),
     Command("login", false, 2, 2, Login),
     Command("logout", true, 0, 0, Logout),
     Command("reboot", true, 0, 0, Reboot)]
  }

  function NetworkCommands(): (table: seq<Command>)
    ensures forall c | c in table :: RowOk(c)
  {
    [Command("get-time", false, 0, 0, GetTime),
     Command("sync-ntp", true, 0, 0, SyncNtp),
     Command("set-wifi", true, 2, 2, SetWifi)]
  }

  function KeyCommands(): (table: seq<Command>)
    ensures forall c | c in table :: RowOk(c)
  {
    [Command("list-keys", true, 0, 0, ListKeys),
     Command("get-key", true, 1, 1, GetKey),
     Command("get-key-secret", true, 1, 1, GetKeySecret),
     Command("add-key", true, 2, 2, AddKey),
     Command("rename-key", true, 2, 2, RenameKey)]
  }

  function KeyStateCommands(): (table: seq<Command>)
    ensures forall c | c in table :: RowOk(c)
  {
    [Command("enable-key", true, 1, 1, EnableKey),
     Command("disable-key", true, 1, 1, DisableKey),
     Command("delete-key", true, 1, 1, DeleteKey),
     Command("set-key-admin", true, 1, 1, SetKeyAdmin),
     Command("unset-key-admin", true, 1, 1, UnsetKeyAdmin)]
  }

  function BackupCommands(): (table: seq<Command>)
    ensures forall c | c in table :: RowOk(c)
  {
    [Command("export-keys", true, 0, 0, ExportKeys),
     Command("import-keys", true, 0, 0, ImportKeys),
     Command("format-storage", false, 0, 0, FormatStorage)]
  }

  /** The command table in order, each entry with its handler. */
  function Commands(): (table: seq<Command>)
    ensures forall c | c in table :: RowOk(c)
  {
    SystemCommands() + NetworkCommands() + KeyCommands() + KeyStateCommands() + BackupCommands()
  }

  /** The first command of that name from index `i` on. */
  function Find(name: string, i: nat): (c: Option<Command>)
    requires i <= |Commands()|
    ensures c.Some? ==> c.value in Commands() && c.value.name == name
    decreases |Commands()| - i
  {
    if i == |Commands()| then None
    else if Commands()[i].name == name then Some(Commands()[i])
    else Find(name, i + 1)
  }

  /** The commands that still run when storage cannot be mounted. */
  predicate Recovery(name: string) {
    name == "format-storage" || name == "help" || name == "?"
  }

  predicate CountOk(c: Command, argc: nat) {
    c.minArgs <= argc - 1 <= c.maxArgs
  }

  // ------------------------------------------------------------------ specification

  /** The two globals of the session. */
  datatype Session = Session(admin: bool, deadline: u64)

  const BOOT := Session(false, 0)

  /** What an observer can write down. `LoggedIn` and `Refreshed` are the calls of
      `commands_admin_grant`; `Started` is a handler called after a check at time `at`. */
  datatype Event<W> =
    | LoggedIn(at: u64, world: W, id: u16, code: u32)
    | Refreshed(at: u64)
    | Revoked
    | Started(command: Command, at: u64)

  /** What a dispatched line meets: whether storage is mounted, the clock at the
      check, the world that a login consults, whether the device restarts inside
      the handler, and the clock at its end. */
  datatype Call<W> = Call(mounted: bool, checked: u64, world: W, restarts: bool, done: u64)

  /** A line from the console, the host going away, or the device restarting. */
  datatype Input<W> = Line(argv: seq<string>, call: Call<W>) | Disconnect | Restart

  function Grant(now: u64): Session {
    Session(true, (now + ADMIN_IDLE_TIMEOUT_US) % 0x1_0000_0000_0000_0000)
  }

  predicate Expired(s: Session, now: u64) {
    s.admin && s.deadline != 0 && now >= s.deadline
  }

  /** What a handler does to the session. `permits` stands for the decision of
      `cmd_login` on the id and code it has parsed. */
  function Handle<W>(permits: (W, u16, u32) -> bool, h: Handler, s: Session, argv: seq<string>, call: Call<W>)
      : (Session, seq<Event<W>>)
    requires h == Login ==> |argv| == 3
  {
    match h
    case Login =>
      var id, code := Strtoul(argv[1]) % 0x1_0000, Strtoul(argv[2]);
      if permits(call.world, id, code) then (Grant(call.done), [LoggedIn(call.done, call.world, id, code)]) else (s, [])
    case Logout => (s.(admin := false), [Revoked])
    case Reboot => (BOOT, [Revoked])
    case FormatStorage => if call.restarts then (BOOT, [Revoked]) else (s, [])
    case _ => (s, [])
  }

  predicate Accepted(s: Session, argv: seq<string>, mounted: bool, now: u64)
    requires argv != []
  {
    && (mounted || Recovery(argv[0]))
    && var c := Find(argv[0], 0);
    && c.Some?
    && (c.value.requiresAdmin ==> s.admin && !Expired(s, now))
    && CountOk(c.value, |argv|)
  }

  /** The session after a line, and the events on the way. */
  function Dispatched<W>(permits: (W, u16, u32) -> bool, s: Session, argv: seq<string>, call: Call<W>)
      : (Session, seq<Event<W>>)
    requires argv != []
  {
    var found := Find(argv[0], 0);
    if (!call.mounted && !Recovery(argv[0])) || found.None? then (s, [])
    else if found.value.requiresAdmin && Expired(s, call.checked) then (BOOT, [Revoked])
    else if !Accepted(s, argv, call.mounted, call.checked) then (s, [])
    else
      var c := found.value;
      var (s', events) := Handle(permits, c.handler, s, argv, call);
      if c.requiresAdmin && s'.admin then
        (Grant(call.done), [Started(c, call.checked)] + events + [Refreshed(call.done)])
      else (s', [Started(c, call.checked)] + events)
  }

  function Next<W>(permits: (W, u16, u32) -> bool, s: Session, input: Input<W>): (Session, seq<Event<W>>) {
    match input
    case Line(argv, call) => if argv == [] then (s, []) else Dispatched(permits, s, argv, call)
    case Disconnect => if s.admin then (BOOT, [Revoked]) else (s, [])
    case Restart => (BOOT, [Revoked])
  }

  /** Session and trace after a run from boot. */
  function Run<W>(permits: (W, u16, u32) -> bool, inputs: seq<Input<W>>): (Session, seq<Event<W>>) {
    if inputs == [] then (BOOT, [])
    else
      var (s, trace) := Run(permits, inputs[..|inputs| - 1]);
      var (s', events) := Next(permits, s, inputs[|inputs| - 1]);
      (s', trace + events)
  }

  // -------------------------------------------------------------------------- code

  class AdminSession {
    var adminMode: bool
    var adminDeadlineUs: u64

    function State(): Session reads this { Session(adminMode, adminDeadlineUs) }

    constructor ()
      ensures State() == BOOT
    {
      adminMode, adminDeadlineUs := false, 0;
    }

    method AdminGrant(now: u64)
      modifies this
      ensures State() == Grant(now)
    {
      adminMode := true;
      adminDeadlineUs := (now + ADMIN_IDLE_TIMEOUT_US) % 0x1_0000_0000_0000_0000;
    }

    method SessionExpired(now: u64) returns (expired: bool)
      modifies this
      ensures expired <==> Expired(old(State()), now)
      ensures State() == if expired then BOOT else old(State())
    {
      if adminMode && adminDeadlineUs != 0 && now >= adminDeadlineUs {
        adminMode := false;
        adminDeadlineUs := 0;
        return true;
      }
      return false;
    }

    /** `commands_on_disconnect`. */
    method OnDisconnect<W>(permits: (W, u16, u32) -> bool) returns (events: seq<Event<W>>)
      modifies this
      ensures (State(), events) == Next(permits, old(State()), Disconnect)
      ensures !adminMode
    {
      events := [];
      if adminMode {
        adminMode := false;
        adminDeadlineUs := 0;
        events := [Revoked];
      }
    }

    method RunHandler<W>(permits: (W, u16, u32) -> bool, h: Handler, argv: seq<string>, call: Call<W>)
        returns (events: seq<Event<W>>)
      requires h == Login ==> |argv| == 3
      modifies this
      ensures (State(), events) == Handle(permits, h, old(State()), argv, call)
    {
      events := [];
      match h
      case Login =>
        var id, code := Strtoul(argv[1]) % 0x1_0000, Strtoul(argv[2]);
        if permits(call.world, id, code) {
          AdminGrant(call.done);
          events := [LoggedIn(call.done, call.world, id, code)];
        }
      case Logout =>
        adminMode := false;
        events := [Revoked];
      case Reboot =>
        adminMode, adminDeadlineUs := false, 0;
        events := [Revoked];
      case FormatStorage =>
        if call.restarts {
          adminMode, adminDeadlineUs := false, 0;
          events := [Revoked];
        }
      case _ =>
    }

    /** `commands_dispatch`. */
    method Dispatch<W>(permits: (W, u16, u32) -> bool, argv: seq<string>, call: Call<W>) returns (events: seq<Event<W>>)
      requires argv != []
      modifies this
      ensures (State(), events) == Dispatched(permits, old(State()), argv, call)
    {
      hide Commands, Handle, Grant, Expired;
      events := [];
      if !call.mounted {
        var allowed := argv[0] == "format-storage" || argv[0] == "help" || argv[0] == "?";
        if !allowed {
          return;
        }
      }
      var i := 0;
      while i < |Commands()|
        invariant i <= |Commands()| && Find(argv[0], 0) == Find(argv[0], i)
        invariant State() == old(State()) && events == []
      {
        if argv[0] != Commands()[i].name {
          i := i + 1;
          continue;
        }
        var cmd := Commands()[i];
        if cmd.requiresAdmin {
          var expired := SessionExpired(call.checked);
          if expired {
            return [Revoked];
          }
          if !adminMode {
            return;
          }
        }
        var userArgs := |argv| - 1;
        if userArgs < cmd.minArgs || userArgs > cmd.maxArgs {
          return;
        }
        var effects := RunHandler(permits, cmd.handler, argv, call);
        events := [Started(cmd, call.checked)] + effects;
        if cmd.requiresAdmin && adminMode {
          AdminGrant(call.done);
          events := events + [Refreshed(call.done)];
        }
        return;
      }
    }
  }
}
