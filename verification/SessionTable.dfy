/** The words of the console: what each one starts, and which of them end a session. */
module SessionTable {
  import opened Words
  import opened Decimals
  import opened Session
  import opened SessionTrace

  /** Where a word stands in the command list; 23 for any other word. */
  function Position(word: string): nat {
    if word == "help" then 0 else if word == "?" then 1 else if word == "status" then 2 else if word == "test" then 3
    else if word == "login" then 4 else if word == "logout" then 5 else if word == "reboot" then 6
    else if word == "get-time" then 7 else if word == "sync-ntp" then 8 else if word == "set-wifi" then 9
    else if word == "list-keys" then 10 else if word == "get-key" then 11 else if word == "get-key-secret" then 12
    else if word == "add-key" then 13 else if word == "rename-key" then 14 else if word == "enable-key" then 15
    else if word == "disable-key" then 16 else if word == "delete-key" then 17 else if word == "set-key-admin" then 18
    else if word == "unset-key-admin" then 19 else if word == "export-keys" then 20
    else if word == "import-keys" then 21 else if word == "format-storage" then 22 else 23
  }

  /** The words in order. */
  function Names(): (names: seq<string>)
    ensures |names| == 23
  {
    ["help", "?", "status", "test", "login",
     "logout", "reboot", "get-time", "sync-ntp", "set-wifi",
     "list-keys", "get-key", "get-key-secret", "add-key", "rename-key",
     "enable-key", "disable-key", "delete-key", "set-key-admin", "unset-key-admin",
     "export-keys", "import-keys", "format-storage"]
  }

  /** The list of handlers that goes with the command list. */
  function Handlers(): (handlers: seq<Handler>)
    ensures |handlers| == 23
  {
    [Help, Help, Status, Test, Login,
     Logout, Reboot, GetTime, SyncNtp, SetWifi,
     ListKeys, GetKey, GetKeySecret, AddKey, RenameKey,
     EnableKey, DisableKey, DeleteKey, SetKeyAdmin, UnsetKeyAdmin,
     ExportKeys, ImportKeys, FormatStorage]
  }

  /** How many arguments a handler is called with. */
  function Arity(h: Handler): nat {
    match h
    case Login | SetWifi | AddKey | RenameKey => 2
    case GetKey | GetKeySecret | EnableKey | DisableKey | DeleteKey | SetKeyAdmin | UnsetKeyAdmin => 1
    case _ => 0
  }

  predicate Gated(h: Handler) {
    !(h.Help? || h.Status? || h.Test? || h.Login? || h.GetTime? || h.FormatStorage?)
  }

  function Row(word: string, h: Handler): Command {
    Command(word, Gated(h), Arity(h), Arity(h), h)
  }

  /** These rows stand at position `from` on in the list. */
  ghost predicate RowsFrom(rows: seq<Command>, from: nat)
    requires from + |rows| <= 23
  {
    forall i | 0 <= i < |rows| :: rows[i] == Row(Names()[from + i], Handlers()[from + i])
  }

  lemma SystemRows()
    ensures |SystemCommands()| == 7 && RowsFrom(SystemCommands(), 0)
  {
  }

  lemma NetworkRows()
    ensures |NetworkCommands()| == 3 && RowsFrom(NetworkCommands(), 7)
  {
  }

  lemma KeyRows()
    ensures |KeyCommands()| == 5 && RowsFrom(KeyCommands(), 10)
  {
    assert Names()[10..15] == ["list-keys", "get-key", "get-key-secret", "add-key", "rename-key"];
    assert Handlers()[10..15] == [ListKeys, GetKey, GetKeySecret, AddKey, RenameKey];
    hide Names, Handlers;
    forall i | 0 <= i < 5 ensures KeyCommands()[i] == Row(Names()[10 + i], Handlers()[10 + i]) {
      assert Names()[10 + i] == Names()[10..15][i] && Handlers()[10 + i] == Handlers()[10..15][i];
    }
  }

  lemma KeyStateRows()
    ensures |KeyStateCommands()| == 5 && RowsFrom(KeyStateCommands(), 15)
  {
    assert Names()[15..20] == ["enable-key", "disable-key", "delete-key", "set-key-admin", "unset-key-admin"];
    assert Handlers()[15..20] == [EnableKey, DisableKey, DeleteKey, SetKeyAdmin, UnsetKeyAdmin];
    hide Names, Handlers;
    forall i | 0 <= i < 5 ensures KeyStateCommands()[i] == Row(Names()[15 + i], Handlers()[15 + i]) {
      assert Names()[15 + i] == Names()[15..20][i] && Handlers()[15 + i] == Handlers()[15..20][i];
    }
  }

  lemma BackupRows()
    ensures |BackupCommands()| == 3 && RowsFrom(BackupCommands(), 20)
  {
    assert Names()[20..23] == ["export-keys", "import-keys", "format-storage"];
    assert Handlers()[20..23] == [ExportKeys, ImportKeys, FormatStorage];
    hide Names, Handlers;
    forall i | 0 <= i < 3 ensures BackupCommands()[i] == Row(Names()[20 + i], Handlers()[20 + i]) {
      assert Names()[20 + i] == Names()[20..23][i] && Handlers()[20 + i] == Handlers()[20..23][i];
    }
  }

  lemma RowsJoin(x: seq<Command>, y: seq<Command>, from: nat)
    requires from + |x| + |y| <= 23 && RowsFrom(x, from) && RowsFrom(y, from + |x|)
    ensures RowsFrom(x + y, from)
  {
    hide Row, Handlers, Names;
  }

  lemma AllRows()
    ensures |Commands()| == 23 && RowsFrom(Commands(), 0)
  {
    SystemRows();
    NetworkRows();
    KeyRows();
    KeyStateRows();
    BackupRows();
    hide SystemCommands, NetworkCommands, KeyCommands, KeyStateCommands, BackupCommands, RowsFrom;
    RowsJoin(SystemCommands(), NetworkCommands(), 0);
    RowsJoin(SystemCommands() + NetworkCommands(), KeyCommands(), 0);
    RowsJoin(SystemCommands() + NetworkCommands() + KeyCommands(), KeyStateCommands(), 0);
    RowsJoin(SystemCommands() + NetworkCommands() + KeyCommands() + KeyStateCommands(), BackupCommands(), 0);
  }

  lemma NameAt(word: string)
    ensures Position(word) < 23 ==> word == Names()[Position(word)]
  {
  }

  lemma PositionOf(i: nat)
    requires i < 23
    ensures Position(Names()[i]) == i
  {
  }

  lemma {:induction false} FindsFrom(word: string, k: nat)
    requires k <= |Commands()| == 23 && RowsFrom(Commands(), 0) && k <= Position(word) <= 23
    ensures Find(word, k) ==
              if Position(word) == 23 then None else Some(Row(word, Handlers()[Position(word)]))
    decreases 23 - k
  {
    hide Commands, Position, Handlers, Names;
    if k < 23 {
      NameAt(word);
      PositionOf(k);
      if Position(word) > k {
        FindsFrom(word, k + 1);
      }
    }
  }

  /** A word is looked up to the handler at its position in the handler list, with
      that handler's arity and gate; every other word is unknown. */
  lemma FindIs(word: string)
    ensures Position(word) <= 23
    ensures Find(word, 0) == if Position(word) == 23 then None else Some(Row(word, Handlers()[Position(word)]))
  {
    AllRows();
    FindsFrom(word, 0);
  }

  // ------------------------------------------------------------------- dispatch

  /** The line names a handler, and gives it as many arguments as it takes. */
  predicate Calls(argv: seq<string>, mounted: bool) {
    && argv != [] && Position(argv[0]) < 23
    && |argv| - 1 == Arity(Handlers()[Position(argv[0])])
    && (mounted || argv[0] in ["help", "?", "format-storage"])
  }

  predicate InTime(s: Session, now: u64) {
    s.admin && (s.deadline == 0 || now < s.deadline)
  }

  /** A line starts a handler exactly if it calls one that is open to everyone, or
      admin mode is on and in time; and it starts the one at the word's position in the
      handler list. */
  lemma StartsIff<W>(permits: (W, u16, u32) -> bool, s: Session, argv: seq<string>, call: Call<W>)
    requires argv != []
    ensures var events := Dispatched(permits, s, argv, call).1;
            var h := if Position(argv[0]) < 23 then Handlers()[Position(argv[0])] else Help;
            && (Starts(events) <==> Calls(argv, call.mounted) && (Gated(h) ==> InTime(s, call.checked)))
            && (Starts(events) ==> events[0] == Started(Row(argv[0], h), call.checked))
  {
    FindIs(argv[0]);
    hide Find, Position, Handlers, Handle, Arity, Gated;
  }

  /** Words that end a session: `logout`, `reboot`, and a `format-storage` that goes on
      to restart the device. */
  predicate EndingWord<W>(word: string, call: Call<W>) {
    call.mounted && (word == "logout" || word == "reboot" || (word == "format-storage" && call.restarts))
  }

  lemma EndingPosition<W>(word: string, call: Call<W>)
    requires EndingWord(word, call)
    ensures Position(word) < 23
    ensures var h := Handlers()[Position(word)];
            && Arity(h) == 0 && (h == Logout || h == Reboot || (h == FormatStorage && call.restarts))
  {
    assert Position("logout") == 5 && Position("reboot") == 6 && Position("format-storage") == 22;
  }

  lemma EndingWordEnds<W>(permits: (W, u16, u32) -> bool, s: Session, word: string, call: Call<W>)
    requires EndingWord(word, call)
    ensures !Dispatched(permits, s, [word], call).0.admin
  {
    FindIs(word);
    EndingPosition(word, call);
    hide Find, Position, Handlers;
  }

  /** After such a word no session is live in any run, so that no gated handler starts
      before another login. */
  lemma EndingWordEndsSession<W>(permits: (W, u16, u32) -> bool, inputs: seq<Input<W>>, word: string, call: Call<W>,
                                 now: u64)
    requires EndingWord(word, call)
    ensures !InSession(Run(permits, inputs + [Line([word], call)]).1, now)
  {
    var line := Line([word], call);
    EndingWordEnds(permits, Run(permits, inputs).0, word, call);
    InvRun(permits, inputs + [line]);
    assert (inputs + [line])[..|inputs|] == inputs;
    hide Dispatched, EndingWord, Live;
  }

  /** Admin mode after a line: a started `login` turns it on if permitted, the ending
      words turn it off, a gated word that comes too late turns it off, and nothing
      else changes it. */
  lemma AdminAfter<W>(permits: (W, u16, u32) -> bool, s: Session, argv: seq<string>, call: Call<W>)
    requires argv != []
    ensures var (s', events) := Dispatched(permits, s, argv, call);
            s'.admin <==>
              if Starts(events) then
                match events[0].command.handler
                case Login =>
                  s.admin || (|argv| == 3 && permits(call.world, Strtoul(argv[1]) % 0x1_0000, Strtoul(argv[2])))
                case Logout | Reboot => false
                case FormatStorage => s.admin && !call.restarts
                case _ => s.admin
              else
                s.admin && !TooLate(s, argv[0], call)
  {
    FindIs(argv[0]);
    hide Find, Position, Handlers, Strtoul;
  }

  /** A gated word that is looked up, with the session over. */
  predicate TooLate<W>(s: Session, word: string, call: Call<W>) {
    && call.mounted && Position(word) < 23 && Gated(Handlers()[Position(word)])
    && !InTime(s, call.checked)
  }
}
