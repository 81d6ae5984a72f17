/** NTP time discipline: which server replies may move the clock, and how far. */
module Ntp {
  import opened Words
  import Clock

  const NTP_DELTA := 2_208_988_800        // seconds between the 1900 and 1970 epochs
  const ROLLBACK_EPSILON_S := 5
  const ROLLBACK_BUDGET_S := 300
  const MAX_FORWARD_STEP_S := 86_400
  const SANE_MAX_AGE_S := 20 * 365 * 86_400
  const MICRO := 1_000_000

  // ----------------------------------------------------------------- specification

  /** The module's sync state: `synced`, `last_sync_unix`,
      `last_sync_monotonic_us` and `rollback_budget_used_s`. */
  datatype Sync = Sync(synced: bool, unix: u32, monoUs: u64, used: u32)

  const UNSYNCED := Sync(false, 0, 0, 0)

  /** One reply as the callback sees it. The monotonic clock is read twice, by
      the check and when the time is applied. */
  datatype Reply = Reply(datagram: bytes, fromServer: bool, nonce: bytes, checkUs: u64, applyUs: u64)

  function ElapsedSeconds(s: Sync, nowUs: u64): u32 {
    ((nowUs - s.monoUs) % 0x1_0000_0000_0000_0000 / MICRO) % 0x1_0000_0000
  }

  /** Where the monotonic clock says we are, as far as 32 bits can tell. */
  function Projection(s: Sync, nowUs: u64): u32 {
    var sum := s.unix + ElapsedSeconds(s, nowUs) as int;
    if sum > UINT32_MAX then UINT32_MAX else sum
  }

  /** Seconds by which accepting `time` would set the clock back. */
  function Backstep(projected: int, time: int): nat {
    if time < projected then projected - time else 0
  }

  /** In unbounded integers: at most 5 s back, at most a day ahead, and within
      what is left of the budget. */
  predicate Within(projected: int, used: int, time: int) {
    && projected - ROLLBACK_EPSILON_S <= time <= projected + MAX_FORWARD_STEP_S
    && used + Backstep(projected, time) <= ROLLBACK_BUDGET_S
  }

  predicate Allowed(s: Sync, nowUs: u64, time: u32) {
    s.synced ==> Within(Projection(s, nowUs), s.used, time)
  }

  /** Server replies by the header of RFC 5905 section 7.3: synchronised leap
      indicator, server mode, stratum 1 to 15, our nonce as origin timestamp. */
  predicate Genuine(r: Reply) {
    && |r.datagram| >= 48 && r.fromServer
    && r.datagram[0] / 0x40 != 3 && r.datagram[0] % 8 == 4
    && 1 <= r.datagram[1] <= 15
    && r.datagram[24..32] == r.nonce
  }

  /** Whole seconds of the transmit timestamp. */
  function SecondsSince1900(r: Reply): u32
    requires |r.datagram| >= 48
  {
    var b := r.datagram;
    b[40] as int * 0x100_0000 + b[41] as int * 0x1_0000 + b[42] as int * 0x100 + b[43] as int
  }

  predicate InBand(build: u32, time: int) {
    build <= time <= build + SANE_MAX_AGE_S
  }

  predicate PreEpoch(r: Reply) {
    Genuine(r) && SecondsSince1900(r) < NTP_DELTA
  }

  predicate Accepted(build: u32, s: Sync, r: Reply) {
    && Genuine(r) && SecondsSince1900(r) >= NTP_DELTA
    && InBand(build, Time(r)) && Allowed(s, r.checkUs, Time(r))
  }

  function Time(r: Reply): u32
    requires Genuine(r) && SecondsSince1900(r) >= NTP_DELTA
  {
    SecondsSince1900(r) - NTP_DELTA
  }

  /** The sync state after a reply. */
  function Receive(build: u32, s: Sync, r: Reply): Sync {
    if !Accepted(build, s, r) then s
    else
      var charge := if s.synced then Backstep(Projection(s, r.checkUs), Time(r)) else 0;
      Sync(true, Time(r), r.applyUs, s.used + charge)
  }

  /** The epochs of NTP and Unix are as far apart as the calendar says. */
  lemma NtpEpoch(r: Reply)
    requires |r.datagram| >= 48
    ensures NTP_DELTA == 86_400 * Clock.DaysFrom1900(1970)
    ensures SecondsSince1900(r) == BigEndian(r.datagram[40..44])
  {
    Clock.DaysFrom1900ClosedForm(1970);
    BigEndianFour(r.datagram[40..44]);
  }

  datatype NtpState = Idle | Resolving | Waiting | Success | Failed

  /** The poll state after a reply: a refused one changes it only by being dated
      before the Unix epoch. */
  function PollState(build: u32, s: Sync, r: Reply, state: NtpState): NtpState {
    if Accepted(build, s, r) then Success else if PreEpoch(r) then Failed else state
  }

  // ---------------------------------------------------------------------- the module

  class Discipline {
    const build: u32        // BUILD_UNIX_TIME
    const rtc: Clock.Rtc
    var synced: bool
    var lastSyncUnix: u32
    var lastSyncMonotonicUs: u64
    var rollbackBudgetUsedS: u32
    var state: NtpState

    constructor (build: u32, rtc: Clock.Rtc)
      ensures Valid() && Abstract() == UNSYNCED && this.build == build && this.rtc == rtc
    {
      this.build, this.rtc := build, rtc;
      synced, lastSyncUnix, lastSyncMonotonicUs, rollbackBudgetUsedS := false, 0, 0, 0;
      state := Idle;
    }

    predicate Valid()
      reads this
    {
      rollbackBudgetUsedS <= ROLLBACK_BUDGET_S
    }

    function Abstract(): Sync
      reads this
    {
      Sync(synced, lastSyncUnix, lastSyncMonotonicUs, rollbackBudgetUsedS)
    }

    /** `rollback_check`, in saturating and wrapping 32-bit arithmetic. */
    method RollbackCheck(newTime: u32, nowUs: u64) returns (ok: bool)
      requires Valid()
      modifies this`rollbackBudgetUsedS
      ensures Valid()
      ensures ok <==> Allowed(old(Abstract()), nowUs, newTime)
      ensures rollbackBudgetUsedS == old(rollbackBudgetUsedS) +
                if ok && synced then Backstep(Projection(old(Abstract()), nowUs), newTime) else 0
    {
      if !synced {
        return true;
      }
      var elapsedUs: u64 := (nowUs - lastSyncMonotonicUs) % 0x1_0000_0000_0000_0000;
      var elapsedS: u32 := (elapsedUs / MICRO) % 0x1_0000_0000;
      var projected: u32 :=
        if lastSyncUnix > UINT32_MAX - elapsedS then UINT32_MAX else lastSyncUnix + elapsedS;
      var floor: u32 := if projected > ROLLBACK_EPSILON_S then projected - ROLLBACK_EPSILON_S else 0;
      if newTime < floor {
        return false;
      }
      if projected <= UINT32_MAX - MAX_FORWARD_STEP_S && newTime > projected + MAX_FORWARD_STEP_S {
        return false;
      }
      if newTime < projected {
        var backstep: u32 := projected - newTime;
        if backstep > (ROLLBACK_BUDGET_S - rollbackBudgetUsedS) % 0x1_0000_0000 {
          return false;
        }
        rollbackBudgetUsedS := rollbackBudgetUsedS + backstep;
      }
      return true;
    }

    /** `apply_time`. */
    method ApplyTime(unixTime: u32, nowUs: u64)
      modifies this`lastSyncUnix, this`lastSyncMonotonicUs, this`synced, rtc
      ensures synced && lastSyncUnix == unixTime && lastSyncMonotonicUs == nowUs
      ensures rtc.Valid() && rtc.now.Some? && Clock.UnixSeconds(rtc.now.value) == unixTime
    {
      rtc.SetFromUnixTime(unixTime);
      lastSyncUnix := unixTime;
      lastSyncMonotonicUs := nowUs;
      synced := true;
    }

    /** `ntp_recv_cb`: a refused reply changes nothing but, if it is dated before
        the Unix epoch, the poll state. */
    method ReceiveReply(r: Reply)
      requires Valid() && |r.nonce| == 8
      modifies this, rtc
      ensures Valid() && Abstract() == Receive(build, old(Abstract()), r)
      ensures state == PollState(build, old(Abstract()), r, old(state))
      ensures Accepted(build, old(Abstract()), r) ==>
                rtc.Valid() && rtc.now.Some? && Clock.UnixSeconds(rtc.now.value) == Time(r)
      ensures Accepted(build, old(Abstract()), r) ==>
                BigEndian(r.datagram[40..44]) == 86_400 * Clock.DaysFrom1900(1970) + Clock.UnixSeconds(rtc.now.value)
      ensures !Accepted(build, old(Abstract()), r) ==> rtc.now == old(rtc.now)
    {
      if |r.datagram| < 48 {
        return;
      }
      var buf := r.datagram[..48];
      if !r.fromServer {
        return;
      }
      var li := (buf[0] / 0x40) % 4;
      var mode := buf[0] % 8;
      var stratum := buf[1];
      if li == 3 {
        return;
      }
      if mode != 4 {
        return;
      }
      if stratum == 0 || stratum > 15 {
        return;
      }
      assert buf[24..32] == r.datagram[24..32];
      if buf[24..32] != r.nonce {
        return;
      }
      var secondsSince1900: u32 :=
        buf[40] as int * 0x100_0000 + buf[41] as int * 0x1_0000 + buf[42] as int * 0x100 + buf[43] as int;
      if secondsSince1900 < NTP_DELTA {
        state := Failed;
        return;
      }
      var unixTime: u32 := secondsSince1900 - NTP_DELTA;
      if unixTime < build || unixTime - build > SANE_MAX_AGE_S {
        return;
      }
      var ok := RollbackCheck(unixTime, r.checkUs);
      if !ok {
        return;
      }
      ApplyTime(unixTime, r.applyUs);
      state := Success;
      NtpEpoch(r);
    }
  }

  /** The acceptance chain in numbers: the header of section 7.3 of RFC 5905, a time
      from the build up to twenty years of 365 days after it, and once synced at most
      5 s behind, a day ahead and 300 s behind in all, of where the clock should be. */
  lemma AcceptedIff(build: u32, s: Sync, r: Reply)
    ensures Accepted(build, s, r) <==>
              && |r.datagram| >= 48 && r.fromServer && r.datagram[24..32] == r.nonce
              && r.datagram[0] < 0xC0 && r.datagram[0] % 8 == 4 && 1 <= r.datagram[1] < 16
              && var time := BigEndian(r.datagram[40..44]) - 86_400 * Clock.DaysFrom1900(1970);
              && 0 <= time && build <= time <= build + 630_720_000
              && (s.synced ==>
                    var projected := Projection(s, r.checkUs);
                    && projected - 5 <= time <= projected + 86_400
                    && s.used <= 300 && s.used + projected - time <= 300)
  {
    if |r.datagram| >= 48 {
      NtpEpoch(r);
    }
    hide BigEndian, Projection, Clock.DaysFrom1900;
  }

  // ----------------------------------------------------- saturation against the ideal

  /** The check agrees with unbounded integers on every time exactly when the
      projection, without wrap of the elapsed seconds, fits 32 bits. */
  lemma CheckIsIdealIff(s: Sync, nowUs: u64)
    requires s.synced && s.used <= ROLLBACK_BUDGET_S && s.monoUs <= nowUs
    ensures var ideal := s.unix + (nowUs - s.monoUs) / 1_000_000;
            (forall time: u32 :: Allowed(s, nowUs, time) <==> Within(ideal, s.used, time)) <==> ideal <= UINT32_MAX
  {
    var ideal := s.unix + (nowUs - s.monoUs) / MICRO;
    var projected := Projection(s, nowUs);
    if ideal <= UINT32_MAX {
      assert projected == ideal;
    } else {
      // The lowest time that the check lets through lies below the ideal range.
      var slack := Slack(s);
      var lowest: u32 := if projected > slack then projected - slack else 0;
      assert Allowed(s, nowUs, lowest);
      assert !Within(ideal, s.used, lowest);
    }
  }

  // ------------------------------------------------------------------------- runs

  /** What the accepted replies of a run add up to. */
  datatype Ledger = Ledger(syncs: nat, startUnix: int, startUs: int, elapsedS: int, forwardS: int, gapUs: int)

  const EMPTY := Ledger(0, 0, 0, 0, 0, 0)

  function Enter(build: u32, l: Ledger, s: Sync, r: Reply): Ledger {
    if !Accepted(build, s, r) then l
    else if !s.synced then Ledger(0, Time(r), r.applyUs, 0, 0, 0)
    else
      var projected := Projection(s, r.checkUs);
      Ledger(l.syncs + 1, l.startUnix, l.startUs,
             l.elapsedS + ElapsedSeconds(s, r.checkUs),
             l.forwardS + (if Time(r) > projected then Time(r) - projected else 0),
             l.gapUs + (r.applyUs - r.checkUs))
  }

  /** The state after a run of replies from boot. */
  function Run(build: u32, replies: seq<Reply>): Sync {
    if replies == [] then UNSYNCED
    else Receive(build, Run(build, replies[..|replies| - 1]), replies[|replies| - 1])
  }

  function Book(build: u32, replies: seq<Reply>): Ledger {
    if replies == [] then EMPTY
    else
      var before := replies[..|replies| - 1];
      Enter(build, Book(build, before), Run(build, before), replies[|replies| - 1])
  }

  /** In every reachable state a synced time is in the sane band and the budget
      left over is not negative. */
  lemma {:induction false} StateStaysSane(build: u32, replies: seq<Reply>)
    ensures var s := Run(build, replies);
            s.used <= 300 && (s.synced ==> build <= s.unix <= build + 630_720_000)
    decreases |replies|
  {
    if replies != [] {
      StateStaysSane(build, replies[..|replies| - 1]);
    }
  }

  /** No accepted reply was ever measured against a saturated projection: the
      seconds of a transmit timestamp end in 2036, long before the 32-bit ones. */
  lemma AcceptedUnsaturated(build: u32, s: Sync, r: Reply)
    requires s.synced && Accepted(build, s, r)
    ensures Projection(s, r.checkUs) == s.unix + ElapsedSeconds(s, r.checkUs)
  {
  }

  /** From 2036-02-07 on, when the timestamp's seconds start over, every genuine
      reply with the true time reads as one from before 1970 and is refused. */
  lemma EraRefused(build: u32, s: Sync, r: Reply, trueTime: u32)
    requires Genuine(r) && SecondsSince1900(r) == (trueTime + NTP_DELTA) % 0x1_0000_0000
    ensures PreEpoch(r) <==> trueTime >= 0x1_0000_0000 - NTP_DELTA
    ensures trueTime >= 0x1_0000_0000 - NTP_DELTA ==> Receive(build, s, r) == s
  {
  }

  /** Clock time plus budget spent is the first sync's time plus all monotonic
      seconds and forward corrections since: no second is lost unaccounted. */
  lemma {:induction false} Conservation(build: u32, replies: seq<Reply>)
    ensures var (s, l) := (Run(build, replies), Book(build, replies));
            s.synced ==> s.unix + s.used == l.startUnix + l.elapsedS + l.forwardS
    ensures !Run(build, replies).synced ==> Run(build, replies).used == 0
    ensures Book(build, replies).forwardS >= 0
    decreases |replies|
  {
    if replies != [] {
      var before := replies[..|replies| - 1];
      var (s, r) := (Run(build, before), replies[|replies| - 1]);
      Conservation(build, before);
      if s.synced && Accepted(build, s, r) {
        AcceptedUnsaturated(build, s, r);
      }
    }
  }

  /** The monotonic clock never runs backwards over a run. */
  predicate Monotonic(replies: seq<Reply>) {
    && (forall i | 0 <= i < |replies| :: replies[i].checkUs <= replies[i].applyUs)
    && (forall i | 0 < i < |replies| :: replies[i - 1].applyUs <= replies[i].checkUs)
  }

  /** The microseconds since the first sync, less those between check and
      application, exceed the seconds counted by less than one second for each sync. */
  ghost predicate Truncated(s: Sync, l: Ledger) {
    s.synced ==>
      var elapsedUs := s.monoUs - l.startUs - l.gapUs;
      l.startUs <= s.monoUs && MICRO * l.elapsedS <= elapsedUs <= MICRO * l.elapsedS + l.syncs * (MICRO - 1)
  }

  lemma ElapsedIs(s: Sync, us: u64)
    requires s.monoUs <= us < TWO_32 * MICRO
    ensures ElapsedSeconds(s, us) == (us - s.monoUs) / MICRO
  {
  }

  lemma TruncatedStep(build: u32, s: Sync, l: Ledger, r: Reply)
    requires Truncated(s, l) && (s.synced ==> s.monoUs <= r.checkUs) && r.checkUs <= r.applyUs < TWO_32 * MICRO
    ensures Truncated(Receive(build, s, r), Enter(build, l, s, r))
    ensures Receive(build, s, r).synced ==> Receive(build, s, r).monoUs <= r.applyUs
  {
    if s.synced && Accepted(build, s, r) {
      hide Accepted, Receive, Enter;
      ElapsedIs(s, r.checkUs);
      assert (l.syncs + 1) * (MICRO - 1) == l.syncs * (MICRO - 1) + (MICRO - 1);
    }
  }

  /** Whole seconds lose less than one second for each sync. */
  lemma {:induction false} SecondsTruncated(build: u32, replies: seq<Reply>)
    requires Monotonic(replies)
    requires forall i | 0 <= i < |replies| :: replies[i].applyUs < TWO_32 * MICRO
    ensures Truncated(Run(build, replies), Book(build, replies))
    ensures Run(build, replies).synced ==>
              replies != [] && Run(build, replies).monoUs <= replies[|replies| - 1].applyUs
    decreases |replies|
  {
    if replies != [] {
      var before := replies[..|replies| - 1];
      assert Monotonic(before);
      SecondsTruncated(build, before);
      assert before != [] ==> before[|before| - 1] == replies[|replies| - 2];
      TruncatedStep(build, Run(build, before), Book(build, before), replies[|replies| - 1]);
    }
  }

  function Least(a: nat, b: nat): nat { if a < b then a else b }

  /** Each sync charges at most five seconds, and all together at most the budget. */
  lemma {:induction false} ChargedAtMostFive(build: u32, replies: seq<Reply>)
    ensures Run(build, replies).used <= Least(300, 5 * Book(build, replies).syncs)
    decreases |replies|
  {
    if replies != [] {
      var before := replies[..|replies| - 1];
      ChargedAtMostFive(build, before);
      Conservation(build, before);
    }
  }

  /** The monotonic clock runs forward, and the elapsed seconds fit 32 bits. */
  ghost predicate Measured(replies: seq<Reply>) {
    Monotonic(replies) && forall i | 0 <= i < |replies| :: replies[i].applyUs < TWO_32 * MICRO
  }

  /** By how many whole seconds of the monotonic clock, less those that passed
      between check and application, the time of the last sync is behind. */
  function Lag(build: u32, replies: seq<Reply>): int {
    var (s, l) := (Run(build, replies), Book(build, replies));
    (s.monoUs - l.startUs - l.gapUs) / MICRO - (s.unix - l.startUnix)
  }

  /** Five seconds charged to the budget for each sync while it lasts, and a
      fraction just short of a second for each sync, in whole seconds. */
  function MaxLag(syncs: nat): int {
    5 * Least(syncs, 60) + syncs - (syncs + 999_999) / 1_000_000
  }

  /** No run is further behind than that, however many syncs it has. */
  lemma ClockLowerBound(build: u32, replies: seq<Reply>)
    requires Measured(replies) && Run(build, replies).synced
    ensures Lag(build, replies) <= MaxLag(Book(build, replies).syncs)
    ensures var (s, l) := (Run(build, replies), Book(build, replies));
            s.unix >= l.startUnix + (s.monoUs - l.startUs) / MICRO - MaxLag(l.syncs) - (l.gapUs + MICRO - 1) / MICRO
  {
    var (s, l) := (Run(build, replies), Book(build, replies));
    Conservation(build, replies);
    SecondsTruncated(build, replies);
    ChargedAtMostFive(build, replies);
    FloorBound(s.monoUs - l.startUs - l.gapUs, l.elapsedS, l.syncs);
    GapBound(s.monoUs - l.startUs, l.gapUs);
  }

  lemma FloorBound(us: int, seconds: int, n: nat)
    requires us <= MICRO * seconds + n * (MICRO - 1)
    ensures us / MICRO <= seconds + n - (n + MICRO - 1) / MICRO
  {
    var q := (n + MICRO - 1) / MICRO;
    assert us < MICRO * (seconds + n - q + 1);
  }

  lemma GapBound(us: int, gap: int)
    ensures us / MICRO <= (us - gap) / MICRO + (gap + MICRO - 1) / MICRO
  {
    var (a, b) := ((us - gap) / MICRO, (gap + MICRO - 1) / MICRO);
    assert us < MICRO * (a + b + 1);
  }

  lemma MaxLagGrows(m: nat, n: nat)
    requires m <= n
    ensures MaxLag(m) <= MaxLag(n)
  {
    var (a, b) := ((m + MICRO - 1) / MICRO, (n + MICRO - 1) / MICRO);
    assert b <= a + (n - m);
  }

  // -------------------------------------------------------------- the exact bound

  /** The four bytes of a transmit timestamp, most significant first. */
  function Bytes4(w: u32): bytes {
    [w / 0x100_0000, w / 0x1_0000 % 0x100, w / 0x100 % 0x100, w % 0x100]
  }

  /** A well-formed server reply with these seconds in its transmit timestamp. */
  function ReplySaying(seconds: u32, us: u64): Reply {
    var zeros: bytes := seq(8, _ => 0);
    var header: bytes := [4, 1] + seq(38, _ => 0);
    Reply(header + Bytes4(seconds) + [0, 0, 0, 0], true, zeros, us, us)
  }

  lemma ReplySays(seconds: u32, us: u64)
    ensures var r := ReplySaying(seconds, us);
            Genuine(r) && SecondsSince1900(r) == seconds
  {
    var r := ReplySaying(seconds, us);
    assert r.datagram[24..32] == r.nonce;
    assert seconds / 0x1_0000 == seconds / 0x100 / 0x100 && seconds / 0x100_0000 == seconds / 0x1_0000 / 0x100;
  }

  /** A well-formed server reply that says `time`. */
  function ReplyAt(time: u32, us: u64): Reply
    requires time + NTP_DELTA < 0x1_0000_0000
  {
    ReplySaying(time + NTP_DELTA, us)
  }

  /** Such a reply is accepted whenever the band and the check allow its time. */
  lemma ReplyArrives(build: u32, s: Sync, time: u32, us: u64)
    requires time + NTP_DELTA < TWO_32 && InBand(build, time) && Allowed(s, us, time)
    ensures var r := ReplyAt(time, us);
            && Accepted(build, s, r) && Time(r) == time && r.checkUs == r.applyUs == us
            && Receive(build, s, r) ==
                 Sync(true, time, us, s.used + if s.synced then Backstep(Projection(s, us), time) else 0)
  {
    ReplySays(time + NTP_DELTA, us);
    hide Genuine, SecondsSince1900, Allowed, Projection;
  }

  /** Replies one microsecond short of `seconds + 1` apart, of which the first
      `charged` claim five seconds less than `seconds` have passed. */
  datatype Pace = Pace(seconds: nat, charged: nat)

  const LEAKING := Pace(1, 0)   // nothing is ever charged
  const FALLING := Pace(6, 60)  // the budget is used up, five seconds at a time

  function TimeAt(build: u32, p: Pace, n: nat): int {
    build + p.seconds * n - ROLLBACK_EPSILON_S * Least(n, p.charged)
  }

  function MicrosAt(p: Pace, n: nat): int {
    (MICRO * p.seconds + MICRO - 1) * n
  }

  /** `n` later replies fit the sane band and the timestamp. */
  predicate Room(build: u32, p: Pace, n: nat) {
    && (p == LEAKING || p == FALLING)
    && build + p.seconds * n + NTP_DELTA < TWO_32
    && p.seconds * n <= SANE_MAX_AGE_S
  }

  lemma RoomBefore(build: u32, p: Pace, n: nat)
    requires Room(build, p, n)
    ensures build <= TimeAt(build, p, n) <= build + p.seconds * n && TimeAt(build, p, n) + NTP_DELTA < TWO_32
    ensures 0 <= MicrosAt(p, n) < TWO_32 * MICRO
    ensures n > 0 ==> Room(build, p, n - 1) && MicrosAt(p, n) == MicrosAt(p, n - 1) + MICRO * p.seconds + MICRO - 1
  {
  }

  function Drip(build: u32, p: Pace, n: nat): (replies: seq<Reply>)
    requires Room(build, p, n)
    ensures |replies| == n + 1
  {
    RoomBefore(build, p, n);
    (if n == 0 then [] else Drip(build, p, n - 1)) + [ReplyAt(TimeAt(build, p, n), MicrosAt(p, n))]
  }

  function Dripped(build: u32, p: Pace, n: nat): Sync
    requires Room(build, p, n)
  {
    RoomBefore(build, p, n);
    Sync(true, TimeAt(build, p, n), MicrosAt(p, n), ROLLBACK_EPSILON_S * Least(n, p.charged))
  }

  lemma DripStep(build: u32, p: Pace, n: nat)
    requires n > 0 && Room(build, p, n)
    ensures Room(build, p, n - 1)
    ensures var (s, r) := (Dripped(build, p, n - 1), ReplyAt(TimeAt(build, p, n), MicrosAt(p, n)));
            Accepted(build, s, r) && Receive(build, s, r) == Dripped(build, p, n)
            && r.applyUs == r.checkUs == MicrosAt(p, n)
  {
    hide ReplyAt, Accepted, Receive, MicrosAt, Time;
    RoomBefore(build, p, n);
    RoomBefore(build, p, n - 1);
    var (s, us) := (Dripped(build, p, n - 1), MicrosAt(p, n));
    assert ElapsedSeconds(s, us) == p.seconds;
    assert Projection(s, us) == TimeAt(build, p, n) + if n <= p.charged then ROLLBACK_EPSILON_S else 0;
    ReplyArrives(build, s, TimeAt(build, p, n), us);
  }

  /** Everything about one more reply, as seen by state and ledger. */
  lemma DripRuns(build: u32, p: Pace, n: nat)
    requires n > 0 && Room(build, p, n) && Room(build, p, n - 1)
    requires Run(build, Drip(build, p, n - 1)) == Dripped(build, p, n - 1)
    ensures Run(build, Drip(build, p, n)) == Dripped(build, p, n)
    ensures var (l, l') := (Book(build, Drip(build, p, n - 1)), Book(build, Drip(build, p, n)));
            l'.syncs == l.syncs + 1 && l'.startUnix == l.startUnix && l'.startUs == l.startUs && l'.gapUs == l.gapUs
  {
    DripStep(build, p, n);
    DripEnds(build, p, n);
    hide ReplyAt, Accepted, Receive, Room, TimeAt, MicrosAt, Drip, Projection, ElapsedSeconds;
    var drip := Drip(build, p, n);
    assert drip[..|drip| - 1] == Drip(build, p, n - 1);
  }

  lemma {:induction false} DripDrifts(build: u32, p: Pace, n: nat)
    requires Room(build, p, n)
    ensures var (s, l) := (Run(build, Drip(build, p, n)), Book(build, Drip(build, p, n)));
            s == Dripped(build, p, n) && l.syncs == n && l.startUnix == build && l.startUs == 0 && l.gapUs == 0
    decreases n
  {
    hide ReplyAt, Accepted, Receive, Room, TimeAt, MicrosAt;
    RoomBefore(build, p, n);
    if n == 0 {
      DripEnds(build, p, n);
      DripStarts(build, p);
    } else {
      hide Run, Book, Drip, Dripped;
      DripDrifts(build, p, n - 1);
      DripRuns(build, p, n);
    }
  }

  lemma DripStarts(build: u32, p: Pace)
    requires Room(build, p, 0)
    ensures var r := ReplyAt(TimeAt(build, p, 0), MicrosAt(p, 0));
            && Accepted(build, UNSYNCED, r) && Receive(build, UNSYNCED, r) == Dripped(build, p, 0)
            && Time(r) == build && r.applyUs == 0
  {
    hide ReplyAt, Accepted, Receive, Time;
    ReplyArrives(build, UNSYNCED, build, 0);
  }

  /** A longer drip is a shorter one and one more reply. */
  lemma DripEnds(build: u32, p: Pace, n: nat)
    requires Room(build, p, n)
    ensures var (drip, r) := (Drip(build, p, n), ReplyAt(TimeAt(build, p, n), MicrosAt(p, n)));
            drip[..n] == (if n == 0 then [] else Drip(build, p, n - 1)) && drip[n] == r
  {
  }

  lemma {:induction false} DripMeasured(build: u32, p: Pace, n: nat)
    requires Room(build, p, n)
    ensures Measured(Drip(build, p, n)) && Drip(build, p, n)[n].applyUs == MicrosAt(p, n)
    decreases n
  {
    hide ReplyAt, Room, TimeAt, MicrosAt;
    RoomBefore(build, p, n);
    DripEnds(build, p, n);
    ReplyTimes(TimeAt(build, p, n), MicrosAt(p, n));
    if n > 0 {
      DripMeasured(build, p, n - 1);
      MeasuredMore(Drip(build, p, n - 1), Drip(build, p, n)[n]);
      assert Drip(build, p, n) == Drip(build, p, n - 1) + [Drip(build, p, n)[n]];
    }
  }

  lemma ReplyTimes(time: u32, us: u64)
    requires time + NTP_DELTA < TWO_32
    ensures ReplyAt(time, us).checkUs == ReplyAt(time, us).applyUs == us
  {
  }

  lemma MeasuredMore(replies: seq<Reply>, r: Reply)
    requires Measured(replies) && r.checkUs <= r.applyUs < TWO_32 * MICRO
    requires replies != [] ==> replies[|replies| - 1].applyUs <= r.checkUs
    ensures Measured(replies + [r])
  {
  }

  /** The budget does not bound how far the clock falls behind: whole seconds are
      charged, fractions are not. */
  lemma BudgetLeaks(build: u32)
    requires build + 302 + NTP_DELTA < 0x1_0000_0000
    ensures exists replies :: var (s, l) := (Run(build, replies), Book(build, replies));
              && s.synced && s.used == 0 && l.gapUs == 0
              && s.unix < l.startUnix + (s.monoUs - l.startUs) / 1_000_000 - 300
  {
    DripDrifts(build, LEAKING, 302);
    var replies := Drip(build, LEAKING, 302);
    assert Run(build, replies).unix == build + 302;
  }

  /** Every run of at most `syncs` later syncs stays within `bound` seconds. */
  ghost predicate StaysWithin(build: u32, syncs: nat, bound: int) {
    forall replies | Measured(replies) && Run(build, replies).synced && Book(build, replies).syncs <= syncs ::
      Lag(build, replies) <= bound
  }

  lemma FallingLags(build: u32, n: nat)
    requires Room(build, FALLING, n)
    ensures Lag(build, Drip(build, FALLING, n)) == MaxLag(n)
  {
    DripDrifts(build, FALLING, n);
    var q := (n + MICRO - 1) / MICRO;
    assert MicrosAt(FALLING, n) == MICRO * (7 * n) - n;
    assert MICRO * (7 * n - q) <= MicrosAt(FALLING, n) < MICRO * (7 * n - q + 1);
  }

  /** The bound is exact for every number of syncs. */
  lemma LagExactly(build: u32, syncs: nat, bound: int)
    requires Room(build, FALLING, syncs)
    ensures StaysWithin(build, syncs, bound) <==> bound >= MaxLag(syncs)
  {
    hide Measured, Run, Book, Lag, MaxLag;
    if bound >= MaxLag(syncs) {
      forall replies | Measured(replies) && Run(build, replies).synced && Book(build, replies).syncs <= syncs
        ensures Lag(build, replies) <= bound
      {
        ClockLowerBound(build, replies);
        MaxLagGrows(Book(build, replies).syncs, syncs);
      }
    } else {
      DripDrifts(build, FALLING, syncs);
      DripMeasured(build, FALLING, syncs);
      FallingLags(build, syncs);
    }
  }

  lemma FewerSyncs(build: u32, m: nat, n: nat, bound: int)
    requires m <= n
    ensures StaysWithin(build, n, bound) ==> StaysWithin(build, m, bound)
  {
  }

  /** The 300 s of the budget bound how far the clock falls behind exactly as long
      as there are at most fifty syncs after the first. */
  lemma BudgetHoldsIff(build: u32, syncs: nat)
    requires Room(build, FALLING, 51)
    ensures StaysWithin(build, syncs, 300) <==> syncs <= 50
  {
    if syncs <= 50 {
      LagExactly(build, syncs, ROLLBACK_BUDGET_S);
      MaxLagGrows(syncs, 50);
    } else {
      FewerSyncs(build, 51, syncs, ROLLBACK_BUDGET_S);
      LagExactly(build, 51, ROLLBACK_BUDGET_S);
    }
  }

  // ------------------------------------------------------------------- OTP windows

  /** An allowed correction backwards moves the password step by at most one, and
      moves it exactly if it goes back further than the step has run. */
  lemma StepMovesAtMostOne(s: Sync, nowUs: u64, time: u32)
    requires s.synced && Allowed(s, nowUs, time) && time <= Projection(s, nowUs)
    ensures 0 <= Projection(s, nowUs) / 30 - time / 30 <= 1
    ensures time / 30 != Projection(s, nowUs) / 30 <==> Projection(s, nowUs) % 30 < Projection(s, nowUs) - time
  {
  }

  /** A run of two replies, the second of which takes back `back` seconds and with
      them the password step, for every correction that the check allows. */
  lemma StepCanMove(build: u32, back: nat) returns (first: Reply, second: Reply)
    requires 1 <= back <= 5 && build + 60 + NTP_DELTA < TWO_32
    ensures var s := Run(build, [first]);
            && s.synced && Accepted(build, s, second)
            && Time(second) == Projection(s, second.checkUs) - back
            && Time(second) / 30 != Projection(s, second.checkUs) / 30
            && Run(build, [first, second]).unix == Time(second)
  {
    hide ReplyAt, Accepted, Receive, Time;
    var start := (build / 30 + 2) * 30;
    first, second := ReplyAt(start, 0), ReplyAt(start - back, 0);
    ReplyArrives(build, UNSYNCED, start, 0);
    var s := Sync(true, start, 0, 0);
    ReplyArrives(build, s, start - back, 0);
    assert [first][..0] == [] && [first, second][..1] == [first];
    assert Run(build, [first]) == s;
    StepMovesAtMostOne(s, 0, start - back);
  }

  // ------------------------------------------------------------ locked out of the truth

  /** The Unix second at monotonic time `us`, for a device started at that many
      microseconds after 1970. */
  function TrueTime(base: int, us: u64): int { (base + us) / MICRO }

  /** By how many seconds the time of the last sync is ahead of the truth. */
  function Ahead(s: Sync, base: int): int { s.unix - TrueTime(base, s.monoUs) }

  /** Seconds by which a reply may still set the clock back. */
  function Slack(s: Sync): nat
    requires s.used <= ROLLBACK_BUDGET_S
  {
    Least(ROLLBACK_EPSILON_S, ROLLBACK_BUDGET_S - s.used)
  }

  /** How far the truth lies behind the projection: as far as at the last sync, or one
      second less when the fraction of the present second is the smaller one. */
  lemma TruthBehind(s: Sync, base: int, us: u64)
    requires s.monoUs <= us
    ensures var behind := s.unix + (us - s.monoUs) / MICRO - TrueTime(base, us);
            behind == Ahead(s, base) - if (base + us) % MICRO < (base + s.monoUs) % MICRO then 1 else 0
  {
    var (q, r) := ((base + us) / MICRO, (base + us) % MICRO);
    var (a, b) := ((base + s.monoUs) / MICRO, (base + s.monoUs) % MICRO);
    assert us - s.monoUs == MICRO * (q - a) + (r - b);
    assert (us - s.monoUs) / MICRO == q - a - if r < b then 1 else 0;
  }

  /** From some moment on the check can no longer allow the true time. */
  predicate LockedOut(s: Sync, base: int)
    requires s.used <= ROLLBACK_BUDGET_S
  {
    || Ahead(s, base) - (if (base + s.monoUs) % MICRO > 0 then 1 else 0) > Slack(s)
    || Ahead(s, base) < -MAX_FORWARD_STEP_S
  }

  /** Moments at which neither 32-bit seconds nor the projection have run out. */
  predicate Countable(s: Sync, base: int, us: u64) {
    && s.monoUs <= us && (us - s.monoUs) / MICRO < TWO_32
    && 0 <= TrueTime(base, us) < TWO_32 && s.unix + (us - s.monoUs) / MICRO < TWO_32
  }

  /** The true time is refused at every moment from the last sync on if and only if
      the clock is further ahead of it than can be taken back, or more than a day behind. */
  lemma LockedOutIff(s: Sync, base: int)
    requires s.synced && s.used <= ROLLBACK_BUDGET_S
    requires Countable(s, base, s.monoUs) && s.monoUs + MICRO < TWO_64 && Countable(s, base, s.monoUs + MICRO)
    ensures LockedOut(s, base) <==>
            forall us: u64 | Countable(s, base, us) :: !Allowed(s, us, TrueTime(base, us))
  {
    if LockedOut(s, base) {
      forall us: u64 | Countable(s, base, us) ensures !Allowed(s, us, TrueTime(base, us)) {
        TruthRefused(s, base, us);
      }
    } else {
      var us := TruthAllowed(s, base);
    }
  }

  lemma TruthRefused(s: Sync, base: int, us: u64)
    requires s.synced && s.used <= ROLLBACK_BUDGET_S && LockedOut(s, base) && Countable(s, base, us)
    ensures !Allowed(s, us, TrueTime(base, us))
  {
    TruthBehind(s, base, us);
    Unsaturated(s, us);
  }

  lemma Unsaturated(s: Sync, us: u64)
    requires s.monoUs <= us && s.unix + (us - s.monoUs) / MICRO < TWO_32
    ensures Projection(s, us) == s.unix + (us - s.monoUs) / MICRO
  {
  }

  lemma TruthAllowed(s: Sync, base: int) returns (us: u64)
    requires s.synced && s.used <= ROLLBACK_BUDGET_S && !LockedOut(s, base)
    requires Countable(s, base, s.monoUs) && s.monoUs + MICRO < TWO_64 && Countable(s, base, s.monoUs + MICRO)
    ensures Countable(s, base, us) && Allowed(s, us, TrueTime(base, us))
  {
    us := s.monoUs;
    if Ahead(s, base) > Slack(s) {
      us := s.monoUs + (MICRO - (base + s.monoUs) % MICRO);
      NextSecond(base + s.monoUs);
    }
    TruthBehind(s, base, us);
    Unsaturated(s, us);
  }

  lemma NextSecond(us: int)
    ensures var next := us + (MICRO - us % MICRO);
            next % MICRO == 0 && next / MICRO == us / MICRO + 1 == (us + MICRO) / MICRO
  {
    var q := us / MICRO;
    assert us + (MICRO - us % MICRO) == MICRO * (q + 1);
  }

  /** The state after more replies. */
  function RunFrom(build: u32, s: Sync, replies: seq<Reply>): Sync {
    if replies == [] then s
    else Receive(build, RunFrom(build, s, replies[..|replies| - 1]), replies[|replies| - 1])
  }

  /** Once locked out, no reply with the true time ever changes the sync state again. */
  lemma {:induction false} LockedOutForGood(build: u32, s: Sync, base: int, replies: seq<Reply>)
    requires s.synced && s.used <= ROLLBACK_BUDGET_S && LockedOut(s, base)
    requires forall r | r in replies ::
               Countable(s, base, r.checkUs)
               && (Genuine(r) ==> SecondsSince1900(r) == (TrueTime(base, r.checkUs) + NTP_DELTA) % TWO_32)
    ensures RunFrom(build, s, replies) == s
    decreases |replies|
  {
    if replies != [] {
      var r := replies[|replies| - 1];
      LockedOutForGood(build, s, base, replies[..|replies| - 1]);
      assert r in replies;
      TruthRefused(s, base, r.checkUs);
      TruthNotAccepted(build, s, base, r);
    }
  }

  lemma TruthNotAccepted(build: u32, s: Sync, base: int, r: Reply)
    requires 0 <= TrueTime(base, r.checkUs) < TWO_32 && !Allowed(s, r.checkUs, TrueTime(base, r.checkUs))
    requires Genuine(r) ==> SecondsSince1900(r) == (TrueTime(base, r.checkUs) + NTP_DELTA) % TWO_32
    ensures !Accepted(build, s, r)
  {
    hide Allowed, TrueTime;
    if Genuine(r) {
      EraRefused(build, s, r, TrueTime(base, r.checkUs));
    }
  }

  /** A true reply and one that is ahead of the truth, at most a day, are both
      accepted, and then the truth is shut out: if the device was started on a whole
      second, exactly by a step of more than 5 s, and otherwise of more than 6 s. */
  lemma ForwardStepLocksOut(build: u32, phase: nat, jump: nat) returns (first: Reply, second: Reply)
    requires phase < 1_000_000 && jump <= 86_400 && build + jump + NTP_DELTA < TWO_32
    ensures var base := 1_000_000 * build + phase;
            var (s, t) := (Run(build, [first]), Run(build, [first, second]));
            && Accepted(build, UNSYNCED, first) && Time(first) == TrueTime(base, first.checkUs)
            && Accepted(build, s, second) && Time(second) == TrueTime(base, second.checkUs) + jump
            && t.synced && t.used == 0
            && (LockedOut(t, base) <==> jump > if phase > 0 then 6 else 5)
  {
    hide ReplyAt, Accepted, Receive, Time;
    first, second := ReplyAt(build, 0), ReplyAt(build + jump, 0);
    ReplyArrives(build, UNSYNCED, build, 0);
    var s := Sync(true, build, 0, 0);
    ReplyArrives(build, s, build + jump, 0);
    assert [first][..0] == [] && [first, second][..1] == [first];
    assert Run(build, [first]) == s;
    assert Run(build, [first, second]) == Sync(true, build + jump, 0, 0);
    assert (MICRO * build + phase) / MICRO == build && (MICRO * build + phase) % MICRO == phase;
  }

  // ---------------------------------------------------------------- refused replies

  /** A refused reply moves the poll state exactly if it is dated before 1970 and
      the poll has not failed yet. */
  lemma RefusalMovesPollIff(build: u32, s: Sync, r: Reply, state: NtpState)
    requires !Accepted(build, s, r)
    ensures PollState(build, s, r, state) != state <==> PreEpoch(r) && state != Failed
  {
  }

  /** A genuine reply with zero in its transmit timestamp is refused, and fails a
      poll that was waiting for it. */
  lemma ZeroTimestampFails(build: u32, s: Sync, us: u64)
    ensures var r := ReplySaying(0, us);
            && Genuine(r) && PreEpoch(r)
            && Receive(build, s, r) == s && PollState(build, s, r, Waiting) == Failed
  {
    ReplySays(0, us);
  }
}
