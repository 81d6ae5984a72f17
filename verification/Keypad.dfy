/** The keypad debouncer: which keys `keypad_get_key` reports over a run of scans. */
module Keypad {
  const DEBOUNCE_US := 20_000
  const NO_KEY := '\0'

  /** One scan of the matrix: the key found, or none, and the clock in microseconds. */
  datatype Reading = Reading(raw: char, at: nat)

  /** The static variables of `keypad_get_key`. */
  datatype Debounce = Debounce(lastRaw: char, lastStable: char, stableAt: nat)

  const BOOT := Debounce(NO_KEY, NO_KEY, 0)

  /** The variables and the returned key after one scan. */
  function Scan(d: Debounce, r: Reading): (Debounce, char) {
    if r.raw != d.lastRaw then (d.(lastRaw := r.raw, stableAt := r.at + DEBOUNCE_US), NO_KEY)
    else if r.at < d.stableAt then (d, NO_KEY)
    else (d.(lastStable := r.raw), if r.raw == d.lastStable then NO_KEY else r.raw)
  }

  class Keypad {
    var lastRaw: char
    var lastStable: char
    var stableAt: nat

    function State(): Debounce reads this { Debounce(lastRaw, lastStable, stableAt) }

    constructor ()
      ensures State() == BOOT
    {
      lastRaw, lastStable, stableAt := NO_KEY, NO_KEY, 0;
    }

    /** `keypad_get_key`, given what the scan found and the clock after it. */
    method GetKey(raw: char, now: nat) returns (key: char)
      modifies this
      ensures (State(), key) == Scan(old(State()), Reading(raw, now))
    {
      if raw != lastRaw {
        lastRaw := raw;
        stableAt := now + DEBOUNCE_US;
        return NO_KEY;
      }
      if now < stableAt {
        return NO_KEY;
      }
      if raw != NO_KEY && raw != lastStable {
        lastStable := raw;
        return raw;
      }
      if raw == NO_KEY {
        lastStable := NO_KEY;
      }
      return NO_KEY;
    }
  }

  // ---------------------------------------------------------------------- over a run

  function After(scans: seq<Reading>): Debounce {
    if scans == [] then BOOT else Scan(After(scans[..|scans| - 1]), scans[|scans| - 1]).0
  }

  /** The key reported by scan `i`. */
  function Emits(scans: seq<Reading>, i: nat): char
    requires i < |scans|
  {
    Scan(After(scans[..i]), scans[i]).1
  }

  function RawBefore(scans: seq<Reading>, i: nat): char
    requires i <= |scans|
  {
    if i == 0 then NO_KEY else scans[i - 1].raw
  }

  /** The reading changed at scan `j` and has been the same up to scan `i`. */
  ghost predicate Held(scans: seq<Reading>, j: nat, i: nat)
    requires i < |scans|
  {
    && j <= i && RawBefore(scans, j) != scans[j].raw
    && forall m | j <= m <= i :: scans[m].raw == scans[i].raw
  }

  /** Scan `i` reads a level that has lasted for the debounce time, or nothing was
      ever pressed. */
  ghost predicate Settled(scans: seq<Reading>, i: nat)
    requires i < |scans|
  {
    || (exists j: nat :: j < i && Held(scans, j, i) && scans[i].at >= scans[j].at + 20_000)
    || (forall m | 0 <= m <= i :: scans[m].raw == NO_KEY)
  }

  /** The debounced level after the first `n` scans: the last settled reading. */
  ghost function Level(scans: seq<Reading>, n: nat): char
    requires n <= |scans|
  {
    if n == 0 then NO_KEY
    else if Settled(scans, n - 1) then scans[n - 1].raw
    else Level(scans, n - 1)
  }

  /** The variables after `n` scans in terms of the scans alone. */
  ghost predicate Tracks(scans: seq<Reading>, n: nat, d: Debounce)
    requires n <= |scans|
  {
    && d.lastRaw == RawBefore(scans, n)
    && d.lastStable == Level(scans, n)
    && ((d.stableAt == 0 && forall m | 0 <= m < n :: scans[m].raw == NO_KEY)
        || exists j: nat :: j < n && Held(scans, j, n - 1) && d.stableAt == scans[j].at + 20_000)
  }

  lemma Changed(scans: seq<Reading>, n: nat)
    requires n < |scans| && scans[n].raw != RawBefore(scans, n)
    ensures Held(scans, n, n) && !Settled(scans, n)
  {
  }

  /** A level has one beginning, so it has settled once its own 20 ms are over. */
  lemma Unchanged(scans: seq<Reading>, j: nat, n: nat)
    requires j < n < |scans| && Held(scans, j, n - 1) && scans[n].raw == scans[n - 1].raw
    ensures Held(scans, j, n)
    ensures Settled(scans, n) <==> scans[n].at >= scans[j].at + 20_000
  {
    assert scans[j].raw != NO_KEY || (j > 0 && scans[j - 1].raw != NO_KEY);
    if j': nat :| j' < n && Held(scans, j', n) && scans[n].at >= scans[j'].at + 20_000 {
      assert j' == j;
    }
  }

  lemma Idle(scans: seq<Reading>, n: nat)
    requires n < |scans| && forall m | 0 <= m <= n :: scans[m].raw == NO_KEY
    ensures Settled(scans, n)
  {
  }

  /** A key is reported exactly when the debounced level becomes that key. */
  lemma TracksNext(scans: seq<Reading>, n: nat, d: Debounce)
    requires n < |scans| && Tracks(scans, n, d)
    ensures Tracks(scans, n + 1, Scan(d, scans[n]).0)
    ensures Scan(d, scans[n]).1 ==
              if Settled(scans, n) && scans[n].raw != Level(scans, n) then scans[n].raw else NO_KEY
  {
    hide Held, Settled;
    if scans[n].raw != RawBefore(scans, n) {
      Changed(scans, n);
    } else if j: nat :| j < n && Held(scans, j, n - 1) && d.stableAt == scans[j].at + 20_000 {
      Unchanged(scans, j, n);
    } else {
      Idle(scans, n);
    }
  }

  lemma {:induction false} TracksAll(scans: seq<Reading>, n: nat)
    requires n <= |scans|
    ensures Tracks(scans, n, After(scans[..n]))
  {
    if n > 0 {
      TracksAll(scans, n - 1);
      assert scans[..n][..n - 1] == scans[..n - 1];
      TracksNext(scans, n - 1, After(scans[..n - 1]));
    }
  }

  // -------------------------------------------------------------------------- results

  /** A scan reports a key exactly when its reading has settled and differs from
      the debounced level before it. */
  lemma EmitsIff(scans: seq<Reading>, i: nat)
    requires i < |scans|
    ensures Emits(scans, i) ==
              if Settled(scans, i) && scans[i].raw != Level(scans, i) then scans[i].raw else NO_KEY
  {
    TracksAll(scans, i);
    TracksNext(scans, i, After(scans[..i]));
  }

  /** A reported key was read by every scan since the last change, and that change
      is at least 20 ms old. */
  lemma EmittedWasHeld(scans: seq<Reading>, i: nat) returns (j: nat)
    requires i < |scans| && Emits(scans, i) != NO_KEY
    ensures j < i && Held(scans, j, i) && Emits(scans, i) == scans[i].raw
    ensures scans[i].at >= scans[j].at + 20_000
  {
    EmitsIff(scans, i);
    assert scans[i].raw != NO_KEY;
    j :| j < i && Held(scans, j, i) && scans[i].at >= scans[j].at + 20_000;
  }

  /** Without another settled reading the level stays. */
  lemma {:induction false} LevelStays(scans: seq<Reading>, i: nat, n: nat)
    requires i < n <= |scans| && Settled(scans, i)
    requires forall m | i < m < n && Settled(scans, m) :: scans[m].raw == scans[i].raw
    ensures Level(scans, n) == scans[i].raw
    decreases n
  {
    hide Settled;
    if n > i + 1 {
      LevelStays(scans, i, n - 1);
    }
  }

  /** Between two reports of the same key there is a debounced release, or a report
      of another key. */
  lemma NoRepeat(scans: seq<Reading>, i: nat, k: nat) returns (m: nat)
    requires i < k < |scans| && Emits(scans, i) == Emits(scans, k) != NO_KEY
    ensures i < m < k
    ensures Settled(scans, m)
    ensures scans[m].raw == NO_KEY || (Emits(scans, m) == scans[m].raw != Emits(scans, i))
  {
    hide Settled, Emits;
    EmitsIff(scans, i);
    EmitsIff(scans, k);
    if forall m | i < m < k && Settled(scans, m) :: scans[m].raw == scans[i].raw {
      LevelStays(scans, i, k);
    }
    m := FirstOther(scans, i, k);
    LevelStays(scans, i, m);
    EmitsIff(scans, m);
  }

  lemma FirstOther(scans: seq<Reading>, i: nat, k: nat) returns (m: nat)
    requires i < k <= |scans|
    requires exists m | i < m < k :: Settled(scans, m) && scans[m].raw != scans[i].raw
    ensures i < m < k && Settled(scans, m) && scans[m].raw != scans[i].raw
    ensures forall m' | i < m' < m && Settled(scans, m') :: scans[m'].raw == scans[i].raw
  {
    hide Settled;
    m := i + 1;
    while !(Settled(scans, m) && scans[m].raw != scans[i].raw)
      invariant i < m < k
      invariant forall m' | i < m' < m && Settled(scans, m') :: scans[m'].raw == scans[i].raw
      decreases k - m
    {
      m := m + 1;
    }
  }

  // ------------------------------------------------------------------------ all keys

  /** The keys reported over a run of scans. */
  function Emitted(scans: seq<Reading>): seq<char> {
    if scans == [] then []
    else
      var last := |scans| - 1;
      Emitted(scans[..last]) + if Emits(scans, last) == NO_KEY then [] else [Emits(scans, last)]
  }

  lemma EmitsBefore(scans: seq<Reading>, i: nat, n: nat)
    requires i < n <= |scans|
    ensures Emits(scans[..n], i) == Emits(scans, i)
  {
    assert scans[..n][..i] == scans[..i];
  }

  /** The `m`th key comes from one scan, after those of the keys before it. */
  lemma {:induction false} KeyMoment(scans: seq<Reading>, m: nat) returns (i: nat)
    requires m < |Emitted(scans)|
    ensures i < |scans| && Emits(scans, i) == Emitted(scans)[m] != NO_KEY
    ensures Emitted(scans[..i]) == Emitted(scans)[..m]
    ensures Emitted(scans[..i + 1]) == Emitted(scans)[..m + 1]
    decreases |scans|
  {
    hide Emits;
    var last := |scans| - 1;
    var before := scans[..last];
    if m < |Emitted(before)| {
      i := KeyMoment(before, m);
      EmitsBefore(scans, i, last);
      assert before[..i] == scans[..i] && before[..i + 1] == scans[..i + 1];
    } else {
      i := last;
      assert scans[..last + 1] == scans;
    }
  }
}
