/** The weekly selection tracker kept in the session state: a count of selections per
    volunteer name in the current seven-day window, and the start of that window. */
module Selection {
  import opened Volunteers

  /** Time is an integer number of microseconds, the resolution of `datetime`. */
  const MICROS_PER_DAY: int := 86_400_000_000

  /** The counts are cleared once this many whole days have passed. */
  const RESET_DAYS: int := 7

  /** A volunteer selected this many times in the window is no longer offered. */
  const CAP: nat := 2

  /** `selections.get(name, 0)`. */
  function Count(sel: map<string, nat>, name: string): nat
  {
    if name in sel then sel[name] else 0
  }

  /** The availability test of the list comprehension `available_names`. */
  predicate IsAvailable(sel: map<string, nat>, name: string)
  {
    Count(sel, name) < CAP
  }

  /** `(now - last_reset).days >= 7`; `timedelta.days` is the floor of the elapsed time in
      days, and Dafny's `/` with a positive divisor is that floor. */
  predicate WeekElapsed(lastReset: int, now: int)
    ensures WeekElapsed(lastReset, now) ==> now > lastReset
  {
    (now - lastReset) / MICROS_PER_DAY >= RESET_DAYS
  }

  /** The reset fires exactly when at least seven full days have elapsed; a clock that
      went backwards never fires it. */
  lemma WeekElapsedIff(lastReset: int, now: int)
    ensures WeekElapsed(lastReset, now) <==> now - lastReset >= RESET_DAYS * MICROS_PER_DAY
  {
    var d := now - lastReset;
    var q, r := d / MICROS_PER_DAY, d % MICROS_PER_DAY;
    assert d == q * MICROS_PER_DAY + r && 0 <= r < MICROS_PER_DAY;
    if q >= RESET_DAYS {
      assert q * MICROS_PER_DAY >= RESET_DAYS * MICROS_PER_DAY;
    } else {
      assert q * MICROS_PER_DAY <= (RESET_DAYS - 1) * MICROS_PER_DAY;
    }
  }

  /** The counts after the sync loop: every name of `names` missing from `sel` is added
      with count 0. */
  function Synced(sel: map<string, nat>, names: seq<string>): (r: map<string, nat>)
    ensures forall n :: n in sel ==> n in r && r[n] == sel[n]
    ensures forall n :: n in names ==> n in r
  {
    map n | n in sel.Keys + (set x | x in names) :: Count(sel, n)
  }

  /** The sync loop adds the listed names, never removes a name and never changes a
      count that already exists. */
  lemma SyncedSpec(sel: map<string, nat>, names: seq<string>)
    ensures var r := Synced(sel, names);
      (forall n :: n in r <==> n in sel || n in names)
      && (forall n :: n in sel ==> r[n] == sel[n])
      && (forall n :: n in r && n !in sel ==> r[n] == 0)
  {
  }

  /** Syncing is invisible to the counts read through `get(name, 0)`, hence to
      availability. */
  lemma SyncedCounts(sel: map<string, nat>, names: seq<string>, n: string)
    ensures Count(Synced(sel, names), n) == Count(sel, n)
    ensures IsAvailable(Synced(sel, names), n) <==> IsAvailable(sel, n)
  {
  }

  /** Syncing twice with the same names is the same as syncing once. */
  lemma SyncedIdempotent(sel: map<string, nat>, names: seq<string>)
    ensures Synced(Synced(sel, names), names) == Synced(sel, names)
  {
  }

  /** One iteration of the sync loop. */
  lemma SyncedStep(sel: map<string, nat>, names: seq<string>, i: nat)
    requires i < |names|
    ensures var s := Synced(sel, names[..i]);
      Synced(sel, names[..i + 1]) == if names[i] in s then s else s[names[i] := 0]
  {
    assert names[..i + 1] == names[..i] + [names[i]];
  }

  /** The counts after the Schedule button: `selections[name] = get(name, 0) + 1`. */
  function Scheduled(sel: map<string, nat>, name: string): (r: map<string, nat>)
    ensures name in r && r[name] == Count(sel, name) + 1
    ensures forall n :: n in sel ==> n in r
  {
    sel[name := Count(sel, name) + 1]
  }

  /** Scheduling adds one to the chosen name's count and leaves every other count. */
  lemma ScheduledCount(sel: map<string, nat>, name: string, n: string)
    ensures Count(Scheduled(sel, name), n) == if n == name then Count(sel, name) + 1 else Count(sel, n)
    ensures Scheduled(sel, name).Keys == sel.Keys + {name}
  {
  }

  /** The counts after scheduling the names of `names` in order, within one window. */
  function ScheduleAll(sel: map<string, nat>, names: seq<string>): map<string, nat>
    decreases |names|
  {
    if names == [] then sel else ScheduleAll(Scheduled(sel, names[0]), names[1..])
  }

  /** Within one window a count is its starting value plus the number of times the name
      was scheduled. */
  lemma {:induction false} ScheduleAllCount(sel: map<string, nat>, names: seq<string>, n: string)
    ensures Count(ScheduleAll(sel, names), n) == Count(sel, n) + multiset(names)[n]
    decreases |names|
  {
    if names != [] {
      ScheduleAllCount(Scheduled(sel, names[0]), names[1..], n);
      ScheduledCount(sel, names[0], n);
      assert names == [names[0]] + names[1..];
    }
  }

  /** The cap invariant: starting from the empty map of a fresh window, a name stays
      available exactly while it has been scheduled fewer than two times. */
  lemma CapWithinWindow(names: seq<string>, n: string)
    ensures IsAvailable(ScheduleAll(map[], names), n) <==> multiset(names)[n] < CAP
  {
    ScheduleAllCount(map[], names, n);
  }

  /** Two selections of one name inside one window take it off the list, whatever its
      count was. */
  lemma TwoSchedulesExhaust(sel: map<string, nat>, name: string)
    ensures !IsAvailable(Scheduled(Scheduled(sel, name), name), name)
  {
    ScheduledCount(sel, name, name);
    ScheduledCount(Scheduled(sel, name), name, name);
  }

  /** The session-state fields `selections` and `last_reset`. */
  class SelectionState {
    var selections: map<string, nat>
    var lastReset: int

    /** The first run of the script: an empty map and a window starting now. */
    constructor (now: int)
      ensures selections == map[] && lastReset == now
    {
      selections := map[];
      lastReset := now;
    }

    /** `check_and_reset_week`: clears the counts and restarts the window when seven whole
        days have passed, and reports whether it did. */
    method CheckAndResetWeek(now: int) returns (reset: bool)
      modifies this
      ensures reset == WeekElapsed(old(lastReset), now)
      ensures reset ==> selections == map[] && lastReset == now
      ensures !reset ==> selections == old(selections) && lastReset == old(lastReset)
    {
      if (now - lastReset) / MICROS_PER_DAY >= RESET_DAYS {
        selections := map[];
        lastReset := now;
        return true;
      }
      return false;
    }

    /** The loop over `df['Insider Volunteers'].unique()` that adds new names with count 0. */
    method Sync(roster: seq<Record>)
      modifies this
      ensures selections == Synced(old(selections), UniqueNames(roster))
      ensures lastReset == old(lastReset)
    {
      var names := UniqueNames(roster);
      for i := 0 to |names|
        invariant selections == Synced(old(selections), names[..i])
        invariant lastReset == old(lastReset)
      {
        SyncedStep(old(selections), names, i);
        if names[i] !in selections {
          selections := selections[names[i] := 0];
        }
      }
      assert names[..|names|] == names;
    }

    /** The Schedule button's increment. */
    method Schedule(name: string)
      modifies this
      ensures selections == Scheduled(old(selections), name)
      ensures lastReset == old(lastReset)
    {
      selections := selections[name := Count(selections, name) + 1];
    }
  }
}
