/** One run of the page script once the roster has loaded: the weekly reset check, the
    sync of new names, then the filtered view; and what a Schedule click does. */
module Session {
  import opened Sequences
  import opened Volunteers
  import opened Selection
  import opened Filters

  /** The script body from the reset check to `head(5)`. The reset happens before any
      filtering, so the cap is read from the fresh window. */
  method Refresh(state: SelectionState, roster: seq<Record>, now: int, c: Criteria)
    returns (reset: bool, v: View)
    modifies state
    ensures reset == WeekElapsed(old(state.lastReset), now)
    ensures state.lastReset == if reset then now else old(state.lastReset)
    ensures state.selections == Synced(if reset then map[] else old(state.selections), UniqueNames(roster))
    ensures v == Search(roster, state.selections, c)
  {
    reset := state.CheckAndResetWeek(now);
    state.Sync(roster);
    v := Search(roster, state.selections, c);
  }

  /** Adding the missing names with count 0 never changes what the page shows. */
  lemma SyncInvisible(roster: seq<Record>, sel: map<string, nat>, names: seq<string>, c: Criteria)
    ensures Search(roster, Synced(sel, names), c) == Search(roster, sel, c)
  {
    var sel' := Synced(sel, names);
    forall n
      ensures IsAvailable(sel', n) == IsAvailable(sel, n)
    {
      SyncedCounts(sel, names, n);
    }
    WhereCongruent(UniqueNames(roster), n => IsAvailable(sel', n), n => IsAvailable(sel, n));
  }

  /** Right after a reset nobody is at the cap: the rows that survive are exactly the
      roster rows passing the three filters. */
  lemma FreshWindowIgnoresCap(roster: seq<Record>, c: Criteria)
    ensures Matching(roster, Synced(map[], UniqueNames(roster)), c) == Where(roster, (r: Record) => Matches(r, c))
  {
    var sel := Synced(map[], UniqueNames(roster));
    forall r | r in roster
      ensures (IsAvailable(sel, r.name) && Matches(r, c)) == Matches(r, c)
    {
      SyncedCounts(map[], UniqueNames(roster), r.name);
    }
    WhereCongruent(roster, (r: Record) => IsAvailable(sel, r.name) && Matches(r, c), (r: Record) => Matches(r, c));
  }

  /** The Schedule button on a card: the increment. Opening the mail client and the
      rerun are outside the model. */
  method ScheduleCard(state: SelectionState, card: Record)
    modifies state
    ensures state.selections == Scheduled(old(state.selections), card.name)
    ensures state.lastReset == old(state.lastReset)
    ensures forall n :: n != card.name ==> Count(state.selections, n) == Count(old(state.selections), n)
  {
    state.Schedule(card.name);
    forall n | n != card.name
      ensures Count(state.selections, n) == Count(old(state.selections), n)
    {
      ScheduledCount(old(state.selections), card.name, n);
    }
  }

  /** A roster where "A" has two CRGs and "B" one, filtered on CRG "X". */
  function ExampleRoster(): seq<Record>
  {
    [Record("A", "X", "PT", "Not Specified", "a@x.com", "1"),
     Record("A", "Y", "PT", "Not Specified", "a@x.com", "1"),
     Record("B", "X", "ET", "Not Specified", "b@x.com", "2")]
  }

  function ExampleCriteria(): Criteria
  {
    Criteria("X", WILDCARD, WILDCARD)
  }

  /** Before any selection the page shows A's first row and B. */
  lemma ExampleBeforeSelection()
    ensures Search(ExampleRoster(), map[], ExampleCriteria())
         == View(2, [ExampleRoster()[0], ExampleRoster()[2]])
  {
    var roster, c := ExampleRoster(), ExampleCriteria();
    var a1, a2, b := roster[0], roster[1], roster[2];
    assert roster[1..] == [a2, b] && [a2, b][1..] == [b] && [b][1..] == [];
    var p := (r: Record) => IsAvailable(map[], r.name) && Matches(r, c);
    assert p(a1) && !p(a2) && p(b);
    assert Where([b], p) == [b];
    assert Where([a2, b], p) == [b];
    assert Matching(roster, map[], c) == [a1, b];
    FilterChainSpec(roster, map[], c);
    assert [a1, b][1..] == [b];
    assert DedupFrom([b], NameOf, {"A"}) == [b];
    assert Deduplicated(roster, map[], c) == [a1, b];
  }

  /** After A is scheduled twice in the same window, only B is shown. */
  lemma ExampleAfterTwoSelections()
    ensures Search(ExampleRoster(), Scheduled(Scheduled(map[], "A"), "A"), ExampleCriteria())
         == View(1, [ExampleRoster()[2]])
  {
    var roster, c := ExampleRoster(), ExampleCriteria();
    var a1, a2, b := roster[0], roster[1], roster[2];
    var twice := Scheduled(Scheduled(map[], "A"), "A");
    assert Count(twice, "A") == 2 && Count(twice, "B") == 0;
    assert roster[1..] == [a2, b] && [a2, b][1..] == [b] && [b][1..] == [];
    var p := (r: Record) => IsAvailable(twice, r.name) && Matches(r, c);
    assert !p(a1) && !p(a2) && p(b);
    assert Where([b], p) == [b];
    assert Where([a2, b], p) == [b];
    assert Matching(roster, twice, c) == [b];
    FilterChainSpec(roster, twice, c);
    assert DedupFrom([b], NameOf, {}) == [b];
    assert Deduplicated(roster, twice, c) == [b];
  }
}
