/** The pure part of one pass of the page: which volunteers are available, the three
    category filters, one row per volunteer, the first five rows, and the option lists
    of the three filter boxes. */
module Filters {
  import opened Sequences
  import opened Ordering
  import opened Volunteers
  import opened Selection

  /** The option meaning "no restriction" in every filter box. */
  const WILDCARD: string := "All"

  /** At most this many volunteer cards are shown. */
  const MAX_SHOWN: nat := 5

  /** The values chosen in the CRG, Timezone and Business Unit boxes. */
  datatype Criteria = Criteria(crg: string, timezone: string, businessUnit: string)

  /** The row passes the filter on `f`: the box says "All" or names the row's value. */
  predicate FieldMatches(r: Record, f: Field, v: string)
  {
    v == WILDCARD || FieldValue(r, f) == v
  }

  /** The row passes all three filters. */
  predicate Matches(r: Record, c: Criteria)
  {
    FieldMatches(r, Crg, c.crg)
    && FieldMatches(r, Timezone, c.timezone)
    && FieldMatches(r, BusinessUnit, c.businessUnit)
  }

  /** `available_names`: the unique roster names whose count is below the cap. */
  function AvailableNames(roster: seq<Record>, sel: map<string, nat>): (names: seq<string>)
    ensures |names| <= |roster|
    ensures forall n :: n in names ==> IsAvailable(sel, n)
  {
    Where(UniqueNames(roster), n => IsAvailable(sel, n))
  }

  /** `available_df`: the rows whose name `isin(available_names)`. */
  function AvailableRows(roster: seq<Record>, sel: map<string, nat>): (rows: seq<Record>)
    ensures |rows| <= |roster|
    ensures forall r :: r in rows ==> r in roster && IsAvailable(sel, r.name)
  {
    var names := AvailableNames(roster, sel);
    Where(roster, (r: Record) => r.name in names)
  }

  /** One `if selected != 'All'` step of the filter chain. */
  function RestrictField(rows: seq<Record>, f: Field, v: string): (kept: seq<Record>)
    ensures |kept| <= |rows|
    ensures forall r :: r in kept ==> r in rows && FieldMatches(r, f, v)
  {
    if v == WILDCARD then rows else Where(rows, r => FieldValue(r, f) == v)
  }

  /** The filter chain: CRG, then Timezone, then Business Unit. */
  function ApplyFilters(rows: seq<Record>, c: Criteria): (kept: seq<Record>)
    ensures |kept| <= |rows|
    ensures forall r :: r in kept ==> r in rows && Matches(r, c)
  {
    RestrictField(RestrictField(RestrictField(rows, Crg, c.crg), Timezone, c.timezone),
                  BusinessUnit, c.businessUnit)
  }

  /** Reference definition: the roster rows that are available and pass every filter,
      in roster order. */
  function Matching(roster: seq<Record>, sel: map<string, nat>, c: Criteria): seq<Record>
  {
    Where(roster, (r: Record) => IsAvailable(sel, r.name) && Matches(r, c))
  }

  /** What the page shows: the count reported in "Found N volunteers" and the cards. */
  datatype View = View(found: nat, shown: seq<Record>)

  /** The rows after `drop_duplicates(subset=['Insider Volunteers'])`. */
  function Deduplicated(roster: seq<Record>, sel: map<string, nat>, c: Criteria): (d: seq<Record>)
    ensures |d| <= |roster|
  {
    DedupBy(ApplyFilters(AvailableRows(roster, sel), c), NameOf)
  }

  /** Lines 133-175 of the script: filter, one row per name, count, `head(5)`. */
  function Search(roster: seq<Record>, sel: map<string, nat>, c: Criteria): (v: View)
    ensures |v.shown| <= MAX_SHOWN && |v.shown| <= v.found
  {
    var d := Deduplicated(roster, sel, c);
    View(|d|, d[..if |d| < MAX_SHOWN then |d| else MAX_SHOWN])
  }

  /** `['All'] + sorted(df[column].unique().tolist())`, over the whole roster. */
  function OptionList(roster: seq<Record>, f: Field): (opts: seq<string>)
    ensures 1 <= |opts| <= |roster| + 1 && opts[0] == WILDCARD
  {
    [WILDCARD] + Sort(Distinct(Column(roster, f)))
  }

  // ---------------------------------------------------------------------------
  // Availability

  /** A name is offered iff it is a roster name with fewer than two selections. */
  lemma AvailableNamesSpec(roster: seq<Record>, sel: map<string, nat>)
    ensures forall n :: n in AvailableNames(roster, sel) <==> n in Names(roster) && IsAvailable(sel, n)
    ensures NoRepeats(AvailableNames(roster, sel))
  {
    DistinctSpec(Names(roster));
    var u := UniqueNames(roster);
    var a := AvailableNames(roster, sel);
    forall i, j | 0 <= i < j < |a|
      ensures a[i] != a[j]
    {
      WhereIsSubsequence(u, n => IsAvailable(sel, n));
      SubsequenceNoRepeats(a, u);
    }
  }

  /** `available_df` keeps, in roster order, exactly the rows whose volunteer is below the
      cap. */
  lemma AvailableRowsSpec(roster: seq<Record>, sel: map<string, nat>)
    ensures AvailableRows(roster, sel) == Where(roster, (r: Record) => IsAvailable(sel, r.name))
  {
    var names := AvailableNames(roster, sel);
    AvailableNamesSpec(roster, sel);
    NamesMembership(roster);
    WhereCongruent(roster, (r: Record) => r.name in names, (r: Record) => IsAvailable(sel, r.name));
  }

  // ---------------------------------------------------------------------------
  // The filter chain

  lemma RestrictFieldSpec(rows: seq<Record>, f: Field, v: string)
    ensures RestrictField(rows, f, v) == Where(rows, r => FieldMatches(r, f, v))
  {
    if v == WILDCARD {
      WhereAll(rows, r => FieldMatches(r, f, v));
    } else {
      WhereCongruent(rows, r => FieldValue(r, f) == v, r => FieldMatches(r, f, v));
    }
  }

  /** The three filters after the cap filter, applied one after another, keep exactly the
      roster rows that are available and match every filter, in roster order. */
  lemma FilterChainSpec(roster: seq<Record>, sel: map<string, nat>, c: Criteria)
    ensures ApplyFilters(AvailableRows(roster, sel), c) == Matching(roster, sel, c)
  {
    var avail := (r: Record) => IsAvailable(sel, r.name);
    var pc := (r: Record) => FieldMatches(r, Crg, c.crg);
    var pt := (r: Record) => FieldMatches(r, Timezone, c.timezone);
    var pb := (r: Record) => FieldMatches(r, BusinessUnit, c.businessUnit);
    var a1 := (r: Record) => avail(r) && pc(r);
    var a2 := (r: Record) => a1(r) && pt(r);
    var a3 := (r: Record) => IsAvailable(sel, r.name) && Matches(r, c);
    AvailableRowsSpec(roster, sel);
    var s0 := Where(roster, avail);
    RestrictFieldSpec(s0, Crg, c.crg);
    WhereWhere(roster, avail, pc, a1);
    var s1 := Where(roster, a1);
    RestrictFieldSpec(s1, Timezone, c.timezone);
    WhereWhere(roster, a1, pt, a2);
    var s2 := Where(roster, a2);
    RestrictFieldSpec(s2, BusinessUnit, c.businessUnit);
    WhereWhere(roster, a2, pb, a3);
  }

  /** A row survives the cap and the filters iff it is a roster row whose volunteer is
      below the cap and whose fields pass every filter; survivors keep roster order. */
  lemma MatchingSpec(roster: seq<Record>, sel: map<string, nat>, c: Criteria)
    ensures forall r :: r in Matching(roster, sel, c) <==>
      r in roster && IsAvailable(sel, r.name) && Matches(r, c)
    ensures IsSubsequence(Matching(roster, sel, c), roster)
  {
    WhereIsSubsequence(roster, (r: Record) => IsAvailable(sel, r.name) && Matches(r, c));
  }

  // ---------------------------------------------------------------------------
  // Deduplication and head(5)

  /** The deduplicated rows are the first matching row of each matching name, one per
      name, ordered by where that first row stands. */
  lemma DeduplicatedSpec(roster: seq<Record>, sel: map<string, nat>, c: Criteria)
    ensures var m := Matching(roster, sel, c);
      var d := Deduplicated(roster, sel, c);
      && DistinctKeys(d, NameOf)
      && KeysOf(d, NameOf) == KeysOf(m, NameOf)
      && IsSubsequence(d, m)
      && (forall i :: 0 <= i < |d| ==>
            d[i].name in KeysOf(m, NameOf) && d[i] == m[FirstIndex(m, NameOf, d[i].name)])
      && (forall i, j :: 0 <= i < j < |d| ==>
            d[i].name in KeysOf(m, NameOf) && d[j].name in KeysOf(m, NameOf) &&
            FirstIndex(m, NameOf, d[i].name) < FirstIndex(m, NameOf, d[j].name))
  {
    var m := Matching(roster, sel, c);
    FilterChainSpec(roster, sel, c);
    DedupKeys(m, NameOf, {});
    DedupDistinct(m, NameOf, {});
    DedupSubsequence(m, NameOf, {});
    DedupFirst(m, NameOf, {});
  }

  /** The reported count is the number of distinct volunteers among the matching rows,
      and at most five cards are shown: all of them when there are five or fewer. */
  lemma SearchCount(roster: seq<Record>, sel: map<string, nat>, c: Criteria)
    ensures var v := Search(roster, sel, c);
      && v.found == |KeysOf(Matching(roster, sel, c), NameOf)|
      && |v.shown| == (if v.found < MAX_SHOWN then v.found else MAX_SHOWN)
      && v.shown == Deduplicated(roster, sel, c)[..|v.shown|]
  {
    var d := Deduplicated(roster, sel, c);
    DeduplicatedSpec(roster, sel, c);
    DistinctKeysCount(d, NameOf);
  }

  /** The cards are the first deduplicated rows. */
  lemma ShownPrefix(roster: seq<Record>, sel: map<string, nat>, c: Criteria)
    ensures var v := Search(roster, sel, c);
      var d := Deduplicated(roster, sel, c);
      |v.shown| <= |d| && forall i :: 0 <= i < |v.shown| ==> v.shown[i] == d[i]
  {
  }

  /** Every card shows a roster row of an available volunteer that passes every filter. */
  lemma SearchSound(roster: seq<Record>, sel: map<string, nat>, c: Criteria)
    ensures forall r :: r in Search(roster, sel, c).shown ==>
      r in roster && IsAvailable(sel, r.name) && Matches(r, c)
  {
    var v := Search(roster, sel, c);
    var d := Deduplicated(roster, sel, c);
    var m := Matching(roster, sel, c);
    DeduplicatedSpec(roster, sel, c);
    MatchingSpec(roster, sel, c);
    SubsequenceMembers(d, m);
    ShownPrefix(roster, sel, c);
    forall r | r in v.shown
      ensures r in m
    {
      var i :| 0 <= i < |v.shown| && v.shown[i] == r;
      assert d[i] in d;
    }
  }

  /** Every card shows a roster row of an available volunteer that passes every filter,
      no volunteer gets two cards, and the row shown for a volunteer is that volunteer's
      first matching row. */
  lemma SearchShown(roster: seq<Record>, sel: map<string, nat>, c: Criteria)
    ensures var v := Search(roster, sel, c);
      var m := Matching(roster, sel, c);
      && (forall r :: r in v.shown ==> r in roster && IsAvailable(sel, r.name) && Matches(r, c))
      && (forall i, j :: 0 <= i < j < |v.shown| ==> v.shown[i].name != v.shown[j].name)
      && (forall i :: 0 <= i < |v.shown| ==>
            v.shown[i].name in KeysOf(m, NameOf) && v.shown[i] == m[FirstIndex(m, NameOf, v.shown[i].name)])
  {
    SearchSound(roster, sel, c);
    DeduplicatedSpec(roster, sel, c);
    ShownPrefix(roster, sel, c);
  }

  /** The cards are the volunteers whose first matching row comes earliest: a matching
      volunteer without a card has its first matching row after that of every card. */
  lemma SearchEarliest(roster: seq<Record>, sel: map<string, nat>, c: Criteria, name: string)
    requires name in KeysOf(Matching(roster, sel, c), NameOf)
    requires forall r :: r in Search(roster, sel, c).shown ==> r.name != name
    ensures var v := Search(roster, sel, c);
      var m := Matching(roster, sel, c);
      forall i :: 0 <= i < |v.shown| ==>
        v.shown[i].name in KeysOf(m, NameOf) &&
        FirstIndex(m, NameOf, v.shown[i].name) < FirstIndex(m, NameOf, name)
  {
    var v := Search(roster, sel, c);
    var m := Matching(roster, sel, c);
    var d := Deduplicated(roster, sel, c);
    DeduplicatedSpec(roster, sel, c);
    var k := FirstIndex(d, NameOf, name);
    forall i | 0 <= i < |v.shown|
      ensures v.shown[i].name in KeysOf(m, NameOf)
      ensures FirstIndex(m, NameOf, v.shown[i].name) < FirstIndex(m, NameOf, name)
    {
      assert v.shown[i] == d[i];
    }
  }

  // ---------------------------------------------------------------------------
  // Option lists

  /** Each option list is "All" followed by the values of its column over the whole
      roster, strictly ascending (so each value once). */
  lemma OptionListSpec(roster: seq<Record>, f: Field)
    ensures var opts := OptionList(roster, f);
      && opts[0] == WILDCARD
      && StrictlySorted(opts[1..])
      && (forall v :: v in opts[1..] <==> v in Column(roster, f))
  {
    var col := Column(roster, f);
    var u := Distinct(col);
    DistinctSpec(col);
    SortSpec(u);
    PermutationNoRepeats(u, Sort(u));
    SortedWithoutRepeats(Sort(u));
    var opts := OptionList(roster, f);
    assert opts[1..] == Sort(u);
    forall v
      ensures v in Sort(u) <==> v in u
    {
      assert v in Sort(u) <==> v in multiset(Sort(u));
      assert v in u <==> v in multiset(u);
    }
  }

  /** The option values are the only strictly ascending list of the column's values. */
  lemma OptionListDetermined(roster: seq<Record>, f: Field, s: seq<string>)
    requires StrictlySorted(s)
    requires forall v :: v in s <==> v in Column(roster, f)
    ensures OptionList(roster, f) == [WILDCARD] + s
  {
    OptionListSpec(roster, f);
    StrictlySortedUnique(OptionList(roster, f)[1..], s);
  }
}
