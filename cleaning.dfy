/** The cleaning steps of `load_data`, applied to rows that are already parsed: strip
    the text cells, fill the missing category cells, remove every `)` from the employee
    number, and drop rows that are exact duplicates. */
module Cleaning {
  import opened Sequences
  import opened Volunteers

  /** The sentinel for a missing CRG, Timezone or Business Unit. */
  const NOT_SPECIFIED: string := "Not Specified"

  datatype Option<T> = None | Some(value: T)

  /** A parsed CSV row before cleaning; a missing category cell is `None`. */
  datatype RawRecord = RawRecord(
    name: string,
    crg: Option<string>,
    timezone: Option<string>,
    businessUnit: Option<string>,
    email: string,
    employeeId: string)

  /** Python's `str.isspace` on one character, by code point. */
  predicate IsSpace(ch: char)
  {
    var n := ch as int;
    (9 <= n <= 13) || (28 <= n <= 32) || n == 0x85 || n == 0xA0 || n == 0x1680
    || (0x2000 <= n <= 0x200A) || n == 0x2028 || n == 0x2029 || n == 0x202F
    || n == 0x205F || n == 0x3000
  }

  /** The number of whitespace characters at the start of `s`. */
  function LeadingSpaces(s: string): (n: nat)
    ensures n <= |s|
    ensures forall i :: 0 <= i < n ==> IsSpace(s[i])
    ensures n == |s| || !IsSpace(s[n])
  {
    if s != [] && IsSpace(s[0]) then 1 + LeadingSpaces(s[1..]) else 0
  }

  /** The number of whitespace characters at the end of `s`. */
  function TrailingSpaces(s: string): (n: nat)
    ensures n <= |s|
    ensures forall i :: |s| - n <= i < |s| ==> IsSpace(s[i])
    ensures n == |s| || !IsSpace(s[|s| - n - 1])
  {
    if s != [] && IsSpace(s[|s| - 1]) then 1 + TrailingSpaces(s[..|s| - 1]) else 0
  }

  /** `str.strip()`: drop the leading, then the trailing whitespace. */
  function Strip(s: string): (r: string)
    ensures |r| <= |s|
  {
    var t := s[LeadingSpaces(s)..];
    t[..|t| - TrailingSpaces(t)]
  }

  /** `Series.str.strip()` on a column that may have missing cells. */
  function StripCell(cell: Option<string>): Option<string>
  {
    match cell
    case None => None
    case Some(v) => Some(Strip(v))
  }

  /** `fillna` with the sentinel. */
  function Fill(cell: Option<string>): (v: string)
    ensures v != "" || cell == Some("")
  {
    match cell
    case None => NOT_SPECIFIED
    case Some(v) => v
  }

  /** `str.replace(ch, '')`: every occurrence of `ch` goes, the rest keeps its order. */
  function RemoveAll(s: string, ch: char): (r: string)
    ensures ch !in r && |r| <= |s|
  {
    Where(s, c => c != ch)
  }

  /** Lines 93-102 on one row, in the script's order: strip, fill, remove `)`. */
  function CleanRecord(raw: RawRecord): (r: Record)
    ensures ')' !in r.employeeId
  {
    Record(
      Strip(raw.name),
      Fill(StripCell(raw.crg)),
      Fill(StripCell(raw.timezone)),
      Fill(StripCell(raw.businessUnit)),
      Strip(raw.email),
      RemoveAll(Strip(raw.employeeId), ')'))
  }

  /** Every row cleaned, in order. */
  function CleanAll(raws: seq<RawRecord>): (rows: seq<Record>)
    ensures |rows| == |raws|
    ensures forall i :: 0 <= i < |raws| ==> rows[i] == CleanRecord(raws[i])
  {
    seq(|raws|, i requires 0 <= i < |raws| => CleanRecord(raws[i]))
  }

  /** `load_data` from the parsed rows on: clean every row, then `drop_duplicates()`. */
  function Load(raws: seq<RawRecord>): (rows: seq<Record>)
    ensures |rows| <= |raws|
  {
    Distinct(CleanAll(raws))
  }

  /** The cleaning with the `)` removed before the strip, so that a space in front of a
      `)` is stripped too. */
  function CleanRecordFixed(raw: RawRecord): Record
  {
    Record(
      Strip(raw.name),
      Fill(StripCell(raw.crg)),
      Fill(StripCell(raw.timezone)),
      Fill(StripCell(raw.businessUnit)),
      Strip(raw.email),
      Strip(RemoveAll(raw.employeeId, ')')))
  }

  function CleanAllFixed(raws: seq<RawRecord>): (rows: seq<Record>)
    ensures |rows| == |raws|
    ensures forall i :: 0 <= i < |raws| ==> rows[i] == CleanRecordFixed(raws[i])
  {
    seq(|raws|, i requires 0 <= i < |raws| => CleanRecordFixed(raws[i]))
  }

  function LoadFixed(raws: seq<RawRecord>): seq<Record>
  {
    Distinct(CleanAllFixed(raws))
  }

  /** A cleaned row read back in as a raw row, every cell present. */
  function Lift(r: Record): RawRecord
  {
    RawRecord(r.name, Some(r.crg), Some(r.timezone), Some(r.businessUnit), r.email, r.employeeId)
  }

  function LiftAll(rows: seq<Record>): (raws: seq<RawRecord>)
    ensures |raws| == |rows|
    ensures forall i :: 0 <= i < |rows| ==> raws[i] == Lift(rows[i])
  {
    seq(|rows|, i requires 0 <= i < |rows| => Lift(rows[i]))
  }

  // ---------------------------------------------------------------------------
  // Strip and RemoveAll

  /** Every character of `s` is whitespace. */
  ghost predicate AllSpace(s: string)
  {
    forall i :: 0 <= i < |s| ==> IsSpace(s[i])
  }

  /** A prefix of `s` whose characters are all whitespace. */
  lemma AllSpacePrefix(s: string, n: nat)
    requires n <= |s|
    requires forall i :: 0 <= i < n ==> IsSpace(s[i])
    ensures AllSpace(s[..n])
  {
    forall i | 0 <= i < n
      ensures IsSpace(s[..n][i])
    {
      assert s[..n][i] == s[i];
    }
  }

  /** A suffix of `s` whose characters are all whitespace. */
  lemma AllSpaceSuffix(s: string, n: nat)
    requires n <= |s|
    requires forall i :: n <= i < |s| ==> IsSpace(s[i])
    ensures AllSpace(s[n..])
  {
    forall j | 0 <= j < |s| - n
      ensures IsSpace(s[n..][j])
    {
      assert s[n..][j] == s[n + j];
    }
  }

  /** The stripped text has no whitespace at either end. */
  lemma StripEdges(s: string)
    ensures Strip(s) == [] || (!IsSpace(Strip(s)[0]) && !IsSpace(Strip(s)[|Strip(s)| - 1]))
  {
    var a := LeadingSpaces(s);
    var t := s[a..];
    var r := Strip(s);
    assert r == t[..|t| - TrailingSpaces(t)];
    if r != [] {
      assert r[0] == s[a];
      assert r[|r| - 1] == t[|r| - 1];
    }
  }

  /** The stripped text is the slice of `s` that starts after the leading whitespace. */
  lemma StripSlice(s: string)
    ensures LeadingSpaces(s) + |Strip(s)| <= |s|
    ensures Strip(s) == s[LeadingSpaces(s)..LeadingSpaces(s) + |Strip(s)|]
    ensures forall i :: LeadingSpaces(s) + |Strip(s)| <= i < |s| ==> IsSpace(s[i])
  {
    var a := LeadingSpaces(s);
    var t := s[a..];
    var m := TrailingSpaces(t);
    assert Strip(s) == t[..|t| - m];
    assert t[..|t| - m] == s[a..a + |t| - m];
    forall i | a + |t| - m <= i < |s|
      ensures IsSpace(s[i])
    {
      assert s[i] == t[i - a];
    }
  }

  /** Cutting `s` around the slice `r` and gluing the three parts back gives `s`. */
  lemma SliceSplit(s: string, a: nat, r: string)
    requires a + |r| <= |s| && r == s[a..a + |r|]
    ensures s == s[..a] + r + s[a + |r|..]
  {
  }

  /** `strip` keeps a contiguous middle part of the text, removes only whitespace, and
      leaves no whitespace at either end. */
  lemma StripSpec(s: string)
    ensures LeadingSpaces(s) + |Strip(s)| <= |s|
    ensures s == s[..LeadingSpaces(s)] + Strip(s) + s[LeadingSpaces(s) + |Strip(s)|..]
    ensures AllSpace(s[..LeadingSpaces(s)]) && AllSpace(s[LeadingSpaces(s) + |Strip(s)|..])
    ensures Strip(s) == [] || (!IsSpace(Strip(s)[0]) && !IsSpace(Strip(s)[|Strip(s)| - 1]))
  {
    StripSlice(s);
    SliceSplit(s, LeadingSpaces(s), Strip(s));
    AllSpacePrefix(s, LeadingSpaces(s));
    AllSpaceSuffix(s, LeadingSpaces(s) + |Strip(s)|);
    StripEdges(s);
  }

  /** Text with no whitespace at either end is left as it is by `strip`. */
  lemma StripNoEdges(s: string)
    requires s == [] || (!IsSpace(s[0]) && !IsSpace(s[|s| - 1]))
    ensures Strip(s) == s
  {
  }
  /** Stripping twice is stripping once. */
  lemma StripIdempotent(s: string)
    ensures Strip(Strip(s)) == Strip(s)
  {
    StripEdges(s);
    StripNoEdges(Strip(s));
  }
  /** `strip` cannot bring in a character that was not there. */
  lemma StripKeepsAbsent(s: string, ch: char)
    requires ch !in s
    ensures ch !in Strip(s)
  {
    var t := s[LeadingSpaces(s)..];
    assert ch !in t;
  }

  /** After `str.replace(')', '')` no `)` is left, anywhere in the text; every other
      character keeps its number of occurrences and its order. */
  lemma RemoveAllSpec(s: string, ch: char)
    ensures ch !in RemoveAll(s, ch)
    ensures forall d :: d != ch ==> multiset(RemoveAll(s, ch))[d] == multiset(s)[d]
    ensures IsSubsequence(RemoveAll(s, ch), s)
  {
    forall d | d != ch
      ensures multiset(RemoveAll(s, ch))[d] == multiset(s)[d]
    {
      WhereMultiplicity(s, c => c != ch, d);
    }
    WhereIsSubsequence(s, c => c != ch);
  }

  /** `RemoveAll` works one character at a time from the front. */
  lemma RemoveAllCons(c: char, s: string, ch: char)
    ensures RemoveAll([c] + s, ch) == (if c == ch then [] else [c]) + RemoveAll(s, ch)
  {
    assert ([c] + s)[1..] == s;
  }

  /** Text without `ch` is left as it is. */
  lemma RemoveAllAbsent(s: string, ch: char)
    requires ch !in s
    ensures RemoveAll(s, ch) == s
  {
    WhereAll(s, c => c != ch);
  }

  // ---------------------------------------------------------------------------
  // Whole rows and the table

  /** A cleaned row has no `)` in its employee number and no missing category: a missing
      category reads "Not Specified". */
  lemma CleanRecordSpec(raw: RawRecord)
    ensures ')' !in CleanRecord(raw).employeeId
    ensures raw.crg == None ==> CleanRecord(raw).crg == NOT_SPECIFIED
    ensures raw.timezone == None ==> CleanRecord(raw).timezone == NOT_SPECIFIED
    ensures raw.businessUnit == None ==> CleanRecord(raw).businessUnit == NOT_SPECIFIED
    ensures CleanRecord(raw).name == Strip(raw.name)
  {
    RemoveAllSpec(Strip(raw.employeeId), ')');
  }

  /** After `load_data` no two rows are equal, every row is the cleaned form of an input
      row, every cleaned input row is present, and rows keep the order of their first
      occurrence. */
  lemma LoadSpec(raws: seq<RawRecord>)
    ensures NoRepeats(Load(raws))
    ensures IsSubsequence(Load(raws), CleanAll(raws))
    ensures forall r :: r in Load(raws) <==> r in CleanAll(raws)
    ensures forall r :: r in Load(raws) ==> ')' !in r.employeeId
    ensures forall i, j :: 0 <= i < j < |Load(raws)| ==>
      Load(raws)[i] in KeysOf(CleanAll(raws), Identity) && Load(raws)[j] in KeysOf(CleanAll(raws), Identity) &&
      FirstIndex(CleanAll(raws), Identity, Load(raws)[i]) < FirstIndex(CleanAll(raws), Identity, Load(raws)[j])
  {
    var cleaned := CleanAll(raws);
    DistinctSpec(cleaned);
    forall r | r in Load(raws)
      ensures ')' !in r.employeeId
    {
      var i :| 0 <= i < |cleaned| && cleaned[i] == r;
      CleanRecordSpec(raws[i]);
    }
  }

  /** The sentinel has no whitespace at either end. */
  lemma NotSpecifiedStripped()
    ensures Strip(NOT_SPECIFIED) == NOT_SPECIFIED
  {
    StripNoEdges(NOT_SPECIFIED);
  }

  /** A stripped or filled category cell is left as it is by a second strip. */
  lemma CategoryStable(cell: Option<string>)
    ensures Strip(Fill(StripCell(cell))) == Fill(StripCell(cell))
  {
    match cell {
      case None => NotSpecifiedStripped();
      case Some(v) => StripIdempotent(v);
    }
  }

  /** Removing `)` then stripping is stable under a second round. */
  lemma EmployeeIdStable(id: string)
    ensures Strip(RemoveAll(Strip(RemoveAll(id, ')')), ')')) == Strip(RemoveAll(id, ')'))
  {
    var e := RemoveAll(id, ')');
    RemoveAllSpec(id, ')');
    StripKeepsAbsent(e, ')');
    RemoveAllAbsent(Strip(e), ')');
    StripIdempotent(e);
  }

  /** The corrected row cleaning is a no-op on its own output. */
  lemma CleanRecordFixedIdempotent(raw: RawRecord)
    ensures CleanRecordFixed(Lift(CleanRecordFixed(raw))) == CleanRecordFixed(raw)
  {
    StripIdempotent(raw.name);
    StripIdempotent(raw.email);
    CategoryStable(raw.crg);
    CategoryStable(raw.timezone);
    CategoryStable(raw.businessUnit);
    EmployeeIdStable(raw.employeeId);
  }

  /** Rows that the corrected cleaning produced come back unchanged from a second
      cleaning. */
  lemma CleanAllFixedStable(raws: seq<RawRecord>, rows: seq<Record>)
    requires forall r :: r in rows ==> r in CleanAllFixed(raws)
    ensures CleanAllFixed(LiftAll(rows)) == rows
  {
    var cleaned := CleanAllFixed(raws);
    var again := CleanAllFixed(LiftAll(rows));
    forall i | 0 <= i < |rows|
      ensures again[i] == rows[i]
    {
      assert rows[i] in cleaned;
      var k :| 0 <= k < |cleaned| && cleaned[k] == rows[i];
      CleanRecordFixedIdempotent(raws[k]);
    }
  }

  /** The corrected loader is idempotent: loading its own output again changes nothing. */
  lemma LoadFixedIdempotent(raws: seq<RawRecord>)
    ensures LoadFixed(LiftAll(LoadFixed(raws))) == LoadFixed(raws)
  {
    var rows := LoadFixed(raws);
    DistinctSpec(CleanAllFixed(raws));
    CleanAllFixedStable(raws, rows);
    DistinctOfDistinct(rows);
  }

  /** The employee number "12 )" as written: the strip sees the `)` at the end and
      removes nothing, then the `)` goes and leaves a trailing space. */
  lemma ExampleIdOnce()
    ensures RemoveAll(Strip("12 )"), ')') == "12 "
  {
    StripNoEdges("12 )");
    ExampleRemoveParen();
  }

  lemma ExampleRemoveParen()
    ensures RemoveAll("12 )", ')') == "12 "
  {
    RemoveAllCons(')', [], ')');
    RemoveAllCons(' ', [')'], ')');
    RemoveAllCons('2', [' ', ')'], ')');
    RemoveAllCons('1', ['2', ' ', ')'], ')');
    assert "12 )" == ['1'] + ['2', ' ', ')'];
  }

  /** Cleaning "12 " again strips the trailing space. */
  lemma ExampleIdTwice()
    ensures RemoveAll(Strip("12 "), ')') == "12"
  {
    assert LeadingSpaces("12 ") == 0;
    assert "12 "[1..] == "2 " && "2 "[1..] == " ";
    assert TrailingSpaces("12 ") == 1;
    assert "12 "[..2] == "12";
    assert ')' !in "12";
    RemoveAllAbsent("12", ')');
  }

  /** A table of one row loads to that row, cleaned. */
  lemma LoadSingle(raw: RawRecord)
    ensures Load([raw]) == [CleanRecord(raw)]
  {
    assert CleanAll([raw]) == [CleanRecord(raw)];
    DistinctOfDistinct([CleanRecord(raw)]);
  }

  /** As written the loader is not idempotent: the employee number "12 )" is loaded as
      "12 ", and loading that again gives "12". */
  lemma LoadNotIdempotent()
    ensures var raws := [RawRecord("A", None, None, None, "a", "12 )")];
      Load(LiftAll(Load(raws))) != Load(raws)
  {
    var raw := RawRecord("A", None, None, None, "a", "12 )");
    LoadSingle(raw);
    ExampleIdOnce();
    var once := CleanRecord(raw);
    assert once.employeeId == "12 ";
    assert LiftAll([once]) == [Lift(once)];
    LoadSingle(Lift(once));
    ExampleIdTwice();
    assert CleanRecord(Lift(once)).employeeId == "12";
  }
}
