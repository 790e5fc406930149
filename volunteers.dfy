/** One row of the volunteer roster, after the loader has cleaned it. */
module Volunteers {
  import opened Sequences

  /** The columns `Insider Volunteers`, `CRG`, `Timezone`, `Business Unit`, `Email`
      and `Employee #`. The name is the identity of a volunteer, but one volunteer may
      have several rows (one per CRG, say). */
  datatype Record = Record(
    name: string,
    crg: string,
    timezone: string,
    businessUnit: string,
    email: string,
    employeeId: string)

  /** The three category columns a user can filter on. */
  datatype Field = Crg | Timezone | BusinessUnit

  function FieldValue(r: Record, f: Field): string
  {
    match f
    case Crg => r.crg
    case Timezone => r.timezone
    case BusinessUnit => r.businessUnit
  }

  function NameOf(r: Record): string
  {
    r.name
  }

  /** The column `f` of `rows`, row by row. */
  function Column(rows: seq<Record>, f: Field): (col: seq<string>)
    ensures |col| == |rows|
    ensures forall i :: 0 <= i < |rows| ==> col[i] == FieldValue(rows[i], f)
  {
    seq(|rows|, i requires 0 <= i < |rows| => FieldValue(rows[i], f))
  }

  /** The `Insider Volunteers` column, row by row. */
  function Names(rows: seq<Record>): (names: seq<string>)
    ensures |names| == |rows|
    ensures forall i :: 0 <= i < |rows| ==> names[i] == rows[i].name
  {
    seq(|rows|, i requires 0 <= i < |rows| => rows[i].name)
  }

  /** `df['Insider Volunteers'].unique()`: each name once, in order of first row. */
  function UniqueNames(rows: seq<Record>): (names: seq<string>)
    ensures |names| <= |rows|
  {
    Distinct(Names(rows))
  }

  lemma NamesMembership(rows: seq<Record>)
    ensures forall r :: r in rows ==> r.name in Names(rows)
    ensures forall n :: n in Names(rows) ==> exists r :: r in rows && r.name == n
  {
    forall r | r in rows
      ensures r.name in Names(rows)
    {
      var i :| 0 <= i < |rows| && rows[i] == r;
      assert Names(rows)[i] == r.name;
    }
    forall n | n in Names(rows)
      ensures exists r :: r in rows && r.name == n
    {
      var i :| 0 <= i < |rows| && Names(rows)[i] == n;
      assert rows[i] in rows;
    }
  }

  /** The unique names are exactly the names of the rows, each listed once. */
  lemma UniqueNamesSpec(rows: seq<Record>)
    ensures forall r :: r in rows ==> r.name in UniqueNames(rows)
    ensures forall n :: n in UniqueNames(rows) ==> exists r :: r in rows && r.name == n
    ensures NoRepeats(UniqueNames(rows))
  {
    DistinctSpec(Names(rows));
    NamesMembership(rows);
  }
}
