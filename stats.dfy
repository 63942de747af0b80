/** The integer aggregates `show_stats` reads from the view of sequences in
    analysed projects: one row per sequence occurring in a project, with the
    project, the sequence, how often it occurs there and the MNEMONIC flag. */
module Stats {
  import opened Wrappers

  datatype AnalyzedRow = AnalyzedRow(project: nat, sequence: nat, occurrences: nat, mnemonic: Option<int>)

  /** The occurrences of all rows added up (0 for no rows). */
  function SumOccurrences(rows: seq<AnalyzedRow>): (r: nat)
    ensures forall i :: 0 <= i < |rows| ==> rows[i].occurrences <= r
  {
    if rows == [] then 0 else rows[0].occurrences + SumOccurrences(rows[1..])
  }

  /** `SUM(NR_OCCURRENCES)`: SQL's SUM over no rows is NULL. */
  function Total(rows: seq<AnalyzedRow>): (r: Option<nat>)
    ensures r.None? <==> rows == []
    ensures r.Some? ==> r.value >= |rows| || exists i :: 0 <= i < |rows| && rows[i].occurrences == 0
  {
    TotalCountsRows(rows);
    if rows == [] then None else Some(SumOccurrences(rows))
  }

  /** Each row with at least one occurrence adds at least one to the sum. */
  lemma {:induction false} TotalCountsRows(rows: seq<AnalyzedRow>)
    ensures SumOccurrences(rows) >= |rows| || exists i :: 0 <= i < |rows| && rows[i].occurrences == 0
  {
    if rows != [] {
      TotalCountsRows(rows[1..]);
      if SumOccurrences(rows[1..]) < |rows| - 1 {
        var i :| 0 <= i < |rows| - 1 && rows[1..][i].occurrences == 0;
        assert rows[i + 1].occurrences == 0;
      }
    }
  }

  /** The sequences occurring in the rows. */
  function Sequences(rows: seq<AnalyzedRow>): set<nat>
  {
    set r | r in rows :: r.sequence
  }

  /** The projects of the rows. */
  function Projects(rows: seq<AnalyzedRow>): set<nat>
  {
    set r | r in rows :: r.project
  }

  /** `COUNT(DISTINCT ASM_SEQUENCE_ID)`. */
  function DistinctSequences(rows: seq<AnalyzedRow>): nat
  {
    |Sequences(rows)|
  }

  /** `COUNT(ASM_SEQUENCE_ID)`: every row has a sequence. */
  function RowCount(rows: seq<AnalyzedRow>): nat
  {
    |rows|
  }

  /** There are never more distinct sequences than rows, and as many exactly
      when no sequence occurs in two rows. */
  lemma {:induction false} DistinctSequencesAtMostRows(rows: seq<AnalyzedRow>)
    ensures DistinctSequences(rows) <= RowCount(rows)
    ensures (forall i, j :: 0 <= i < j < |rows| ==> rows[i].sequence != rows[j].sequence) ==> DistinctSequences(rows) == RowCount(rows)
  {
    if rows != [] {
      var tail := rows[1..];
      DistinctSequencesAtMostRows(tail);
      assert Sequences(rows) == {rows[0].sequence} + Sequences(tail) by {
        assert forall r :: r in rows <==> r == rows[0] || r in tail;
      }
      if forall i, j :: 0 <= i < j < |rows| ==> rows[i].sequence != rows[j].sequence {
        assert forall i, j :: 0 <= i < j < |tail| ==> tail[i].sequence != tail[j].sequence by {
          forall i, j | 0 <= i < j < |tail| ensures tail[i].sequence != tail[j].sequence {
            assert tail[i] == rows[i + 1] && tail[j] == rows[j + 1];
          }
        }
      }
    }
  }

  /** The occurrences of one project: `SUM(NR_OCCURRENCES) ... GROUP BY GITHUB_PROJECT_ID`. */
  function ProjectSum(rows: seq<AnalyzedRow>, project: nat): (r: nat)
    ensures r > 0 ==> exists i :: 0 <= i < |rows| && rows[i].project == project && rows[i].occurrences > 0
  {
    if rows == [] then 0
    else (if rows[0].project == project then rows[0].occurrences else 0) + ProjectSum(rows[1..], project)
  }

  lemma {:induction false} ProjectSumAtMostSum(rows: seq<AnalyzedRow>, project: nat)
    ensures ProjectSum(rows, project) <= SumOccurrences(rows)
  {
    if rows != [] {
      ProjectSumAtMostSum(rows[1..], project);
    }
  }

  /** The largest `ProjectSum(all, r.project)` over the rows `r` of `rest`. */
  function MaxProjectSumOver(all: seq<AnalyzedRow>, rest: seq<AnalyzedRow>): (m: nat)
    requires rest != []
    ensures exists i :: 0 <= i < |rest| && m == ProjectSum(all, rest[i].project)
    ensures forall i :: 0 <= i < |rest| ==> ProjectSum(all, rest[i].project) <= m
  {
    var here := ProjectSum(all, rest[0].project);
    if |rest| == 1 then here
    else
      var below := MaxProjectSumOver(all, rest[1..]);
      assert forall i :: 1 <= i < |rest| ==> rest[i] == rest[1..][i - 1];
      if here >= below then here else below
  }

  /** `SELECT MAX(nr_snippets) FROM (SELECT SUM(NR_OCCURRENCES) ... GROUP BY
      GITHUB_PROJECT_ID)`: NULL when there are no rows. */
  function MaxProjectSum(rows: seq<AnalyzedRow>): (r: Option<nat>)
    ensures r.None? <==> rows == []
  {
    if rows == [] then None else Some(MaxProjectSumOver(rows, rows))
  }

  /** The maximum is the sum of one of the projects and no project has more;
      it never exceeds the total. */
  lemma MaxProjectSumIsMaximum(rows: seq<AnalyzedRow>)
    requires rows != []
    ensures exists p :: p in Projects(rows) && MaxProjectSum(rows).value == ProjectSum(rows, p)
    ensures forall p :: p in Projects(rows) ==> ProjectSum(rows, p) <= MaxProjectSum(rows).value
    ensures MaxProjectSum(rows).value <= Total(rows).value
  {
    var m := MaxProjectSum(rows).value;
    var i :| 0 <= i < |rows| && m == ProjectSum(rows, rows[i].project);
    assert rows[i].project in Projects(rows);
    forall p | p in Projects(rows) ensures ProjectSum(rows, p) <= m {
      var r :| r in rows && r.project == p;
      var j :| 0 <= j < |rows| && rows[j] == r;
    }
    ProjectSumAtMostSum(rows, rows[i].project);
  }

  /** The projects with a row whose MNEMONIC is 0; a NULL flag is not 0. */
  function NonMnemonicProjectSet(rows: seq<AnalyzedRow>): set<nat>
  {
    set r | r in rows && r.mnemonic == Some(0) :: r.project
  }

  /** `COUNT(DISTINCT GITHUB_PROJECT_ID) ... WHERE MNEMONIC = 0`. */
  function NonMnemonicProjects(rows: seq<AnalyzedRow>): nat
  {
    |NonMnemonicProjectSet(rows)|
  }

  /** Only projects with rows are counted, so the count is at most the number of
      projects, and it is 0 exactly when no row has MNEMONIC 0. */
  lemma NonMnemonicProjectsBounded(rows: seq<AnalyzedRow>)
    ensures NonMnemonicProjects(rows) <= |Projects(rows)|
    ensures NonMnemonicProjects(rows) == 0 <==> forall i :: 0 <= i < |rows| ==> rows[i].mnemonic != Some(0)
  {
    SubsetAtMost(NonMnemonicProjectSet(rows), Projects(rows));
    if exists i :: 0 <= i < |rows| && rows[i].mnemonic == Some(0) {
      var i :| 0 <= i < |rows| && rows[i].mnemonic == Some(0);
      assert rows[i].project in NonMnemonicProjectSet(rows);
    }
  }

  lemma {:induction false} SubsetAtMost(a: set<nat>, b: set<nat>)
    requires a <= b
    ensures |a| <= |b|
    decreases |b|
  {
    if a != {} {
      var x :| x in a;
      SubsetAtMost(a - {x}, b - {x});
    }
  }
}
