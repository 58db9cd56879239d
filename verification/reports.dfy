/**
 * The reporting database tables the exports write: reports, their
 * candidates, co-approval rows and voting-pattern rows, with the
 * delete-then-insert replacement and the UPDATE statements of the exports.
 */
module Reports {
  import opened Wrappers
  import opened Approval

  /** `name_mapping.get(name, name)`: unmatched names pass through unchanged. */
  function Rename(names: map<string, string>, name: string): string {
    if name in names then names[name] else name
  }

  /** One stored co-approval row. */
  datatype CoApprovalRow = CoApprovalRow(reportId: nat, candidateA: Candidate, candidateB: Candidate, count: nat, rate: real)

  datatype Report = Report(id: nat, office: string, date: string, path: string, ballotCount: nat)

  datatype CandidateRow = CandidateRow(reportId: nat, name: string, votes: nat)

  datatype PatternRow<P> = PatternRow(reportId: nat, patterns: P)

  /** The tables the export touches; the row order of `reports` and `candidates` is the table order. */
  datatype MainStore<P(==)> = MainStore(
    reports: seq<Report>,
    candidates: seq<CandidateRow>,
    coApprovals: set<CoApprovalRow>,
    patterns: set<PatternRow<P>>)

  /** The co-approval rows of report `id`. */
  function RowsOf<P>(s: MainStore<P>, id: nat): set<CoApprovalRow> {
    set row | row in s.coApprovals && row.reportId == id
  }

  /** The voting-pattern rows of report `id`. */
  function PatternsOf<P>(s: MainStore<P>, id: nat): set<PatternRow<P>> {
    set row | row in s.patterns && row.reportId == id
  }

  /**
   * Delete the co-approval and voting-pattern rows of report `id`, then
   * insert the new rows and one pattern row.
   */
  function ReplaceReport<P>(s: MainStore<P>, id: nat, newRows: set<CoApprovalRow>, pattern: P): (r: MainStore<P>)
    requires forall row :: row in newRows ==> row.reportId == id
    ensures RowsOf(r, id) == newRows
    ensures PatternsOf(r, id) == {PatternRow(id, pattern)}
    ensures forall other :: other != id ==> RowsOf(r, other) == RowsOf(s, other) && PatternsOf(r, other) == PatternsOf(s, other)
    ensures r.reports == s.reports && r.candidates == s.candidates
  {
    s.(coApprovals := (set row | row in s.coApprovals && row.reportId != id) + newRows,
       patterns := (set row | row in s.patterns && row.reportId != id) + {PatternRow(id, pattern)})
  }

  /** Replacing a report's rows a second time with the same rows changes nothing. */
  lemma ReplaceReportIdempotent<P>(s: MainStore<P>, id: nat, newRows: set<CoApprovalRow>, pattern: P)
    requires forall row :: row in newRows ==> row.reportId == id
    ensures ReplaceReport(ReplaceReport(s, id, newRows, pattern), id, newRows, pattern) == ReplaceReport(s, id, newRows, pattern)
  {
    var once := ReplaceReport(s, id, newRows, pattern);
    var twice := ReplaceReport(once, id, newRows, pattern);
    assert twice.coApprovals == once.coApprovals;
    assert twice.patterns == once.patterns;
  }

  /** `SELECT id FROM reports WHERE office = ? AND date = ?` with `fetchone`: the first such report. */
  function FindReport(reports: seq<Report>, office: string, date: string): (r: Option<Report>)
    ensures r.Some? ==> r.value in reports && r.value.office == office && r.value.date == date
    ensures r.None? ==> forall i :: 0 <= i < |reports| ==> !(reports[i].office == office && reports[i].date == date)
  {
    if reports == [] then None
    else if reports[0].office == office && reports[0].date == date then Some(reports[0])
    else
      var r := FindReport(reports[1..], office, date);
      assert forall i :: 1 <= i < |reports| ==> reports[i] == reports[1..][i - 1];
      r
  }

  /** `SELECT id FROM reports WHERE path = ?` with `fetchone`: the first report filed under `path`. */
  function FindReportByPath(reports: seq<Report>, path: string): (r: Option<Report>)
    ensures r.Some? ==> r.value in reports && r.value.path == path
    ensures r.None? ==> forall i :: 0 <= i < |reports| ==> reports[i].path != path
  {
    if reports == [] then None
    else if reports[0].path == path then Some(reports[0])
    else
      var r := FindReportByPath(reports[1..], path);
      assert forall i :: 1 <= i < |reports| ==> reports[i] == reports[1..][i - 1];
      r
  }

  /** `UPDATE reports SET ballotCount = ? WHERE id = ?`. */
  function SetBallotCount(reports: seq<Report>, id: nat, count: nat): (r: seq<Report>)
    ensures |r| == |reports|
    ensures forall i :: 0 <= i < |r| ==>
              r[i] == if reports[i].id == id then reports[i].(ballotCount := count) else reports[i]
  {
    seq(|reports|, i requires 0 <= i < |reports| =>
      if reports[i].id == id then reports[i].(ballotCount := count) else reports[i])
  }

  /** `UPDATE candidates SET votes = ? WHERE report_id = ? AND name = ?`. */
  function SetVotes(rows: seq<CandidateRow>, id: nat, name: string, votes: nat): (r: seq<CandidateRow>)
    ensures |r| == |rows|
    ensures forall i :: 0 <= i < |r| ==> r[i].reportId == rows[i].reportId && r[i].name == rows[i].name
    ensures forall i :: 0 <= i < |r| ==> r[i].votes == if rows[i].reportId == id && rows[i].name == name then votes else rows[i].votes
  {
    seq(|rows|, i requires 0 <= i < |rows| =>
      if rows[i].reportId == id && rows[i].name == name then rows[i].(votes := votes) else rows[i])
  }

  /** The vote-update loop: each `(cvr_name, count)` sets the votes of the matched candidate of report `id`. */
  function ApplyVotes(rows: seq<CandidateRow>, id: nat, tallies: seq<(string, nat)>, names: map<string, string>): (r: seq<CandidateRow>)
    ensures |r| == |rows|
    ensures forall i :: 0 <= i < |r| ==> r[i].reportId == rows[i].reportId && r[i].name == rows[i].name
    decreases |tallies|
  {
    if tallies == [] then rows
    else
      var n := |tallies| - 1;
      var before := ApplyVotes(rows, id, tallies[..n], names);
      SetVotes(before, id, Rename(names, tallies[n].0), tallies[n].1)
  }

  /** The tallies' renamed names are pairwise distinct. */
  predicate DistinctTargets(tallies: seq<(string, nat)>, names: map<string, string>) {
    forall i, j :: 0 <= i < j < |tallies| ==> Rename(names, tallies[i].0) != Rename(names, tallies[j].0)
  }

  /**
   * When no two tallies land on the same candidate, every candidate row of
   * the report named by a tally holds that tally's count, and every other
   * row keeps its votes.
   */
  lemma {:induction false} ApplyVotesSets(rows: seq<CandidateRow>, id: nat, tallies: seq<(string, nat)>, names: map<string, string>)
    requires DistinctTargets(tallies, names)
    ensures forall i, k :: 0 <= i < |rows| && 0 <= k < |tallies| && rows[i].reportId == id && rows[i].name == Rename(names, tallies[k].0)
              ==> ApplyVotes(rows, id, tallies, names)[i].votes == tallies[k].1
    ensures forall i :: 0 <= i < |rows| && (rows[i].reportId != id || forall k :: 0 <= k < |tallies| ==> rows[i].name != Rename(names, tallies[k].0))
              ==> ApplyVotes(rows, id, tallies, names)[i].votes == rows[i].votes
    decreases |tallies|
  {
    if tallies != [] {
      var n := |tallies| - 1;
      ApplyVotesSets(rows, id, tallies[..n], names);
      forall i, k | 0 <= i < |rows| && 0 <= k < n && rows[i].reportId == id && rows[i].name == Rename(names, tallies[k].0)
        ensures ApplyVotes(rows, id, tallies, names)[i].votes == tallies[k].1
      {
        assert tallies[..n][k] == tallies[k];
      }
      forall i | 0 <= i < |rows| && (rows[i].reportId != id || forall k :: 0 <= k < |tallies| ==> rows[i].name != Rename(names, tallies[k].0))
        ensures ApplyVotes(rows, id, tallies, names)[i].votes == rows[i].votes
      {
        if rows[i].reportId == id {
          assert forall k :: 0 <= k < n ==> tallies[..n][k] == tallies[k];
        }
      }
    }
  }

  /** The names of report `id`'s candidates, in table order: `proper_names`. */
  function ProperNames(rows: seq<CandidateRow>, id: nat): (names: seq<string>)
    ensures forall x :: x in names <==> exists i :: 0 <= i < |rows| && rows[i].reportId == id && rows[i].name == x
  {
    if rows == [] then []
    else
      var n := |rows| - 1;
      var before := ProperNames(rows[..n], id);
      assert forall i :: 0 <= i < n ==> rows[..n][i] == rows[i];
      if rows[n].reportId == id then before + [rows[n].name] else before
  }

  /** Updating ballot counts keeps every report's office, date and id, so the same report is found again. */
  lemma SameReportFound(reports: seq<Report>, id: nat, count: nat, office: string, date: string)
    requires FindReport(reports, office, date).Some? && FindReport(reports, office, date).value.id == id
    ensures FindReport(SetBallotCount(reports, id, count), office, date).Some?
    ensures FindReport(SetBallotCount(reports, id, count), office, date).value.id == id
    decreases |reports|
  {
    if reports[0].office == office && reports[0].date == date {
    } else {
      assert SetBallotCount(reports, id, count)[1..] == SetBallotCount(reports[1..], id, count);
      SameReportFound(reports[1..], id, count, office, date);
    }
  }

  /** Vote updates keep every candidate row's report and name, so the report's candidate names are unchanged. */
  lemma SameProperNames(rows: seq<CandidateRow>, id: nat, tallies: seq<(string, nat)>, names: map<string, string>)
    ensures ProperNames(ApplyVotes(rows, id, tallies, names), id) == ProperNames(rows, id)
  {
    var after := ApplyVotes(rows, id, tallies, names);
    SameNamesPointwise(rows, after, id);
  }

  lemma {:induction false} SameNamesPointwise(a: seq<CandidateRow>, b: seq<CandidateRow>, id: nat)
    requires |a| == |b|
    requires forall i :: 0 <= i < |a| ==> a[i].reportId == b[i].reportId && a[i].name == b[i].name
    ensures ProperNames(a, id) == ProperNames(b, id)
    decreases |a|
  {
    if a != [] {
      SameNamesPointwise(a[..|a| - 1], b[..|b| - 1], id);
    }
  }
}
