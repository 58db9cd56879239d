/**
 * Writing one contest's analysis into the reporting database: the contest
 * name selects the report, CVR candidate names are matched to the report's
 * candidate names, the analysis is relabelled with the matched names, and
 * the report's co-approval and voting-pattern rows are replaced wholesale.
 */
module Reconcile {
  import opened Wrappers
  import opened Text
  import opened Approval
  import opened StLouis
  import opened Reports

  // ---------------------------------------------------------------------------
  // Name matching
  // ---------------------------------------------------------------------------

  /**
   * `normalize_for_match`: upper-case, the two quote replacements (each
   * replaces `"` by itself), then `.` and spaces removed.
   */
  function NormalizeForMatch(name: string): (r: string)
    ensures '.' !in r && ' ' !in r
    ensures forall c :: c in r ==> !IsLowerAscii(c)
  {
    var upper := Upper(name);
    var quoted := ReplaceAll(ReplaceAll(upper, "\"", "\""), "\"", "\"");
    var undotted := ReplaceAll(quoted, ".", "");
    UpperHasNoLower(name);
    assert forall c :: c in upper ==> !IsLowerAscii(c);
    ReplaceAllSame(upper, "\"");
    ReplaceAllSame(upper, "\"");
    ReplaceAllChars(quoted, ".", "");
    ReplaceCharRemoves(quoted, '.', "");
    ReplaceAllChars(undotted, " ", "");
    ReplaceCharRemoves(undotted, ' ', "");
    ReplaceAllChars(undotted, " ", "");
    NoDotAfterSpaceRemoval(undotted);
    ReplaceAll(undotted, " ", "")
  }

  lemma NoDotAfterSpaceRemoval(s: string)
    requires '.' !in s
    ensures '.' !in ReplaceAll(s, " ", "")
  {
    ReplaceAllChars(s, " ", "");
  }

  lemma UpperIdentity(s: string)
    requires forall c :: c in s ==> !IsLowerAscii(c)
    ensures Upper(s) == s
  {
    UpperHasNoLower(s);
  }

  /** The quote replacements change nothing: matching is upper-case with dots and spaces removed. */
  lemma QuoteReplacementsAreNoOps(name: string)
    ensures NormalizeForMatch(name) == ReplaceAll(ReplaceAll(Upper(name), ".", ""), " ", "")
  {
    ReplaceAllSame(Upper(name), "\"");
  }

  /** A normalized name is its own normalization. */
  lemma NormalizeForMatchIdempotent(name: string)
    ensures NormalizeForMatch(NormalizeForMatch(name)) == NormalizeForMatch(name)
  {
    var r := NormalizeForMatch(name);
    UpperIdentity(r);
    QuoteReplacementsAreNoOps(r);
    AbsentHeadNotContained(r, ".");
    ReplaceAllAbsent(r, ".", "");
    AbsentHeadNotContained(r, " ");
    ReplaceAllAbsent(r, " ", "");
  }

  /** Two names match when their normalizations agree. */
  predicate Matches(a: string, b: string) {
    NormalizeForMatch(a) == NormalizeForMatch(b)
  }

  /** The position of the first of `proper[i..]` that matches `name`, if any. */
  function FirstMatchFrom(name: string, proper: seq<string>, i: nat): (r: Option<nat>)
    requires i <= |proper|
    ensures r.None? <==> forall j :: i <= j < |proper| ==> !Matches(name, proper[j])
    ensures r.Some? ==> i <= r.value < |proper| && Matches(name, proper[r.value]) &&
                        forall j :: i <= j < r.value ==> !Matches(name, proper[j])
    decreases |proper| - i
  {
    if i == |proper| then None
    else if Matches(name, proper[i]) then Some(i)
    else FirstMatchFrom(name, proper, i + 1)
  }

  /** The first of `proper` that matches `name`, if any: the inner loop with its `break`. */
  function FirstMatch(name: string, proper: seq<string>): (r: Option<string>)
    ensures r.None? <==> forall i :: 0 <= i < |proper| ==> !Matches(name, proper[i])
    ensures r.Some? ==> exists i :: 0 <= i < |proper| && proper[i] == r.value && Matches(name, proper[i]) &&
                          forall j :: 0 <= j < i ==> !Matches(name, proper[j])
  {
    match FirstMatchFrom(name, proper, 0)
    case None => None
    case Some(i) => Some(proper[i])
  }

  /** `create_candidate_name_mapping`: each CVR name with a matching report name maps to its first match. */
  function NameMapping(cvrNames: seq<string>, proper: seq<string>): (m: map<string, string>)
    ensures forall c :: c in m <==> c in cvrNames && FirstMatch(c, proper).Some?
    ensures forall c :: c in m ==> m[c] == FirstMatch(c, proper).value
  {
    map c | c in cvrNames && FirstMatch(c, proper).Some? :: FirstMatch(c, proper).value
  }

  /** A mapped name matches the name it came from, and an unmatched one is kept as is. */
  lemma RenameMatches(cvrNames: seq<string>, proper: seq<string>, c: string)
    ensures var r := Rename(NameMapping(cvrNames, proper), c);
      && Matches(c, r)
      && (r != c ==> r in proper)
      && ((c !in cvrNames || forall i :: 0 <= i < |proper| ==> !Matches(c, proper[i])) ==> r == c)
  {
  }

  // ---------------------------------------------------------------------------
  // Relabelling
  // ---------------------------------------------------------------------------

  /** Re-key `m` by renamed keys, visiting the keys listed in `order`; a later key wins a collision. */
  function RelabelFrom<V>(m: map<Candidate, V>, order: seq<Candidate>, names: map<string, string>): (r: map<Candidate, V>)
    requires forall i :: 0 <= i < |order| ==> order[i] in m
    ensures forall x :: x in r <==> exists i :: 0 <= i < |order| && Rename(names, order[i]) == x
  {
    if order == [] then map[]
    else
      var n := |order| - 1;
      var r := RelabelFrom(m, order[..n], names);
      assert forall i :: 0 <= i < n ==> order[..n][i] == order[i];
      r[Rename(names, order[n]) := m[order[n]]]
  }

  /** No two listed keys are renamed to the same name. */
  predicate RenameInjective(order: seq<Candidate>, names: map<string, string>) {
    forall i, j :: 0 <= i < |order| && 0 <= j < |order| && order[i] != order[j] ==>
      Rename(names, order[i]) != Rename(names, order[j])
  }

  /** Without collisions, every key's value is found under its renamed key. */
  lemma {:induction false} RelabelFromValues<V>(m: map<Candidate, V>, order: seq<Candidate>, names: map<string, string>)
    requires forall i :: 0 <= i < |order| ==> order[i] in m
    requires RenameInjective(order, names)
    ensures forall i :: 0 <= i < |order| ==> RelabelFrom(m, order, names)[Rename(names, order[i])] == m[order[i]]
    decreases |order|
  {
    if order != [] {
      var n := |order| - 1;
      RelabelFromValues(m, order[..n], names);
      forall i | 0 <= i < |order|
        ensures RelabelFrom(m, order, names)[Rename(names, order[i])] == m[order[i]]
      {
        if i < n && order[i] != order[n] {
          assert order[..n][i] == order[i];
        }
      }
    }
  }

  /** The listing of a map's keys used for relabelling: name order, standing in for the source's set order. */
  function KeyOrder<V>(m: map<Candidate, V>): (order: seq<Candidate>)
    ensures forall i :: 0 <= i < |order| ==> order[i] in m
    ensures forall c :: c in m ==> c in order
  {
    SortedElements(m.Keys)
  }

  /**
   * The `mapped_distributions` / `mapped_anyone_but` loops: each entry moves
   * to the renamed key; the renamed keys are exactly the keys of the result.
   */
  function Relabel<V>(m: map<Candidate, V>, names: map<string, string>): (r: map<Candidate, V>)
    ensures forall x :: x in r <==> exists c :: c in m && Rename(names, c) == x
  {
    var order := KeyOrder(m);
    var r := RelabelFrom(m, order, names);
    assert forall x :: x in r <==> exists c :: c in m && Rename(names, c) == x by {
      forall x ensures x in r <==> exists c :: c in m && Rename(names, c) == x {
        if exists c :: c in m && Rename(names, c) == x {
          var c :| c in m && Rename(names, c) == x;
          var i :| 0 <= i < |order| && order[i] == c;
        }
      }
    }
    r
  }

  /** When no two keys are renamed alike, relabelling keeps every value under the renamed key. */
  lemma RelabelValues<V>(m: map<Candidate, V>, names: map<string, string>)
    requires forall a, b :: a in m && b in m && a != b ==> Rename(names, a) != Rename(names, b)
    ensures forall c :: c in m ==> Rename(names, c) in Relabel(m, names) && Relabel(m, names)[Rename(names, c)] == m[c]
  {
    var order := KeyOrder(m);
    RelabelFromValues(m, order, names);
    forall c | c in m ensures Relabel(m, names)[Rename(names, c)] == m[c] {
      var i :| 0 <= i < |order| && order[i] == c;
    }
  }

  /** The relabelled matrix as rows of report `id`: each pair keeps its count and rate under the renamed names. */
  function CoApprovalRows(id: nat, matrix: map<(Candidate, Candidate), Entry>, names: map<string, string>): (rows: set<CoApprovalRow>)
    ensures forall row :: row in rows ==> row.reportId == id
    ensures forall row :: row in rows <==>
              (exists k :: k in matrix && row == CoApprovalRow(id, Rename(names, k.0), Rename(names, k.1), matrix[k].count, matrix[k].rate))
  {
    set k | k in matrix :: CoApprovalRow(id, Rename(names, k.0), Rename(names, k.1), matrix[k].count, matrix[k].rate)
  }

  /**
   * The relabelled voting patterns: the conditional histograms and the
   * anyone-but tallies move to the matched names; the most common
   * combination keeps the CVR names.
   */
  function RelabelPatterns(pt: Patterns, names: map<string, string>): (r: Patterns)
    ensures r.mostCommonCombination == pt.mostCommonCombination
    ensures r.totalBallots == pt.totalBallots && r.approvalDistribution == pt.approvalDistribution
    ensures r.anyoneButAnalysis.Some? <==> pt.anyoneButAnalysis.Some?
    ensures forall x :: x in r.candidateApprovalDistributions <==>
              exists c :: c in pt.candidateApprovalDistributions && Rename(names, c) == x
  {
    pt.(candidateApprovalDistributions := Relabel(pt.candidateApprovalDistributions, names),
        anyoneButAnalysis := match pt.anyoneButAnalysis
          case None => None
          case Some(ab) => Some(Relabel(ab, names)))
  }

  /** The election date the St. Louis reports are filed under. */
  const ElectionDate := "2025-03-04"

  /**
   * One iteration of the export loop. `analysis` is the contest's analysis,
   * `cvrNames` the distinct candidate names of its selections, and `tallies`
   * the `(candidate_name, approvals)` rows of the vote query.
   */
  function ExportContest(s: MainStore<Patterns>, contestName: string, analysis: Analysis,
                         cvrNames: seq<string>, tallies: seq<(string, nat)>): (r: MainStore<Patterns>)
    ensures FindReport(s.reports, NormalizeContestName(contestName), ElectionDate).None? ==> r == s
    ensures analysis.NotEnoughData? || (analysis.Analysis? && analysis.coApprovals == map[]) ==> r == s
  {
    match FindReport(s.reports, NormalizeContestName(contestName), ElectionDate)
    case None => s
    case Some(report) =>
      var names := NameMapping(cvrNames, ProperNames(s.candidates, report.id));
      match analysis
      case NotEnoughData => s
      case Analysis(matrix, pt) =>
        if matrix == map[] then s
        else
          var replaced := ReplaceReport(s, report.id, CoApprovalRows(report.id, matrix, names), RelabelPatterns(pt, names));
          replaced.(reports := SetBallotCount(replaced.reports, report.id, pt.totalBallots),
                    candidates := ApplyVotes(replaced.candidates, report.id, tallies, names))
  }

  /**
   * When the contest has a report and a non-empty matrix, the report's rows
   * are exactly the relabelled newRows rows and one relabelled pattern row, the
   * report's ballot count is the analysed ballot count, and the rows of every
   * other report are untouched.
   */
  lemma ExportReplaces(s: MainStore<Patterns>, contestName: string, analysis: Analysis,
                       cvrNames: seq<string>, tallies: seq<(string, nat)>)
    requires FindReport(s.reports, NormalizeContestName(contestName), ElectionDate).Some?
    requires analysis.Analysis? && analysis.coApprovals != map[]
    ensures var report := FindReport(s.reports, NormalizeContestName(contestName), ElectionDate).value;
      var names := NameMapping(cvrNames, ProperNames(s.candidates, report.id));
      var r := ExportContest(s, contestName, analysis, cvrNames, tallies);
      && RowsOf(r, report.id) == CoApprovalRows(report.id, analysis.coApprovals, names)
      && PatternsOf(r, report.id) == {PatternRow(report.id, RelabelPatterns(analysis.patterns, names))}
      && (forall other :: other != report.id ==> RowsOf(r, other) == RowsOf(s, other) && PatternsOf(r, other) == PatternsOf(s, other))
      && (forall i :: 0 <= i < |r.reports| && r.reports[i].id == report.id ==> r.reports[i].ballotCount == analysis.patterns.totalBallots)
  {
  }

  /** Exporting the same contest twice leaves the same co-approval and pattern rows as exporting it once. */
  lemma ExportIdempotentRows(s: MainStore<Patterns>, contestName: string, analysis: Analysis,
                             cvrNames: seq<string>, tallies: seq<(string, nat)>)
    ensures var once := ExportContest(s, contestName, analysis, cvrNames, tallies);
      var twice := ExportContest(once, contestName, analysis, cvrNames, tallies);
      twice.coApprovals == once.coApprovals && twice.patterns == once.patterns
  {
    var once := ExportContest(s, contestName, analysis, cvrNames, tallies);
    var office := NormalizeContestName(contestName);
    var found := FindReport(s.reports, office, ElectionDate);
    if found.Some? && analysis.Analysis? && analysis.coApprovals != map[] {
      var report := found.value;
      SameReportFound(s.reports, report.id, analysis.patterns.totalBallots, office, ElectionDate);
      assert once.candidates == ApplyVotes(s.candidates, report.id, tallies, NameMapping(cvrNames, ProperNames(s.candidates, report.id)));
      SameProperNames(s.candidates, report.id, tallies, NameMapping(cvrNames, ProperNames(s.candidates, report.id)));
      ReplaceReportIdempotent(s, report.id, CoApprovalRows(report.id, analysis.coApprovals, NameMapping(cvrNames, ProperNames(s.candidates, report.id))),
                              RelabelPatterns(analysis.patterns, NameMapping(cvrNames, ProperNames(s.candidates, report.id))));
    }
  }
}
