/**
 * The St. Louis analysis of one contest, in its two versions: the current
 * one with the "anyone-but" tallies and the older one without them. Both
 * read the approval selections of the contest, one `(ballot_id,
 * candidate_name)` row per approval in ballot-id order, and group them into
 * one approval set per ballot.
 */
module StLouis {
  import opened Wrappers
  import opened Text
  import opened Counting
  import opened Approval

  // ---------------------------------------------------------------------------
  // Contest names
  // ---------------------------------------------------------------------------

  /** `normalize_contest_name`: lower-case, `" - "` to `"-"`, spaces removed. */
  function NormalizeContestName(name: string): (r: string)
    ensures ' ' !in r
    ensures forall c :: c in r ==> !IsUpperAscii(c)
  {
    var lowered := Lower(name);
    var joined := ReplaceAll(lowered, " - ", "-");
    LowerHasNoUpper(name);
    assert forall c :: c in lowered ==> !IsUpperAscii(c);
    ReplaceAllChars(lowered, " - ", "-");
    ReplaceAllChars(joined, " ", "");
    ReplaceCharRemoves(joined, ' ', "");
    ReplaceAll(joined, " ", "")
  }

  lemma LowerIdentity(s: string)
    requires forall c :: c in s ==> !IsUpperAscii(c)
    ensures Lower(s) == s
  {
    LowerHasNoUpper(s);
  }

  /** A normalized name is its own normalization. */
  lemma NormalizeIdempotent(name: string)
    ensures NormalizeContestName(NormalizeContestName(name)) == NormalizeContestName(name)
  {
    var r := NormalizeContestName(name);
    LowerIdentity(r);
    AbsentHeadNotContained(r, " - ");
    ReplaceAllAbsent(r, " - ", "-");
    AbsentHeadNotContained(r, " ");
    ReplaceAllAbsent(r, " ", "");
  }

  /**
   * A name of the form "OFFICE - DISTRICT N", with single words on either
   * side of the dash, normalizes to "office-districtn".
   */
  lemma NormalizeDashedName(office: string, district: string, n: string)
    requires ' ' !in office && ' ' !in district && ' ' !in n && '-' !in office && '-' !in n
    requires forall c :: c in office + district + n ==> !IsUpperAscii(c)
    ensures NormalizeContestName(office + " - " + district + " " + n) == office + "-" + district + n
  {
    var name := office + " - " + district + " " + n;
    forall c | c in name ensures !IsUpperAscii(c) {
      assert c in office + district + n || c in " -";
    }
    LowerIdentity(name);
    DashStep(office, district, n);
    SpaceStep(office + "-" + district, n);
    assert office + "-" + district + " " + n == (office + "-" + district) + (" " + n);
  }

  lemma DashAbsent(n: string)
    requires ' ' !in n && '-' !in n
    ensures !Contains(" " + n, " - ")
  {
    var t := " " + n;
    forall i | 0 <= i <= |t| ensures !OccursAt(t, " - ", i) {
      assert " - "[0] == ' ' && " - "[1] == '-';
      if i + 3 <= |t| {
        if i == 0 {
          assert t[i..i + 3][1] == n[0] && n[0] in n;
        } else {
          assert t[i..i + 3][0] == n[i - 1] && n[i - 1] in n;
        }
      }
    }
  }

  lemma Regroup(a: string, b: string, c: string, d: string, e: string)
    ensures a + b + c + d + e == a + (b + (c + (d + e)))
  {
  }

  lemma DashStep(office: string, district: string, n: string)
    requires ' ' !in office && ' ' !in district && ' ' !in n && '-' !in n
    ensures ReplaceAll(office + " - " + district + " " + n, " - ", "-") == office + "-" + district + " " + n
  {
    var t := " " + n;
    var dt := district + t;
    DashAbsent(n);
    ReplaceAllAbsent(t, " - ", "-");
    ReplaceAllSkip(district, t, " - ", "-");
    assert ReplaceAll(dt, " - ", "-") == dt;
    ReplaceAllHead(" - ", dt, "-");
    assert ReplaceAll(" - " + dt, " - ", "-") == "-" + dt;
    ReplaceAllSkip(office, " - " + dt, " - ", "-");
    assert ReplaceAll(office + (" - " + dt), " - ", "-") == office + ("-" + dt);
    Regroup(office, " - ", district, " ", n);
    Regroup(office, "-", district, " ", n);
  }

  lemma SpaceStep(head: string, n: string)
    requires ' ' !in head && ' ' !in n
    ensures ReplaceAll(head + (" " + n), " ", "") == head + n
  {
    ReplaceAllSkip(head, " " + n, " ", "");
    LeadingSpaceDropped(n);
  }

  lemma LeadingSpaceDropped(n: string)
    requires ' ' !in n
    ensures ReplaceAll(" " + n, " ", "") == n
  {
    ReplaceAllHead(" ", n, "");
    AbsentHeadNotContained(n, " ");
    ReplaceAllAbsent(n, " ", "");
    assert "" + n == n;
  }

  /** Normalization lower-cases first, so a name and its lower-cased form normalize alike. */
  lemma NormalizeLowerFirst(name: string)
    ensures NormalizeContestName(name) == NormalizeContestName(Lower(name))
  {
    LowerHasNoUpper(name);
    LowerIdentity(Lower(name));
  }

  lemma WardLowered()
    ensures Lower("ALDERMAN - WARD 3") == "alderman - ward 3"
  {
    var s, t := "ALDERMAN - WARD 3", "alderman - ward 3";
    forall i | 0 <= i < |s| ensures LowerChar(s[i]) == t[i] {
    }
  }

  /** A name whose lower-cased form reads "office - district n" normalizes to "office-districtn". */
  lemma NormalizeLoweredDashed(name: string, office: string, district: string, n: string, key: string)
    requires ' ' !in office && ' ' !in district && ' ' !in n && '-' !in office && '-' !in n
    requires forall c :: c in office + district + n ==> !IsUpperAscii(c)
    requires Lower(name) == office + " - " + district + " " + n
    requires key == office + "-" + district + n
    ensures NormalizeContestName(name) == key
  {
    NormalizeLowerFirst(name);
    NormalizeDashedName(office, district, n);
  }

  /** The ward contests normalize to the office keys of the reports. */
  lemma NormalizeWardExample()
    ensures NormalizeContestName("ALDERMAN - WARD 3") == "alderman-ward3"
  {
    WardLowered();
    NormalizeLoweredDashed("ALDERMAN - WARD 3", "alderman", "ward", "3", "alderman-ward3");
  }

  // ---------------------------------------------------------------------------
  // Grouping the approval rows by ballot
  // ---------------------------------------------------------------------------

  /** One row of the selection query: an approval of `candidate` on ballot `ballotId`. */
  datatype Selection = Selection(ballotId: nat, candidate: Candidate)

  /** `ballot_approvals` as its items: ballot id and approval set, in first-appearance order. */
  type Grouping = seq<(nat, Ballot)>

  /** The position of ballot `id` in the grouping, if it has one. */
  function Find(g: Grouping, id: nat): (r: Option<nat>)
    ensures r.Some? ==> r.value < |g| && g[r.value].0 == id
    ensures r.None? ==> forall i :: 0 <= i < |g| ==> g[i].0 != id
  {
    if g == [] then None
    else if g[|g| - 1].0 == id then Some(|g| - 1)
    else Find(g[..|g| - 1], id)
  }

  /** No ballot id is listed twice. */
  predicate DistinctIds(g: Grouping) {
    forall i, j :: 0 <= i < j < |g| ==> g[i].0 != g[j].0
  }

  /** `ballot_approvals[row[0]].add(row[1])` for every row, in row order. */
  function GroupByBallot(rows: seq<Selection>): (g: Grouping)
    ensures DistinctIds(g)
    ensures forall i :: 0 <= i < |g| ==> g[i].1 != {}
    ensures |g| <= |rows|
  {
    if rows == [] then []
    else AddApproval(GroupByBallot(rows[..|rows| - 1]), rows[|rows| - 1])
  }

  /** One pass of the grouping loop: add the candidate to its ballot's set, starting a group for a new ballot. */
  function AddApproval(g: Grouping, row: Selection): (r: Grouping)
    requires DistinctIds(g)
    requires forall i :: 0 <= i < |g| ==> g[i].1 != {}
    ensures DistinctIds(r)
    ensures forall i :: 0 <= i < |r| ==> r[i].1 != {}
    ensures |r| <= |g| + 1
  {
    match Find(g, row.ballotId)
    case Some(j) => g[j := (row.ballotId, g[j].1 + {row.candidate})]
    case None => g + [(row.ballotId, {row.candidate})]
  }

  /** The grouping lists candidate `c` under ballot `id`. */
  predicate Lists(g: Grouping, id: nat, c: Candidate) {
    exists i :: 0 <= i < |g| && g[i].0 == id && c in g[i].1
  }

  /** The grouping holds exactly the approvals of the rows. */
  lemma {:induction false} GroupByBallotExact(rows: seq<Selection>)
    ensures forall id, c :: Lists(GroupByBallot(rows), id, c) <==> Selection(id, c) in rows
    decreases |rows|
  {
    if rows != [] {
      var init, row := rows[..|rows| - 1], rows[|rows| - 1];
      GroupByBallotExact(init);
      assert rows == init + [row];
      var g0 := GroupByBallot(init);
      forall id, c ensures Lists(GroupByBallot(rows), id, c) <==> Selection(id, c) in rows {
        AddApprovalLists(g0, row, id, c);
      }
    }
  }

  /** Adding a row lists exactly what was listed before, plus the row's own approval. */
  lemma AddApprovalLists(g: Grouping, row: Selection, id: nat, c: Candidate)
    requires DistinctIds(g)
    requires forall i :: 0 <= i < |g| ==> g[i].1 != {}
    ensures Lists(AddApproval(g, row), id, c) <==> Lists(g, id, c) || Selection(id, c) == row
  {
    var r := AddApproval(g, row);
    if Lists(r, id, c) {
      var i :| 0 <= i < |r| && r[i].0 == id && c in r[i].1;
      if i < |g| && (r[i] == g[i] || c in g[i].1) {
        assert Lists(g, id, c);
      }
    }
    if Lists(g, id, c) {
      var i :| 0 <= i < |g| && g[i].0 == id && c in g[i].1;
      assert r[i].0 == id && c in r[i].1;
    }
    if Selection(id, c) == row {
      var i := match Find(g, id) case Some(j) => j case None => |g|;
      assert r[i].0 == id && c in r[i].1;
    }
  }

  /** The approval sets of a grouping, in its order. */
  function Ballots(g: Grouping): (p: Profile)
    ensures |p| == |g|
    ensures forall i :: 0 <= i < |g| ==> p[i] == g[i].1
  {
    seq(|g|, i requires 0 <= i < |g| => g[i].1)
  }

  /** The profile read off the rows: one approval set per ballot with an approval row. */
  function ProfileOf(rows: seq<Selection>): Profile {
    Ballots(GroupByBallot(rows))
  }

  lemma ProfileBallotsNonEmpty(rows: seq<Selection>)
    ensures forall i :: 0 <= i < |ProfileOf(rows)| ==> ProfileOf(rows)[i] != {}
  {
  }

  /** Every ballot of the profile approves someone, and its candidates are exactly those named in the rows. */
  lemma ProfileOfRows(rows: seq<Selection>)
    ensures forall i :: 0 <= i < |ProfileOf(rows)| ==> ProfileOf(rows)[i] != {}
    ensures forall c :: c in Candidates(ProfileOf(rows)) <==> exists id :: Selection(id, c) in rows
  {
    var g := GroupByBallot(rows);
    var p := ProfileOf(rows);
    GroupByBallotExact(rows);
    forall c ensures c in Candidates(p) <==> exists id :: Selection(id, c) in rows {
      if c in Candidates(p) {
        var i :| 0 <= i < |p| && c in p[i];
        assert Lists(g, g[i].0, c);
      }
      if exists id :: Selection(id, c) in rows {
        var id :| Selection(id, c) in rows;
        var i :| 0 <= i < |g| && g[i].0 == id && c in g[i].1;
        assert c in p[i];
      }
    }
  }

  // ---------------------------------------------------------------------------
  // Analysis
  // ---------------------------------------------------------------------------

  /** The `voting_patterns` record. `anyoneButAnalysis` is `None` where the key is absent. */
  datatype Patterns = Patterns(
    totalBallots: nat,
    bulletVotingCount: nat,
    bulletVotingRate: real,
    fullApprovalCount: nat,
    fullApprovalRate: real,
    averageApprovalsPerBallot: real,
    mostCommonCombination: seq<Candidate>,
    approvalDistribution: map<nat, nat>,
    candidateApprovalDistributions: map<Candidate, map<nat, nat>>,
    anyoneButAnalysis: Option<map<Candidate, nat>>)

  /** The pair `(co_approvals, voting_patterns)`; `NotEnoughData` is the `([], {})` answer. */
  datatype Analysis =
    | NotEnoughData
    | Analysis(coApprovals: map<(Candidate, Candidate), Entry>, patterns: Patterns)

  /** Fewer than two ballots with an approval, or fewer than two candidates approved. */
  predicate Degenerate(p: Profile) {
    |p| < 2 || |Candidates(p)| < 2
  }

  /** Patterns shared by both versions, for a profile of at least two ballots. */
  function CorePatterns(p: Profile, anyoneBut: Option<map<Candidate, nat>>): (r: Patterns)
    requires |p| >= 2
    ensures r.totalBallots == |p| && r.anyoneButAnalysis == anyoneBut
    ensures r.bulletVotingRate == Percent(r.bulletVotingCount, |p|)
    ensures r.fullApprovalRate == Percent(r.fullApprovalCount, |p|)
    ensures r.mostCommonCombination == MostCommonCombination(p)
    ensures r.averageApprovalsPerBallot == Average(p)
  {
    var cands := Candidates(p);
    var dist := Distribution(p);
    var bullet := Get(dist, 1);
    var full := Get(dist, |cands|);
    Patterns(
      |p|, bullet, Percent(bullet, |p|), full, Percent(full, |p|), Average(p),
      MostCommonCombination(p), dist,
      ConditionalDistributions(p, cands),
      anyoneBut)
  }

  /** `anyone_but_analysis`: ballots with exactly `n - 1` approvals count against the one candidate they leave out. */
  function AnyoneButOf(p: Profile): map<Candidate, nat> {
    AnyoneBut(p, Sizes(p), |Candidates(p)| - 1, Candidates(p))
  }

  /** `generate_co_approval_analysis` of the current version, on the contest's approval rows. */
  function Analyze(rows: seq<Selection>): (r: Analysis)
    ensures r.NotEnoughData? <==> Degenerate(ProfileOf(rows))
    ensures r.Analysis? ==> r.patterns.anyoneButAnalysis.Some?
  {
    var p := ProfileOf(rows);
    if Degenerate(p) then NotEnoughData
    else Analysis(Matrix(p, Candidates(p)), CorePatterns(p, Some(AnyoneButOf(p))))
  }

  /** `generate_co_approval_analysis` of the older version: the same analysis without the anyone-but key. */
  function AnalyzeLegacy(rows: seq<Selection>): (r: Analysis)
    ensures r.NotEnoughData? <==> Analyze(rows).NotEnoughData?
    ensures r.Analysis? ==> r.patterns.anyoneButAnalysis.None?
    ensures r.Analysis? ==>
              r.coApprovals == Analyze(rows).coApprovals &&
              r.patterns == Analyze(rows).patterns.(anyoneButAnalysis := None)
  {
    var p := ProfileOf(rows);
    if Degenerate(p) then NotEnoughData
    else Analysis(Matrix(p, Candidates(p)), CorePatterns(p, None))
  }

  // ---------------------------------------------------------------------------
  // What the analysis promises
  // ---------------------------------------------------------------------------

  /**
   * The matrix holds exactly the ordered pairs of distinct candidates named
   * in the rows, `n * (n - 1)` of them; each count is the number of ballots
   * approving both and each rate is that count as a percentage of the first
   * candidate's ballots.
   */
  lemma AnalyzeMatrix(rows: seq<Selection>)
    requires Analyze(rows).Analysis?
    ensures var p := ProfileOf(rows);
      var m := Analyze(rows).coApprovals;
      && m.Keys == OrderedPairs(Candidates(p))
      && |m| == PairCount(|Candidates(p)|)
      && (forall k :: k in m ==>
            && m[k].count == |Supporters(p, k.0) * Supporters(p, k.1)|
            && m[k].count <= Tally(p, k.1)
            && 0.0 <= m[k].rate <= 100.0)
    ensures forall c :: c in Candidates(ProfileOf(rows)) <==> exists id :: Selection(id, c) in rows
  {
    MatrixKeys(ProfileOf(rows));
    ProfileOfRows(rows);
  }

  lemma AnalyzeUnfold(rows: seq<Selection>)
    requires Analyze(rows).Analysis?
    ensures var p := ProfileOf(rows);
      && !Degenerate(p)
      && Analyze(rows).patterns == CorePatterns(p, Some(AnyoneButOf(p)))
  {
  }

  /**
   * The distribution holds every ballot once, the bullet and full-approval
   * counts are the ballots with exactly one and exactly `n` approvals, the
   * rates are percentages of the ballots, and the average lies between
   * zero and the number of candidates.
   */
  lemma AnalyzeHistogram(rows: seq<Selection>)
    requires Analyze(rows).Analysis?
    ensures var p := ProfileOf(rows);
      var n := |Candidates(p)|;
      var pt := Analyze(rows).patterns;
      && pt.totalBallots == |p|
      && BucketSum(pt.approvalDistribution, n) == pt.totalBallots
      && pt.bulletVotingCount == multiset(Sizes(p))[1]
      && pt.fullApprovalCount == multiset(Sizes(p))[n]
      && 0.0 <= pt.bulletVotingRate <= 100.0
      && 0.0 <= pt.fullApprovalRate <= 100.0
      && 0.0 <= pt.averageApprovalsPerBallot <= n as real
  {
    AnalyzeUnfold(rows);
    var p := ProfileOf(rows);
    PatternsHistogram(p, Some(AnyoneButOf(p)));
  }

  /** The average is the number of approvals over the number of ballots. */
  lemma AnalyzeAverage(rows: seq<Selection>)
    requires Analyze(rows).Analysis?
    ensures var p := ProfileOf(rows);
      var pt := Analyze(rows).patterns;
      |p| >= 2 && pt.averageApprovalsPerBallot == TotalApprovals(p) as real / |p| as real
  {
    AnalyzeUnfold(rows);
  }

  lemma PatternsHistogram(p: Profile, ab: Option<map<Candidate, nat>>)
    requires !Degenerate(p)
    ensures var n := |Candidates(p)|;
      var pt := CorePatterns(p, ab);
      && BucketSum(pt.approvalDistribution, n) == |p|
      && pt.bulletVotingCount == multiset(Sizes(p))[1]
      && pt.fullApprovalCount == multiset(Sizes(p))[n]
      && 0.0 <= pt.bulletVotingRate <= 100.0
      && 0.0 <= pt.fullApprovalRate <= 100.0
      && 0.0 <= pt.averageApprovalsPerBallot <= n as real
  {
    var n := |Candidates(p)|;
    var dist := Distribution(p);
    var pt := CorePatterns(p, ab);
    assert pt.approvalDistribution == dist;
    assert pt.bulletVotingCount == Get(dist, 1) && pt.fullApprovalCount == Get(dist, n);
    BallotsWithinCandidates(p);
    DistributionMass(p, n);
    DistributionCounts(p);
    BucketBelowSum(dist, 1, n);
    BucketBelowSum(dist, n, n);
    AverageBound(p, n);
  }

  /** Each candidate's conditional histogram holds exactly the ballots approving that candidate. */
  lemma AnalyzeConditional(rows: seq<Selection>)
    requires Analyze(rows).Analysis?
    ensures var p := ProfileOf(rows);
      var cond := Analyze(rows).patterns.candidateApprovalDistributions;
      && cond.Keys == Candidates(p)
      && forall c :: c in cond ==> BucketSum(cond[c], |Candidates(p)|) == Tally(p, c) == |Supporters(p, c)|
  {
    AnalyzeUnfold(rows);
    var p := ProfileOf(rows);
    PatternsConditional(p, Some(AnyoneButOf(p)));
  }

  lemma PatternsConditional(p: Profile, ab: Option<map<Candidate, nat>>)
    requires !Degenerate(p)
    ensures var cond := CorePatterns(p, ab).candidateApprovalDistributions;
      && cond.Keys == Candidates(p)
      && forall c :: c in cond ==> BucketSum(cond[c], |Candidates(p)|) == Tally(p, c) == |Supporters(p, c)|
  {
    assert CorePatterns(p, ab).candidateApprovalDistributions == ConditionalDistributions(p, Candidates(p));
    CandidateDistributions(p);
  }

  lemma CandidateDistributions(p: Profile)
    ensures var cond := ConditionalDistributions(p, Candidates(p));
      && cond.Keys == Candidates(p)
      && forall c :: c in cond ==> BucketSum(cond[c], |Candidates(p)|) == Tally(p, c) == |Supporters(p, c)|
  {
    var cond := ConditionalDistributions(p, Candidates(p));
    forall c | c in Candidates(p) ensures Tally(p, c) > 0 {
      CandidatesHaveSupport(p, c);
    }
    BallotsWithinCandidates(p);
    forall c | c in cond
      ensures BucketSum(cond[c], |Candidates(p)|) == Tally(p, c) == |Supporters(p, c)|
    {
      ConditionalMass(p, c, |Candidates(p)|);
    }
  }

  /**
   * `top` is a sorted listing of the approvals of some ballot `i`, no
   * approval set is shared by more ballots than that one, and every ballot
   * before `i` (in ballot-id order) holds a set shared by fewer: on ties the
   * set seen first wins.
   */
  ghost predicate IsMostCommonCombination(p: Profile, top: seq<Candidate>) {
    && StrictlySorted(top)
    && exists i :: 0 <= i < |p| && top == SortedElements(p[i]) &&
         (forall j :: 0 <= j < |p| ==> |ExactMatches(p, p[j])| <= |ExactMatches(p, p[i])|) &&
         (forall j :: 0 <= j < i ==> |ExactMatches(p, p[j])| < |ExactMatches(p, p[i])|)
  }

  /** The reported combination is a most common one, the first seen on ties. */
  lemma AnalyzeCombination(rows: seq<Selection>)
    requires Analyze(rows).Analysis?
    ensures IsMostCommonCombination(ProfileOf(rows), Analyze(rows).patterns.mostCommonCombination)
  {
    AnalyzeUnfold(rows);
    ProfileBallotsNonEmpty(rows);
    NonEmptyCombination(ProfileOf(rows));
  }

  lemma NonEmptyCombination(p: Profile)
    requires p != [] && forall i :: 0 <= i < |p| ==> p[i] != {}
    ensures IsMostCommonCombination(p, MostCommonCombination(p))
  {
    var i := MostCommonCombinationFirst(p);
    assert MostCommonCombination(p) == SortedElements(p[i]);
  }

  /** The anyone-but tally of a profile, against its own candidates. */
  lemma AnyoneButOfFacts(p: Profile)
    ensures var cands := Candidates(p);
      && (forall c :: Get(AnyoneButOf(p), c) == |Excluders(p, Sizes(p), |cands| - 1, cands, c)|)
      && SumOver(AnyoneButOf(p), SortedElements(cands)) <= |p|
  {
    var cands := Candidates(p);
    forall c ensures Get(AnyoneButOf(p), c) == |Excluders(p, Sizes(p), |cands| - 1, cands, c)| {
      AnyoneButCounts(p, Sizes(p), |cands| - 1, cands, c);
    }
    StrictlySortedDistinct(SortedElements(cands));
    AnyoneButTotal(p, Sizes(p), |cands| - 1, cands, SortedElements(cands));
  }

  /**
   * Every anyone-but count is the number of ballots with `n - 1` approvals
   * that leave out exactly that candidate, and together they count at most
   * one per ballot.
   */
  lemma AnalyzeAnyoneBut(rows: seq<Selection>)
    requires Analyze(rows).Analysis?
    ensures var p := ProfileOf(rows);
      var cands := Candidates(p);
      var ab := Analyze(rows).patterns.anyoneButAnalysis.value;
      && (forall c :: Get(ab, c) == |Excluders(p, Sizes(p), |cands| - 1, cands, c)|)
      && SumOver(ab, SortedElements(cands)) <= |p|
  {
    AnalyzeUnfold(rows);
    AnyoneButOfFacts(ProfileOf(rows));
  }

}
