/**
 * The Utah variant of the analysis. Its input is the decoded JSON list of
 * ballots, each a map from field name to value, and the report's candidate
 * list (ordered by name) read from the reporting database. Unlike the
 * St. Louis variants it keeps ballots with no approval, takes its candidate
 * list from the caller, reports the bullet and full-approval rates as
 * fractions, and may report the empty combination as the most common one.
 */
module Utah {
  import opened Wrappers
  import opened Text
  import opened Counting
  import opened Approval
  import opened Reports

  /** One decoded JSON ballot: field name -> value. */
  type UtahBallot = map<string, string>

  // ---------------------------------------------------------------------------
  // Approvals of one ballot
  // ---------------------------------------------------------------------------

  predicate IsVoteKey(k: string) {
    |k| >= 5 && k[..5] == "vote_"
  }

  /** Field `k` is an approval: its key starts with `vote_` and its value is non-empty. */
  predicate IsApproval(b: UtahBallot, k: string) {
    k in b && IsVoteKey(k) && b[k] != ""
  }

  /** The approving values met along `keys`, in that order. */
  function ApprovedAlong(b: UtahBallot, keys: seq<string>): (r: seq<Candidate>)
    ensures |r| <= |keys|
  {
    if keys == [] then []
    else
      var n := |keys| - 1;
      var r := ApprovedAlong(b, keys[..n]);
      if IsApproval(b, keys[n]) then r + [b[keys[n]]] else r
  }

  lemma {:induction false} ApprovedAlongMembers(b: UtahBallot, keys: seq<string>)
    ensures forall x :: x in ApprovedAlong(b, keys) <==> exists i :: 0 <= i < |keys| && IsApproval(b, keys[i]) && b[keys[i]] == x
    decreases |keys|
  {
    if keys != [] {
      var n := |keys| - 1;
      ApprovedAlongMembers(b, keys[..n]);
      assert forall i :: 0 <= i < n ==> keys[..n][i] == keys[i];
    }
  }

  /**
   * `[ballot[key] for key in sorted(ballot.keys()) if key.startswith("vote_") and ballot[key]]`:
   * the approvals of a ballot; a name listed under two fields appears twice.
   */
  function Approved(b: UtahBallot): seq<Candidate> {
    ApprovedAlong(b, SortedElements(b.Keys))
  }

  /** The approvals are the non-empty values of the `vote_` fields, whatever the field order. */
  lemma ApprovedMembers(b: UtahBallot)
    ensures forall x :: x in Approved(b) <==> exists k :: IsApproval(b, k) && b[k] == x
    ensures forall i :: 0 <= i < |Approved(b)| ==> Approved(b)[i] != ""
  {
    var keys := SortedElements(b.Keys);
    ApprovedAlongMembers(b, keys);
    assert forall i :: 0 <= i < |Approved(b)| ==> Approved(b)[i] in Approved(b);
  }

  /** The approval fields of a ballot. */
  function ApprovalFields(b: UtahBallot): set<string> {
    set k | k in b && IsApproval(b, k)
  }

  /** The keys listed in `keys` that are approval fields of `b`. */
  function ApprovalKeys(b: UtahBallot, keys: seq<string>): set<string> {
    set k | k in keys && IsApproval(b, k)
  }

  /** Listing one more key adds it to the approval keys exactly when it is an approval field. */
  lemma ApprovalKeysSnoc(b: UtahBallot, keys: seq<string>)
    requires keys != []
    ensures var n := |keys| - 1;
      ApprovalKeys(b, keys) == ApprovalKeys(b, keys[..n]) + (if IsApproval(b, keys[n]) then {keys[n]} else {})
  {
    var n := |keys| - 1;
    assert keys == keys[..n] + [keys[n]];
  }

  /** Along distinct keys, one approval is read per approval field listed. */
  lemma {:induction false} ApprovedAlongCount(b: UtahBallot, keys: seq<string>)
    requires Distinct(keys)
    ensures |ApprovedAlong(b, keys)| == |ApprovalKeys(b, keys)|
    decreases |keys|
  {
    if keys != [] {
      var n := |keys| - 1;
      ApprovedAlongCount(b, keys[..n]);
      ApprovalKeysSnoc(b, keys);
      assert keys[n] !in ApprovalKeys(b, keys[..n]);
    }
  }

  /** A ballot has exactly one approval per approval field. */
  lemma ApprovedCount(b: UtahBallot)
    ensures |Approved(b)| == |ApprovalFields(b)|
  {
    var keys := SortedElements(b.Keys);
    StrictlySortedDistinct(keys);
    ApprovedAlongCount(b, keys);
    assert ApprovalKeys(b, keys) == ApprovalFields(b);
  }

  // ---------------------------------------------------------------------------
  // The profile seen by the analysis
  // ---------------------------------------------------------------------------

  /** `set(xs)`. */
  function BallotSet(xs: seq<Candidate>): (s: Ballot)
    ensures forall x :: x in s <==> x in xs
  {
    set x | x in xs
  }

  /** Each ballot's approvals as a set, in list order: what `candidate in approved` consults. */
  function Sets(bs: seq<UtahBallot>): (p: Profile)
    ensures |p| == |bs|
    ensures forall i :: 0 <= i < |bs| ==> p[i] == BallotSet(Approved(bs[i]))
  {
    seq(|bs|, i requires 0 <= i < |bs| => BallotSet(Approved(bs[i])))
  }

  /** `len(approved)` for each ballot, in list order. */
  function Lengths(bs: seq<UtahBallot>): (r: seq<nat>)
    ensures |r| == |bs|
    ensures forall i :: 0 <= i < |bs| ==> r[i] == |Approved(bs[i])|
  {
    seq(|bs|, i requires 0 <= i < |bs| => |Approved(bs[i])|)
  }

  /** No ballot lists the same name under two fields. */
  ghost predicate NoRepeats(bs: seq<UtahBallot>) {
    forall i, c :: 0 <= i < |bs| ==> multiset(Approved(bs[i]))[c] <= 1
  }

  // ---------------------------------------------------------------------------
  // Vote tallies
  // ---------------------------------------------------------------------------

  /** `counter[x] += 1` for every listed `x`. */
  function BumpAll(m: map<Candidate, nat>, xs: seq<Candidate>): map<Candidate, nat> {
    if xs == [] then m else Bump(BumpAll(m, xs[..|xs| - 1]), xs[|xs| - 1])
  }

  /** `candidate_votes`: one vote per listed approval over all ballots. */
  function VoteTally(bs: seq<UtahBallot>): map<Candidate, nat> {
    if bs == [] then map[] else BumpAll(VoteTally(bs[..|bs| - 1]), Approved(bs[|bs| - 1]))
  }

  /** The number of times `c` is listed as an approval over all ballots. */
  function Occurrences(bs: seq<UtahBallot>, c: Candidate): nat {
    if bs == [] then 0 else Occurrences(bs[..|bs| - 1], c) + multiset(Approved(bs[|bs| - 1]))[c]
  }

  lemma {:induction false} BumpAllCounts(m: map<Candidate, nat>, xs: seq<Candidate>, c: Candidate)
    ensures Get(BumpAll(m, xs), c) == Get(m, c) + multiset(xs)[c]
    decreases |xs|
  {
    if xs != [] {
      var n := |xs| - 1;
      BumpAllCounts(m, xs[..n], c);
      assert xs == xs[..n] + [xs[n]];
    }
  }

  /** Each candidate's vote tally is the number of times it is listed as an approval. */
  lemma {:induction false} VoteTallyCounts(bs: seq<UtahBallot>, c: Candidate)
    ensures Get(VoteTally(bs), c) == Occurrences(bs, c)
    decreases |bs|
  {
    if bs != [] {
      var n := |bs| - 1;
      VoteTallyCounts(bs[..n], c);
      BumpAllCounts(VoteTally(bs[..n]), Approved(bs[n]), c);
    }
  }

  lemma SetsPrefix(bs: seq<UtahBallot>)
    requires bs != []
    ensures Sets(bs) == Sets(bs[..|bs| - 1]) + [Sets(bs)[|bs| - 1]]
  {
    MappedPrefix(bs, Sets(bs), Sets(bs[..|bs| - 1]), b => BallotSet(Approved(b)));
  }

  /** A list mapped element by element extends the mapped prefix by the image of its last element. */
  lemma MappedPrefix<A, B>(xs: seq<A>, ys: seq<B>, zs: seq<B>, f: A -> B)
    requires xs != [] && |ys| == |xs| && |zs| == |xs| - 1
    requires forall i :: 0 <= i < |xs| ==> ys[i] == f(xs[i])
    requires forall i :: 0 <= i < |zs| ==> zs[i] == f(xs[..|xs| - 1][i])
    ensures ys == zs + [ys[|ys| - 1]]
  {
    assert forall i :: 0 <= i < |zs| ==> xs[..|xs| - 1][i] == xs[i];
  }

  /** Whether the last ballot approves `c` is whether it lists `c`. */
  lemma LastBallotStep(bs: seq<UtahBallot>, c: Candidate)
    requires bs != []
    ensures var n := |bs| - 1;
      Tally(Sets(bs), c) == Tally(Sets(bs[..n]), c) + (if multiset(Approved(bs[n]))[c] > 0 then 1 else 0)
  {
    var n := |bs| - 1;
    SetsPrefix(bs);
    TallySnoc(Sets(bs[..n]), Sets(bs)[n], c);
    assert c in Sets(bs)[n] <==> multiset(Approved(bs[n]))[c] > 0;
  }

  /** The ballots approving `c` never outnumber its votes. */
  lemma {:induction false} TallyBelowVotes(bs: seq<UtahBallot>, c: Candidate)
    ensures Tally(Sets(bs), c) <= Occurrences(bs, c)
    decreases |bs|
  {
    if bs == [] {
      assert Sets(bs) == [];
    } else {
      TallyBelowVotes(bs[..|bs| - 1], c);
      LastBallotStep(bs, c);
    }
  }

  /** When no ballot lists a name twice, the ballots approving `c` are exactly its votes. */
  lemma {:induction false} TallyEqualsVotes(bs: seq<UtahBallot>, c: Candidate)
    requires NoRepeats(bs)
    ensures Tally(Sets(bs), c) == Occurrences(bs, c)
    decreases |bs|
  {
    if bs == [] {
      assert Sets(bs) == [];
    } else {
      var n := |bs| - 1;
      assert NoRepeats(bs[..n]) by {
        forall i, x | 0 <= i < n ensures multiset(Approved(bs[..n][i]))[x] <= 1 {
          assert bs[..n][i] == bs[i];
        }
      }
      TallyEqualsVotes(bs[..n], c);
      LastBallotStep(bs, c);
      assert multiset(Approved(bs[n]))[c] <= 1;
    }
  }

  // ---------------------------------------------------------------------------
  // The co-approval matrix over the supplied candidate list
  // ---------------------------------------------------------------------------

  /**
   * The rows emitted by the nested loops over `enumerate(candidates)`, keyed
   * by the two positions: every pair of distinct positions whose first
   * candidate has an approving ballot.
   */
  function UtahMatrix(p: Profile, cands: seq<Candidate>): (m: map<(nat, nat), PairRow>)
    ensures forall ij :: ij in m <==> ij.0 < |cands| && ij.1 < |cands| && ij.0 != ij.1 && Tally(p, cands[ij.0]) > 0
    ensures forall ij :: ij in m ==> m[ij].candidateA == cands[ij.0] && m[ij].candidateB == cands[ij.1]
    ensures forall ij :: ij in m ==>
              && m[ij].entry.count == |Supporters(p, cands[ij.0]) * Supporters(p, cands[ij.1])|
              && m[ij].entry.count <= Tally(p, cands[ij.0]) && m[ij].entry.count <= Tally(p, cands[ij.1])
              && m[ij].entry.rate == Percent(m[ij].entry.count, Tally(p, cands[ij.0]))
              && 0.0 <= m[ij].entry.rate <= 100.0
  {
    map ij | ij in PositionPairs(|cands|) && Tally(p, cands[ij.0]) > 0 ::
      PairRow(cands[ij.0], cands[ij.1], CoApproval(p, cands[ij.0], cands[ij.1]))
  }

  /** A pair's count is bounded by the vote tallies of both its candidates. */
  lemma MatrixWithinVotes(bs: seq<UtahBallot>, cands: seq<Candidate>)
    ensures var m := UtahMatrix(Sets(bs), cands);
      forall ij :: ij in m ==>
        m[ij].entry.count <= Get(VoteTally(bs), m[ij].candidateA) &&
        m[ij].entry.count <= Get(VoteTally(bs), m[ij].candidateB)
  {
    var m := UtahMatrix(Sets(bs), cands);
    forall ij | ij in m
      ensures m[ij].entry.count <= Get(VoteTally(bs), m[ij].candidateA)
      ensures m[ij].entry.count <= Get(VoteTally(bs), m[ij].candidateB)
    {
      TallyBelowVotes(bs, cands[ij.0]);
      TallyBelowVotes(bs, cands[ij.1]);
      VoteTallyCounts(bs, cands[ij.0]);
      VoteTallyCounts(bs, cands[ij.1]);
    }
  }

  // ---------------------------------------------------------------------------
  // Voting patterns
  // ---------------------------------------------------------------------------

  /** `mostCommonCombination`: the sorted approvals, their count and `count / total`. */
  datatype Combination = Combination(candidates: seq<Candidate>, count: nat, rate: real)

  datatype UtahPatterns = UtahPatterns(
    totalBallots: nat,
    bulletVotingCount: nat,
    bulletVotingRate: real,
    fullApprovalCount: nat,
    fullApprovalRate: real,
    averageApprovalsPerBallot: real,
    mostCommonCombination: Option<Combination>,
    approvalDistribution: map<nat, nat>,
    candidateApprovalDistributions: map<Candidate, map<nat, nat>>,
    anyoneButAnalysis: map<Candidate, nat>)

  /** `count / total if total > 0 else 0`. */
  function RateOf(count: nat, total: nat): (r: real)
    ensures 0.0 <= r
    ensures count <= total ==> r <= 1.0
    ensures total == 0 ==> r == 0.0
    ensures total > 0 ==> r * total as real == count as real
  {
    if total > 0 then Fraction(count, total) else 0.0
  }

  /** The number of listed values equal to `v`: a counter incremented inside the ballot loop. */
  function CountEqual(xs: seq<nat>, v: nat): nat {
    if xs == [] then 0 else CountEqual(xs[..|xs| - 1], v) + (if xs[|xs| - 1] == v then 1 else 0)
  }

  /** The loop counter agrees with the histogram bucket and the multiplicity of `v`. */
  lemma {:induction false} CountEqualIsBucket(xs: seq<nat>, v: nat)
    ensures CountEqual(xs, v) == multiset(xs)[v] == Get(Histogram(xs), v)
    decreases |xs|
  {
    HistogramCounts(xs);
    if xs != [] {
      var n := |xs| - 1;
      CountEqualIsBucket(xs[..n], v);
      assert xs == xs[..n] + [xs[n]];
    }
  }

  /** The largest listed value, or 0 for no values. */
  function MaxOf(xs: seq<nat>): (m: nat)
    ensures forall i :: 0 <= i < |xs| ==> xs[i] <= m
    ensures xs != [] ==> m in xs
  {
    if xs == [] then 0
    else
      var n := |xs| - 1;
      var m := MaxOf(xs[..n]);
      assert forall i :: 0 <= i < n ==> xs[..n][i] == xs[i];
      if xs[n] > m then xs[n] else m
  }

  /** `tuple(sorted(approved))` for every ballot, the empty tuple included. */
  function CombinationKeys(bs: seq<UtahBallot>): (r: seq<seq<Candidate>>)
    ensures |r| == |bs|
    ensures forall i :: 0 <= i < |bs| ==> Sorted(r[i]) && multiset(r[i]) == multiset(Approved(bs[i]))
  {
    seq(|bs|, i requires 0 <= i < |bs| => Sort(Approved(bs[i])))
  }

  /**
   * `len(approved)` for those of the first `n` ballots whose approvals
   * include `c`, in list order; none exceeds the longest approval list.
   */
  function ConditionalLengthsUpTo(bs: seq<UtahBallot>, c: Candidate, n: nat): (r: seq<nat>)
    requires n <= |bs|
    ensures forall k :: 0 <= k < |r| ==> r[k] <= MaxOf(Lengths(bs))
  {
    if n == 0 then []
    else
      var r := ConditionalLengthsUpTo(bs, c, n - 1);
      if c in Sets(bs)[n - 1] then r + [Lengths(bs)[n - 1]] else r
  }

  /** `len(approved)` for the ballots whose approvals include `c`, in list order. */
  function ConditionalLengths(bs: seq<UtahBallot>, c: Candidate): (r: seq<nat>)
    ensures forall k :: 0 <= k < |r| ==> r[k] <= MaxOf(Lengths(bs))
  {
    ConditionalLengthsUpTo(bs, c, |bs|)
  }

  /** Over the first `n` ballots, the conditional list has one entry per ballot approving `c`. */
  lemma {:induction false} ConditionalLengthsUpToCount(bs: seq<UtahBallot>, c: Candidate, n: nat)
    requires n <= |bs|
    ensures |ConditionalLengthsUpTo(bs, c, n)| == Tally(Sets(bs)[..n], c)
    decreases n
  {
    if n == 0 {
      assert Sets(bs)[..n] == [];
    } else {
      ConditionalLengthsUpToCount(bs, c, n - 1);
      TallyPrefixSnoc(Sets(bs), n, c);
    }
  }

  /** Each conditional list has one entry per ballot approving `c`. */
  lemma ConditionalLengthsCount(bs: seq<UtahBallot>, c: Candidate)
    ensures |ConditionalLengths(bs, c)| == Tally(Sets(bs), c)
  {
    ConditionalLengthsUpToCount(bs, c, |bs|);
    assert Sets(bs)[..|bs|] == Sets(bs);
  }

  /** `candidate_approval_distributions` over the listed candidates that some ballot approves. */
  function UtahConditional(bs: seq<UtahBallot>, cands: seq<Candidate>): (m: map<Candidate, map<nat, nat>>)
    ensures forall c :: c in m <==> c in cands && ConditionalLengths(bs, c) != []
  {
    map c | c in cands && ConditionalLengths(bs, c) != [] :: Histogram(ConditionalLengths(bs, c))
  }

  /** `averageApprovalsPerBallot`: the weighted sum of the histogram over the ballot count, 0 without ballots. */
  function UtahAverageOf(bs: seq<UtahBallot>): real {
    if bs == [] then 0.0
    else WeightedBucketSum(Histogram(Lengths(bs)), MaxOf(Lengths(bs))) as real / |bs| as real
  }

  /** `mostCommonCombination`: `None` without ballots. */
  function TopCombination(bs: seq<UtahBallot>): Option<Combination> {
    match MostCommon(CombinationKeys(bs))
    case None => None
    case Some((key, count)) => Some(Combination(key, count, RateOf(count, |bs|)))
  }

  /** The voting patterns of the Utah analysis. */
  function UtahPatternsOf(bs: seq<UtahBallot>, cands: seq<Candidate>): UtahPatterns {
    var lengths := Lengths(bs);
    var bullet := CountEqual(lengths, 1);
    var full := CountEqual(lengths, |cands|);
    UtahPatterns(|bs|, bullet, RateOf(bullet, |bs|), full, RateOf(full, |bs|), UtahAverageOf(bs), TopCombination(bs),
                 Histogram(lengths), UtahConditional(bs, cands), AnyoneBut(Sets(bs), lengths, |cands| - 1, BallotSet(cands)))
  }

  /** `generate_co_approval_analysis` (Utah): the matrix rows keyed by position pairs, and the patterns. */
  function AnalyzeUtah(bs: seq<UtahBallot>, cands: seq<Candidate>): (r: (map<(nat, nat), PairRow>, UtahPatterns))
    ensures r.1.totalBallots == |bs|
    ensures r.0.Keys <= PositionPairs(|cands|)
  {
    (UtahMatrix(Sets(bs), cands), UtahPatternsOf(bs, cands))
  }

  // ---------------------------------------------------------------------------
  // Properties of the patterns
  // ---------------------------------------------------------------------------

  /** The histogram's buckets up to the largest ballot hold every ballot, zero-approval ballots included. */
  lemma UtahHistogramMass(bs: seq<UtahBallot>, cands: seq<Candidate>)
    ensures var pt := UtahPatternsOf(bs, cands);
      && BucketSum(pt.approvalDistribution, MaxOf(Lengths(bs))) == |bs|
      && WeightedBucketSum(pt.approvalDistribution, MaxOf(Lengths(bs))) == Sum(Lengths(bs))
      && (forall k :: Get(pt.approvalDistribution, k) == multiset(Lengths(bs))[k])
  {
    HistogramMass(Lengths(bs), MaxOf(Lengths(bs)));
    HistogramCounts(Lengths(bs));
  }

  /**
   * Bullet and full approval are the histogram's buckets 1 and N, at most the
   * number of ballots, and their rates are fractions of the ballot count.
   */
  lemma UtahBulletAndFull(bs: seq<UtahBallot>, cands: seq<Candidate>)
    ensures var pt := UtahPatternsOf(bs, cands);
      && pt.bulletVotingCount == Get(pt.approvalDistribution, 1) == multiset(Lengths(bs))[1]
      && pt.fullApprovalCount == Get(pt.approvalDistribution, |cands|) == multiset(Lengths(bs))[|cands|]
      && pt.bulletVotingCount <= pt.totalBallots && pt.fullApprovalCount <= pt.totalBallots
      && (pt.totalBallots == 0 ==> pt.bulletVotingRate == 0.0 && pt.fullApprovalRate == 0.0)
      && (pt.totalBallots > 0 ==>
            pt.bulletVotingRate == Fraction(pt.bulletVotingCount, pt.totalBallots) &&
            pt.fullApprovalRate == Fraction(pt.fullApprovalCount, pt.totalBallots))
      && 0.0 <= pt.bulletVotingRate <= 1.0 && 0.0 <= pt.fullApprovalRate <= 1.0
  {
    var lengths := Lengths(bs);
    CountEqualIsBucket(lengths, 1);
    CountEqualIsBucket(lengths, |cands|);
    HistogramMass(lengths, MaxOf(lengths));
    var n := MaxOf(lengths);
    if 1 <= n { BucketBelowSum(Histogram(lengths), 1, n); } else { MissingBucket(lengths, 1); }
    if |cands| <= n { BucketBelowSum(Histogram(lengths), |cands|, n); } else { MissingBucket(lengths, |cands|); }
  }

  /** A value above every listed one has an empty bucket. */
  lemma MissingBucket(xs: seq<nat>, v: nat)
    requires v > MaxOf(xs)
    ensures Get(Histogram(xs), v) == 0
  {
    HistogramCounts(xs);
  }

  /** The average is the total number of approvals over the ballot count, and 0 for no ballots. */
  lemma UtahAverage(bs: seq<UtahBallot>)
    ensures bs == [] ==> UtahAverageOf(bs) == 0.0
    ensures bs != [] ==> UtahAverageOf(bs) == Sum(Lengths(bs)) as real / |bs| as real
  {
    HistogramMass(Lengths(bs), MaxOf(Lengths(bs)));
  }

  /** When no ballot has more than `n` approvals, the average lies in `[0, n]`. */
  lemma UtahAverageBound(bs: seq<UtahBallot>, n: nat)
    requires forall i :: 0 <= i < |bs| ==> |Approved(bs[i])| <= n
    ensures 0.0 <= UtahAverageOf(bs) <= n as real
  {
    UtahAverage(bs);
    if bs != [] {
      MeanBound(Lengths(bs), n);
    }
  }

  /**
   * The most common combination exists exactly when there is a ballot; it is
   * a sorted combination some ballot has, no combination is more frequent,
   * and its rate is its share of the ballots.
   */
  lemma UtahCombination(bs: seq<UtahBallot>, cands: seq<Candidate>)
    ensures var top := UtahPatternsOf(bs, cands).mostCommonCombination;
      && (top.None? <==> bs == [])
      && (top.Some? ==>
            && Sorted(top.value.candidates)
            && (exists i :: 0 <= i < |bs| && multiset(top.value.candidates) == multiset(Approved(bs[i])))
            && top.value.count == multiset(CombinationKeys(bs))[top.value.candidates]
            && (forall j :: 0 <= j < |bs| ==> Frequency(CombinationKeys(bs), j) <= top.value.count)
            && top.value.rate == Fraction(top.value.count, |bs|))
  {
    var keys := CombinationKeys(bs);
    var top := UtahPatternsOf(bs, cands).mostCommonCombination;
    if top.Some? {
      var i :| 0 <= i < |keys| && keys[i] == top.value.candidates;
    }
  }

  /** When no ballot approves anyone, the empty combination is the most common, with every ballot. */
  lemma EmptyCombinationWins(bs: seq<UtahBallot>, cands: seq<Candidate>)
    requires bs != []
    requires forall i :: 0 <= i < |bs| ==> Approved(bs[i]) == []
    ensures var top := UtahPatternsOf(bs, cands).mostCommonCombination;
      top.Some? && top.value.candidates == [] && top.value.count == |bs|
  {
    var keys := CombinationKeys(bs);
    assert forall i :: 0 <= i < |bs| ==> keys[i] == [];
    assert keys == seq(|bs|, i => []);
    AllSameMultiplicity(keys, []);
  }

  lemma {:induction false} AllSameMultiplicity(keys: seq<seq<Candidate>>, x: seq<Candidate>)
    requires forall i :: 0 <= i < |keys| ==> keys[i] == x
    ensures multiset(keys)[x] == |keys|
    decreases |keys|
  {
    if keys != [] {
      AllSameMultiplicity(keys[1..], x);
      assert keys == [keys[0]] + keys[1..];
    }
  }

  /**
   * A candidate has a conditional histogram exactly when it is listed and
   * some ballot approves it; the histogram holds one entry per approving
   * ballot, and, when no ballot lists a name twice, exactly its vote tally.
   */
  lemma UtahConditionalMass(bs: seq<UtahBallot>, cands: seq<Candidate>, c: Candidate)
    ensures var dists := UtahPatternsOf(bs, cands).candidateApprovalDistributions;
      && (c in dists <==> c in cands && Tally(Sets(bs), c) > 0)
      && (c in dists ==> BucketSum(dists[c], MaxOf(Lengths(bs))) == Tally(Sets(bs), c) == |Supporters(Sets(bs), c)|)
      && (c in dists && NoRepeats(bs) ==> BucketSum(dists[c], MaxOf(Lengths(bs))) == Get(VoteTally(bs), c))
  {
    ConditionalLengthsCount(bs, c);
    TallySupporters(Sets(bs), c);
    HistogramMass(ConditionalLengths(bs, c), MaxOf(Lengths(bs)));
    TallyBelowVotes(bs, c);
    if NoRepeats(bs) { TallyEqualsVotes(bs, c); }
    VoteTallyCounts(bs, c);
  }

  /**
   * Each anyone-but count is the number of ballots with N-1 approvals whose
   * approvals miss exactly that listed candidate; summed over the listed
   * candidates the counts never exceed the number of ballots.
   */
  lemma UtahAnyoneBut(bs: seq<UtahBallot>, cands: seq<Candidate>, c: Candidate)
    ensures var ab := UtahPatternsOf(bs, cands).anyoneButAnalysis;
      && Get(ab, c) == |Excluders(Sets(bs), Lengths(bs), |cands| - 1, BallotSet(cands), c)|
      && SumOver(ab, SortedElements(BallotSet(cands))) <= |bs|
  {
    AnyoneButCounts(Sets(bs), Lengths(bs), |cands| - 1, BallotSet(cands), c);
    var ks := SortedElements(BallotSet(cands));
    StrictlySortedDistinct(ks);
    AnyoneButTotal(Sets(bs), Lengths(bs), |cands| - 1, BallotSet(cands), ks);
  }

  // ---------------------------------------------------------------------------
  // The CVR rows written for the Utah ballots
  // ---------------------------------------------------------------------------

  datatype CvrBallotRow = CvrBallotRow(source: string, guid: string)

  /** A contest row; `ballot` is the position of its ballot row. */
  datatype CvrContestRow = CvrContestRow(source: string, ballot: nat, contestName: string, contestId: string, undervotes: nat)

  /** A selection row; `contest` is the position of its contest row. */
  datatype CvrSelectionRow = CvrSelectionRow(source: string, contest: nat, candidateName: Candidate, candidateId: string, value: nat)

  datatype CvrTables = CvrTables(ballots: seq<CvrBallotRow>, contests: seq<CvrContestRow>, selections: seq<CvrSelectionRow>)

  const Source := "utah"
  const ContestName := "Utah Senate District 11"
  const ContestId := "utah_senate_district_11_2025_12"

  /** `ballot.get("tracking", f"utah_ballot_{idx}")` for the ballot numbered `idx` from 1. */
  function Tracking(b: UtahBallot, idx: nat): string {
    if "tracking" in b then b["tracking"] else "utah_ballot_" + NatToString(idx)
  }

  /** Ballots without a tracking field get distinct generated guids. */
  lemma GeneratedTrackingDistinct(b: UtahBallot, c: UtahBallot, i: nat, j: nat)
    requires "tracking" !in b && "tracking" !in c && i != j
    ensures Tracking(b, i) != Tracking(c, j)
  {
    var prefix := "utah_ballot_";
    if Tracking(b, i) == Tracking(c, j) {
      assert (prefix + NatToString(i))[|prefix|..] == NatToString(i);
      assert (prefix + NatToString(j))[|prefix|..] == NatToString(j);
      NatToStringInjective(i, j);
    }
  }

  /** `candidate_name.lower().replace(" ", "_")`. */
  function CandidateId(name: Candidate): (r: string)
    ensures ' ' !in r
    ensures forall c :: c in r ==> !IsUpperAscii(c)
  {
    var lower := Lower(name);
    LowerHasNoUpper(name);
    assert forall c :: c in lower ==> !IsUpperAscii(c);
    ReplaceCharRemoves(lower, ' ', "_");
    ReplaceAllChars(lower, " ", "_");
    ReplaceAll(lower, " ", "_")
  }

  /** The selection rows of one ballot's approvals under contest row `contest`. */
  function SelectionRows(contest: nat, approved: seq<Candidate>): (r: seq<CvrSelectionRow>)
    ensures |r| == |approved|
    ensures forall k :: 0 <= k < |r| ==>
              r[k] == CvrSelectionRow(Source, contest, approved[k], CandidateId(approved[k]), 1)
  {
    seq(|approved|, k requires 0 <= k < |approved| =>
      CvrSelectionRow(Source, contest, approved[k], CandidateId(approved[k]), 1))
  }

  /** The selection rows of every ballot in turn, each under its ballot's contest row. */
  function Selections(bs: seq<UtahBallot>): (r: seq<CvrSelectionRow>)
    ensures forall j :: 0 <= j < |r| ==>
              r[j].contest < |bs| && r[j].value == 1 && r[j].candidateId == CandidateId(r[j].candidateName)
    decreases |bs|
  {
    if bs == [] then []
    else
      var n := |bs| - 1;
      Selections(bs[..n]) + SelectionRows(n, Approved(bs[n]))
  }

  /**
   * The rows written for the ballot list: one ballot row and one contest
   * row per ballot, and after them the selections of every ballot in turn.
   */
  function CvrRows(bs: seq<UtahBallot>): (t: CvrTables)
    ensures |t.ballots| == |bs| && |t.contests| == |bs|
    ensures forall i :: 0 <= i < |bs| ==> t.ballots[i].guid == Tracking(bs[i], i + 1) && t.contests[i].ballot == i
    ensures forall j :: 0 <= j < |t.selections| ==>
              t.selections[j].contest < |t.contests| && t.selections[j].value == 1 &&
              t.selections[j].candidateId == CandidateId(t.selections[j].candidateName)
  {
    CvrTables(CvrBallotRows(bs), CvrContestRows(|bs|), Selections(bs))
  }

  /**
   * Two ballots of the list get the same guid: a `tracking` value repeats,
   * or equals the generated `utah_ballot_k` of a ballot without one.
   */
  predicate RepeatedTracking(bs: seq<UtahBallot>) {
    exists i, j :: 0 <= i < j < |bs| && Tracking(bs[i], i + 1) == Tracking(bs[j], j + 1)
  }

  /** The ballot at position `n` takes a guid an earlier ballot already took. */
  predicate TakenBefore(bs: seq<UtahBallot>, n: nat)
    requires n < |bs|
  {
    exists i :: 0 <= i < n && Tracking(bs[i], i + 1) == Tracking(bs[n], n + 1)
  }

  /** Some row of `rows` carries `guid`. */
  predicate HasGuid(rows: seq<CvrBallotRow>, guid: string) {
    exists i :: 0 <= i < |rows| && rows[i].guid == guid
  }

  /** How a run of the export ends. */
  datatype ExportOutcome =
    | Exported        // everything written and committed
    | ReportMissing   // the report is not in the database: the run returns `False`
    | IntegrityError  // an insert broke `UNIQUE(source, cvr_guid)` before the commit

  /**
   * The `INSERT INTO cvr_ballots` loop. The table is unique on
   * `(source, cvr_guid)` and the rows of source `"utah"` were deleted just
   * before, so an insert raises exactly when an earlier ballot of this run
   * took the same guid; `None` stands for the raised `IntegrityError`.
   */
  function InsertBallots(bs: seq<UtahBallot>): (r: Option<seq<CvrBallotRow>>)
    ensures r.Some? ==> |r.value| == |bs|
    decreases |bs|
  {
    if bs == [] then Some([])
    else
      var n := |bs| - 1;
      match InsertBallots(bs[..n])
      case None => None
      case Some(rows) =>
        var guid := Tracking(bs[n], n + 1);
        if HasGuid(rows, guid) then None else Some(rows + [CvrBallotRow(Source, guid)])
  }

  /** The guid each ballot of the list is stored under. */
  function Guids(bs: seq<UtahBallot>): (g: seq<string>)
    ensures |g| == |bs|
    ensures forall i :: 0 <= i < |bs| ==> g[i] == Tracking(bs[i], i + 1)
  {
    seq(|bs|, i requires 0 <= i < |bs| => Tracking(bs[i], i + 1))
  }

  /** Two positions of `g` hold the same value. */
  predicate HasRepeat<T(==)>(g: seq<T>) {
    exists i, j :: 0 <= i < j < |g| && g[i] == g[j]
  }

  /** A list repeats a value exactly when its prefix does or its last value occurs earlier. */
  lemma HasRepeatSnoc<T>(g: seq<T>)
    requires g != []
    ensures HasRepeat(g) <==> HasRepeat(g[..|g| - 1]) || exists i :: 0 <= i < |g| - 1 && g[i] == g[|g| - 1]
  {
    var n := |g| - 1;
    var pre := g[..n];
    if HasRepeat(g) {
      var i, j :| 0 <= i < j < |g| && g[i] == g[j];
      if j < n {
        assert pre[i] == pre[j];
      }
    }
    if HasRepeat(pre) {
      var i, j :| 0 <= i < j < |pre| && pre[i] == pre[j];
      assert g[i] == g[j];
    }
  }

  /** A list repeats a guid exactly when its prefix does or its last ballot takes an earlier guid. */
  lemma RepeatedTrackingSnoc(bs: seq<UtahBallot>)
    requires bs != []
    ensures RepeatedTracking(bs) <==> RepeatedTracking(bs[..|bs| - 1]) || TakenBefore(bs, |bs| - 1)
  {
    var n := |bs| - 1;
    var g, pre := Guids(bs), bs[..n];
    assert Guids(pre) == g[..n];
    HasRepeatSnoc(g);
    assert RepeatedTracking(bs) <==> HasRepeat(g);
    assert RepeatedTracking(pre) <==> HasRepeat(Guids(pre));
  }

  /**
   * The insert loop raises exactly when two ballots share a guid, and
   * otherwise writes one row per ballot under its tracking value.
   */
  lemma {:induction false} InsertBallotsIff(bs: seq<UtahBallot>)
    ensures InsertBallots(bs).None? <==> RepeatedTracking(bs)
    ensures InsertBallots(bs).Some? ==> InsertBallots(bs).value == CvrBallotRows(bs)
    decreases |bs|
  {
    if bs != [] {
      var n := |bs| - 1;
      var pre := bs[..n];
      InsertBallotsIff(pre);
      RepeatedTrackingSnoc(bs);
      if InsertBallots(pre).Some? {
        HasGuidIff(bs, n);
        CvrBallotRowsSnoc(bs);
      }
    }
  }

  /** The rows written for a prefix hold the guid of ballot `n` exactly when an earlier ballot took it. */
  lemma HasGuidIff(bs: seq<UtahBallot>, n: nat)
    requires n < |bs|
    ensures HasGuid(CvrBallotRows(bs[..n]), Tracking(bs[n], n + 1)) <==> TakenBefore(bs, n)
  {
    var rows, guid := CvrBallotRows(bs[..n]), Tracking(bs[n], n + 1);
    if HasGuid(rows, guid) {
      var i :| 0 <= i < |rows| && rows[i].guid == guid;
      assert bs[..n][i] == bs[i];
    }
    if TakenBefore(bs, n) {
      var i :| 0 <= i < n && Tracking(bs[i], i + 1) == guid;
      assert bs[..n][i] == bs[i];
      assert rows[i].guid == guid;
    }
  }

  lemma CvrBallotRowsSnoc(bs: seq<UtahBallot>)
    requires bs != []
    ensures var n := |bs| - 1;
      CvrBallotRows(bs) == CvrBallotRows(bs[..n]) + [CvrBallotRow(Source, Tracking(bs[n], n + 1))]
  {
    var n := |bs| - 1;
    var pre := bs[..n];
    assert forall i :: 0 <= i < n ==> pre[i] == bs[i];
  }

  /** Ballots of which none has a tracking field never share a guid. */
  lemma UntrackedDistinct(bs: seq<UtahBallot>)
    requires forall i :: 0 <= i < |bs| ==> "tracking" !in bs[i]
    ensures !RepeatedTracking(bs)
  {
    forall i, j | 0 <= i < j < |bs| ensures Tracking(bs[i], i + 1) != Tracking(bs[j], j + 1) {
      GeneratedTrackingDistinct(bs[i], bs[j], i + 1, j + 1);
    }
  }

  /** One ballot row per ballot, under its tracking id or its position. */
  function CvrBallotRows(bs: seq<UtahBallot>): (r: seq<CvrBallotRow>)
    ensures |r| == |bs|
    ensures forall i :: 0 <= i < |bs| ==> r[i].guid == Tracking(bs[i], i + 1)
  {
    seq(|bs|, i requires 0 <= i < |bs| => CvrBallotRow(Source, Tracking(bs[i], i + 1)))
  }

  /** One contest row per ballot, the i-th pointing at ballot row `i`. */
  function CvrContestRows(n: nat): (r: seq<CvrContestRow>)
    ensures |r| == n
    ensures forall i :: 0 <= i < n ==> r[i].ballot == i
  {
    seq(n, i requires 0 <= i < n => CvrContestRow(Source, i, ContestName, ContestId, 0))
  }

  /** The candidate names of the selections under contest row `i`, in row order. */
  function NamesUnder(rows: seq<CvrSelectionRow>, i: nat): seq<Candidate> {
    if rows == [] then []
    else
      var n := |rows| - 1;
      NamesUnder(rows[..n], i) + (if rows[n].contest == i then [rows[n].candidateName] else [])
  }

  lemma {:induction false} NamesUnderAppend(a: seq<CvrSelectionRow>, b: seq<CvrSelectionRow>, i: nat)
    ensures NamesUnder(a + b, i) == NamesUnder(a, i) + NamesUnder(b, i)
    decreases |b|
  {
    if b == [] {
      assert a + b == a;
    } else {
      var n := |b| - 1;
      NamesUnderAppend(a, b[..n], i);
      assert (a + b)[..|a + b| - 1] == a + b[..n];
    }
  }

  lemma {:induction false} NamesUnderRows(contest: nat, approved: seq<Candidate>, i: nat)
    ensures NamesUnder(SelectionRows(contest, approved), i) == if contest == i then approved else []
    decreases |approved|
  {
    if approved != [] {
      var n := |approved| - 1;
      NamesUnderRows(contest, approved[..n], i);
      assert SelectionRows(contest, approved)[..n] == SelectionRows(contest, approved[..n]);
    }
  }

  lemma {:induction false} SelectionsUnder(bs: seq<UtahBallot>, i: nat)
    ensures NamesUnder(Selections(bs), i) == if i < |bs| then Approved(bs[i]) else []
    decreases |bs|
  {
    if bs != [] {
      var n := |bs| - 1;
      var before, last := Selections(bs[..n]), SelectionRows(n, Approved(bs[n]));
      assert Selections(bs) == before + last;
      SelectionsUnder(bs[..n], i);
      NamesUnderAppend(before, last, i);
      NamesUnderRows(n, Approved(bs[n]), i);
      if i < n {
        assert bs[..n][i] == bs[i];
        assert NamesUnder(last, i) == [];
        assert NamesUnder(Selections(bs), i) == Approved(bs[i]) + [];
      } else if i == n {
        assert NamesUnder(Selections(bs), i) == [] + Approved(bs[n]);
      } else {
        assert NamesUnder(Selections(bs), i) == [] + [];
      }
    }
  }

  lemma {:induction false} SelectionsCount(bs: seq<UtahBallot>)
    ensures |Selections(bs)| == Sum(Lengths(bs))
    decreases |bs|
  {
    if bs != [] {
      var n := |bs| - 1;
      SelectionsCount(bs[..n]);
      assert Lengths(bs[..n]) == Lengths(bs)[..n];
    }
  }

  /**
   * The selections under each ballot's contest row are exactly that ballot's
   * approvals, in order, and there is one selection per approval overall.
   */
  lemma ExportSelections(bs: seq<UtahBallot>, i: nat)
    ensures NamesUnder(CvrRows(bs).selections, i) == if i < |bs| then Approved(bs[i]) else []
    ensures |CvrRows(bs).selections| == Sum(Lengths(bs))
  {
    SelectionsUnder(bs, i);
    SelectionsCount(bs);
  }

  // ---------------------------------------------------------------------------
  // Writing the analysis into the reporting database
  // ---------------------------------------------------------------------------

  /** The path of the Utah Senate District 11 report. */
  const ReportPath := "us/ut/senate_district_11/2025/12"

  /** The stored co-approval rows of report `id`. */
  function UtahRows(id: nat, m: map<(nat, nat), PairRow>): (rows: set<CoApprovalRow>)
    ensures forall row :: row in rows ==> row.reportId == id
    ensures forall row :: row in rows <==>
              (exists ij :: ij in m && row == CoApprovalRow(id, m[ij].candidateA, m[ij].candidateB, m[ij].entry.count, m[ij].entry.rate))
  {
    set ij | ij in m :: CoApprovalRow(id, m[ij].candidateA, m[ij].candidateB, m[ij].entry.count, m[ij].entry.rate)
  }

  /** A counter's items listed in name order. */
  function TallyRows(m: map<Candidate, nat>): (tallies: seq<(string, nat)>)
    ensures forall k :: 0 <= k < |tallies| ==> tallies[k].0 in m && tallies[k].1 == m[tallies[k].0]
    ensures forall c :: c in m ==> exists k :: 0 <= k < |tallies| && tallies[k].0 == c
    ensures DistinctTargets(tallies, map[])
  {
    var names := SortedElements(m.Keys);
    TallyRowsFacts(m, names);
    ItemsOf(m, names)
  }

  /** The items of `m` under the keys `names`, in that order. */
  function ItemsOf(m: map<Candidate, nat>, names: seq<Candidate>): (items: seq<(string, nat)>)
    requires forall k :: 0 <= k < |names| ==> names[k] in m
    ensures |items| == |names|
    ensures forall k :: 0 <= k < |names| ==> items[k] == (names[k], m[names[k]])
  {
    seq(|names|, k requires 0 <= k < |names| => (names[k], m[names[k]]))
  }

  lemma TallyRowsFacts(m: map<Candidate, nat>, names: seq<Candidate>)
    requires StrictlySorted(names) && forall x :: x in names <==> x in m
    ensures forall k :: 0 <= k < |names| ==> names[k] in m
    ensures forall k :: 0 <= k < |ItemsOf(m, names)| ==> ItemsOf(m, names)[k].0 in m && ItemsOf(m, names)[k].1 == m[ItemsOf(m, names)[k].0]
    ensures (forall c :: c in m ==> exists k :: 0 <= k < |ItemsOf(m, names)| && ItemsOf(m, names)[k].0 == c)
    ensures DistinctTargets(ItemsOf(m, names), map[])
  {
    StrictlySortedDistinct(names);
    assert forall k :: 0 <= k < |names| ==> names[k] in m;
    var tallies := ItemsOf(m, names);
    forall c | c in m ensures exists k :: 0 <= k < |tallies| && tallies[k].0 == c {
      var k := IndexIn(names, c);
      assert tallies[k].0 == c;
    }
  }

  function IndexIn(xs: seq<Candidate>, x: Candidate): (k: nat)
    requires x in xs
    ensures k < |xs| && xs[k] == x
  {
    if xs[0] == x then 0 else 1 + IndexIn(xs[1..], x)
  }

  /**
   * The reporting-table part of `export_utah_cvr_to_main_database`, once the
   * report is found: the analysis over the report's candidates ordered by
   * name replaces the report's rows (even when the matrix is empty), the
   * ballot count becomes the number of ballots, and each tallied
   * candidate's votes are updated.
   */
  function UpdateReport(s: MainStore<UtahPatterns>, bs: seq<UtahBallot>): (r: MainStore<UtahPatterns>)
    requires FindReportByPath(s.reports, ReportPath).Some?
    ensures |r.reports| == |s.reports| && |r.candidates| == |s.candidates|
  {
    var report := FindReportByPath(s.reports, ReportPath).value;
    var cands := Sort(ProperNames(s.candidates, report.id));
    var (matrix, patterns) := AnalyzeUtah(bs, cands);
    var replaced := ReplaceReport(s, report.id, UtahRows(report.id, matrix), patterns);
    replaced.(reports := SetBallotCount(replaced.reports, report.id, |bs|),
              candidates := ApplyVotes(replaced.candidates, report.id, TallyRows(VoteTally(bs)), map[]))
  }

  /** The reporting tables together with the CVR rows of source `"utah"`. */
  datatype UtahDb = UtahDb(main: MainStore<UtahPatterns>, cvr: CvrTables)

  /** What a run of the export leaves behind: how it ended and the database afterwards. */
  datatype ExportRun = ExportRun(outcome: ExportOutcome, db: UtahDb)

  /**
   * `export_utah_cvr_to_main_database`. Every change is made in one
   * transaction committed at the very end, so a run that returns early or
   * raises leaves the database as it was. Without the report the run
   * returns `False`; with it, the run raises exactly when two ballots share
   * a guid; otherwise the reporting tables are updated and the CVR rows of
   * source `"utah"` are replaced by this ballot list's rows.
   */
  function ExportUtah(db: UtahDb, bs: seq<UtahBallot>): (r: ExportRun)
    ensures r.outcome == ReportMissing <==> FindReportByPath(db.main.reports, ReportPath).None?
    ensures r.outcome == IntegrityError <==> FindReportByPath(db.main.reports, ReportPath).Some? && RepeatedTracking(bs)
    ensures r.outcome != Exported ==> r.db == db
    ensures r.outcome == Exported ==>
              FindReportByPath(db.main.reports, ReportPath).Some? && r.db.main == UpdateReport(db.main, bs) && r.db.cvr == CvrRows(bs)
  {
    match FindReportByPath(db.main.reports, ReportPath)
    case None => ExportRun(ReportMissing, db)
    case Some(_) =>
      var main := UpdateReport(db.main, bs);
      InsertBallotsIff(bs);
      match InsertBallots(bs)
      case None => ExportRun(IntegrityError, db)
      case Some(ballots) => ExportRun(Exported, UtahDb(main, CvrTables(ballots, CvrContestRows(|bs|), Selections(bs))))
  }

  /** When the report exists and no ballot carries a tracking field, the export goes through. */
  lemma UntrackedExports(db: UtahDb, bs: seq<UtahBallot>)
    requires FindReportByPath(db.main.reports, ReportPath).Some?
    requires forall i :: 0 <= i < |bs| ==> "tracking" !in bs[i]
    ensures ExportUtah(db, bs).outcome == Exported
  {
    UntrackedDistinct(bs);
  }

  lemma UpdateReportUnfold(s: MainStore<UtahPatterns>, bs: seq<UtahBallot>)
    requires FindReportByPath(s.reports, ReportPath).Some?
    ensures var report := FindReportByPath(s.reports, ReportPath).value;
      var cands := Sort(ProperNames(s.candidates, report.id));
      var replaced := ReplaceReport(s, report.id, UtahRows(report.id, UtahMatrix(Sets(bs), cands)), UtahPatternsOf(bs, cands));
      UpdateReport(s, bs) == replaced.(reports := SetBallotCount(replaced.reports, report.id, |bs|),
                                       candidates := ApplyVotes(replaced.candidates, report.id, TallyRows(VoteTally(bs)), map[]))
  {
  }

  /**
   * Updating the reporting tables leaves the report exactly the fresh
   * co-approval rows and one pattern row, other reports keep theirs, and
   * the report's ballot count is the number of ballots.
   */
  lemma UpdateReportRows(s: MainStore<UtahPatterns>, bs: seq<UtahBallot>)
    requires FindReportByPath(s.reports, ReportPath).Some?
    ensures var report := FindReportByPath(s.reports, ReportPath).value;
      var cands := Sort(ProperNames(s.candidates, report.id));
      var r := UpdateReport(s, bs);
      && RowsOf(r, report.id) == UtahRows(report.id, UtahMatrix(Sets(bs), cands))
      && PatternsOf(r, report.id) == {PatternRow(report.id, UtahPatternsOf(bs, cands))}
      && (forall other :: other != report.id ==> RowsOf(r, other) == RowsOf(s, other) && PatternsOf(r, other) == PatternsOf(s, other))
      && (forall i :: 0 <= i < |r.reports| && r.reports[i].id == report.id ==> r.reports[i].ballotCount == |bs|)
  {
    UpdateReportUnfold(s, bs);
  }

  /**
   * After an export that went through, the report holds exactly the fresh
   * co-approval rows and one pattern row, other reports keep theirs, and
   * the report's ballot count is the number of ballots.
   */
  lemma ExportUtahRows(db: UtahDb, bs: seq<UtahBallot>, run: ExportRun)
    requires run == ExportUtah(db, bs) && run.outcome == Exported
    ensures FindReportByPath(db.main.reports, ReportPath).Some?
    ensures var s := db.main;
      var report := FindReportByPath(s.reports, ReportPath).value;
      var cands := Sort(ProperNames(s.candidates, report.id));
      var r := run.db.main;
      && RowsOf(r, report.id) == UtahRows(report.id, UtahMatrix(Sets(bs), cands))
      && PatternsOf(r, report.id) == {PatternRow(report.id, UtahPatternsOf(bs, cands))}
      && (forall other :: other != report.id ==> RowsOf(r, other) == RowsOf(s, other) && PatternsOf(r, other) == PatternsOf(s, other))
      && (forall i :: 0 <= i < |r.reports| && r.reports[i].id == report.id ==> r.reports[i].ballotCount == |bs|)
  {
    assert run.db.main == UpdateReport(db.main, bs);
    UpdateReportRows(db.main, bs);
  }

  /** Updating the reporting tables gives every candidate row of the report named in the vote tally that candidate's number of votes. */
  lemma UpdateReportVotes(s: MainStore<UtahPatterns>, bs: seq<UtahBallot>)
    requires FindReportByPath(s.reports, ReportPath).Some?
    ensures var report := FindReportByPath(s.reports, ReportPath).value;
      var r := UpdateReport(s, bs);
      forall i :: 0 <= i < |r.candidates| && r.candidates[i].reportId == report.id && r.candidates[i].name in VoteTally(bs) ==>
        r.candidates[i].votes == Occurrences(bs, r.candidates[i].name)
  {
    UpdateReportUnfold(s, bs);
    var report := FindReportByPath(s.reports, ReportPath).value;
    var tallies := TallyRows(VoteTally(bs));
    ApplyVotesSets(s.candidates, report.id, tallies, map[]);
    var r := UpdateReport(s, bs);
    assert r.candidates == ApplyVotes(s.candidates, report.id, tallies, map[]);
    forall i | 0 <= i < |r.candidates| && r.candidates[i].reportId == report.id && r.candidates[i].name in VoteTally(bs)
      ensures r.candidates[i].votes == Occurrences(bs, r.candidates[i].name)
    {
      var c := r.candidates[i].name;
      var k :| 0 <= k < |tallies| && tallies[k].0 == c;
      assert Rename(map[], tallies[k].0) == c;
      VoteTallyCounts(bs, c);
    }
  }

  /** After an export that went through, every candidate row of the report named in the vote tally holds that candidate's number of votes. */
  lemma ExportUtahVotes(db: UtahDb, bs: seq<UtahBallot>, run: ExportRun)
    requires run == ExportUtah(db, bs) && run.outcome == Exported
    ensures FindReportByPath(db.main.reports, ReportPath).Some?
    ensures var report := FindReportByPath(db.main.reports, ReportPath).value;
      var r := run.db.main;
      forall i :: 0 <= i < |r.candidates| && r.candidates[i].reportId == report.id && r.candidates[i].name in VoteTally(bs) ==>
        r.candidates[i].votes == Occurrences(bs, r.candidates[i].name)
  {
    UpdateReportVotes(db.main, bs);
  }
}
