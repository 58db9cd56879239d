/**
 * The approval analytics shared by every variant of
 * `generate_co_approval_analysis`: a profile is the list of ballots in
 * ballot-id order, each ballot the set of candidates it approved.
 *
 * Every fold below mirrors one Python loop over the ballots; each is tied to
 * an independent reference stated over ballot positions.
 */
module Approval {
  import opened Wrappers
  import opened Counting
  import opened Text

  type Candidate = string
  type Ballot = set<Candidate>
  type Profile = seq<Ballot>

  /** One co-approval row: `coApprovalCount` and `coApprovalRate`. */
  datatype Entry = Entry(count: nat, rate: real)

  // ---------------------------------------------------------------------------
  // Tallies
  // ---------------------------------------------------------------------------

  /** `[b for b in ballots if c in b]`, in ballot order. */
  function Approvers(p: Profile, c: Candidate): (r: Profile)
    ensures |r| <= |p|
    ensures forall i :: 0 <= i < |r| ==> c in r[i]
    ensures multiset(r) <= multiset(p)
  {
    if p == [] then []
    else
      var q := Approvers(p[..|p| - 1], c);
      assert p == p[..|p| - 1] + [p[|p| - 1]];
      if c in p[|p| - 1] then q + [p[|p| - 1]] else q
  }

  /** Number of ballots approving `c`: `len(cand_a_ballots)`. */
  function Tally(p: Profile, c: Candidate): nat {
    |Approvers(p, c)|
  }

  /** Positions of the ballots approving `c`. */
  ghost function Supporters(p: Profile, c: Candidate): set<nat> {
    set i | 0 <= i < |p| && c in p[i]
  }

  lemma SupportersSnoc(p: Profile, c: Candidate)
    requires p != []
    ensures Supporters(p, c) == Supporters(p[..|p| - 1], c) + (if c in p[|p| - 1] then {|p| - 1} else {})
    ensures |p| - 1 !in Supporters(p[..|p| - 1], c)
  {
  }

  /** The tally counts exactly the positions of approving ballots. */
  lemma {:induction false} TallySupporters(p: Profile, c: Candidate)
    ensures Tally(p, c) == |Supporters(p, c)|
    decreases |p|
  {
    if p != [] {
      TallySupporters(p[..|p| - 1], c);
      SupportersSnoc(p, c);
    }
  }

  /** Ballots approving both `a` and `b`, counted among the ballots approving `a`. */
  function CoCount(p: Profile, a: Candidate, b: Candidate): nat {
    Tally(Approvers(p, a), b)
  }

  lemma TallySnoc(q: Profile, x: Ballot, c: Candidate)
    ensures Tally(q + [x], c) == Tally(q, c) + (if c in x then 1 else 0)
  {
    assert (q + [x])[..|q|] == q;
  }

  /** The tally over the first `n` ballots adds the `n`-th ballot's vote to the tally over the first `n - 1`. */
  lemma TallyPrefixSnoc(p: Profile, n: nat, c: Candidate)
    requires 0 < n <= |p|
    ensures Tally(p[..n], c) == Tally(p[..n - 1], c) + (if c in p[n - 1] then 1 else 0)
  {
    assert p[..n] == p[..n - 1] + [p[n - 1]];
    TallySnoc(p[..n - 1], p[n - 1], c);
  }

  lemma IntersectionSnoc(p: Profile, a: Candidate, b: Candidate)
    requires p != []
    ensures var init, x := p[..|p| - 1], p[|p| - 1];
      && Supporters(p, a) * Supporters(p, b)
         == Supporters(init, a) * Supporters(init, b) + (if a in x && b in x then {|p| - 1} else {})
      && |p| - 1 !in Supporters(init, a) * Supporters(init, b)
  {
    SupportersSnoc(p, a);
    SupportersSnoc(p, b);
  }

  lemma ApproversSnoc(p: Profile, c: Candidate)
    requires p != []
    ensures Approvers(p, c)
         == Approvers(p[..|p| - 1], c) + (if c in p[|p| - 1] then [p[|p| - 1]] else [])
  {
  }

  /** The co-approval count is the size of the intersection of the two supporter sets. */
  lemma {:induction false} CoCountIntersection(p: Profile, a: Candidate, b: Candidate)
    ensures CoCount(p, a, b) == |Supporters(p, a) * Supporters(p, b)|
    decreases |p|
  {
    if p != [] {
      var init, x := p[..|p| - 1], p[|p| - 1];
      CoCountIntersection(init, a, b);
      IntersectionSnoc(p, a, b);
      ApproversSnoc(p, a);
      if a in x {
        TallySnoc(Approvers(init, a), x, b);
      }
    }
  }

  /** A subset is no larger than its superset. */
  lemma SubsetCardinality<T>(s: set<T>, t: set<T>)
    requires s <= t
    ensures |s| <= |t|
  {
    assert t == s + (t - s);
  }

  /**
   * Co-approval is symmetric, bounded by both candidates' tallies, and a
   * candidate's co-approval with itself is its tally.
   */
  lemma CoCountBounds(p: Profile, a: Candidate, b: Candidate)
    ensures CoCount(p, a, b) == CoCount(p, b, a)
    ensures CoCount(p, a, b) <= Tally(p, a) && CoCount(p, a, b) <= Tally(p, b)
    ensures CoCount(p, a, a) == Tally(p, a)
  {
    CoCountIntersection(p, a, b);
    CoCountIntersection(p, b, a);
    CoCountIntersection(p, a, a);
    TallySupporters(p, a);
    TallySupporters(p, b);
    assert Supporters(p, a) * Supporters(p, b) == Supporters(p, b) * Supporters(p, a);
    assert Supporters(p, a) * Supporters(p, a) == Supporters(p, a);
    SubsetCardinality(Supporters(p, a) * Supporters(p, b), Supporters(p, a));
    SubsetCardinality(Supporters(p, a) * Supporters(p, b), Supporters(p, b));
  }

  /** `(count / base) * 100` as an exact quotient. */
  function Percent(count: nat, base: nat): (r: real)
    requires base > 0
    ensures 0.0 <= r
    ensures count <= base ==> r <= 100.0
    ensures count == base ==> r == 100.0
    ensures count == 0 ==> r == 0.0
  {
    (count as real / base as real) * 100.0
  }

  /** `count / base` as an exact quotient. */
  function Fraction(count: nat, base: nat): (r: real)
    requires base > 0
    ensures 0.0 <= r
    ensures count <= base ==> r <= 1.0
    ensures r * 100.0 == Percent(count, base)
    ensures r * base as real == count as real
  {
    count as real / base as real
  }

  lemma CoApprovalFacts(p: Profile, a: Candidate, b: Candidate)
    ensures CoCount(p, a, b) == |Supporters(p, a) * Supporters(p, b)|
    ensures CoCount(p, a, b) <= Tally(p, a) && CoCount(p, a, b) <= Tally(p, b)
    ensures Tally(p, a) == |Supporters(p, a)|
  {
    CoCountBounds(p, a, b);
    CoCountIntersection(p, a, b);
    TallySupporters(p, a);
  }

  /** The co-approval row for the ordered pair `(a, b)`; `a` has at least one approving ballot. */
  function CoApproval(p: Profile, a: Candidate, b: Candidate): (e: Entry)
    requires Tally(p, a) > 0
    ensures e.count == |Supporters(p, a) * Supporters(p, b)|
    ensures e.count <= Tally(p, a) && e.count <= Tally(p, b)
    ensures 0.0 <= e.rate <= 100.0
    ensures e.rate == Percent(e.count, Tally(p, a)) && Tally(p, a) == |Supporters(p, a)|
  {
    CoApprovalFacts(p, a, b);
    var count := CoCount(p, a, b);
    Entry(count, Percent(count, Tally(p, a)))
  }

  // ---------------------------------------------------------------------------
  // Approval-count histograms
  // ---------------------------------------------------------------------------

  /** The number of approvals on each ballot. */
  function Sizes(p: Profile): (r: seq<nat>)
    ensures |r| == |p|
    ensures forall i :: 0 <= i < |p| ==> r[i] == |p[i]|
  {
    if p == [] then [] else Sizes(p[..|p| - 1]) + [|p[|p| - 1]|]
  }

  /** Total approvals over all ballots. */
  function TotalApprovals(p: Profile): nat {
    Sum(Sizes(p))
  }

  /** `approval_distribution`: number of approvals -> number of ballots. */
  function Distribution(p: Profile): map<nat, nat> {
    Histogram(Sizes(p))
  }

  /** The conditional histogram for `c`: the distribution over the ballots approving `c`. */
  function ConditionalDistribution(p: Profile, c: Candidate): map<nat, nat> {
    Distribution(Approvers(p, c))
  }

  /** `candidate_approval_distributions`: a conditional histogram for each listed candidate with an approving ballot. */
  function ConditionalDistributions(p: Profile, cands: set<Candidate>): (m: map<Candidate, map<nat, nat>>)
    ensures forall c :: c in m <==> c in cands && Tally(p, c) > 0
  {
    map c | c in cands && Tally(p, c) > 0 :: ConditionalDistribution(p, c)
  }

  /** Every ballot approves at most `n` candidates. */
  predicate SizesAtMost(p: Profile, n: nat) {
    forall i :: 0 <= i < |p| ==> |p[i]| <= n
  }

  /**
   * The buckets 0..n of the distribution hold every ballot once; weighting
   * each bucket by its size gives the total number of approvals; and each
   * bucket holds exactly the ballots of that size.
   */
  lemma DistributionMass(p: Profile, n: nat)
    requires SizesAtMost(p, n)
    ensures BucketSum(Distribution(p), n) == |p|
    ensures WeightedBucketSum(Distribution(p), n) == TotalApprovals(p)
  {
    var sizes := Sizes(p);
    assert forall i :: 0 <= i < |sizes| ==> sizes[i] <= n;
    HistogramMass(sizes, n);
  }

  /** Bucket `k` of the distribution holds the ballots with exactly `k` approvals, and only such buckets exist. */
  lemma DistributionCounts(p: Profile)
    ensures forall k :: Get(Distribution(p), k) == multiset(Sizes(p))[k]
  {
    HistogramCounts(Sizes(p));
  }

  /** The distribution has a bucket exactly for the approval counts that occur. */
  lemma DistributionKeys(p: Profile)
    ensures forall k :: k in Distribution(p) <==> exists i :: 0 <= i < |p| && |p[i]| == k
  {
    var sizes := Sizes(p);
    HistogramCounts(sizes);
    forall k ensures k in sizes <==> exists i :: 0 <= i < |p| && |p[i]| == k {
      if k in sizes {
        var i :| 0 <= i < |sizes| && sizes[i] == k;
        assert |p[i]| == k;
      }
    }
  }

  /** A candidate's conditional histogram holds exactly the ballots approving that candidate. */
  lemma ConditionalMass(p: Profile, c: Candidate, n: nat)
    requires SizesAtMost(p, n)
    ensures BucketSum(ConditionalDistribution(p, c), n) == Tally(p, c) == |Supporters(p, c)|
  {
    var q := Approvers(p, c);
    forall i | 0 <= i < |q| ensures |q[i]| <= n {
      assert q[i] in multiset(p);
    }
    DistributionMass(q, n);
    TallySupporters(p, c);
  }

  /** The average number of approvals per ballot: `total_approvals / total_ballots`. */
  function Average(p: Profile): (r: real)
    requires p != []
    ensures 0.0 <= r
    ensures r * |p| as real == TotalApprovals(p) as real
  {
    TotalApprovals(p) as real / |p| as real
  }

  lemma {:induction false} TotalApprovalsBound(p: Profile, n: nat)
    requires SizesAtMost(p, n)
    ensures TotalApprovals(p) <= n * |p|
    decreases |p|
  {
    if p != [] {
      TotalApprovalsBound(p[..|p| - 1], n);
    }
  }

  /** When no ballot approves more than `n` candidates, the average lies in `[0, n]`. */
  lemma AverageBound(p: Profile, n: nat)
    requires p != [] && SizesAtMost(p, n)
    ensures 0.0 <= Average(p) <= n as real
  {
    TotalApprovalsBound(p, n);
    QuotientBound(TotalApprovals(p) as real, |p| as real, n as real);
  }

  // ---------------------------------------------------------------------------
  // Candidates and the ordered pairs of the co-approval matrix
  // ---------------------------------------------------------------------------

  /** Every candidate approved on some ballot. */
  function Candidates(p: Profile): (r: set<Candidate>)
    ensures forall c :: c in r <==> exists i :: 0 <= i < |p| && c in p[i]
    ensures forall i :: 0 <= i < |p| ==> p[i] <= r
  {
    if p == [] then {}
    else
      var init := p[..|p| - 1];
      var r := Candidates(init) + p[|p| - 1];
      assert forall c :: c in r <==> exists i :: 0 <= i < |p| && c in p[i] by {
        forall c ensures c in r <==> exists i :: 0 <= i < |p| && c in p[i] {
          if c in Candidates(init) {
            var i :| 0 <= i < |init| && c in init[i];
            assert c in p[i];
          }
        }
      }
      r
  }

  /** A candidate listed in the candidate set has at least one approving ballot. */
  lemma CandidatesHaveSupport(p: Profile, c: Candidate)
    requires c in Candidates(p)
    ensures Tally(p, c) > 0
  {
    var i :| 0 <= i < |p| && c in p[i];
    TallySupporters(p, c);
    assert i in Supporters(p, c);
  }

  /** The ordered pairs of distinct members of `s`. */
  function OrderedPairs(s: set<Candidate>): set<(Candidate, Candidate)> {
    set a, b | a in s && b in s && a != b :: (a, b)
  }

  function Row(x: Candidate, t: set<Candidate>): set<(Candidate, Candidate)> {
    set b | b in t :: (x, b)
  }

  function Column(x: Candidate, t: set<Candidate>): set<(Candidate, Candidate)> {
    set a | a in t :: (a, x)
  }

  lemma {:induction false} RowColumnCount(x: Candidate, t: set<Candidate>)
    ensures |Row(x, t)| == |t| && |Column(x, t)| == |t|
    decreases |t|
  {
    if t != {} {
      HasElement(t);
      var y :| y in t;
      var u := t - {y};
      RowColumnCount(x, u);
      assert Row(x, t) == Row(x, u) + {(x, y)};
      assert Column(x, t) == Column(x, u) + {(y, x)};
    }
  }

  /** A set of `n` candidates has exactly `n * (n - 1)` ordered pairs of distinct members. */
  lemma {:induction false} OrderedPairsCount(s: set<Candidate>)
    ensures |OrderedPairs(s)| == PairCount(|s|)
    decreases |s|
  {
    if s != {} {
      HasElement(s);
      var x :| x in s;
      var t := s - {x};
      OrderedPairsCount(t);
      PairsStep(s, x);
      PairArithmetic(|t|);
    }
  }

  lemma PairsStep(s: set<Candidate>, x: Candidate)
    requires x in s
    ensures |s| == |s - {x}| + 1
    ensures |OrderedPairs(s)| == |OrderedPairs(s - {x})| + |s - {x}| + |s - {x}|
  {
    var t := s - {x};
    RowColumnCount(x, t);
    PairsSplit(s, x);
    DisjointUnionCount(OrderedPairs(t), Row(x, t));
    DisjointUnionCount(OrderedPairs(t) + Row(x, t), Column(x, t));
  }

  lemma DisjointUnionCount(a: set<(Candidate, Candidate)>, b: set<(Candidate, Candidate)>)
    requires a !! b
    ensures |a + b| == |a| + |b|
  {
  }

  /** The number of ordered pairs of distinct members of an `n`-element set. */
  function PairCount(n: nat): nat {
    n * (n - 1)
  }

  lemma PairArithmetic(k: nat)
    ensures PairCount(k + 1) == PairCount(k) + k + k
  {
  }

  /** Ordered pairs of distinct positions of a list of length `m`. */
  function PositionPairs(m: nat): set<(nat, nat)> {
    set i: nat, j: nat | i < m && j < m && i != j :: (i, j)
  }

  /** Position pairs `(i, k)` with `i` below `k`. */
  function ColumnAt(k: nat): set<(nat, nat)> {
    set i: nat | i < k :: (i, k)
  }

  /** Position pairs `(k, j)` with `j` below `k`. */
  function RowAt(k: nat): set<(nat, nat)> {
    set j: nat | j < k :: (k, j)
  }

  lemma {:induction false} PositionLineCount(m: nat, k: nat)
    ensures |set i: nat | i < m :: (i, k)| == m
    ensures |set j: nat | j < m :: (k, j)| == m
    decreases m
  {
    if m > 0 {
      PositionLineCount(m - 1, k);
      assert (set i: nat | i < m :: (i, k)) == (set i: nat | i < m - 1 :: (i, k)) + {(m - 1, k)};
      assert (set j: nat | j < m :: (k, j)) == (set j: nat | j < m - 1 :: (k, j)) + {(k, m - 1)};
    }
  }

  lemma LineCounts(k: nat)
    ensures |ColumnAt(k)| == k && |RowAt(k)| == k
  {
    PositionLineCount(k, k);
  }

  /** The pairs of `k + 1` positions are those of `k`, plus the new column and row, all disjoint. */
  lemma PositionPairsSplit(k: nat)
    ensures PositionPairs(k + 1) == PositionPairs(k) + ColumnAt(k) + RowAt(k)
    ensures PositionPairs(k) !! ColumnAt(k) && PositionPairs(k) + ColumnAt(k) !! RowAt(k)
  {
    assert PositionPairs(k + 1) == PositionPairs(k) + ColumnAt(k) + RowAt(k);
  }

  /** A list of length `m` has exactly `m * (m - 1)` ordered pairs of distinct positions. */
  lemma {:induction false} PositionPairsCount(m: nat)
    ensures |PositionPairs(m)| == PairCount(m)
    decreases m
  {
    if m > 0 {
      var k := m - 1;
      PositionPairsCount(k);
      PositionPairsSplit(k);
      LineCounts(k);
      PositionUnionCount(PositionPairs(k), ColumnAt(k));
      PositionUnionCount(PositionPairs(k) + ColumnAt(k), RowAt(k));
      PairArithmetic(k);
    }
  }

  lemma PositionUnionCount(a: set<(nat, nat)>, b: set<(nat, nat)>)
    requires a !! b
    ensures |a + b| == |a| + |b|
  {
  }

  /** One emitted co-approval row: the two candidates and their entry. */
  datatype PairRow = PairRow(candidateA: Candidate, candidateB: Candidate, entry: Entry)

  lemma PairsSplit(s: set<Candidate>, x: Candidate)
    requires x in s
    ensures var t := s - {x};
      && OrderedPairs(s) == OrderedPairs(t) + Row(x, t) + Column(x, t)
      && OrderedPairs(t) !! Row(x, t) && OrderedPairs(t) + Row(x, t) !! Column(x, t)
  {
  }

  /**
   * The directed co-approval matrix over `cands`: one row per ordered pair of
   * distinct candidates whose first member has at least one approving ballot.
   */
  function Matrix(p: Profile, cands: set<Candidate>): (m: map<(Candidate, Candidate), Entry>)
    ensures forall k :: k in m <==> k.0 in cands && k.1 in cands && k.0 != k.1 && Tally(p, k.0) > 0
    ensures forall k :: k in m ==> m[k] == CoApproval(p, k.0, k.1)
  {
    map k | k in OrderedPairs(cands) && Tally(p, k.0) > 0 :: CoApproval(p, k.0, k.1)
  }

  /** Over the approved candidates, the matrix holds exactly the `n * (n - 1)` ordered pairs. */
  lemma MatrixKeys(p: Profile)
    ensures Matrix(p, Candidates(p)).Keys == OrderedPairs(Candidates(p))
    ensures |Matrix(p, Candidates(p))| == PairCount(|Candidates(p)|)
  {
    var cands := Candidates(p);
    forall c | c in cands ensures Tally(p, c) > 0 {
      CandidatesHaveSupport(p, c);
    }
    MatrixKeysSupported(p, cands);
    OrderedPairsCount(cands);
  }

  lemma MatrixKeysSupported(p: Profile, cands: set<Candidate>)
    requires forall c :: c in cands ==> Tally(p, c) > 0
    ensures Matrix(p, cands).Keys == OrderedPairs(cands)
  {
  }

  // ---------------------------------------------------------------------------
  // The most common exact combination
  // ---------------------------------------------------------------------------

  /** `tuple(sorted(b))` for every ballot with at least one approval, in ballot order. */
  function Combinations(p: Profile): (r: seq<seq<Candidate>>)
    ensures |r| <= |p|
    ensures forall j :: 0 <= j < |r| ==> r[j] != [] && StrictlySorted(r[j])
  {
    if p == [] then []
    else
      var q, b := Combinations(p[..|p| - 1]), p[|p| - 1];
      if b == {} then q else q + [SortedElements(b)]
  }

  /** Positions of the ballots whose approval set is exactly `s`. */
  ghost function ExactMatches(p: Profile, s: Ballot): set<nat> {
    set i | 0 <= i < |p| && p[i] == s
  }

  lemma SortedElementsInjective(a: Ballot, b: Ballot)
    ensures SortedElements(a) == SortedElements(b) <==> a == b
  {
    if SortedElements(a) == SortedElements(b) {
      assert forall x :: x in a <==> x in b;
    }
  }

  lemma ExactMatchesSnoc(p: Profile, s: Ballot)
    requires p != []
    ensures ExactMatches(p, s) == ExactMatches(p[..|p| - 1], s) + (if p[|p| - 1] == s then {|p| - 1} else {})
    ensures |p| - 1 !in ExactMatches(p[..|p| - 1], s)
  {
  }

  /** The combination of a non-empty set is counted once per ballot approving exactly that set. */
  lemma {:induction false} CombinationCount(p: Profile, s: Ballot)
    requires s != {}
    ensures multiset(Combinations(p))[SortedElements(s)] == |ExactMatches(p, s)|
    decreases |p|
  {
    if p != [] {
      var init, b := p[..|p| - 1], p[|p| - 1];
      CombinationCount(init, s);
      ExactMatchesSnoc(p, s);
      if b != {} {
        SortedElementsInjective(b, s);
      }
    }
  }

  /** Each listed combination is the sorted listing of some non-empty ballot. */
  lemma {:induction false} CombinationsFromBallots(p: Profile, j: nat)
    requires j < |Combinations(p)|
    ensures exists i :: 0 <= i < |p| && p[i] != {} && Combinations(p)[j] == SortedElements(p[i])
    decreases |p|
  {
    var init, b := p[..|p| - 1], p[|p| - 1];
    if j < |Combinations(init)| {
      CombinationsFromBallots(init, j);
      var i :| 0 <= i < |init| && init[i] != {} && Combinations(init)[j] == SortedElements(init[i]);
      assert p[i] == init[i];
    } else {
      assert Combinations(p)[j] == SortedElements(p[|p| - 1]);
    }
  }

  /**
   * `mostCommonCombination`: the sorted combination shared by the most
   * ballots with at least one approval, the first counted on ties; `[]` when
   * no ballot approves anyone.
   */
  function MostCommonCombination(p: Profile): (r: seq<Candidate>)
    ensures StrictlySorted(r)
    ensures r == [] <==> Combinations(p) == []
  {
    match MostCommon(Combinations(p))
    case None => []
    case Some(top) => top.0
  }

  /**
   * A non-empty result lists some ballot's approval set, and no ballot's
   * approval set is shared by more ballots than that one.
   */
  lemma MostCommonCombinationIsMax(p: Profile)
    requires MostCommonCombination(p) != []
    ensures exists i :: 0 <= i < |p| && p[i] != {} && MostCommonCombination(p) == SortedElements(p[i]) &&
              forall j :: 0 <= j < |p| && p[j] != {} ==> |ExactMatches(p, p[j])| <= |ExactMatches(p, p[i])|
  {
    var keys := Combinations(p);
    var top := MostCommon(keys).value;
    var f :| 0 <= f < |keys| && keys[f] == top.0;
    CombinationsFromBallots(p, f);
    var i :| 0 <= i < |p| && p[i] != {} && keys[f] == SortedElements(p[i]);
    CombinationCount(p, p[i]);
    forall j | 0 <= j < |p| && p[j] != {}
      ensures |ExactMatches(p, p[j])| <= |ExactMatches(p, p[i])|
    {
      CombinationAtMostTop(p, j);
    }
  }

  /** No non-empty approval set is shared by more ballots than the most common combination counts. */
  lemma CombinationAtMostTop(p: Profile, j: nat)
    requires j < |p| && p[j] != {}
    ensures MostCommon(Combinations(p)).Some?
    ensures |ExactMatches(p, p[j])| <= MostCommon(Combinations(p)).value.1
  {
    var keys := Combinations(p);
    CombinationCount(p, p[j]);
    CombinationListed(p, j);
    var g :| 0 <= g < |keys| && keys[g] == SortedElements(p[j]);
    assert Frequency(keys, g) <= MostCommon(keys).value.1;
  }

  /** When every ballot approves someone, the combinations are the ballots' sorted sets, in ballot order. */
  lemma {:induction false} CombinationsOfNonEmpty(p: Profile)
    requires forall k :: 0 <= k < |p| ==> p[k] != {}
    ensures |Combinations(p)| == |p|
    ensures forall k :: 0 <= k < |p| ==> Combinations(p)[k] == SortedElements(p[k])
    decreases |p|
  {
    if p != [] {
      var init, b := p[..|p| - 1], p[|p| - 1];
      CombinationsOfNonEmpty(init);
      var q := Combinations(init);
      assert Combinations(p) == q + [SortedElements(b)];
      forall k | 0 <= k < |p| ensures Combinations(p)[k] == SortedElements(p[k]) {
        if k < |init| {
          assert init[k] == p[k];
          assert q[k] == SortedElements(init[k]);
        }
      }
    }
  }

  /**
   * When every ballot approves someone, the reported combination is the set
   * of a ballot `i` shared by the most ballots, and every earlier ballot's
   * set is shared by fewer: on ties the set counted first wins.
   */
  lemma MostCommonCombinationFirst(p: Profile) returns (i: nat)
    requires p != [] && forall k :: 0 <= k < |p| ==> p[k] != {}
    ensures i < |p| && MostCommonCombination(p) == SortedElements(p[i])
    ensures forall j :: 0 <= j < |p| ==> |ExactMatches(p, p[j])| <= |ExactMatches(p, p[i])|
    ensures forall j :: 0 <= j < i ==> |ExactMatches(p, p[j])| < |ExactMatches(p, p[i])|
  {
    var keys := Combinations(p);
    CombinationsOfNonEmpty(p);
    var top := MostCommon(keys).value;
    i := FirstOccurrence(keys, top.0, 0);
    CombinationCount(p, p[i]);
    forall j | 0 <= j < |p| ensures |ExactMatches(p, p[j])| <= top.1 {
      CombinationAtMostTop(p, j);
    }
    forall j | 0 <= j < i ensures |ExactMatches(p, p[j])| < top.1 {
      if |ExactMatches(p, p[j])| == top.1 {
        CombinationCount(p, p[j]);
        MostCommonFirstSeen(keys, j);
        assert false;
      }
    }
  }

  /** Every ballot with at least one approval contributes its combination. */
  lemma {:induction false} CombinationListed(p: Profile, j: nat)
    requires j < |p| && p[j] != {}
    ensures exists g :: 0 <= g < |Combinations(p)| && Combinations(p)[g] == SortedElements(p[j])
    decreases |p|
  {
    var init := p[..|p| - 1];
    if j < |init| {
      CombinationListed(init, j);
      var g :| 0 <= g < |Combinations(init)| && Combinations(init)[g] == SortedElements(init[j]);
      assert Combinations(p)[g] == SortedElements(p[j]);
    } else {
      assert Combinations(p)[|Combinations(p)| - 1] == SortedElements(p[j]);
    }
  }

  // ---------------------------------------------------------------------------
  // Anyone-but tallies
  // ---------------------------------------------------------------------------

  lemma SingletonMembers(s: set<Candidate>)
    requires |s| == 1
    ensures exists x :: x in s
    ensures forall x, y :: x in s && y in s ==> x == y
  {
    HasElement(s);
    var x :| x in s;
    var t := s - {x};
    assert s == t + {x};
    assert |t| == 0;
    assert forall y :: y in s ==> y == x;
  }

  /** The one member of a singleton set: `list(excluded_candidates)[0]`. */
  function Only(s: set<Candidate>): (x: Candidate)
    requires |s| == 1
    ensures s == {x}
  {
    SingletonMembers(s);
    var x :| x in s;
    x
  }

  /**
   * `anyone_but_analysis`: every ballot whose approval count equals `target`
   * and that leaves out exactly one member of `cands` counts once against
   * that member. `sizes[i]` is the approval count the source compares.
   */
  function AnyoneBut(p: Profile, sizes: seq<nat>, target: int, cands: set<Candidate>): (m: map<Candidate, nat>)
    requires |sizes| == |p|
    ensures forall c :: c in m ==> c in cands && m[c] > 0
  {
    if p == [] then map[]
    else
      var n := |p| - 1;
      var m := AnyoneBut(p[..n], sizes[..n], target, cands);
      if sizes[n] == target && |cands - p[n]| == 1 then Bump(m, Only(cands - p[n])) else m
  }

  /** Positions of the ballots counted against `c`. */
  ghost function Excluders(p: Profile, sizes: seq<nat>, target: int, cands: set<Candidate>, c: Candidate): set<nat>
    requires |sizes| == |p|
  {
    set i | 0 <= i < |p| && sizes[i] == target && cands - p[i] == {c}
  }

  /** Positions of the ballots counted against anyone. */
  ghost function AnyExcluders(p: Profile, sizes: seq<nat>, target: int, cands: set<Candidate>): set<nat>
    requires |sizes| == |p|
  {
    set i | 0 <= i < |p| && sizes[i] == target && |cands - p[i]| == 1
  }

  lemma ExcludersSnoc(p: Profile, sizes: seq<nat>, target: int, cands: set<Candidate>, c: Candidate)
    requires |sizes| == |p| && p != []
    ensures var n := |p| - 1;
      && Excluders(p, sizes, target, cands, c)
         == Excluders(p[..n], sizes[..n], target, cands, c)
            + (if sizes[n] == target && cands - p[n] == {c} then {n} else {})
      && n !in Excluders(p[..n], sizes[..n], target, cands, c)
  {
  }

  lemma AnyExcludersSnoc(p: Profile, sizes: seq<nat>, target: int, cands: set<Candidate>)
    requires |sizes| == |p| && p != []
    ensures var n := |p| - 1;
      && AnyExcluders(p, sizes, target, cands)
         == AnyExcluders(p[..n], sizes[..n], target, cands)
            + (if sizes[n] == target && |cands - p[n]| == 1 then {n} else {})
      && n !in AnyExcluders(p[..n], sizes[..n], target, cands)
  {
  }

  /** Each candidate's anyone-but count is the number of qualifying ballots that leave out only that candidate. */
  lemma {:induction false} AnyoneButCounts(p: Profile, sizes: seq<nat>, target: int, cands: set<Candidate>, c: Candidate)
    requires |sizes| == |p|
    ensures Get(AnyoneBut(p, sizes, target, cands), c) == |Excluders(p, sizes, target, cands, c)|
    decreases |p|
  {
    if p != [] {
      var n := |p| - 1;
      AnyoneButCounts(p[..n], sizes[..n], target, cands, c);
      ExcludersSnoc(p, sizes, target, cands, c);
      var hit := sizes[n] == target && cands - p[n] == {c};
      if sizes[n] == target && |cands - p[n]| == 1 {
        assert Only(cands - p[n]) == c <==> hit;
      }
    }
  }

  /**
   * Summed over a duplicate-free listing of the candidates, the anyone-but
   * counts give the number of qualifying ballots, which is at most the
   * number of ballots.
   */
  lemma {:induction false} AnyoneButTotal(p: Profile, sizes: seq<nat>, target: int, cands: set<Candidate>, ks: seq<Candidate>)
    requires |sizes| == |p|
    requires Distinct(ks) && forall c :: c in cands ==> c in ks
    ensures SumOver(AnyoneBut(p, sizes, target, cands), ks) == |AnyExcluders(p, sizes, target, cands)|
    ensures |AnyExcluders(p, sizes, target, cands)| <= |p|
    decreases |p|
  {
    if p == [] {
      SumOverEmpty(ks);
    } else {
      var n := |p| - 1;
      AnyoneButTotal(p[..n], sizes[..n], target, cands, ks);
      AnyExcludersSnoc(p, sizes, target, cands);
      var hit := sizes[n] == target && |cands - p[n]| == 1;
      if hit {
        var x := Only(cands - p[n]);
        SumOverBump(AnyoneBut(p[..n], sizes[..n], target, cands), ks, x);
      }
    }
  }

  /** The anyone-but tally is empty exactly when no ballot qualifies. */
  lemma AnyoneButEmpty(p: Profile, sizes: seq<nat>, target: int, cands: set<Candidate>)
    requires |sizes| == |p|
    ensures AnyoneBut(p, sizes, target, cands) == map[] <==> AnyExcluders(p, sizes, target, cands) == {}
  {
    var m := AnyoneBut(p, sizes, target, cands);
    if m != map[] {
      var c :| c in m;
      AnyoneButCounts(p, sizes, target, cands, c);
      var i :| i in Excluders(p, sizes, target, cands, c);
      assert i in AnyExcluders(p, sizes, target, cands);
    }
    if AnyExcluders(p, sizes, target, cands) != {} {
      var i :| i in AnyExcluders(p, sizes, target, cands);
      var c := Only(cands - p[i]);
      assert i in Excluders(p, sizes, target, cands, c);
      AnyoneButCounts(p, sizes, target, cands, c);
    }
  }

  // ---------------------------------------------------------------------------
  // Bounds from the candidate set
  // ---------------------------------------------------------------------------

  /** No ballot approves more candidates than are approved overall. */
  lemma BallotsWithinCandidates(p: Profile)
    ensures SizesAtMost(p, |Candidates(p)|)
  {
    forall i | 0 <= i < |p| ensures |p[i]| <= |Candidates(p)| {
      SubsetCardinality(p[i], Candidates(p));
    }
  }

  /** A strictly sorted listing lists each name once. */
  lemma StrictlySortedDistinct(xs: seq<Candidate>)
    requires StrictlySorted(xs)
    ensures Distinct(xs)
  {
    forall i, j | 0 <= i < j < |xs| ensures xs[i] != xs[j] {
      StrLtIrreflexive(xs[i]);
    }
  }
}
