/**
 * The voting-method finder: which methods fit a configuration, the title
 * and the score card shown for the chosen one, and which groups of
 * available methods are suggested for comparison with it.
 *
 * A `Record<string, VotingMethod>` is an association list in
 * `Object.entries` order; JavaScript numbers are integers here.
 */
module Finder {
  import opened Wrappers
  import opened Text

  // ---------------------------------------------------------------------------
  // Shapes
  // ---------------------------------------------------------------------------

  /** `maxSeats`: a number or `'unlimited'`. */
  datatype MaxSeats = Unlimited | AtMost(n: int)

  datatype Scores = Scores(
    proportionality: int,
    simplicity: int,
    honestStrategyResistance: int,
    strategicStraightforwardness: int,
    representation: int)

  /** The fields of a voting method that the finder reads. */
  datatype VotingMethod = VotingMethod(
    name: string,
    ballotType: string,
    choiceLimitation: string,
    minSeats: int,
    maxSeats: MaxSeats,
    scores: Scores,
    isProportional: bool,
    tags: Option<seq<string>>)

  /** The fields of the finder's configuration that these functions read. */
  datatype VotingConfig = VotingConfig(
    ballotType: Option<string>,
    limitedChoices: Option<string>,
    customLimit: int,
    tabulationMethod: Option<string>,
    numberOfSeats: int,
    listType: Option<string>,
    mixedMember: bool,
    singleWinnerProportion: int)

  /** The method record, keyed by method id, in entry order. */
  type Methods = seq<(string, VotingMethod)>

  /** A string field that is neither `null` nor empty. */
  predicate Truthy(o: Option<string>) {
    o.Some? && o.value != ""
  }

  /** `field || ''`. */
  function OrEmpty(o: Option<string>): (r: string)
    ensures Truthy(o) ==> r == o.value
    ensures !Truthy(o) ==> r == ""
  {
    if Truthy(o) then o.value else ""
  }

  /** `methods[key]`: the entry stored under `key`, if any. */
  function Lookup(ms: Methods, key: string): (r: Option<VotingMethod>)
    ensures r.Some? <==> exists k :: 0 <= k < |ms| && ms[k].0 == key
    ensures r.Some? ==> exists k :: 0 <= k < |ms| && ms[k] == (key, r.value)
  {
    if ms == [] then None
    else if ms[0].0 == key then Some(ms[0].1)
    else
      var r := Lookup(ms[1..], key);
      assert r.Some? ==> exists k :: 0 <= k < |ms[1..]| && ms[1..][k] == (key, r.value);
      r
  }

  /** A record has each key once. */
  predicate UniqueKeys(ms: Methods) {
    forall i, j :: 0 <= i < j < |ms| ==> ms[i].0 != ms[j].0
  }

  /** In a record every entry is what its key looks up. */
  lemma {:induction false} LookupEntry(ms: Methods, k: nat)
    requires UniqueKeys(ms) && k < |ms|
    ensures Lookup(ms, ms[k].0) == Some(ms[k].1)
    decreases k
  {
    if k > 0 {
      assert ms[0].0 != ms[k].0;
      assert ms[1..][k - 1] == ms[k];
      LookupEntry(ms[1..], k - 1);
    }
  }

  /** The decimal text of a JavaScript integer, sign included. */
  function NumberText(n: int): (r: string)
    ensures r != []
    ensures n < 0 <==> r[0] == '-'
  {
    if n < 0 then "-" + NatToString(-n) else NatToString(n)
  }

  // ---------------------------------------------------------------------------
  // `getElectionType` and `getAvailableMethods`
  // ---------------------------------------------------------------------------

  /** `getElectionType`: a single-winner election has exactly one seat. */
  function ElectionType(seats: int): (r: string)
    ensures r == "single" <==> seats == 1
    ensures r == "multi" <==> seats != 1
  {
    if seats == 1 then "single" else "multi"
  }

  predicate BallotTypeFits(m: VotingMethod, c: VotingConfig) {
    c.ballotType == Some(m.ballotType)
  }

  predicate ChoiceLimitFits(m: VotingMethod, c: VotingConfig) {
    m.choiceLimitation == "any" || c.limitedChoices == Some(m.choiceLimitation)
  }

  /** The election-type filter: `'single'` wants a method that can fill one seat, anything else one that can fill more. */
  predicate ElectionTypeFits(m: VotingMethod, filter: string) {
    filter == "all" || (if filter == "single" then m.minSeats <= 1 else m.maxSeats != AtMost(1))
  }

  /** The seat filter: the configured seats lie within the method's range, unless every type is shown. */
  predicate SeatCountFits(m: VotingMethod, seats: int, filter: string) {
    filter == "all" || (m.minSeats <= seats && (m.maxSeats.Unlimited? || seats <= m.maxSeats.n))
  }

  /** A method passes all four filters of `getAvailableMethods`. */
  predicate Offered(m: VotingMethod, c: VotingConfig, filter: string) {
    && BallotTypeFits(m, c)
    && ChoiceLimitFits(m, c)
    && ElectionTypeFits(m, filter)
    && SeatCountFits(m, c.numberOfSeats, filter)
  }

  /** `getAvailableMethods`: the ids of the methods that pass every filter, in record order. */
  function AvailableMethods(ms: Methods, c: VotingConfig, filter: string): (r: seq<string>)
    ensures |r| <= |ms|
  {
    if ms == [] then []
    else (if Offered(ms[0].1, c, filter) then [ms[0].0] else []) + AvailableMethods(ms[1..], c, filter)
  }

  /** An id is offered exactly when some entry under it passes every filter. */
  lemma {:induction false} AvailableMembers(ms: Methods, c: VotingConfig, filter: string, x: string)
    ensures x in AvailableMethods(ms, c, filter) <==> exists k :: 0 <= k < |ms| && ms[k].0 == x && Offered(ms[k].1, c, filter)
    decreases |ms|
  {
    if ms != [] {
      AvailableMembers(ms[1..], c, filter, x);
      if x in AvailableMethods(ms[1..], c, filter) {
        var k :| 0 <= k < |ms[1..]| && ms[1..][k].0 == x && Offered(ms[1..][k].1, c, filter);
        assert ms[k + 1] == ms[1..][k];
      }
      if k :| 0 <= k < |ms| && ms[k].0 == x && Offered(ms[k].1, c, filter) {
        if k > 0 {
          assert ms[1..][k - 1] == ms[k];
        }
      }
    }
  }

  /** The filter keeps record order: filtering a concatenation concatenates the results. */
  lemma {:induction false} AvailableAppend(a: Methods, b: Methods, c: VotingConfig, filter: string)
    ensures AvailableMethods(a + b, c, filter) == AvailableMethods(a, c, filter) + AvailableMethods(b, c, filter)
    decreases |a|
  {
    if a != [] {
      var head := if Offered(a[0].1, c, filter) then [a[0].0] else [];
      assert (a + b)[0] == a[0];
      assert (a + b)[1..] == a[1..] + b;
      AvailableAppend(a[1..], b, c, filter);
      assert AvailableMethods(a + b, c, filter) == head + AvailableMethods(a[1..] + b, c, filter);
      assert AvailableMethods(a, c, filter) == head + AvailableMethods(a[1..], c, filter);
    } else {
      assert a + b == b;
    }
  }

  /** Every id offered names a method of the record that fits the ballot type, the choice limit and the seats. */
  lemma AvailableOffered(ms: Methods, c: VotingConfig, filter: string, x: string)
    requires UniqueKeys(ms) && x in AvailableMethods(ms, c, filter)
    ensures Lookup(ms, x).Some?
    ensures var m := Lookup(ms, x).value;
      && c.ballotType == Some(m.ballotType)
      && (m.choiceLimitation == "any" || c.limitedChoices == Some(m.choiceLimitation))
      && (filter != "all" ==> m.minSeats <= c.numberOfSeats)
      && (filter != "all" && m.maxSeats.AtMost? ==> c.numberOfSeats <= m.maxSeats.n)
  {
    AvailableMembers(ms, c, filter, x);
    var k :| 0 <= k < |ms| && ms[k].0 == x && Offered(ms[k].1, c, filter);
    LookupEntry(ms, k);
  }

  /** A record gives each offered id once. */
  lemma {:induction false} AvailableDistinct(ms: Methods, c: VotingConfig, filter: string)
    requires UniqueKeys(ms)
    ensures var r := AvailableMethods(ms, c, filter);
      forall i, j :: 0 <= i < j < |r| ==> r[i] != r[j]
    decreases |ms|
  {
    if ms != [] {
      var rest := AvailableMethods(ms[1..], c, filter);
      AvailableDistinct(ms[1..], c, filter);
      AvailableMembers(ms[1..], c, filter, ms[0].0);
      assert ms[0].0 !in rest;
      var r := AvailableMethods(ms, c, filter);
      if Offered(ms[0].1, c, filter) {
        assert r == [ms[0].0] + rest;
        assert forall i, j :: 0 <= i < j < |rest| ==> rest[i] != rest[j];
        forall i, j | 0 <= i < j < |r| ensures r[i] != r[j] {
          if i == 0 {
            assert r[j] == rest[j - 1];
            assert rest[j - 1] in rest;
          } else {
            assert r[i] == rest[i - 1] && r[j] == rest[j - 1];
          }
        }
      }
    }
  }

  /** With the filter `'all'` the seat count is not consulted. */
  lemma {:induction false} AvailableAllIgnoresSeats(ms: Methods, c: VotingConfig, seats: int)
    ensures AvailableMethods(ms, c, "all") == AvailableMethods(ms, c.(numberOfSeats := seats), "all")
    decreases |ms|
  {
    if ms != [] {
      AvailableAllIgnoresSeats(ms[1..], c, seats);
    }
  }

  /**
   * Filtering by the configuration's own election type adds nothing to the
   * seat filter once there is at least one seat.
   */
  lemma OwnElectionTypeRedundant(m: VotingMethod, seats: int)
    requires seats >= 1
    ensures SeatCountFits(m, seats, ElectionType(seats)) ==> ElectionTypeFits(m, ElectionType(seats))
  {
  }

  // ---------------------------------------------------------------------------
  // `generateVotingMethodName`
  // ---------------------------------------------------------------------------

  const Placeholder := "Choose a voting method"
  const UnknownMethod := "Unknown Method"

  /** The display names of the list types. */
  function ListTypeName(id: string): (r: Option<string>)
    ensures r.Some? <==> id in ["closed", "open", "flexible"]
  {
    if id == "closed" then Some("Closed List")
    else if id == "open" then Some("Open List")
    else if id == "flexible" then Some("Flexible List")
    else None
  }

  /** The list-type prefix, for the two list methods. */
  function ListTypePrefix(c: VotingConfig): (r: string)
    ensures r != "" ==> Truthy(c.listType) && c.tabulationMethod.Some? && c.tabulationMethod.value in ["party-list-pr", "mmp"]
  {
    if Truthy(c.listType) && c.tabulationMethod.Some? && c.tabulationMethod.value in ["party-list-pr", "mmp"] then
      match ListTypeName(c.listType.value)
      case Some(n) => n + " "
      case None => ""
    else ""
  }

  /** The district/list split of a mixed-member system. */
  function MixedMemberSuffix(c: VotingConfig): string {
    if c.tabulationMethod == Some("mmp") && c.mixedMember then
      " (" + NumberText(c.singleWinnerProportion) + "% districts, " + NumberText(100 - c.singleWinnerProportion) + "% list)"
    else ""
  }

  /** `(n)`: the custom choice limit as it appears in a title. */
  function LimitTag(n: int): string {
    "(" + NumberText(n) + ")"
  }

  /** A custom choice limit other than 3 is appended unless the title already shows it. */
  function WithCustomLimit(name: string, c: VotingConfig): (r: string)
    ensures c.limitedChoices != Some("custom") || c.customLimit == 3 ==> r == name
  {
    if c.limitedChoices == Some("custom") && c.customLimit != 3 && !Contains(name, LimitTag(c.customLimit)) then
      name + " " + LimitTag(c.customLimit)
    else name
  }

  /** `generateVotingMethodName`. */
  function VotingMethodName(ms: Methods, c: VotingConfig): (r: string)
    ensures !Truthy(c.tabulationMethod) || !Truthy(c.ballotType) ==> r == Placeholder
    ensures Truthy(c.tabulationMethod) && Truthy(c.ballotType) && Lookup(ms, c.tabulationMethod.value).None? ==> r == UnknownMethod
  {
    if !Truthy(c.tabulationMethod) || !Truthy(c.ballotType) then Placeholder
    else
      match Lookup(ms, c.tabulationMethod.value)
      case None => UnknownMethod
      case Some(m) => WithCustomLimit(ListTypePrefix(c) + m.name + MixedMemberSuffix(c), c)
  }

  /** The limit tag is shown once added: a second pass adds nothing. */
  lemma CustomLimitOnce(name: string, c: VotingConfig)
    ensures WithCustomLimit(WithCustomLimit(name, c), c) == WithCustomLimit(name, c)
    ensures c.limitedChoices == Some("custom") && c.customLimit != 3 ==> Contains(WithCustomLimit(name, c), LimitTag(c.customLimit))
  {
    if c.limitedChoices == Some("custom") && c.customLimit != 3 && !Contains(name, LimitTag(c.customLimit)) {
      ContainsSuffix(name + " ", LimitTag(c.customLimit));
    }
  }

  /** A title that already shows the limit is left as it is. */
  lemma CustomLimitShown(name: string, c: VotingConfig)
    requires Contains(name, LimitTag(c.customLimit))
    ensures WithCustomLimit(name, c) == name
  {
  }

  /** The title of a known method shows the method's own name, behind at most a list-type prefix. */
  lemma NameShowsMethod(ms: Methods, c: VotingConfig)
    requires Truthy(c.tabulationMethod) && Truthy(c.ballotType)
    requires Lookup(ms, c.tabulationMethod.value).Some?
    ensures var name := Lookup(ms, c.tabulationMethod.value).value.name;
      var p := ListTypePrefix(c);
      var r := VotingMethodName(ms, c);
      |p| + |name| <= |r| && r[..|p| + |name|] == p + name
  {
    var m := Lookup(ms, c.tabulationMethod.value).value;
    var base := ListTypePrefix(c) + m.name + MixedMemberSuffix(c);
    assert base[..|ListTypePrefix(c)| + |m.name|] == ListTypePrefix(c) + m.name;
    if WithCustomLimit(base, c) != base {
      var t := base + " " + LimitTag(c.customLimit);
      assert t[..|base|] == base;
    }
  }

  // ---------------------------------------------------------------------------
  // `generateVotingMethodScores` and `isProportionalMethod`
  // ---------------------------------------------------------------------------

  const ZeroScores := Scores(0, 0, 0, 0, 0)

  /** Pick-1 on a choose-x ballot. */
  predicate PickOne(c: VotingConfig) {
    c.limitedChoices == Some("1") && c.ballotType == Some("choose-x")
  }

  /** `generateVotingMethodScores`: the chosen method's score card, adjusted for the configuration. */
  function VotingMethodScores(ms: Methods, c: VotingConfig): (r: Scores)
    ensures !Truthy(c.ballotType) || !Truthy(c.tabulationMethod) ==> r == ZeroScores
    ensures Truthy(c.tabulationMethod) && Lookup(ms, c.tabulationMethod.value).None? ==> r == ZeroScores
    ensures c.numberOfSeats == 1 ==> r.proportionality == 0
    ensures PickOne(c) && Truthy(c.tabulationMethod) && Lookup(ms, c.tabulationMethod.value).Some? ==> r.honestStrategyResistance == 0 && r.strategicStraightforwardness == 0 && r.representation == 1
  {
    if !Truthy(c.ballotType) || !Truthy(c.tabulationMethod) then ZeroScores
    else
      match Lookup(ms, c.tabulationMethod.value)
      case None => ZeroScores
      case Some(m) =>
        var s0 := m.scores;
        var s1 := if c.numberOfSeats > 1 && c.tabulationMethod == Some("block-approval") then s0.(representation := 2) else s0;
        var s2 := if PickOne(c) then s1.(honestStrategyResistance := 0, strategicStraightforwardness := 0, representation := 1) else s1;
        if c.numberOfSeats == 1 then s2.(proportionality := 0) else s2
  }

  /** Every score not overridden is the method's own. */
  lemma ScoresFromMethod(ms: Methods, c: VotingConfig)
    requires Truthy(c.ballotType) && Truthy(c.tabulationMethod)
    requires Lookup(ms, c.tabulationMethod.value).Some?
    ensures var m := Lookup(ms, c.tabulationMethod.value).value.scores;
      var r := VotingMethodScores(ms, c);
      && r.simplicity == m.simplicity
      && (c.numberOfSeats != 1 ==> r.proportionality == m.proportionality)
      && (!PickOne(c) ==> r.honestStrategyResistance == m.honestStrategyResistance)
      && (!PickOne(c) ==> r.strategicStraightforwardness == m.strategicStraightforwardness)
      && (!PickOne(c) && (c.numberOfSeats <= 1 || c.tabulationMethod != Some("block-approval")) ==> r.representation == m.representation)
      && (!PickOne(c) && c.numberOfSeats > 1 && c.tabulationMethod == Some("block-approval") ==> r.representation == 2)
  {
  }

  /** `isProportionalMethod`: a multi-seat configuration whose method is proportional. */
  function IsProportionalMethod(ms: Methods, c: VotingConfig): (r: bool)
    ensures c.numberOfSeats <= 1 ==> !r
    ensures r ==> Lookup(ms, OrEmpty(c.tabulationMethod)).Some?
    ensures c.numberOfSeats > 1 && Lookup(ms, OrEmpty(c.tabulationMethod)).Some? ==>
              r == Lookup(ms, OrEmpty(c.tabulationMethod)).value.isProportional
  {
    if c.numberOfSeats <= 1 then false
    else
      match Lookup(ms, OrEmpty(c.tabulationMethod))
      case Some(m) => m.isProportional
      case None => false
  }

  // ---------------------------------------------------------------------------
  // `getSuggestedComparisons`
  // ---------------------------------------------------------------------------

  /** A suggested group of methods to compare; the source's description text is not kept. */
  datatype Comparison = Comparison(title: string, methods: seq<string>)

  /** `tags?.includes(tag) || false`. */
  predicate HasTag(m: VotingMethod, tag: string) {
    m.tags.Some? && tag in m.tags.value
  }

  /** The candidate groups in the order they are considered: a title and the test a member passes. */
  const Groups: seq<(string, VotingMethod -> bool)> := [
    ("Proportional Score Methods", (m: VotingMethod) => m.ballotType == "score" && m.isProportional),
    ("Multi-Winner Score Methods", (m: VotingMethod) => m.ballotType == "score" && m.maxSeats != AtMost(1)),
    ("Single-Winner Score Methods", (m: VotingMethod) => m.ballotType == "score" && m.maxSeats == AtMost(1)),
    ("Single-Winner Choose-X Methods", (m: VotingMethod) => m.ballotType == "choose-x" && m.maxSeats == AtMost(1)),
    ("Approval-Based Proportional Methods", (m: VotingMethod) => m.ballotType == "choose-x" && m.isProportional),
    ("Choose-X Methods", (m: VotingMethod) => m.ballotType == "choose-x"),
    ("Multi-Winner Choose-X Methods", (m: VotingMethod) => m.ballotType == "choose-x" && m.maxSeats != AtMost(1)),
    ("Ranked Choice Methods", (m: VotingMethod) => m.ballotType == "ranking"),
    ("Proportional Methods", (m: VotingMethod) => m.isProportional),
    ("Simple Methods", (m: VotingMethod) => HasTag(m, "simple")),
    ("Runoff-Based Methods", (m: VotingMethod) => HasTag(m, "runoff")),
    ("Consensus-Building Methods", (m: VotingMethod) => HasTag(m, "consensus")),
    ("Proportional Methods (Tagged)", (m: VotingMethod) => HasTag(m, "proportional")),
    ("Computationally Complex Methods", (m: VotingMethod) => HasTag(m, "computationally-complex") || HasTag(m, "optimization"))
  ]

  /** The index of the "Proportional Methods" group. */
  const ProportionalGroup := 8

  /** Every id names a method of the record. */
  predicate Known(ms: Methods, ids: seq<string>) {
    forall i :: 0 <= i < |ids| ==> Lookup(ms, ids[i]).Some?
  }

  /** `availableIds.filter(id => test(methods[id]))`. */
  function MethodsWhere(ms: Methods, ids: seq<string>, test: VotingMethod -> bool): (r: seq<string>)
    requires Known(ms, ids)
    ensures |r| <= |ids|
    ensures forall x :: x in r <==> x in ids && Lookup(ms, x).Some? && test(Lookup(ms, x).value)
  {
    if ids == [] then []
    else
      var rest := MethodsWhere(ms, ids[1..], test);
      (if test(Lookup(ms, ids[0]).value) then [ids[0]] else []) + rest
  }

  /** The candidate groups built from the available ids. */
  function Candidates(ms: Methods, ids: seq<string>): (r: seq<Comparison>)
    requires Known(ms, ids)
    ensures |r| == |Groups|
    ensures forall i :: 0 <= i < |Groups| ==> r[i] == Comparison(Groups[i].0, MethodsWhere(ms, ids, Groups[i].1))
  {
    seq(|Groups|, i requires 0 <= i < |Groups| => Comparison(Groups[i].0, MethodsWhere(ms, ids, Groups[i].1)))
  }

  /** The groups that contain `id` and at least one other method. */
  function Relevant(groups: seq<Comparison>, id: string): (r: seq<Comparison>)
    ensures forall g :: g in r <==> g in groups && id in g.methods && |g.methods| > 1
  {
    if groups == [] then []
    else
      var g := groups[0];
      (if id in g.methods && |g.methods| > 1 then [g] else []) + Relevant(groups[1..], id)
  }

  /**
   * `getSuggestedComparisons`: no suggestions without a known current
   * method; an available id that names no method makes the group filters
   * read a field of `undefined`, which raises a `TypeError`.
   */
  function SuggestedComparisons(ms: Methods, c: VotingConfig, ids: seq<string>): (r: Result<seq<Comparison>, string>)
    ensures Lookup(ms, OrEmpty(c.tabulationMethod)).None? || !Truthy(c.tabulationMethod) ==> r == Success([])
    ensures r.Failure? <==> Truthy(c.tabulationMethod) && Lookup(ms, c.tabulationMethod.value).Some? && !Known(ms, ids)
    ensures r.Success? ==> forall g :: g in r.value ==>
      && c.tabulationMethod.value in g.methods
      && |g.methods| >= 2
      && (forall x :: x in g.methods ==> x in ids)
  {
    if Lookup(ms, OrEmpty(c.tabulationMethod)).None? || !Truthy(c.tabulationMethod) then Success([])
    else if !Known(ms, ids) then Failure("TypeError")
    else Success(Relevant(Candidates(ms, ids), c.tabulationMethod.value))
  }

  /** Each candidate group is suggested exactly when it holds the current method and another. */
  lemma SuggestedIff(ms: Methods, c: VotingConfig, ids: seq<string>, i: nat)
    requires Truthy(c.tabulationMethod) && Lookup(ms, c.tabulationMethod.value).Some? && Known(ms, ids)
    requires i < |Groups|
    ensures var g := Comparison(Groups[i].0, MethodsWhere(ms, ids, Groups[i].1));
      g in SuggestedComparisons(ms, c, ids).value <==> c.tabulationMethod.value in g.methods && |g.methods| > 1
  {
    var cs := Candidates(ms, ids);
    assert cs[i] in cs;
  }

  /** The ids offered by the finder always name methods, so suggesting from them never raises. */
  lemma SuggestionsFromAvailable(ms: Methods, c: VotingConfig, offered: VotingConfig, filter: string)
    ensures SuggestedComparisons(ms, c, AvailableMethods(ms, offered, filter)).Success?
  {
    var ids := AvailableMethods(ms, offered, filter);
    forall i | 0 <= i < |ids| ensures Lookup(ms, ids[i]).Some? {
      AvailableMembers(ms, offered, filter, ids[i]);
      assert ids[i] in ids;
    }
  }

  /**
   * For a multi-seat configuration whose method is available, the method is
   * proportional exactly when it passes the "Proportional Methods" group filter.
   */
  lemma ProportionalIffGroup(ms: Methods, c: VotingConfig, ids: seq<string>)
    requires Truthy(c.tabulationMethod) && Known(ms, ids)
    requires c.numberOfSeats > 1 && c.tabulationMethod.value in ids
    ensures IsProportionalMethod(ms, c) <==> c.tabulationMethod.value in MethodsWhere(ms, ids, Groups[ProportionalGroup].1)
  {
    var id := c.tabulationMethod.value;
    var i :| 0 <= i < |ids| && ids[i] == id;
    assert Lookup(ms, id).Some?;
  }

  /** Two distinct ids in a list are at least two members. */
  lemma TwoMembers(xs: seq<string>, a: string, b: string)
    requires a in xs && b in xs && a != b
    ensures |xs| >= 2
  {
    var i :| 0 <= i < |xs| && xs[i] == a;
    var j :| 0 <= j < |xs| && xs[j] == b;
    assert i != j;
  }

  /**
   * A proportional multi-seat method that is available next to another
   * available proportional method is offered the "Proportional Methods"
   * comparison.
   */
  lemma ProportionalSuggested(ms: Methods, c: VotingConfig, ids: seq<string>, other: string)
    requires Truthy(c.tabulationMethod) && Known(ms, ids)
    requires IsProportionalMethod(ms, c)
    requires c.tabulationMethod.value in ids && other in ids && other != c.tabulationMethod.value
    requires Lookup(ms, other).value.isProportional
    ensures Comparison("Proportional Methods", MethodsWhere(ms, ids, Groups[ProportionalGroup].1)) in SuggestedComparisons(ms, c, ids).value
  {
    var id := c.tabulationMethod.value;
    var g := MethodsWhere(ms, ids, Groups[ProportionalGroup].1);
    assert id in g && other in g;
    TwoMembers(g, id, other);
    SuggestedIff(ms, c, ids, ProportionalGroup);
  }
}
