/**
 * The election-wide race: every candidate of every contest becomes one
 * combined candidate "Name (Contest)", each ballot approves the combined
 * candidates of all its contests, and the approval analytics run over that
 * profile with a full co-approval matrix and a cross-race classification of
 * voters.
 */
module ElectionWide {
  import opened Wrappers
  import opened Text
  import opened Counting
  import opened Approval

  type Contest = string

  /** One ballot of the CVR store: the `(contest, candidate)` pairs it approves (selection value 1). */
  type RawBallot = set<(Contest, Candidate)>

  /** How a contest and a raw candidate name combine into one election-wide name. */
  type Naming = (Contest, Candidate) -> string

  // ---------------------------------------------------------------------------
  // Display names
  // ---------------------------------------------------------------------------

  /** `format_contest_name`: three literal rewrites, in order. */
  function FormatContestName(name: string): string {
    ReplaceAll(ReplaceAll(ReplaceAll(name, "MAYOR", "Mayor"), "COMPTROLLER", "Comptroller"), "ALDERMAN - WARD ", "Alderman Ward ")
  }

  /** A name containing none of the three patterns is left as it is. */
  lemma FormatContestUnchanged(name: string)
    requires !Contains(name, "MAYOR") && !Contains(name, "COMPTROLLER") && !Contains(name, "ALDERMAN - WARD ")
    ensures FormatContestName(name) == name
  {
    ReplaceAllAbsent(name, "MAYOR", "Mayor");
    ReplaceAllAbsent(name, "COMPTROLLER", "Comptroller");
    ReplaceAllAbsent(name, "ALDERMAN - WARD ", "Alderman Ward ");
  }

  lemma FormatMayor()
    ensures FormatContestName("MAYOR") == "Mayor"
  {
    ReplaceAllHead("MAYOR", "", "Mayor");
    assert "MAYOR" + "" == "MAYOR";
  }

  lemma FormatComptroller()
    ensures FormatContestName("COMPTROLLER") == "Comptroller"
  {
    var s := "COMPTROLLER";
    ComptrollerHasNoMayor(s);
    ReplaceAllHead(s, "", "Comptroller");
    assert s + "" == s;
  }

  /** The one 'M' of "COMPTROLLER" starts "MPTRO", not "MAYOR". */
  lemma ComptrollerHasNoMayor(s: string)
    requires s == "COMPTROLLER"
    ensures ReplaceAll(s, "MAYOR", "Mayor") == s
  {
    var a, t := "CO", "PTROLLER";
    assert s == a + ['M'] + t;
    ReplaceAllOneMiss(a, t, "MAYOR", "Mayor", 1);
  }

  /**
   * A ward contest "ALDERMAN - WARD n", with no upper-case letter in `n`,
   * becomes "Alderman Ward n".
   */
  lemma FormatWard(n: string)
    requires forall i :: 0 <= i < |n| ==> !IsUpperAscii(n[i])
    ensures FormatContestName("ALDERMAN - WARD " + n) == "Alderman Ward " + n
  {
    assert 'M' !in n && 'C' !in n && 'A' !in n;
    FormatWardPrefix(n);
  }

  lemma FormatWardPrefix(n: string)
    requires 'M' !in n && 'C' !in n && 'A' !in n
    ensures FormatContestName("ALDERMAN - WARD " + n) == "Alderman Ward " + n
  {
    var pat := "ALDERMAN - WARD ";
    WardHasNoMayor(n);
    WardHasNoComptroller(n);
    ReplaceAllHead(pat, n, "Alderman Ward ");
    ReplaceAllNoHead(n, pat, "Alderman Ward ");
  }

  /** The ward prefix around its one 'M'. */
  lemma WardPrefixSplit()
    ensures "ALDERMAN - WARD " == "ALDER" + ['M'] + "AN - WARD "
    ensures 'M' !in "ALDER" && 'M' !in "AN - WARD "
  {
  }

  /** A prefix `p` whose one `pat[0]` starts a mismatch, followed by text without `pat[0]`, is never replaced. */
  lemma PrefixOneMiss(p: string, a: string, w: string, n: string, pat: string, rep: string, k: nat)
    requires pat != [] && p == a + [pat[0]] + w
    requires pat[0] !in a && pat[0] !in w && pat[0] !in n
    requires 0 < k < |pat| <= 1 + |w| && w[k - 1] != pat[k]
    ensures ReplaceAll(p + n, pat, rep) == p + n
  {
    assert p + n == a + [pat[0]] + (w + n);
    assert (w + n)[k - 1] == w[k - 1];
    ReplaceAllOneMiss(a, w + n, pat, rep, k);
  }

  /** The one 'M' of the ward prefix starts "MAN -", not "MAYOR". */
  lemma WardHasNoMayor(n: string)
    requires 'M' !in n
    ensures ReplaceAll("ALDERMAN - WARD " + n, "MAYOR", "Mayor") == "ALDERMAN - WARD " + n
  {
    WardPrefixSplit();
    MayorMissesWard();
    PrefixOneMiss("ALDERMAN - WARD ", "ALDER", "AN - WARD ", n, "MAYOR", "Mayor", 2);
  }

  /** "MAYOR" starts with the ward prefix's 'M' and then differs from it two characters on. */
  lemma MayorMissesWard()
    ensures "MAYOR" != [] && "MAYOR"[0] == 'M' && 0 < 2 < |"MAYOR"| <= 1 + |"AN - WARD "|
    ensures "AN - WARD "[1] != "MAYOR"[2]
  {
  }

  lemma WardHasNoComptroller(n: string)
    requires 'C' !in n
    ensures ReplaceAll("ALDERMAN - WARD " + n, "COMPTROLLER", "Comptroller") == "ALDERMAN - WARD " + n
  {
    assert 'C' !in "ALDERMAN - WARD " + n;
    ReplaceAllNoHead("ALDERMAN - WARD " + n, "COMPTROLLER", "Comptroller");
  }

  /** `[w.capitalize() for w in words]`. */
  function CapitalizeWords(words: seq<string>): (r: seq<string>)
    ensures |r| == |words|
    ensures forall i :: 0 <= i < |words| ==> r[i] == Capitalize(words[i])
  {
    seq(|words|, i requires 0 <= i < |words| => Capitalize(words[i]))
  }

  /** The words of a name: `name.lower().split(" ")`, each capitalized. */
  function TitleWords(name: string): seq<string> {
    CapitalizeWords(Split(Lower(name), ' '))
  }

  /**
   * `format_candidate_name`: the space-separated words of the lower-cased
   * name, each capitalized, joined by single spaces; the two quote
   * replacements that follow swap a character for itself.
   */
  function FormatCandidateName(name: string): string {
    var titled := Join(TitleWords(name), ' ');
    ReplaceAll(ReplaceAll(titled, "\"", "\""), "\"", "\"")
  }

  lemma FormatCandidateJoin(name: string)
    ensures FormatCandidateName(name) == Join(TitleWords(name), ' ')
  {
    var titled := Join(TitleWords(name), ' ');
    ReplaceAllSame(titled, "\"");
  }

  /**
   * The formatted name has as many space-separated words as the name, each
   * the corresponding word up to case, starting with no lower-case letter and
   * with no upper-case letter after its first character.
   */
  lemma FormatCandidateWords(name: string)
    ensures var ws := Split(FormatCandidateName(name), ' ');
      && |ws| == |Split(name, ' ')|
      && forall i :: 0 <= i < |ws| ==>
           && Lower(ws[i]) == Lower(Split(name, ' ')[i])
           && (|ws[i]| > 0 ==> !IsLowerAscii(ws[i][0]))
           && (forall k :: 1 <= k < |ws[i]| ==> !IsUpperAscii(ws[i][k]))
  {
    var words := Split(name, ' ');
    var lowered := Split(Lower(name), ' ');
    LowerSplit(name);
    var ws := TitleWords(name);
    forall i | 0 <= i < |ws| ensures ' ' !in ws[i] && Lower(ws[i]) == Lower(words[i]) {
      CapitalizeFacts(lowered[i]);
      LowerIdempotent(words[i]);
    }
    forall i | 0 <= i < |ws|
      ensures (|ws[i]| > 0 ==> !IsLowerAscii(ws[i][0])) && forall k :: 1 <= k < |ws[i]| ==> !IsUpperAscii(ws[i][k])
    {
      CapitalizeFacts(lowered[i]);
    }
    FormatCandidateJoin(name);
    SplitJoin(ws, ' ');
  }

  lemma LowerIdempotent(s: string)
    ensures Lower(Lower(s)) == Lower(s)
  {
    forall i | 0 <= i < |s| ensures LowerChar(LowerChar(s[i])) == LowerChar(s[i]) {
      CaseChars(s[i]);
    }
  }

  /** Formatting an already formatted name changes nothing. */
  lemma FormatCandidateIdempotent(name: string)
    ensures FormatCandidateName(FormatCandidateName(name)) == FormatCandidateName(name)
  {
    var f := FormatCandidateName(name);
    var ws := TitleWords(name);
    var lowered := Split(Lower(name), ' ');
    FormatCandidateJoin(name);
    forall i | 0 <= i < |ws| ensures ' ' !in ws[i] {
      CapitalizeFacts(lowered[i]);
    }
    SplitJoin(ws, ' ');
    LowerSplit(f);
    var again := TitleWords(f);
    forall i | 0 <= i < |ws| ensures again[i] == ws[i] {
      CapitalizeFacts(ws[i]);
      CapitalizeFacts(lowered[i]);
    }
    assert again == ws;
    FormatCandidateJoin(f);
  }

  // ---------------------------------------------------------------------------
  // Composite keys
  // ---------------------------------------------------------------------------

  /** `f"{format_candidate_name(c)} ({format_contest_name(contest)})"`. */
  function CompositeKey(contest: Contest, candidate: Candidate): string {
    FormatCandidateName(candidate) + " (" + FormatContestName(contest) + ")"
  }

  /** `"(" in s and ")" in s`: the names the cross-race count attributes to a race. */
  predicate Bracketed(s: string) {
    '(' in s && ')' in s
  }

  /** `s.split("(")[-1].rstrip(")")`. */
  function Race(s: string): string {
    var parts := Split(s, '(');
    RStrip(parts[|parts| - 1], ')')
  }

  /**
   * When the formatted contest name has no parenthesis, a combined name is
   * bracketed and its race is that formatted contest name, whatever the
   * candidate's name holds.
   */
  lemma RaceOfKey(contest: Contest, candidate: Candidate)
    requires '(' !in FormatContestName(contest) && ')' !in FormatContestName(contest)
    ensures Bracketed(CompositeKey(contest, candidate))
    ensures Race(CompositeKey(contest, candidate)) == FormatContestName(contest)
  {
    var f, k := FormatCandidateName(candidate), FormatContestName(contest);
    KeyParts(f, k);
    RaceOfParts(f + " ", k);
  }

  /** A combined name is the candidate part and a space, then `(`, the contest part and `)`. */
  lemma KeyParts(f: string, k: string)
    ensures f + " (" + k + ")" == (f + " ") + ['('] + (k + ")")
  {
  }

  /** `a + "(" + k + ")"` is bracketed and its race is `k`, when `k` has no parenthesis. */
  lemma RaceOfParts(a: string, k: string)
    requires '(' !in k && ')' !in k
    ensures Bracketed(a + ['('] + (k + ")"))
    ensures Race(a + ['('] + (k + ")")) == k
  {
    var key := a + ['('] + (k + ")");
    assert key[|a|] == '(' && key[|key| - 1] == ')';
    SplitLast(a, '(', k + ")");
    RStripClosing(k);
  }

  /** Stripping `)` from `k + ")"` gives `k` back when `k` has no `)`. */
  lemma RStripClosing(k: string)
    requires ')' !in k
    ensures RStrip(k + ")", ')') == k
  {
    assert (k + ")")[..|k|] == k;
    if k != [] {
      assert k[|k| - 1] in k;
    }
  }

  // ---------------------------------------------------------------------------
  // Contests, combined candidates and the raw-name mapping
  // ---------------------------------------------------------------------------

  /** The contests named on one ballot. */
  function ContestsOf(b: RawBallot): set<Contest> {
    set x | x in b :: x.0
  }

  /** `xs` followed by each member of `ys` it does not list yet, in order. */
  function AppendNew(xs: seq<string>, ys: seq<string>): (r: seq<string>)
    ensures Distinct(xs) ==> Distinct(r)
    ensures forall k :: k in r <==> k in xs || k in ys
    ensures |xs| <= |r| && r[..|xs|] == xs
  {
    if ys == [] then xs
    else
      var init := ys[..|ys| - 1];
      var r := AppendNew(xs, init);
      var y := ys[|ys| - 1];
      assert ys == init + [y];
      if y in r then r else r + [y]
  }

  /** Every contest some ballot names. */
  function AllContests(ballots: seq<RawBallot>): set<Contest> {
    if ballots == [] then {} else AllContests(ballots[..|ballots| - 1]) + ContestsOf(ballots[|ballots| - 1])
  }

  lemma {:induction false} AllContestsMembers(ballots: seq<RawBallot>, k: Contest)
    ensures k in AllContests(ballots) <==> exists i, c :: 0 <= i < |ballots| && (k, c) in ballots[i]
    decreases |ballots|
  {
    if ballots != [] {
      var n := |ballots| - 1;
      AllContestsMembers(ballots[..n], k);
      if exists i, c :: 0 <= i < |ballots| && (k, c) in ballots[i] {
        var i, c :| 0 <= i < |ballots| && (k, c) in ballots[i];
        if i < n {
          assert ballots[..n][i] == ballots[i];
        } else {
          assert k in ContestsOf(ballots[n]);
        }
      }
      if k in AllContests(ballots[..n]) {
        var i, c :| 0 <= i < n && (k, c) in ballots[..n][i];
        assert ballots[..n][i] == ballots[i];
      }
      if k in ContestsOf(ballots[n]) {
        var x :| x in ballots[n] && x.0 == k;
        assert (k, x.1) in ballots[n];
      }
    }
  }

  /**
   * The keys of `contest_candidates` in insertion order: the rows arrive by
   * ballot id and then by contest name, so a contest is listed where its
   * first ballot names it.
   */
  function ContestOrder(ballots: seq<RawBallot>): (r: seq<Contest>)
    ensures Distinct(r)
    ensures forall k :: k in r <==> k in AllContests(ballots)
  {
    if ballots == [] then []
    else
      var n := |ballots| - 1;
      AppendNew(ContestOrder(ballots[..n]), SortedElements(ContestsOf(ballots[n])))
  }

  /** `contest_candidates[k]`: every candidate some ballot approves in contest `k`. */
  function ContestCandidates(ballots: seq<RawBallot>, k: Contest): set<Candidate> {
    if ballots == [] then {}
    else
      var n := |ballots| - 1;
      ContestCandidates(ballots[..n], k) + (set x | x in ballots[n] && x.0 == k :: x.1)
  }

  lemma {:induction false} ContestCandidatesMembers(ballots: seq<RawBallot>, k: Contest, c: Candidate)
    ensures c in ContestCandidates(ballots, k) <==> exists i :: 0 <= i < |ballots| && (k, c) in ballots[i]
    decreases |ballots|
  {
    if ballots != [] {
      var n := |ballots| - 1;
      ContestCandidatesMembers(ballots[..n], k, c);
      if exists i :: 0 <= i < |ballots| && (k, c) in ballots[i] {
        var i :| 0 <= i < |ballots| && (k, c) in ballots[i];
        if i < n {
          assert ballots[..n][i] == ballots[i];
        }
      }
      if c in ContestCandidates(ballots[..n], k) {
        var i :| 0 <= i < n && (k, c) in ballots[..n][i];
        assert ballots[..n][i] == ballots[i];
      }
    }
  }

  /** The combined names of one contest's candidates, listed in `cs` order. */
  function KeysOf(key: Naming, k: Contest, cs: seq<Candidate>): (r: seq<string>)
    ensures |r| == |cs|
    ensures forall i :: 0 <= i < |cs| ==> r[i] == key(k, cs[i])
  {
    seq(|cs|, i requires 0 <= i < |cs| => key(k, cs[i]))
  }

  /**
   * `combined_candidates` after the first `n` contests of `order`: each
   * contest's candidates in turn, as `listing` orders them.
   */
  function CombinedUpTo(key: Naming, listing: Contest -> seq<Candidate>, order: seq<Contest>, n: nat): seq<string>
    requires n <= |order|
  {
    if n == 0 then []
    else CombinedUpTo(key, listing, order, n - 1) + KeysOf(key, order[n - 1], listing(order[n - 1]))
  }

  /**
   * `candidate_mapping` after the first `n` contests of `order`: keyed by
   * the raw candidate name alone, so a later contest naming the same
   * candidate overwrites the entry of an earlier one.
   */
  function MappingUpTo<V>(key: (Contest, Candidate) -> V, members: Contest -> set<Candidate>, order: seq<Contest>, n: nat): map<Candidate, V>
    requires n <= |order|
  {
    if n == 0 then map[]
    else
      var k := order[n - 1];
      MappingUpTo(key, members, order, n - 1) + map c | c in members(k) :: key(k, c)
  }

  /**
   * `combined_candidates` under the naming `key` (the source's naming is
   * `CompositeKey`). The source walks each contest's Python set of
   * candidates; name order stands in for that unspecified order.
   */
  function Combined(key: Naming, ballots: seq<RawBallot>): seq<string> {
    var order := ContestOrder(ballots);
    CombinedUpTo(key, ListingOf(ballots), order, |order|)
  }

  /** `candidate_mapping` under the naming `key`. */
  function Mapping(key: Naming, ballots: seq<RawBallot>): map<Candidate, string> {
    var order := ContestOrder(ballots);
    MappingUpTo(key, MembersOf(ballots), order, |order|)
  }

  /** Each contest's candidates, as a set. */
  function MembersOf(ballots: seq<RawBallot>): Contest -> set<Candidate> {
    k => ContestCandidates(ballots, k)
  }

  /** Each contest's candidates, in name order. */
  function ListingOf(ballots: seq<RawBallot>): Contest -> seq<Candidate> {
    k => SortedElements(ContestCandidates(ballots, k))
  }

  lemma KeysOfMembers(key: Naming, k: Contest, cs: seq<Candidate>, name: string)
    ensures name in KeysOf(key, k, cs) <==> exists c :: c in cs && name == key(k, c)
  {
    var names := KeysOf(key, k, cs);
    if exists c :: c in cs && name == key(k, c) {
      var c :| c in cs && name == key(k, c);
      var i :| 0 <= i < |cs| && cs[i] == c;
      assert names[i] == name;
    }
  }

  /** The combined list holds exactly the combined names of each contest's listed candidates. */
  lemma {:induction false} CombinedMembers(key: Naming, listing: Contest -> seq<Candidate>, order: seq<Contest>, n: nat, name: string)
    requires n <= |order|
    ensures name in CombinedUpTo(key, listing, order, n) <==>
              exists j, c :: 0 <= j < n && c in listing(order[j]) && name == key(order[j], c)
    decreases n
  {
    if n > 0 {
      var k := order[n - 1];
      CombinedMembers(key, listing, order, n - 1, name);
      KeysOfMembers(key, k, listing(k), name);
      if exists j, c :: 0 <= j < n && c in listing(order[j]) && name == key(order[j], c) {
        var j, c :| 0 <= j < n && c in listing(order[j]) && name == key(order[j], c);
        if j == n - 1 {
          assert c in listing(k) && name == key(k, c);
        }
      }
    }
  }

  /** A raw name is mapped exactly when some contest lists it. */
  lemma {:induction false} MappingDomain(key: Naming, members: Contest -> set<Candidate>, order: seq<Contest>, n: nat, c: Candidate)
    requires n <= |order|
    ensures c in MappingUpTo(key, members, order, n) <==> exists j :: 0 <= j < n && c in members(order[j])
    decreases n
  {
    if n > 0 {
      MappingDomain(key, members, order, n - 1, c);
    }
  }

  /**
   * A mapped raw name carries its combined name in the LAST contest listing
   * it: the same raw name in two contests collides.
   */
  lemma MappingLastContest<V>(key: (Contest, Candidate) -> V, members: Contest -> set<Candidate>, order: seq<Contest>, n: nat, c: Candidate)
    requires n <= |order|
    requires c in MappingUpTo(key, members, order, n)
    ensures exists j :: && 0 <= j < n && c in members(order[j])
                        && MappingUpTo(key, members, order, n)[c] == key(order[j], c)
                        && forall l :: j < l < n ==> c !in members(order[l])
  {
    var j := MappingSource(key, members, order, n, c);
  }

  /** The contest a mapped raw name takes its combined name from: the last one listing it. */
  lemma {:induction false} MappingSource<V>(key: (Contest, Candidate) -> V, members: Contest -> set<Candidate>, order: seq<Contest>, n: nat, c: Candidate) returns (j: nat)
    requires n <= |order|
    requires c in MappingUpTo(key, members, order, n)
    ensures j < n && c in members(order[j]) && MappingUpTo(key, members, order, n)[c] == key(order[j], c)
    ensures forall l :: j < l < n ==> c !in members(order[l])
    decreases n
  {
    MappingStep(key, members, order, n, c);
    if c !in members(order[n - 1]) {
      j := MappingSource(key, members, order, n - 1, c);
    } else {
      j := n - 1;
    }
  }

  /** Contest `n - 1` maps its own candidates and leaves every other mapping as it was. */
  lemma MappingStep<V>(key: (Contest, Candidate) -> V, members: Contest -> set<Candidate>, order: seq<Contest>, n: nat, c: Candidate)
    requires 0 < n <= |order|
    ensures var m, m' := MappingUpTo(key, members, order, n - 1), MappingUpTo(key, members, order, n);
      && (c in members(order[n - 1]) ==> c in m' && m'[c] == key(order[n - 1], c))
      && (c !in members(order[n - 1]) ==> (c in m' <==> c in m) && (c in m ==> m'[c] == m[c]))
  {
  }

  /** A candidate on a ballot is listed under some contest of the contest order. */
  lemma ListedOnBallot(ballots: seq<RawBallot>, i: nat, x: (Contest, Candidate))
    requires i < |ballots| && x in ballots[i]
    ensures exists k :: 0 <= k < |ContestOrder(ballots)| && x.1 in MembersOf(ballots)(ContestOrder(ballots)[k])
  {
    var order := ContestOrder(ballots);
    AllContestsMembers(ballots, x.0);
    var k :| 0 <= k < |order| && order[k] == x.0;
    ContestCandidatesMembers(ballots, x.0, x.1);
    assert x.1 in MembersOf(ballots)(order[k]);
  }

  /** Every candidate on a ballot is mapped, to its combined name in some contest listing it. */
  lemma MappedOnBallot(key: Naming, ballots: seq<RawBallot>, i: nat, x: (Contest, Candidate))
    requires i < |ballots| && x in ballots[i]
    ensures x.1 in Mapping(key, ballots)
    ensures exists j :: && 0 <= j < |ContestOrder(ballots)|
                        && x.1 in MembersOf(ballots)(ContestOrder(ballots)[j])
                        && Mapping(key, ballots)[x.1] == key(ContestOrder(ballots)[j], x.1)
  {
    var order := ContestOrder(ballots);
    ListedOnBallot(ballots, i, x);
    MappingDomain(key, MembersOf(ballots), order, |order|, x.1);
    MappingLastContest(key, MembersOf(ballots), order, |order|, x.1);
  }

  /** Every candidate on a ballot is mapped, to a name on the combined list. */
  lemma MappingCovers(key: Naming, ballots: seq<RawBallot>, i: nat, x: (Contest, Candidate))
    requires i < |ballots| && x in ballots[i]
    ensures x.1 in Mapping(key, ballots) && Mapping(key, ballots)[x.1] in Combined(key, ballots)
  {
    var order := ContestOrder(ballots);
    MappedOnBallot(key, ballots, i, x);
    var j :| 0 <= j < |order| && x.1 in MembersOf(ballots)(order[j]) && Mapping(key, ballots)[x.1] == key(order[j], x.1);
    ListedMember(ballots, order[j], x.1);
    CombinedHas(key, ListingOf(ballots), order, j, x.1);
  }

  /** A member of a contest is in that contest's name-ordered listing. */
  lemma ListedMember(ballots: seq<RawBallot>, k: Contest, c: Candidate)
    requires c in MembersOf(ballots)(k)
    ensures c in ListingOf(ballots)(k)
  {
  }

  /** The combined name of every listed candidate of every contest is among the combined candidates. */
  lemma CombinedHas(key: Naming, listing: Contest -> seq<Candidate>, order: seq<Contest>, j: nat, c: Candidate)
    requires j < |order| && c in listing(order[j])
    ensures key(order[j], c) in CombinedUpTo(key, listing, order, |order|)
  {
    CombinedMembers(key, listing, order, |order|, key(order[j], c));
  }


  // ---------------------------------------------------------------------------
  // Election-wide ballots and vote counts
  // ---------------------------------------------------------------------------

  /** A ballot's election-wide approvals: the mapped names of its candidates. */
  function Relabelled(m: map<Candidate, string>, b: RawBallot): set<string> {
    set x | x in b && x.1 in m :: m[x.1]
  }

  function RelabelAll(m: map<Candidate, string>, bs: seq<RawBallot>): (p: Profile)
    ensures |p| == |bs|
    ensures forall i :: 0 <= i < |bs| ==> p[i] == Relabelled(m, bs[i])
  {
    if bs == [] then [] else RelabelAll(m, bs[..|bs| - 1]) + [Relabelled(m, bs[|bs| - 1])]
  }

  /** `election_wide_ballots`, in ballot order. */
  function ElectionProfile(key: Naming, ballots: seq<RawBallot>): Profile {
    RelabelAll(Mapping(key, ballots), ballots)
  }

  /** The names on the combined list, as a set. */
  function NameSet(names: seq<string>): set<string> {
    set s | s in names
  }

  /** Every election-wide approval is a name on the combined list. */
  lemma ProfileWithinCombined(key: Naming, ballots: seq<RawBallot>)
    ensures forall i :: 0 <= i < |ballots| ==> ElectionProfile(key, ballots)[i] <= NameSet(Combined(key, ballots))
  {
    var m := Mapping(key, ballots);
    forall i, name | 0 <= i < |ballots| && name in Relabelled(m, ballots[i])
      ensures name in Combined(key, ballots)
    {
      var x :| x in ballots[i] && x.1 in m && m[x.1] == name;
      MappingCovers(key, ballots, i, x);
    }
  }

  /** The raw approvals of one ballot that map to `name`. */
  function BallotVotes(m: map<Candidate, string>, b: RawBallot, name: string): nat {
    |set x | x in b && x.1 in m && m[x.1] == name|
  }

  /** `candidate_votes[name]`: one vote per raw approval mapped to `name`, over all ballots. */
  function Votes(m: map<Candidate, string>, bs: seq<RawBallot>, name: string): nat {
    if bs == [] then 0 else Votes(m, bs[..|bs| - 1], name) + BallotVotes(m, bs[|bs| - 1], name)
  }

  /** No ballot has two raw approvals mapped to the same name. */
  predicate OneNamePerBallot(m: map<Candidate, string>, bs: seq<RawBallot>) {
    forall i, x, y :: 0 <= i < |bs| && x in bs[i] && y in bs[i] && x.1 in m && y.1 in m && m[x.1] == m[y.1] ==> x == y
  }

  lemma BallotVotesFacts(m: map<Candidate, string>, b: RawBallot, name: string)
    ensures name in Relabelled(m, b) <==> BallotVotes(m, b, name) > 0
    ensures (forall x, y :: x in b && y in b && x.1 in m && y.1 in m && m[x.1] == m[y.1] ==> x == y) ==> BallotVotes(m, b, name) <= 1
  {
    var hits := set x | x in b && x.1 in m && m[x.1] == name;
    if name in Relabelled(m, b) {
      var x :| x in b && x.1 in m && m[x.1] == name;
      assert x in hits;
    }
    if hits != {} {
      var x :| x in hits;
      if forall x, y :: x in b && y in b && x.1 in m && y.1 in m && m[x.1] == m[y.1] ==> x == y {
        assert hits == {x};
      }
    }
  }

  /**
   * A ballot approving `name` gives it at least one vote, so the number of
   * ballots approving `name` is at most `candidate_votes[name]`; the two are
   * equal when no ballot has two raw approvals mapped to one name.
   */
  lemma {:induction false} VotesCoverTally(m: map<Candidate, string>, bs: seq<RawBallot>, name: string)
    ensures Tally(RelabelAll(m, bs), name) <= Votes(m, bs, name)
    ensures OneNamePerBallot(m, bs) ==> Tally(RelabelAll(m, bs), name) == Votes(m, bs, name)
    decreases |bs|
  {
    if bs != [] {
      var n := |bs| - 1;
      VotesCoverTally(m, bs[..n], name);
      BallotVotesFacts(m, bs[n], name);
      TallySnoc(RelabelAll(m, bs[..n]), Relabelled(m, bs[n]), name);
      if OneNamePerBallot(m, bs) {
        assert OneNamePerBallot(m, bs[..n]) by {
          forall i, x, y | 0 <= i < n && x in bs[..n][i] && y in bs[..n][i] && x.1 in m && y.1 in m && m[x.1] == m[y.1]
            ensures x == y
          {
            assert bs[..n][i] == bs[i];
          }
        }
      }
    }
  }

  // ---------------------------------------------------------------------------
  // The full co-approval matrix
  // ---------------------------------------------------------------------------

  /** The entry for `(a, b)`: zero count and rate when no ballot approves `a`. */
  function FullEntry(p: Profile, a: Candidate, b: Candidate): (e: Entry)
    ensures e.count == |Supporters(p, a) * Supporters(p, b)|
    ensures e.count <= Tally(p, a) && e.count <= Tally(p, b)
    ensures Tally(p, a) > 0 ==> e.rate == Percent(e.count, Tally(p, a))
    ensures Tally(p, a) == 0 ==> e == Entry(0, 0.0)
    ensures 0.0 <= e.rate <= 100.0
  {
    if Tally(p, a) > 0 then CoApproval(p, a, b)
    else
      TallySupporters(p, a);
      CoCountBounds(p, a, b);
      Entry(0, 0.0)
  }

  /**
   * The rows of the nested loops over `enumerate(combined_candidates)`, keyed
   * by the two positions: every pair of distinct positions, whether or not
   * anyone approves the first candidate.
   */
  function ElectionMatrix(p: Profile, names: seq<string>): (m: map<(nat, nat), PairRow>)
    ensures m.Keys == PositionPairs(|names|)
    ensures forall ij :: ij in m ==> m[ij] == PairRow(names[ij.0], names[ij.1], FullEntry(p, names[ij.0], names[ij.1]))
  {
    map ij | ij in PositionPairs(|names|) :: PairRow(names[ij.0], names[ij.1], FullEntry(p, names[ij.0], names[ij.1]))
  }

  /** A list of `m` names gives exactly `m * (m - 1)` rows. */
  lemma ElectionMatrixSize(p: Profile, names: seq<string>)
    ensures |ElectionMatrix(p, names)| == PairCount(|names|)
  {
    var m := ElectionMatrix(p, names);
    PositionPairsCount(|names|);
    assert |m| == |m.Keys|;
  }

  // ---------------------------------------------------------------------------
  // Cross-race classification
  // ---------------------------------------------------------------------------

  /** Assigns a name to a race, or to none. */
  type Classifier = string -> Option<string>

  /** A combined name's race: the text in its last parentheses, when it has any. */
  function RaceOf(s: string): Option<string> {
    if Bracketed(s) then Some(Race(s)) else None
  }

  /** `race_approvals`: the number of names of each race among `names`. */
  function RaceCounts(cls: Classifier, names: seq<string>): map<string, nat> {
    if names == [] then map[]
    else
      var r := RaceCounts(cls, names[..|names| - 1]);
      var c := cls(names[|names| - 1]);
      if c.Some? then Bump(r, c.value) else r
  }

  /** Positions of the names of race `race`. */
  ghost function RacePositions(cls: Classifier, names: seq<string>, race: string): set<nat> {
    set i | 0 <= i < |names| && cls(names[i]) == Some(race)
  }

  /** One more name adds one to its race's count and leaves the other counts alone. */
  lemma RaceCountsSnoc(cls: Classifier, names: seq<string>, race: string)
    requires names != []
    ensures var n := |names| - 1; var hit := cls(names[n]) == Some(race);
      && Get(RaceCounts(cls, names), race) == Get(RaceCounts(cls, names[..n]), race) + (if hit then 1 else 0)
      && (race in RaceCounts(cls, names) <==> race in RaceCounts(cls, names[..n]) || hit)
  {
  }

  /** One more name adds its position to its race's positions. */
  lemma RacePositionsSnoc(cls: Classifier, names: seq<string>, race: string)
    requires names != []
    ensures var n := |names| - 1; var hit := cls(names[n]) == Some(race);
      && n !in RacePositions(cls, names[..n], race)
      && RacePositions(cls, names, race) == RacePositions(cls, names[..n], race) + (if hit then {n} else {})
  {
    var n := |names| - 1;
    var hit := cls(names[n]) == Some(race);
    assert RacePositions(cls, names, race) == RacePositions(cls, names[..n], race) + (if hit then {n} else {});
  }

  lemma {:induction false} RaceCountsPositions(cls: Classifier, names: seq<string>, race: string)
    ensures Get(RaceCounts(cls, names), race) == |RacePositions(cls, names, race)|
    ensures race in RaceCounts(cls, names) <==> Get(RaceCounts(cls, names), race) > 0
    decreases |names|
  {
    if names != [] {
      var n := |names| - 1;
      RaceCountsPositions(cls, names[..n], race);
      RaceCountsSnoc(cls, names, race);
      RacePositionsSnoc(cls, names, race);
    }
  }

  /** Some race holds more than one of the listed names. */
  predicate Repeats(cls: Classifier, names: seq<string>) {
    var counts := RaceCounts(cls, names);
    exists race | race in counts :: counts[race] > 1
  }

  /**
   * `has_multi_approval_in_race` for one election-wide ballot. The source
   * walks the approval set in an unspecified order; name order stands in for
   * it, and the counts do not depend on it.
   */
  predicate MultiRace(b: set<string>) {
    Repeats(RaceOf, SortedElements(b))
  }

  lemma TwoMembers(s: set<nat>)
    ensures |s| > 1 <==> exists i, j :: i in s && j in s && i != j
  {
    if |s| > 1 {
      var i :| i in s;
      assert |s - {i}| > 0;
      var j :| j in s - {i};
    }
    if exists i, j :: i in s && j in s && i != j {
      var i, j :| i in s && j in s && i != j;
      SubsetCardinality({i, j}, s);
    }
  }

  /** A listing of distinct names repeats a race exactly when two different names share it. */
  lemma RepeatsIff(cls: Classifier, xs: seq<string>)
    requires Distinct(xs)
    ensures Repeats(cls, xs) <==> exists i, j :: 0 <= i < |xs| && 0 <= j < |xs| && xs[i] != xs[j] && cls(xs[i]).Some? && cls(xs[i]) == cls(xs[j])
  {
    if Repeats(cls, xs) {
      var i, j := RepeatedPair(cls, xs);
    }
    if exists i, j :: 0 <= i < |xs| && 0 <= j < |xs| && xs[i] != xs[j] && cls(xs[i]).Some? && cls(xs[i]) == cls(xs[j]) {
      var i, j :| 0 <= i < |xs| && 0 <= j < |xs| && xs[i] != xs[j] && cls(xs[i]).Some? && cls(xs[i]) == cls(xs[j]);
      var race := cls(xs[i]).value;
      RaceCountsPositions(cls, xs, race);
      assert i in RacePositions(cls, xs, race) && j in RacePositions(cls, xs, race);
      TwoMembers(RacePositions(cls, xs, race));
    }
  }

  /** Two different positions of a repeating listing whose names share a race. */
  lemma RepeatedPair(cls: Classifier, xs: seq<string>) returns (i: nat, j: nat)
    requires Distinct(xs) && Repeats(cls, xs)
    ensures i < |xs| && j < |xs| && xs[i] != xs[j] && cls(xs[i]).Some? && cls(xs[i]) == cls(xs[j])
  {
    var counts := RaceCounts(cls, xs);
    var race :| race in counts && counts[race] > 1;
    RaceCountsPositions(cls, xs, race);
    TwoMembers(RacePositions(cls, xs, race));
    i, j :| i in RacePositions(cls, xs, race) && j in RacePositions(cls, xs, race) && i != j;
    assert xs[i] != xs[j];
  }

  /** A ballot is multi-approval exactly when it approves two different bracketed names of one race. */
  lemma MultiRaceIff(b: set<string>)
    ensures MultiRace(b) <==> exists a, c :: a in b && c in b && a != c && RaceOf(a).Some? && RaceOf(a) == RaceOf(c)
  {
    if MultiRace(b) {
      MultiRaceShared(b);
    } else if exists a, c :: a in b && c in b && a != c && RaceOf(a).Some? && RaceOf(a) == RaceOf(c) {
      var a, c :| a in b && c in b && a != c && RaceOf(a).Some? && RaceOf(a) == RaceOf(c);
      SharedRaceIsMulti(b, a, c);
    }
  }

  /** A multi-approval ballot approves two different names of one race. */
  lemma MultiRaceShared(b: set<string>)
    requires MultiRace(b)
    ensures exists a, c :: a in b && c in b && a != c && RaceOf(a).Some? && RaceOf(a) == RaceOf(c)
  {
    var xs := SortedElements(b);
    StrictlySortedDistinct(xs);
    var i, j := RepeatedPair(RaceOf, xs);
    var a, c := xs[i], xs[j];
    assert a in b && c in b && a != c && RaceOf(a).Some? && RaceOf(a) == RaceOf(c);
  }

  /** Two different approved names of one race make the ballot multi-approval. */
  lemma SharedRaceIsMulti(b: set<string>, a: string, c: string)
    requires a in b && c in b && a != c
    requires RaceOf(a).Some? && RaceOf(a) == RaceOf(c)
    ensures MultiRace(b)
  {
    var xs := SortedElements(b);
    StrictlySortedDistinct(xs);
    RepeatsIff(RaceOf, xs);
    var i :| 0 <= i < |xs| && xs[i] == a;
    var j :| 0 <= j < |xs| && xs[j] == c;
  }

  /** A combined name's race is its contest's formatted name, when that has no parenthesis. */
  lemma KeyRace(contest: Contest, x: Candidate)
    requires '(' !in FormatContestName(contest) && ')' !in FormatContestName(contest)
    ensures RaceOf(CompositeKey(contest, x)) == Some(FormatContestName(contest))
  {
    RaceOfKey(contest, x);
  }

  /**
   * Two different candidates approved in one contest whose formatted name
   * has no parenthesis make the ballot multi-approval.
   */
  lemma SameContestIsMulti(b: set<string>, contest: Contest, x: Candidate, y: Candidate)
    requires '(' !in FormatContestName(contest) && ')' !in FormatContestName(contest)
    requires CompositeKey(contest, x) in b && CompositeKey(contest, y) in b
    requires CompositeKey(contest, x) != CompositeKey(contest, y)
    ensures MultiRace(b)
  {
    KeyRace(contest, x);
    KeyRace(contest, y);
    SharedRaceIsMulti(b, CompositeKey(contest, x), CompositeKey(contest, y));
  }

  /** `multi_approval_voters`. */
  function MultiCount(p: Profile): nat {
    if p == [] then 0 else MultiCount(p[..|p| - 1]) + (if MultiRace(p[|p| - 1]) then 1 else 0)
  }

  /** `single_approval_only_voters`. */
  function SingleCount(p: Profile): nat {
    if p == [] then 0 else SingleCount(p[..|p| - 1]) + (if MultiRace(p[|p| - 1]) then 0 else 1)
  }

  /** Every ballot is counted as exactly one of multi-approval and single-approval-only. */
  lemma {:induction false} MultiSingleTotal(p: Profile)
    ensures MultiCount(p) + SingleCount(p) == |p|
    decreases |p|
  {
    if p != [] {
      MultiSingleTotal(p[..|p| - 1]);
    }
  }

  // ---------------------------------------------------------------------------
  // Voting patterns
  // ---------------------------------------------------------------------------

  /** The election-wide `voting_patterns` record; `anyoneButAnalysis` is `None` when no ballot qualifies. */
  datatype ElectionPatterns = ElectionPatterns(
    totalBallots: nat,
    bulletVotingCount: nat,
    bulletVotingRate: real,
    fullApprovalCount: nat,
    fullApprovalRate: real,
    averageApprovalsPerBallot: real,
    mostCommonCombination: seq<Candidate>,
    approvalDistribution: map<nat, nat>,
    candidateApprovalDistributions: map<Candidate, map<nat, nat>>,
    anyoneButAnalysis: Option<map<Candidate, nat>>,
    multiApprovalVoters: nat,
    multiApprovalRate: real,
    singleApprovalOnlyVoters: nat,
    singleApprovalOnlyRate: real)

  /** `count / base * 100`, or 0 when there are no ballots. */
  function PercentOrZero(count: nat, base: nat): (r: real)
    ensures base == 0 ==> r == 0.0
    ensures base > 0 ==> r == Percent(count, base)
  {
    if base > 0 then Percent(count, base) else 0.0
  }

  /** `anyone_but_analysis`: ballots approving all but one listed name count against that name. */
  function ElectionAnyoneBut(p: Profile, names: seq<string>): map<Candidate, nat> {
    AnyoneBut(p, Sizes(p), |names| - 1, NameSet(names))
  }

  /**
   * `voting_patterns` over the election-wide ballots `p` and the combined
   * list `names`. The full-approval size and the anyone-but size use the
   * length of the list, duplicates included, while the exclusion is taken
   * against the set of names.
   */
  function ElectionPatternsOf(p: Profile, names: seq<string>): (r: ElectionPatterns)
    ensures r.totalBallots == |p|
    ensures r.bulletVotingRate == PercentOrZero(r.bulletVotingCount, |p|)
    ensures r.fullApprovalRate == PercentOrZero(r.fullApprovalCount, |p|)
    ensures r.multiApprovalRate == PercentOrZero(r.multiApprovalVoters, |p|)
    ensures r.singleApprovalOnlyRate == PercentOrZero(r.singleApprovalOnlyVoters, |p|)
    ensures p == [] ==> r.averageApprovalsPerBallot == 0.0
    ensures r.anyoneButAnalysis.None? <==> ElectionAnyoneBut(p, names) == map[]
  {
    var dist := Distribution(p);
    var bullet := Get(dist, 1);
    var full := Get(dist, |names|);
    var ab := ElectionAnyoneBut(p, names);
    var multi := MultiCount(p);
    var single := SingleCount(p);
    ElectionPatterns(
      |p|, bullet, PercentOrZero(bullet, |p|), full, PercentOrZero(full, |p|),
      if p == [] then 0.0 else Average(p),
      MostCommonCombination(p), dist,
      ConditionalDistributions(p, NameSet(names)),
      if ab == map[] then None else Some(ab),
      multi, PercentOrZero(multi, |p|), single, PercentOrZero(single, |p|))
  }

  lemma {:induction false} NameSetSize(names: seq<string>)
    ensures |NameSet(names)| <= |names|
    decreases |names|
  {
    if names != [] {
      var n := |names| - 1;
      NameSetSize(names[..n]);
      assert NameSet(names) == NameSet(names[..n]) + {names[n]};
    }
  }

  /** Ballots whose approvals are names on the list. */
  predicate WithinNames(p: Profile, names: seq<string>) {
    forall i :: 0 <= i < |p| ==> p[i] <= NameSet(names)
  }

  lemma WithinNamesSizes(p: Profile, names: seq<string>)
    requires WithinNames(p, names)
    ensures SizesAtMost(p, |names|)
  {
    NameSetSize(names);
    forall i | 0 <= i < |p| ensures |p[i]| <= |names| {
      SubsetCardinality(p[i], NameSet(names));
    }
  }

  /**
   * On ballots drawn from the list, the distribution holds every ballot
   * once and its weighted sum is the number of approvals; bullet and full
   * counts are the ballots of exactly one and exactly `|names|` approvals;
   * the average lies between 0 and the list length; every rate is a
   * percentage.
   */
  lemma PatternsHistogram(p: Profile, names: seq<string>)
    requires WithinNames(p, names)
    ensures var r := ElectionPatternsOf(p, names);
      && BucketSum(r.approvalDistribution, |names|) == |p|
      && WeightedBucketSum(r.approvalDistribution, |names|) == TotalApprovals(p)
      && r.bulletVotingCount == multiset(Sizes(p))[1]
      && r.fullApprovalCount == multiset(Sizes(p))[|names|]
      && 0.0 <= r.averageApprovalsPerBallot <= |names| as real
      && 0.0 <= r.bulletVotingRate <= 100.0
      && 0.0 <= r.fullApprovalRate <= 100.0
  {
    var r := ElectionPatternsOf(p, names);
    WithinNamesSizes(p, names);
    DistributionMass(p, |names|);
    DistributionCounts(p);
    if p != [] {
      AverageBound(p, |names|);
      BucketBelowSum(Distribution(p), 1, if |names| >= 1 then |names| else 1);
      BucketBelowSum(Distribution(p), |names|, |names|);
      if |names| == 0 {
        assert Get(Distribution(p), 1) == multiset(Sizes(p))[1];
        assert 1 !in Sizes(p) by {
          forall i | 0 <= i < |p| ensures Sizes(p)[i] != 1 { }
        }
      }
    }
  }

  /**
   * Each listed name approved on some ballot has its conditional histogram,
   * holding exactly the ballots that approve it; unapproved and unlisted
   * names have none.
   */
  lemma PatternsConditional(p: Profile, names: seq<string>, c: Candidate)
    requires WithinNames(p, names)
    ensures var r := ElectionPatternsOf(p, names);
      && (c in r.candidateApprovalDistributions <==> c in names && Tally(p, c) > 0)
      && (c in r.candidateApprovalDistributions ==>
            BucketSum(r.candidateApprovalDistributions[c], |names|) == Tally(p, c))
  {
    WithinNamesSizes(p, names);
    ConditionalMass(p, c, |names|);
  }

  /**
   * The anyone-but tally counts, against each name, the ballots with
   * `|names| - 1` approvals leaving out just that name; it is absent exactly
   * when no ballot qualifies, and its counts sum to at most the number of
   * ballots.
   */
  lemma PatternsAnyoneBut(p: Profile, names: seq<string>, c: Candidate)
    ensures var r := ElectionPatternsOf(p, names);
      var sizes, target, cands := Sizes(p), |names| - 1, NameSet(names);
      && (r.anyoneButAnalysis.None? <==> AnyExcluders(p, sizes, target, cands) == {})
      && (r.anyoneButAnalysis.Some? ==>
            && Get(r.anyoneButAnalysis.value, c) == |Excluders(p, sizes, target, cands, c)|
            && (c in r.anyoneButAnalysis.value ==> c in names))
    ensures Distinct(names) ==> SumOver(ElectionAnyoneBut(p, names), names) <= |p|
  {
    var sizes, target, cands := Sizes(p), |names| - 1, NameSet(names);
    AnyoneButEmpty(p, sizes, target, cands);
    AnyoneButCounts(p, sizes, target, cands, c);
    if Distinct(names) {
      AnyoneButTotal(p, sizes, target, cands, names);
    }
  }

  /**
   * Every ballot is either multi-approval or single-approval-only, so the
   * two counts add up to the ballots and, when there are ballots, the two
   * rates add up to 100.
   */
  lemma PatternsCrossRace(p: Profile, names: seq<string>)
    ensures var r := ElectionPatternsOf(p, names);
      && r.multiApprovalVoters + r.singleApprovalOnlyVoters == r.totalBallots
      && (p != [] ==> r.multiApprovalRate + r.singleApprovalOnlyRate == 100.0)
      && 0.0 <= r.multiApprovalRate <= 100.0
  {
    var r := ElectionPatternsOf(p, names);
    MultiSingleTotal(p);
    assert r.multiApprovalVoters == MultiCount(p) && r.singleApprovalOnlyVoters == SingleCount(p);
    if p != [] {
      PercentsComplement(MultiCount(p), SingleCount(p), |p|);
    }
  }

  lemma PercentsComplement(a: nat, b: nat, n: nat)
    requires a + b == n > 0
    ensures Percent(a, n) + Percent(b, n) == 100.0
  {
    var x, y, z := a as real, b as real, n as real;
    assert x / z + y / z == (x + y) / z;
  }

  // ---------------------------------------------------------------------------
  // The election-wide race
  // ---------------------------------------------------------------------------

  /** `candidate_votes`: a vote count for every name some candidate maps to. */
  function CandidateVotes(m: map<Candidate, string>, bs: seq<RawBallot>): (r: map<string, nat>)
    ensures r.Keys == m.Values
  {
    map name | name in m.Values :: Votes(m, bs, name)
  }

  lemma {:induction false} VotesAtLeast(m: map<Candidate, string>, bs: seq<RawBallot>, name: string, i: nat)
    requires i < |bs|
    ensures BallotVotes(m, bs[i], name) <= Votes(m, bs, name)
    decreases |bs|
  {
    var n := |bs| - 1;
    if i < n {
      VotesAtLeast(m, bs[..n], name, i);
      assert bs[..n][i] == bs[i];
    }
  }

  /** Every name in `candidate_votes` has at least one vote: some ballot approves a candidate mapped to it. */
  lemma VotesPositive(key: Naming, ballots: seq<RawBallot>, name: string)
    requires name in CandidateVotes(Mapping(key, ballots), ballots)
    ensures CandidateVotes(Mapping(key, ballots), ballots)[name] > 0
  {
    var m := Mapping(key, ballots);
    var order := ContestOrder(ballots);
    var c :| c in m && m[c] == name;
    MappingDomain(key, MembersOf(ballots), order, |order|, c);
    var j :| 0 <= j < |order| && c in MembersOf(ballots)(order[j]);
    ContestCandidatesMembers(ballots, order[j], c);
    var i :| 0 <= i < |ballots| && (order[j], c) in ballots[i];
    BallotVotesFacts(m, ballots[i], name);
    VotesAtLeast(m, ballots, name, i);
  }

  /** The report, candidate, co-approval and voting-pattern rows written for the election-wide race. */
  datatype ElectionWideRace = ElectionWideRace(
    totalBallots: nat,
    candidateVotes: map<string, nat>,
    coApprovals: map<(nat, nat), PairRow>,
    patterns: ElectionPatterns)

  /** The election-wide race for a naming of candidates. */
  function ElectionWideBy(key: Naming, ballots: seq<RawBallot>): (r: ElectionWideRace)
    ensures r.totalBallots == r.patterns.totalBallots == |ballots|
    ensures r.coApprovals.Keys == PositionPairs(|Combined(key, ballots)|)
  {
    var m := Mapping(key, ballots);
    var p := RelabelAll(m, ballots);
    var names := Combined(key, ballots);
    ElectionWideRace(|ballots|, CandidateVotes(m, ballots), ElectionMatrix(p, names), ElectionPatternsOf(p, names))
  }

  /**
   * `generate_election_wide_race` on the approvals of the ballots with at
   * least one, in ballot order: candidates are named
   * `"<Candidate> (<Contest>)"`.
   */
  function GenerateElectionWide(ballots: seq<RawBallot>): (r: ElectionWideRace)
    ensures r.totalBallots == |ballots|
    ensures r.coApprovals.Keys == PositionPairs(|Combined(CompositeKey, ballots)|)
  {
    ElectionWideBy(CompositeKey, ballots)
  }

  /**
   * The whole race: one row for every ordered pair of positions on the
   * combined list, each counting the ballots that approve both names; the
   * patterns satisfy the histogram, conditional, anyone-but and cross-race
   * laws on the ballots relabelled by the candidate mapping; every name with
   * a vote count has a vote.
   */
  lemma ElectionWideFacts(key: Naming, ballots: seq<RawBallot>)
    ensures var r := ElectionWideBy(key, ballots);
      var names := Combined(key, ballots);
      var p := ElectionProfile(key, ballots);
      && |r.coApprovals| == PairCount(|names|)
      && (forall ij :: ij in r.coApprovals ==>
            r.coApprovals[ij].entry.count == |Supporters(p, names[ij.0]) * Supporters(p, names[ij.1])|)
      && BucketSum(r.patterns.approvalDistribution, |names|) == |ballots|
      && r.patterns.multiApprovalVoters + r.patterns.singleApprovalOnlyVoters == |ballots|
      && (forall name :: name in r.candidateVotes ==> r.candidateVotes[name] > 0)
  {
    var names := Combined(key, ballots);
    var p := ElectionProfile(key, ballots);
    ElectionMatrixSize(p, names);
    ProfileWithinCombined(key, ballots);
    PatternsHistogram(p, names);
    PatternsCrossRace(p, names);
    forall name | name in CandidateVotes(Mapping(key, ballots), ballots)
      ensures CandidateVotes(Mapping(key, ballots), ballots)[name] > 0
    {
      VotesPositive(key, ballots, name);
    }
  }
}
