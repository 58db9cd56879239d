/**
 * The batched CVR ingestion of the St. Louis parser: decoded ballots are
 * appended to three parallel buffers (ballots, contests, selections), and a
 * flush writes the buffers to the CVR tables with insert-or-ignore on the
 * ballot's unique guid, one contest row per `(ballot, contest id)` and
 * selections only under the contests written by that flush.
 *
 * Table row ids are positions plus one: the tables are append-only and
 * their `INTEGER PRIMARY KEY` counts up from 1.
 */
module Ingest {
  import opened Wrappers

  // ---------------------------------------------------------------------------
  // Decoded ballots (the output of the XML decoder)
  // ---------------------------------------------------------------------------

  datatype ParsedSelection = ParsedSelection(candidateName: string, candidateId: string, value: int)

  datatype ParsedContest = ParsedContest(name: string, id: string, undervotes: int, selections: seq<ParsedSelection>)

  datatype ParsedBallot = ParsedBallot(
    guid: string,
    batchSequence: int,
    sheetNumber: int,
    precinctName: string,
    precinctId: string,
    isBlank: bool,
    contests: seq<ParsedContest>)

  // ---------------------------------------------------------------------------
  // Rows of the buffers and of the tables
  // ---------------------------------------------------------------------------

  datatype BallotRow = BallotRow(
    guid: string,
    batchSequence: int,
    sheetNumber: int,
    precinctName: string,
    precinctId: string,
    isBlank: bool)

  /**
   * A contest row. In a buffer `ballot` is the index of its ballot record;
   * in the table it is the ballot's row id.
   */
  datatype ContestRow = ContestRow(ballot: nat, name: string, contestId: string, undervotes: int)

  /**
   * A selection row. In a buffer `contest` is the index of its contest
   * record; in the table it is the contest's row id.
   */
  datatype SelectionRow = SelectionRow(contest: nat, candidateName: string, candidateId: string, value: int)

  /** Three parallel lists of rows: the batch buffers, or the three CVR tables. */
  datatype Tables = Tables(ballots: seq<BallotRow>, contests: seq<ContestRow>, selections: seq<SelectionRow>)

  const NoRows := Tables([], [], [])

  /** In the buffers every contest names an earlier ballot and every selection an earlier contest. */
  predicate WellFormedBatch(b: Tables) {
    && (forall i :: 0 <= i < |b.contests| ==> b.contests[i].ballot < |b.ballots|)
    && (forall i :: 0 <= i < |b.selections| ==> b.selections[i].contest < |b.contests|)
  }

  /** In the tables every contest references a stored ballot id and every selection a stored contest id. */
  predicate Referential(s: Tables) {
    && (forall i :: 0 <= i < |s.contests| ==> 1 <= s.contests[i].ballot <= |s.ballots|)
    && (forall i :: 0 <= i < |s.selections| ==> 1 <= s.selections[i].contest <= |s.contests|)
  }

  // ---------------------------------------------------------------------------
  // `add_to_batch`
  // ---------------------------------------------------------------------------

  function BallotRowOf(d: ParsedBallot): BallotRow {
    BallotRow(d.guid, d.batchSequence, d.sheetNumber, d.precinctName, d.precinctId, d.isBlank)
  }

  /** The contest records of one ballot, all pointing at ballot index `bi`. */
  function ContestRowsOf(bi: nat, cs: seq<ParsedContest>): (r: seq<ContestRow>)
    ensures |r| == |cs|
    ensures forall k :: 0 <= k < |cs| ==> r[k] == ContestRow(bi, cs[k].name, cs[k].id, cs[k].undervotes)
  {
    seq(|cs|, k requires 0 <= k < |cs| => ContestRow(bi, cs[k].name, cs[k].id, cs[k].undervotes))
  }

  /** The selection records of one contest, all pointing at contest index `ci`. */
  function SelectionRowsOf(ci: nat, ss: seq<ParsedSelection>): (r: seq<SelectionRow>)
    ensures |r| == |ss|
    ensures forall k :: 0 <= k < |ss| ==> r[k] == SelectionRow(ci, ss[k].candidateName, ss[k].candidateId, ss[k].value)
  {
    seq(|ss|, k requires 0 <= k < |ss| => SelectionRow(ci, ss[k].candidateName, ss[k].candidateId, ss[k].value))
  }

  /** The selection records of contests `cs`, the k-th contest sitting at index `base + k`. */
  function SelectionsUnder(base: nat, cs: seq<ParsedContest>): (r: seq<SelectionRow>)
    ensures forall i :: 0 <= i < |r| ==> base <= r[i].contest < base + |cs|
  {
    if cs == [] then []
    else
      var n := |cs| - 1;
      SelectionsUnder(base, cs[..n]) + SelectionRowsOf(base + n, cs[n].selections)
  }

  /**
   * `add_to_batch`: one ballot record, then one contest record per contest
   * pointing at the new ballot's index, each followed by one selection
   * record per selection pointing at that contest's index.
   */
  function AddToBatch(b: Tables, d: ParsedBallot): (r: Tables)
    ensures r.ballots == b.ballots + [BallotRowOf(d)]
    ensures r.contests == b.contests + ContestRowsOf(|b.ballots|, d.contests)
    ensures |r.selections| >= |b.selections| && r.selections[..|b.selections|] == b.selections
    ensures WellFormedBatch(b) ==> WellFormedBatch(r)
  {
    var selections := SelectionsUnder(|b.contests|, d.contests);
    var r := Tables(b.ballots + [BallotRowOf(d)], b.contests + ContestRowsOf(|b.ballots|, d.contests), b.selections + selections);
    assert r.selections[..|b.selections|] == b.selections;
    assert WellFormedBatch(b) ==> WellFormedBatch(r) by {
      if WellFormedBatch(b) {
        forall i | 0 <= i < |r.selections| ensures r.selections[i].contest < |r.contests| {
          if i >= |b.selections| {
            assert r.selections[i] == selections[i - |b.selections|];
          }
        }
      }
    }
    r
  }

  /** The total number of selections of some contests. */
  function SelectionCount(cs: seq<ParsedContest>): nat {
    if cs == [] then 0 else SelectionCount(cs[..|cs| - 1]) + |cs[|cs| - 1].selections|
  }

  lemma {:induction false} SelectionsUnderCount(base: nat, cs: seq<ParsedContest>)
    ensures |SelectionsUnder(base, cs)| == SelectionCount(cs)
    decreases |cs|
  {
    if cs != [] {
      SelectionsUnderCount(base, cs[..|cs| - 1]);
    }
  }

  // ---------------------------------------------------------------------------
  // Reading a ballot back out of the buffers
  // ---------------------------------------------------------------------------

  /** The selections recorded under contest index `j`, in buffer order. */
  function SelectionsFor(ss: seq<SelectionRow>, j: nat): seq<ParsedSelection> {
    if ss == [] then []
    else
      var n := |ss| - 1;
      var s := ss[n];
      SelectionsFor(ss[..n], j) + (if s.contest == j then [ParsedSelection(s.candidateName, s.candidateId, s.value)] else [])
  }

  /** The contests among the first `n` contest records that point at ballot index `bi`, with their selections. */
  function ContestsFor(t: Tables, bi: nat, n: nat): seq<ParsedContest>
    requires n <= |t.contests|
  {
    if n == 0 then []
    else
      var c := t.contests[n - 1];
      ContestsFor(t, bi, n - 1) + (if c.ballot == bi then [ParsedContest(c.name, c.contestId, c.undervotes, SelectionsFor(t.selections, n - 1))] else [])
  }

  /** The decoded ballot the buffers record at ballot index `bi`. */
  function ReadBack(t: Tables, bi: nat): ParsedBallot
    requires bi < |t.ballots|
  {
    var row := t.ballots[bi];
    ParsedBallot(row.guid, row.batchSequence, row.sheetNumber, row.precinctName, row.precinctId, row.isBlank,
                 ContestsFor(t, bi, |t.contests|))
  }

  lemma {:induction false} SelectionsForAppend(xs: seq<SelectionRow>, ys: seq<SelectionRow>, j: nat)
    ensures SelectionsFor(xs + ys, j) == SelectionsFor(xs, j) + SelectionsFor(ys, j)
    decreases |ys|
  {
    if ys == [] {
      assert xs + ys == xs;
    } else {
      var n := |ys| - 1;
      SelectionsForAppend(xs, ys[..n], j);
      assert (xs + ys)[..|xs + ys| - 1] == xs + ys[..n];
    }
  }

  lemma {:induction false} SelectionsForMissing(xs: seq<SelectionRow>, j: nat)
    requires forall i :: 0 <= i < |xs| ==> xs[i].contest != j
    ensures SelectionsFor(xs, j) == []
    decreases |xs|
  {
    if xs != [] {
      SelectionsForMissing(xs[..|xs| - 1], j);
    }
  }

  lemma {:induction false} SelectionRowsOfFor(ci: nat, ss: seq<ParsedSelection>, j: nat)
    ensures SelectionsFor(SelectionRowsOf(ci, ss), j) == if j == ci then ss else []
    decreases |ss|
  {
    if ss != [] {
      var n := |ss| - 1;
      SelectionRowsOfFor(ci, ss[..n], j);
      assert SelectionRowsOf(ci, ss)[..n] == SelectionRowsOf(ci, ss[..n]);
      if j == ci {
        assert ss == ss[..n] + [ss[n]];
      }
    }
  }

  /** The records under index `base + k` are exactly the selections of the k-th contest. */
  lemma {:induction false} SelectionsUnderFor(base: nat, cs: seq<ParsedContest>, k: nat)
    requires k < |cs|
    ensures SelectionsFor(SelectionsUnder(base, cs), base + k) == cs[k].selections
    decreases |cs|
  {
    var n := |cs| - 1;
    if k < n {
      SelectionsUnderFor(base, cs[..n], k);
      SelectionsUnderStep(base, cs, k);
    } else {
      SelectionsUnderLast(base, cs);
    }
  }

  lemma {:induction false} SelectionsUnderStep(base: nat, cs: seq<ParsedContest>, k: nat)
    requires k < |cs| - 1
    ensures SelectionsFor(SelectionsUnder(base, cs), base + k) == SelectionsFor(SelectionsUnder(base, cs[..|cs| - 1]), base + k)
  {
    var n := |cs| - 1;
    var j := base + k;
    var front, last := SelectionsUnder(base, cs[..n]), SelectionRowsOf(base + n, cs[n].selections);
    assert SelectionsUnder(base, cs) == front + last;
    SelectionsForAppend(front, last, j);
    SelectionRowsOfFor(base + n, cs[n].selections, j);
    var a, b := SelectionsFor(front, j), SelectionsFor(last, j);
    assert b == [];
    assert a + b == a;
  }

  lemma {:induction false} SelectionsUnderLast(base: nat, cs: seq<ParsedContest>)
    requires cs != []
    ensures SelectionsFor(SelectionsUnder(base, cs), base + |cs| - 1) == cs[|cs| - 1].selections
  {
    var n := |cs| - 1;
    var j := base + n;
    var front, last := SelectionsUnder(base, cs[..n]), SelectionRowsOf(j, cs[n].selections);
    assert SelectionsUnder(base, cs) == front + last;
    SelectionsForAppend(front, last, j);
    SelectionRowsOfFor(j, cs[n].selections, j);
    SelectionsForMissing(front, j);
    var x, y := SelectionsFor(front, j), SelectionsFor(last, j);
    assert x == [] && y == cs[n].selections;
    assert x + y == y;
  }

  /** Contest records before index `n0` that point elsewhere contribute nothing. */
  lemma {:induction false} ContestsForOthers(t: Tables, bi: nat, n: nat)
    requires n <= |t.contests|
    requires forall i :: 0 <= i < n ==> t.contests[i].ballot != bi
    ensures ContestsFor(t, bi, n) == []
    decreases n
  {
    if n > 0 {
      ContestsForOthers(t, bi, n - 1);
    }
  }

  /** Records for other indices in front change nothing. */
  lemma SelectionsForSkip(all: seq<SelectionRow>, xs: seq<SelectionRow>, ys: seq<SelectionRow>, j: nat, zs: seq<ParsedSelection>)
    requires all == xs + ys
    requires forall i :: 0 <= i < |xs| ==> xs[i].contest != j
    requires SelectionsFor(ys, j) == zs
    ensures SelectionsFor(all, j) == zs
  {
    SelectionsForMissing(xs, j);
    SelectionsForAppend(xs, ys, j);
  }

  /** After `add_to_batch`, the selection records under the ballot's k-th contest are that contest's selections. */
  lemma AddedSelections(b: Tables, d: ParsedBallot, k: nat)
    requires WellFormedBatch(b)
    requires k < |d.contests|
    ensures SelectionsFor(AddToBatch(b, d).selections, |b.contests| + k) == d.contests[k].selections
  {
    var sel := SelectionsUnder(|b.contests|, d.contests);
    AddedSelectionRows(b, d);
    SelectionsUnderFor(|b.contests|, d.contests, k);
    SelectionsForSkip(AddToBatch(b, d).selections, b.selections, sel, |b.contests| + k, d.contests[k].selections);
  }

  /** `add_to_batch` appends the selection records of the ballot's contests. */
  lemma AddedSelectionRows(b: Tables, d: ParsedBallot)
    ensures AddToBatch(b, d).selections == b.selections + SelectionsUnder(|b.contests|, d.contests)
  {
  }

  /** One more contest record for ballot `bi`, whose selections are `c`'s, adds `c` to the read-back contests. */
  lemma ContestsForStep(t: Tables, bi: nat, n: nat, c: ParsedContest)
    requires 0 < n <= |t.contests|
    requires t.contests[n - 1] == ContestRow(bi, c.name, c.id, c.undervotes)
    requires SelectionsFor(t.selections, n - 1) == c.selections
    ensures ContestsFor(t, bi, n) == ContestsFor(t, bi, n - 1) + [c]
  {
  }

  /** The contest record `add_to_batch` writes for the ballot's k-th contest. */
  lemma AddedContestRow(b: Tables, d: ParsedBallot, k: nat)
    requires k < |d.contests|
    ensures AddToBatch(b, d).contests[|b.contests| + k] ==
      ContestRow(|b.ballots|, d.contests[k].name, d.contests[k].id, d.contests[k].undervotes)
  {
    var r := AddToBatch(b, d);
    assert r.contests[|b.contests| + k] == ContestRowsOf(|b.ballots|, d.contests)[k];
  }

  /** The records already buffered belong to earlier ballots, so none reads back under the added ballot. */
  lemma ContestsForBeforeAdded(b: Tables, d: ParsedBallot)
    requires WellFormedBatch(b)
    ensures ContestsFor(AddToBatch(b, d), |b.ballots|, |b.contests|) == []
  {
    var r := AddToBatch(b, d);
    forall i | 0 <= i < |b.contests| ensures r.contests[i].ballot != |b.ballots| {
      assert r.contests[i] == b.contests[i];
    }
    ContestsForOthers(r, |b.ballots|, |b.contests|);
  }

  /** Records `base ..` hold the contests `cs` of ballot `bi`, each with its selections. */
  predicate SpellsOut(t: Tables, bi: nat, base: nat, cs: seq<ParsedContest>)
    requires base + |cs| <= |t.contests|
  {
    && (forall i :: 0 <= i < |cs| ==> t.contests[base + i] == ContestRow(bi, cs[i].name, cs[i].id, cs[i].undervotes))
    && (forall i :: 0 <= i < |cs| ==> SelectionsFor(t.selections, base + i) == cs[i].selections)
  }

  /** Records `base ..` that spell out `cs` for ballot `bi`, after none before, read back as `cs`. */
  lemma {:induction false} ContestsForRun(t: Tables, bi: nat, base: nat, cs: seq<ParsedContest>, k: nat)
    requires k <= |cs| && base + |cs| <= |t.contests|
    requires ContestsFor(t, bi, base) == []
    requires forall i :: 0 <= i < |cs| ==> t.contests[base + i] == ContestRow(bi, cs[i].name, cs[i].id, cs[i].undervotes)
    requires forall i :: 0 <= i < |cs| ==> SelectionsFor(t.selections, base + i) == cs[i].selections
    ensures ContestsFor(t, bi, base + k) == cs[..k]
    decreases k
  {
    if k > 0 {
      ContestsForRun(t, bi, base, cs, k - 1);
      var c := cs[k - 1];
      ContestsForStep(t, bi, base + k, c);
      var front := ContestsFor(t, bi, base + k - 1);
      assert front == cs[..k - 1];
      assert cs[..k] == front + [c];
    }
  }

  /** The whole run of records spelling out `cs` reads back as `cs`. */
  lemma ContestsForRunAll(t: Tables, bi: nat, base: nat, cs: seq<ParsedContest>)
    requires base + |cs| <= |t.contests|
    requires ContestsFor(t, bi, base) == []
    requires SpellsOut(t, bi, base, cs)
    ensures ContestsFor(t, bi, base + |cs|) == cs
  {
    ContestsForRun(t, bi, base, cs, |cs|);
    assert cs[..|cs|] == cs;
  }

  /** `add_to_batch` writes one contest record per contest of the ballot, in order. */
  lemma AddedContestRows(b: Tables, d: ParsedBallot)
    ensures forall i :: 0 <= i < |d.contests| ==>
      AddToBatch(b, d).contests[|b.contests| + i] == ContestRow(|b.ballots|, d.contests[i].name, d.contests[i].id, d.contests[i].undervotes)
  {
    forall i | 0 <= i < |d.contests|
      ensures AddToBatch(b, d).contests[|b.contests| + i] ==
        ContestRow(|b.ballots|, d.contests[i].name, d.contests[i].id, d.contests[i].undervotes)
    {
      AddedContestRow(b, d, i);
    }
  }

  /** `add_to_batch` files each contest's selections under that contest's record. */
  lemma AddedSelectionsAll(b: Tables, d: ParsedBallot)
    requires WellFormedBatch(b)
    ensures forall i :: 0 <= i < |d.contests| ==> SelectionsFor(AddToBatch(b, d).selections, |b.contests| + i) == d.contests[i].selections
  {
    forall i | 0 <= i < |d.contests| ensures SelectionsFor(AddToBatch(b, d).selections, |b.contests| + i) == d.contests[i].selections {
      AddedSelections(b, d, i);
    }
  }

  /** The records `add_to_batch` appends hold the ballot's contests and selections. */
  lemma AddedRunSpells(b: Tables, d: ParsedBallot)
    requires WellFormedBatch(b)
    ensures |b.contests| + |d.contests| <= |AddToBatch(b, d).contests|
    ensures SpellsOut(AddToBatch(b, d), |b.ballots|, |b.contests|, d.contests)
  {
    AddedContestRows(b, d);
    AddedSelectionsAll(b, d);
  }

  /** A ballot record followed by a run of records spelling out its contests reads back as the ballot. */
  lemma ReadBackRun(t: Tables, bi: nat, base: nat, d: ParsedBallot)
    requires bi < |t.ballots| && t.ballots[bi] == BallotRowOf(d)
    requires base + |d.contests| == |t.contests|
    requires ContestsFor(t, bi, base) == []
    requires SpellsOut(t, bi, base, d.contests)
    ensures ReadBack(t, bi) == d
  {
    ContestsForRunAll(t, bi, base, d.contests);
  }

  /** Reading back the ballot just added to well-formed buffers gives the decoded ballot itself. */
  lemma AddToBatchReadBack(b: Tables, d: ParsedBallot)
    requires WellFormedBatch(b)
    ensures ReadBack(AddToBatch(b, d), |b.ballots|) == d
  {
    ContestsForBeforeAdded(b, d);
    AddedRunSpells(b, d);
    ReadBackRun(AddToBatch(b, d), |b.ballots|, |b.contests|, d);
  }

  // ---------------------------------------------------------------------------
  // Row lookup: `SELECT id ... WHERE ...` followed by `fetchone()`
  // ---------------------------------------------------------------------------

  /** The id (position plus one) of the first row satisfying `p`, if any. */
  function FirstWhere<T>(rows: seq<T>, p: T -> bool): (r: Option<nat>)
    ensures r.None? ==> forall i :: 0 <= i < |rows| ==> !p(rows[i])
    ensures r.Some? ==> 1 <= r.value <= |rows| && p(rows[r.value - 1])
    ensures r.Some? ==> forall i :: 0 <= i < r.value - 1 ==> !p(rows[i])
  {
    FirstFrom(rows, p, 0)
  }

  /** The id of the first row at position `k` or later satisfying `p`, if any. */
  function FirstFrom<T>(rows: seq<T>, p: T -> bool, k: nat): (r: Option<nat>)
    requires k <= |rows|
    ensures r.None? ==> forall i :: k <= i < |rows| ==> !p(rows[i])
    ensures r.Some? ==> k + 1 <= r.value <= |rows| && p(rows[r.value - 1])
    ensures r.Some? ==> forall i :: k <= i < r.value - 1 ==> !p(rows[i])
    decreases |rows| - k
  {
    if k == |rows| then None
    else if p(rows[k]) then Some(k + 1)
    else FirstFrom(rows, p, k + 1)
  }

  /** The first matching row is the only one with no match before it. */
  lemma FirstWhereUnique<T>(rows: seq<T>, p: T -> bool, v: nat)
    requires 1 <= v <= |rows| && p(rows[v - 1])
    requires forall i :: 0 <= i < v - 1 ==> !p(rows[i])
    ensures FirstWhere(rows, p) == Some(v)
  {
    var r := FirstWhere(rows, p);
    assert r.Some?;
  }

  lemma FirstWhereAppendKept<T>(xs: seq<T>, ys: seq<T>, p: T -> bool)
    requires FirstWhere(xs, p).Some?
    ensures FirstWhere(xs + ys, p) == FirstWhere(xs, p)
  {
    var zs, v := xs + ys, FirstWhere(xs, p).value;
    assert zs[v - 1] == xs[v - 1];
    forall i | 0 <= i < v - 1 ensures !p(zs[i]) {
      assert zs[i] == xs[i];
    }
    FirstWhereUnique(zs, p, v);
  }

  lemma FirstWhereAppendLater<T>(xs: seq<T>, ys: seq<T>, p: T -> bool)
    requires FirstWhere(xs, p).None? && FirstWhere(ys, p).Some?
    ensures FirstWhere(xs + ys, p) == Some(|xs| + FirstWhere(ys, p).value)
  {
    var v := FirstWhere(ys, p).value;
    MatchAfterClear(xs, ys, p, v);
    FirstWhereUnique(xs + ys, p, |xs| + v);
  }

  /** A match at `v` in `ys`, with none before it nor anywhere in `xs`, is the first match of `xs + ys`. */
  lemma MatchAfterClear<T>(xs: seq<T>, ys: seq<T>, p: T -> bool, v: nat)
    requires 1 <= v <= |ys| && p(ys[v - 1])
    requires forall i :: 0 <= i < |xs| ==> !p(xs[i])
    requires forall i :: 0 <= i < v - 1 ==> !p(ys[i])
    ensures p((xs + ys)[|xs| + v - 1])
    ensures forall i :: 0 <= i < |xs| + v - 1 ==> !p((xs + ys)[i])
  {
    var zs := xs + ys;
    assert zs[|xs| + v - 1] == ys[v - 1];
    forall i | 0 <= i < |xs| + v - 1 ensures !p(zs[i]) {
      if i < |xs| {
        assert zs[i] == xs[i];
      } else {
        assert zs[i] == ys[i - |xs|];
      }
    }
  }

  lemma FirstWhereAppendNone<T>(xs: seq<T>, ys: seq<T>, p: T -> bool)
    requires FirstWhere(xs, p).None? && FirstWhere(ys, p).None?
    ensures FirstWhere(xs + ys, p).None?
  {
    var zs := xs + ys;
    forall i | 0 <= i < |zs| ensures !p(zs[i]) {
      if i < |xs| {
        assert zs[i] == xs[i];
      } else {
        assert zs[i] == ys[i - |xs|];
      }
    }
  }

  /** Appending rows does not move an existing first match, and a missing one is looked for in the new rows. */
  lemma FirstWhereAppend<T>(xs: seq<T>, ys: seq<T>, p: T -> bool)
    ensures FirstWhere(xs, p).Some? ==> FirstWhere(xs + ys, p) == FirstWhere(xs, p)
    ensures FirstWhere(xs, p).None? && FirstWhere(ys, p).Some? ==> FirstWhere(xs + ys, p) == Some(|xs| + FirstWhere(ys, p).value)
    ensures FirstWhere(xs, p).None? && FirstWhere(ys, p).None? ==> FirstWhere(xs + ys, p).None?
  {
    if FirstWhere(xs, p).Some? {
      FirstWhereAppendKept(xs, ys, p);
    } else if FirstWhere(ys, p).Some? {
      FirstWhereAppendLater(xs, ys, p);
    } else {
      FirstWhereAppendNone(xs, ys, p);
    }
  }

  /** Rows holding guid `g`. */
  function GuidIs(g: string): BallotRow -> bool {
    (row: BallotRow) => row.guid == g
  }

  /** Rows of contest `cid` on ballot id `ballot`. */
  function KeyIs(ballot: nat, cid: string): ContestRow -> bool {
    (row: ContestRow) => row.ballot == ballot && row.contestId == cid
  }

  /** `SELECT id FROM cvr_ballots WHERE cvr_guid = ?`. */
  function BallotId(rows: seq<BallotRow>, g: string): Option<nat> {
    FirstWhere(rows, GuidIs(g))
  }

  /** `cvr_guid TEXT UNIQUE`: no two ballot rows share a guid. */
  predicate UniqueGuids(rows: seq<BallotRow>) {
    forall i, j :: 0 <= i < j < |rows| ==> rows[i].guid != rows[j].guid
  }

  // ---------------------------------------------------------------------------
  // `INSERT OR IGNORE INTO cvr_ballots`
  // ---------------------------------------------------------------------------

  /** Insert the batch's ballot records in order, skipping any whose guid is already stored. */
  function InsertOrIgnore(rows: seq<BallotRow>, batch: seq<BallotRow>): (r: seq<BallotRow>)
    ensures |r| >= |rows| && r[..|rows|] == rows
    ensures |r| <= |rows| + |batch|
  {
    if batch == [] then rows
    else
      var n := |batch| - 1;
      var r := InsertOrIgnore(rows, batch[..n]);
      if BallotId(r, batch[n].guid).Some? then r else r + [batch[n]]
  }

  /** One insert-or-ignore step stores `x`'s guid and keeps every guid already stored. */
  lemma InsertOneKeeps(r: seq<BallotRow>, x: BallotRow, r': seq<BallotRow>, g: string)
    requires r' == if BallotId(r, x.guid).Some? then r else r + [x]
    requires g == x.guid || BallotId(r, g).Some?
    ensures BallotId(r', g).Some?
  {
    if BallotId(r, x.guid).None? {
      FirstWhereAppend(r, [x], GuidIs(g));
    }
  }

  /** After the insert every guid of the batch is stored. */
  lemma {:induction false} InsertOrIgnoreStores(rows: seq<BallotRow>, batch: seq<BallotRow>)
    ensures forall i :: 0 <= i < |batch| ==> BallotId(InsertOrIgnore(rows, batch), batch[i].guid).Some?
    decreases |batch|
  {
    if batch != [] {
      var n := |batch| - 1;
      var r := InsertOrIgnore(rows, batch[..n]);
      var r' := InsertOrIgnore(rows, batch);
      assert r' == if BallotId(r, batch[n].guid).Some? then r else r + [batch[n]];
      InsertOrIgnoreStores(rows, batch[..n]);
      forall i | 0 <= i < |batch| ensures BallotId(r', batch[i].guid).Some? {
        if i < n { assert batch[..n][i] == batch[i]; }
        InsertOneKeeps(r, batch[n], r', batch[i].guid);
      }
    }
  }

  /** Every row the insert adds is a batch record whose guid was not stored, and stored rows keep their ids. */
  lemma {:induction false} InsertOrIgnoreFresh(rows: seq<BallotRow>, batch: seq<BallotRow>)
    ensures forall i :: |rows| <= i < |InsertOrIgnore(rows, batch)| ==>
              InsertOrIgnore(rows, batch)[i] in batch && BallotId(rows, InsertOrIgnore(rows, batch)[i].guid).None?
    decreases |batch|
  {
    if batch != [] {
      var n := |batch| - 1;
      var r := InsertOrIgnore(rows, batch[..n]);
      InsertOrIgnoreFresh(rows, batch[..n]);
      var g := batch[n].guid;
      var r' := InsertOrIgnore(rows, batch);
      assert r' == if BallotId(r, g).Some? then r else r + [batch[n]];
      forall i | |rows| <= i < |r'| ensures r'[i] in batch && BallotId(rows, r'[i].guid).None? {
        if i < |r| {
          assert r'[i] == r[i];
          assert r[i] in batch[..n];
          assert batch == batch[..n] + [batch[n]];
        } else {
          assert r == rows + r[|rows|..];
          FirstWhereAppend(rows, r[|rows|..], GuidIs(g));
        }
      }
    }
  }

  /** Insert-or-ignore keeps guids unique. */
  lemma {:induction false} InsertOrIgnoreUnique(rows: seq<BallotRow>, batch: seq<BallotRow>)
    requires UniqueGuids(rows)
    ensures UniqueGuids(InsertOrIgnore(rows, batch))
    decreases |batch|
  {
    if batch != [] {
      var n := |batch| - 1;
      var r := InsertOrIgnore(rows, batch[..n]);
      InsertOrIgnoreUnique(rows, batch[..n]);
      var g := batch[n].guid;
      if BallotId(r, g).None? {
        var r' := r + [batch[n]];
        forall i, j | 0 <= i < j < |r'| ensures r'[i].guid != r'[j].guid {
          if j == |r| {
            assert !GuidIs(g)(r[i]);
          }
        }
      }
    }
  }

  /** A guid already stored keeps its id through the insert. */
  lemma InsertOrIgnoreKeepsIds(rows: seq<BallotRow>, batch: seq<BallotRow>, g: string)
    requires BallotId(rows, g).Some?
    ensures BallotId(InsertOrIgnore(rows, batch), g) == BallotId(rows, g)
  {
    var r := InsertOrIgnore(rows, batch);
    assert r == rows + r[|rows|..];
    FirstWhereAppend(rows, r[|rows|..], GuidIs(g));
  }

  /** The insert adds no row exactly when every guid of the batch was already stored. */
  lemma InsertOrIgnoreNothingNew(rows: seq<BallotRow>, batch: seq<BallotRow>)
    ensures InsertOrIgnore(rows, batch) == rows <==> forall i :: 0 <= i < |batch| ==> BallotId(rows, batch[i].guid).Some?
  {
    var r := InsertOrIgnore(rows, batch);
    InsertOrIgnoreStores(rows, batch);
    InsertOrIgnoreFresh(rows, batch);
    if |r| > |rows| {
      var x := r[|rows|];
      assert x in batch && BallotId(rows, x.guid).None?;
      var i :| 0 <= i < |batch| && batch[i] == x;
    }
    assert |r| == |rows| ==> r == r[..|rows|];
  }

  // ---------------------------------------------------------------------------
  // Contest rows of a flush
  // ---------------------------------------------------------------------------

  /** `guid_to_ballot_id` for the ballot of contest record `i`. */
  function ContestTarget(ballots: seq<BallotRow>, b: Tables, i: nat): Option<nat>
    requires WellFormedBatch(b) && i < |b.contests|
  {
    BallotId(ballots, b.ballots[b.contests[i].ballot].guid)
  }

  /**
   * Contest record `i` is written: its ballot has an id, and no contest row
   * with that ballot id and contest id existed before the flush.
   */
  predicate Admitted(pre: seq<ContestRow>, ballots: seq<BallotRow>, b: Tables, i: nat)
    requires WellFormedBatch(b) && i < |b.contests|
  {
    var t := ContestTarget(ballots, b, i);
    t.Some? && FirstWhere(pre, KeyIs(t.value, b.contests[i].contestId)).None?
  }

  /** The row written for contest record `i`, with the stored ballot id in place of the buffer index. */
  function RowFor(ballots: seq<BallotRow>, b: Tables, i: nat): ContestRow
    requires WellFormedBatch(b) && i < |b.contests|
    requires ContestTarget(ballots, b, i).Some?
  {
    var c := b.contests[i];
    ContestRow(ContestTarget(ballots, b, i).value, c.name, c.contestId, c.undervotes)
  }

  /**
   * `updated_contest_batch` and `contest_id_mapping` for the first `n`
   * contest records: the rows to write, and for each record the position of
   * its row among them, if it is written.
   */
  function PlanContests(pre: seq<ContestRow>, ballots: seq<BallotRow>, b: Tables, n: nat): (r: (seq<ContestRow>, seq<Option<nat>>))
    requires WellFormedBatch(b) && n <= |b.contests|
    ensures |r.1| == n
    ensures forall i :: 0 <= i < n && r.1[i].Some? ==> r.1[i].value < |r.0|
  {
    if n == 0 then ([], [])
    else
      var (u, slots) := PlanContests(pre, ballots, b, n - 1);
      if Admitted(pre, ballots, b, n - 1) then (u + [RowFor(ballots, b, n - 1)], slots + [Some(|u|)])
      else (u, slots + [None])
  }

  /** A contest record gets a slot exactly when it is admitted, and its slot holds its row. */
  lemma {:induction false} PlanContestsSlots(pre: seq<ContestRow>, ballots: seq<BallotRow>, b: Tables, n: nat, i: nat)
    requires WellFormedBatch(b) && i < n <= |b.contests|
    ensures PlanContests(pre, ballots, b, n).1[i].Some? <==> Admitted(pre, ballots, b, i)
    ensures PlanContests(pre, ballots, b, n).1[i].Some? ==>
              PlanContests(pre, ballots, b, n).0[PlanContests(pre, ballots, b, n).1[i].value] == RowFor(ballots, b, i)
    decreases n
  {
    PlanContestsGrows(pre, ballots, b, n);
    if i < n - 1 {
      PlanContestsSlots(pre, ballots, b, n - 1, i);
      var r := PlanContests(pre, ballots, b, n - 1);
      var r' := PlanContests(pre, ballots, b, n);
      PrefixSlotKept(r.0, r.1, r'.0, r'.1, i);
    }
  }

  /** Planning one more record extends the rows and slots, and gives the new record a slot exactly when it is admitted. */
  lemma PlanContestsGrows(pre: seq<ContestRow>, ballots: seq<BallotRow>, b: Tables, n: nat)
    requires WellFormedBatch(b) && 0 < n <= |b.contests|
    ensures var r, r' := PlanContests(pre, ballots, b, n - 1), PlanContests(pre, ballots, b, n);
      && |r.0| <= |r'.0| && r'.0[..|r.0|] == r.0 && r'.1[..n - 1] == r.1
      && (r'.1[n - 1].Some? <==> Admitted(pre, ballots, b, n - 1))
      && (r'.1[n - 1].Some? ==> r'.0[r'.1[n - 1].value] == RowFor(ballots, b, n - 1))
  {
    var r := PlanContests(pre, ballots, b, n - 1);
    if Admitted(pre, ballots, b, n - 1) {
      assert (r.0 + [RowFor(ballots, b, n - 1)])[..|r.0|] == r.0;
      assert (r.1 + [Some(|r.0|)])[..n - 1] == r.1;
    } else {
      assert (r.1 + [None])[..n - 1] == r.1;
    }
  }

  /** Extending rows and slots keeps every earlier slot and the row it holds. */
  lemma PrefixSlotKept(u: seq<ContestRow>, slots: seq<Option<nat>>, u': seq<ContestRow>, slots': seq<Option<nat>>, i: nat)
    requires i < |slots| <= |slots'| && slots'[..|slots|] == slots
    requires |u| <= |u'| && u'[..|u|] == u
    requires slots[i].Some? ==> slots[i].value < |u|
    ensures slots'[i] == slots[i]
    ensures slots[i].Some? ==> u'[slots[i].value] == u[slots[i].value]
  {
    assert slots'[i] == slots'[..|slots|][i];
    if slots[i].Some? {
      assert u'[slots[i].value] == u'[..|u|][slots[i].value];
    }
  }

  /** Every planned row is the row of some admitted record. */
  lemma {:induction false} PlanContestsSources(pre: seq<ContestRow>, ballots: seq<BallotRow>, b: Tables, n: nat, j: nat)
    requires WellFormedBatch(b) && n <= |b.contests|
    requires j < |PlanContests(pre, ballots, b, n).0|
    ensures exists i :: 0 <= i < n && PlanContests(pre, ballots, b, n).1[i] == Some(j)
    decreases n
  {
    var r := PlanContests(pre, ballots, b, n - 1);
    var r' := PlanContests(pre, ballots, b, n);
    if j < |r.0| {
      PlanContestsSources(pre, ballots, b, n - 1, j);
      var i :| 0 <= i < n - 1 && r.1[i] == Some(j);
      assert r'.1[i] == Some(j);
    } else {
      assert r'.1[n - 1] == Some(j);
    }
  }

  /** Every planned row is new: no row with its ballot id and contest id existed before the flush. */
  lemma PlannedRowsNew(pre: seq<ContestRow>, ballots: seq<BallotRow>, b: Tables, j: nat)
    requires WellFormedBatch(b)
    requires j < |PlanContests(pre, ballots, b, |b.contests|).0|
    ensures var row := PlanContests(pre, ballots, b, |b.contests|).0[j];
      FirstWhere(pre, KeyIs(row.ballot, row.contestId)).None?
  {
    var r := PlanContests(pre, ballots, b, |b.contests|);
    PlanContestsSources(pre, ballots, b, |b.contests|, j);
    var i :| 0 <= i < |b.contests| && r.1[i] == Some(j);
    PlanContestsSlots(pre, ballots, b, |b.contests|, i);
  }

  // ---------------------------------------------------------------------------
  // Selection rows of a flush
  // ---------------------------------------------------------------------------

  /** `contest_records`: the stored id of each planned row, looked up by ballot id and contest id after the insert. */
  function ContestRecordIds(table: seq<ContestRow>, u: seq<ContestRow>): (r: seq<Option<nat>>)
    ensures |r| == |u|
    ensures forall j {:trigger r[j]} :: 0 <= j < |u| ==> r[j] == FirstWhere(table, KeyIs(u[j].ballot, u[j].contestId))
  {
    seq(|u|, j requires 0 <= j < |u| => FirstWhere(table, KeyIs(u[j].ballot, u[j].contestId)))
  }

  /** The id `slots` and `ids` give selection record `s`'s contest, when its contest was written. */
  function SelectionTarget(s: SelectionRow, slots: seq<Option<nat>>, ids: seq<Option<nat>>): Option<nat> {
    if s.contest < |slots| && slots[s.contest].Some? && slots[s.contest].value < |ids| then ids[slots[s.contest].value]
    else None
  }

  /** `updated_selection_batch`: the selection records under written contests, pointing at their stored ids. */
  function PlanSelections(sels: seq<SelectionRow>, slots: seq<Option<nat>>, ids: seq<Option<nat>>): (r: seq<SelectionRow>)
    ensures |r| <= |sels|
  {
    if sels == [] then []
    else
      var n := |sels| - 1;
      var s := sels[n];
      var r := PlanSelections(sels[..n], slots, ids);
      match SelectionTarget(s, slots, ids)
      case None => r
      case Some(id) => r + [SelectionRow(id, s.candidateName, s.candidateId, s.value)]
  }

  /** Every planned selection points at one of the ids, and carries a buffered selection's fields. */
  lemma {:induction false} PlanSelectionsTargets(sels: seq<SelectionRow>, slots: seq<Option<nat>>, ids: seq<Option<nat>>, k: nat)
    requires k < |PlanSelections(sels, slots, ids)|
    ensures var row := PlanSelections(sels, slots, ids)[k];
      exists i :: 0 <= i < |sels| && SelectionTarget(sels[i], slots, ids) == Some(row.contest) &&
        row == SelectionRow(row.contest, sels[i].candidateName, sels[i].candidateId, sels[i].value)
    decreases |sels|
  {
    var n := |sels| - 1;
    var r := PlanSelections(sels[..n], slots, ids);
    var row := PlanSelections(sels, slots, ids)[k];
    if k < |r| {
      PlanSelectionsTargets(sels[..n], slots, ids, k);
      assert PlanSelections(sels, slots, ids)[k] == r[k];
      var i :| 0 <= i < n && SelectionTarget(sels[..n][i], slots, ids) == Some(r[k].contest) &&
        r[k] == SelectionRow(r[k].contest, sels[..n][i].candidateName, sels[..n][i].candidateId, sels[..n][i].value);
      assert sels[..n][i] == sels[i];
    } else {
      assert SelectionTarget(sels[n], slots, ids) == Some(row.contest);
    }
  }

  /** A selection record whose contest was written is planned. */
  lemma {:induction false} PlanSelectionsComplete(sels: seq<SelectionRow>, slots: seq<Option<nat>>, ids: seq<Option<nat>>, i: nat)
    requires i < |sels| && SelectionTarget(sels[i], slots, ids).Some?
    ensures var s := sels[i];
      SelectionRow(SelectionTarget(s, slots, ids).value, s.candidateName, s.candidateId, s.value) in PlanSelections(sels, slots, ids)
    decreases |sels|
  {
    var n := |sels| - 1;
    if i < n {
      PlanSelectionsComplete(sels[..n], slots, ids, i);
      assert sels[..n][i] == sels[i];
    }
  }

  // ---------------------------------------------------------------------------
  // `flush_batch`
  // ---------------------------------------------------------------------------

  /**
   * A committed `flush_batch` as a store transition. An empty batch, or one
   * whose every guid is already stored, leaves the store as it is;
   * otherwise new ballots are inserted, admitted contests are written with
   * their ballot ids, and selections under them with their contest ids.
   */
  function FlushStore(s: Tables, b: Tables): (r: Tables)
    requires WellFormedBatch(b)
    ensures b.ballots == [] ==> r == s
    ensures r.ballots == InsertOrIgnore(s.ballots, b.ballots)
    ensures |r.contests| >= |s.contests| && r.contests[..|s.contests|] == s.contests
    ensures |r.selections| >= |s.selections| && r.selections[..|s.selections|] == s.selections
  {
    if b.ballots == [] then s
    else
      var ballots := InsertOrIgnore(s.ballots, b.ballots);
      if |ballots| == |s.ballots| then
        assert ballots == s.ballots;
        s
      else
        var (u, slots) := PlanContests(s.contests, ballots, b, |b.contests|);
        if u == [] then Tables(ballots, s.contests, s.selections)
        else
          var contests := s.contests + u;
          var ids := ContestRecordIds(contests, u);
          var r := Tables(ballots, contests, s.selections + PlanSelections(b.selections, slots, ids));
          assert r.contests[..|s.contests|] == s.contests;
          assert r.selections[..|s.selections|] == s.selections;
          r
  }

  /** A flush that finds every guid of the batch already stored writes nothing. */
  lemma FlushNothingNew(s: Tables, b: Tables)
    requires WellFormedBatch(b)
    requires forall i :: 0 <= i < |b.ballots| ==> BallotId(s.ballots, b.ballots[i].guid).Some?
    ensures FlushStore(s, b) == s
  {
    InsertOrIgnoreNothingNew(s.ballots, b.ballots);
  }

  /** Flushing the same batch again changes nothing: every ballot of it is now stored. */
  lemma FlushIdempotent(s: Tables, b: Tables)
    requires WellFormedBatch(b)
    ensures FlushStore(FlushStore(s, b), b) == FlushStore(s, b)
  {
    InsertOrIgnoreStores(s.ballots, b.ballots);
    FlushNothingNew(FlushStore(s, b), b);
  }

  /**
   * After a flush every guid of the batch is stored, guids stay unique, and
   * a guid stored before keeps its ballot id.
   */
  lemma FlushBallots(s: Tables, b: Tables, g: string)
    requires WellFormedBatch(b)
    ensures forall i :: 0 <= i < |b.ballots| ==> BallotId(FlushStore(s, b).ballots, b.ballots[i].guid).Some?
    ensures UniqueGuids(s.ballots) ==> UniqueGuids(FlushStore(s, b).ballots)
    ensures BallotId(s.ballots, g).Some? ==> BallotId(FlushStore(s, b).ballots, g) == BallotId(s.ballots, g)
  {
    InsertOrIgnoreStores(s.ballots, b.ballots);
    if UniqueGuids(s.ballots) {
      InsertOrIgnoreUnique(s.ballots, b.ballots);
    }
    if BallotId(s.ballots, g).Some? {
      InsertOrIgnoreKeepsIds(s.ballots, b.ballots, g);
    }
  }

  /** The flush wrote contest and selection rows only when it inserted a new ballot. */
  predicate Inserted(s: Tables, b: Tables)
    requires WellFormedBatch(b)
  {
    FlushStore(s, b).ballots != s.ballots
  }

  /** The contest rows a flush writes are the planned rows. */
  lemma FlushContestRows(s: Tables, b: Tables)
    requires WellFormedBatch(b)
    ensures var r := FlushStore(s, b);
      r.contests == s.contests + (if Inserted(s, b) then PlanContests(s.contests, r.ballots, b, |b.contests|).0 else [])
  {
    if Inserted(s, b) {
      assert b.ballots != [];
      assert |InsertOrIgnore(s.ballots, b.ballots)| != |s.ballots|;
    }
  }

  /**
   * Every contest row a flush writes is new for its `(ballot id, contest
   * id)`, and is a buffered contest record of the batch with its ballot's
   * stored id.
   */
  lemma FlushContestsNew(s: Tables, b: Tables, k: nat)
    requires WellFormedBatch(b)
    requires |s.contests| <= k < |FlushStore(s, b).contests|
    ensures var r := FlushStore(s, b);
      && FirstWhere(s.contests, KeyIs(r.contests[k].ballot, r.contests[k].contestId)).None?
      && exists i :: 0 <= i < |b.contests| && Admitted(s.contests, r.ballots, b, i) && r.contests[k] == RowFor(r.ballots, b, i)
  {
    var r := FlushStore(s, b);
    FlushContestRows(s, b);
    var u := PlanContests(s.contests, r.ballots, b, |b.contests|).0;
    var j := k - |s.contests|;
    assert r.contests[k] == u[j];
    PlannedRowsNew(s.contests, r.ballots, b, j);
    PlanContestsSources(s.contests, r.ballots, b, |b.contests|, j);
    var i :| 0 <= i < |b.contests| && PlanContests(s.contests, r.ballots, b, |b.contests|).1[i] == Some(j);
    PlanContestsSlots(s.contests, r.ballots, b, |b.contests|, i);
  }

  /** Every admitted contest record of a flush that inserted a ballot is written. */
  lemma FlushContestsComplete(s: Tables, b: Tables, i: nat)
    requires WellFormedBatch(b) && i < |b.contests|
    requires Inserted(s, b)
    requires Admitted(s.contests, FlushStore(s, b).ballots, b, i)
    ensures RowFor(FlushStore(s, b).ballots, b, i) in FlushStore(s, b).contests[|s.contests|..]
  {
    var r := FlushStore(s, b);
    FlushContestRows(s, b);
    var plan := PlanContests(s.contests, r.ballots, b, |b.contests|);
    PlanContestsSlots(s.contests, r.ballots, b, |b.contests|, i);
    assert r.contests[|s.contests|..] == plan.0;
  }

  /** With no match in `xs`, the first match of `xs + ys` lies in `ys`, no later than a known match there. */
  lemma FirstWhereLater<T>(xs: seq<T>, ys: seq<T>, p: T -> bool, j: nat)
    requires j < |ys| && p(ys[j])
    requires FirstWhere(xs, p).None?
    ensures FirstWhere(xs + ys, p).Some?
    ensures |xs| < FirstWhere(xs + ys, p).value <= |xs| + j + 1
    ensures p((xs + ys)[FirstWhere(xs + ys, p).value - 1])
  {
    FirstWhereAppend(xs, ys, p);
  }

  /** A row that matched nothing before the flush is found among the rows written by it, under its own key. */
  lemma PlannedId(pre: seq<ContestRow>, u: seq<ContestRow>, j: nat)
    requires j < |u|
    requires FirstWhere(pre, KeyIs(u[j].ballot, u[j].contestId)).None?
    ensures var id := FirstWhere(pre + u, KeyIs(u[j].ballot, u[j].contestId));
      && id.Some? && |pre| < id.value <= |pre| + |u|
      && (pre + u)[id.value - 1].ballot == u[j].ballot
      && (pre + u)[id.value - 1].contestId == u[j].contestId
  {
    var key := KeyIs(u[j].ballot, u[j].contestId);
    FirstWhereLater(pre, u, key, j);
  }

  /** The selection rows a flush writes are the planned selections. */
  lemma FlushSelectionRows(s: Tables, b: Tables)
    requires WellFormedBatch(b)
    ensures var r := FlushStore(s, b);
      var plan := PlanContests(s.contests, r.ballots, b, |b.contests|);
      r.selections == s.selections +
        (if Inserted(s, b) && plan.0 != [] then PlanSelections(b.selections, plan.1, ContestRecordIds(r.contests, plan.0)) else [])
  {
    FlushContestRows(s, b);
    if Inserted(s, b) {
      assert b.ballots != [];
      assert |InsertOrIgnore(s.ballots, b.ballots)| != |s.ballots|;
    }
  }

  /** What the lookup `id` of a row `u[j]` that matched nothing before the flush finds. */
  lemma PlannedIdIs(pre: seq<ContestRow>, u: seq<ContestRow>, j: nat, id: Option<nat>)
    requires j < |u|
    requires FirstWhere(pre, KeyIs(u[j].ballot, u[j].contestId)).None?
    requires id == FirstWhere(pre + u, KeyIs(u[j].ballot, u[j].contestId))
    ensures id.Some? && |pre| < id.value <= |pre| + |u|
    ensures (pre + u)[id.value - 1].ballot == u[j].ballot && (pre + u)[id.value - 1].contestId == u[j].contestId
  {
    PlannedId(pre, u, j);
  }

  /** `contest_records` looks row `u[j]` up by its ballot id and contest id. */
  lemma RecordIdLookup(pre: seq<ContestRow>, u: seq<ContestRow>, j: nat)
    requires j < |u|
    ensures ContestRecordIds(pre + u, u)[j] == FirstWhere(pre + u, KeyIs(u[j].ballot, u[j].contestId))
  {
  }

  /** The id `contest_records` gives slot `j`: a row written by the flush, under the planned row's key. */
  lemma SlotId(pre: seq<ContestRow>, ballots: seq<BallotRow>, b: Tables, u: seq<ContestRow>, ids: seq<Option<nat>>, j: nat)
    requires WellFormedBatch(b)
    requires u == PlanContests(pre, ballots, b, |b.contests|).0 && ids == ContestRecordIds(pre + u, u)
    requires j < |u|
    ensures ids[j].Some? && |pre| < ids[j].value <= |pre| + |u|
    ensures (pre + u)[ids[j].value - 1].ballot == u[j].ballot
    ensures (pre + u)[ids[j].value - 1].contestId == u[j].contestId
  {
    PlannedRowsNew(pre, ballots, b, j);
    RecordIdLookup(pre, u, j);
    PlannedIdIs(pre, u, j, ids[j]);
  }

  /**
   * Every planned selection points at a contest row written by the same
   * flush, one carrying the key of the admitted contest record the
   * selection was buffered under.
   */
  lemma PlanSelectionsNew(pre: seq<ContestRow>, ballots: seq<BallotRow>, b: Tables, k: nat)
    requires WellFormedBatch(b)
    requires var plan := PlanContests(pre, ballots, b, |b.contests|);
      k < |PlanSelections(b.selections, plan.1, ContestRecordIds(pre + plan.0, plan.0))|
    ensures var plan := PlanContests(pre, ballots, b, |b.contests|);
      var table := pre + plan.0;
      var row := PlanSelections(b.selections, plan.1, ContestRecordIds(table, plan.0))[k];
      && |pre| < row.contest <= |table|
      && exists i :: 0 <= i < |b.selections| &&
           var ci := b.selections[i].contest;
           && Admitted(pre, ballots, b, ci)
           && table[row.contest - 1].ballot == RowFor(ballots, b, ci).ballot
           && table[row.contest - 1].contestId == b.contests[ci].contestId
           && row == SelectionRow(row.contest, b.selections[i].candidateName, b.selections[i].candidateId, b.selections[i].value)
  {
    var plan := PlanContests(pre, ballots, b, |b.contests|);
    var u, slots := plan.0, plan.1;
    var ids := ContestRecordIds(pre + u, u);
    var row := PlanSelections(b.selections, slots, ids)[k];
    var i := PlannedSelectionSource(b.selections, slots, ids, k);
    var ci := b.selections[i].contest;
    var j := slots[ci].value;
    PlanContestsSlots(pre, ballots, b, |b.contests|, ci);
    SlotId(pre, ballots, b, u, ids, j);
    var table := pre + u;
    assert u[j] == RowFor(ballots, b, ci) && ids[j] == Some(row.contest);
    assert table[row.contest - 1].ballot == u[j].ballot && table[row.contest - 1].contestId == u[j].contestId;
    assert && Admitted(pre, ballots, b, ci)
           && table[row.contest - 1].ballot == RowFor(ballots, b, ci).ballot
           && table[row.contest - 1].contestId == b.contests[ci].contestId
           && row == SelectionRow(row.contest, b.selections[i].candidateName, b.selections[i].candidateId, b.selections[i].value);
  }

  /** The buffered selection record a planned selection row was made from. */
  lemma PlannedSelectionSource(sels: seq<SelectionRow>, slots: seq<Option<nat>>, ids: seq<Option<nat>>, k: nat) returns (i: nat)
    requires k < |PlanSelections(sels, slots, ids)|
    ensures var row := PlanSelections(sels, slots, ids)[k];
      && i < |sels| && SelectionTarget(sels[i], slots, ids) == Some(row.contest)
      && row == SelectionRow(row.contest, sels[i].candidateName, sels[i].candidateId, sels[i].value)
  {
    PlanSelectionsTargets(sels, slots, ids, k);
    var row := PlanSelections(sels, slots, ids)[k];
    i :| 0 <= i < |sels| && SelectionTarget(sels[i], slots, ids) == Some(row.contest) &&
      row == SelectionRow(row.contest, sels[i].candidateName, sels[i].candidateId, sels[i].value);
  }

  /**
   * Every selection row a flush writes points at a contest row written by
   * the same flush, one carrying the key of the admitted contest record
   * the selection was buffered under.
   */
  lemma FlushSelectionsNew(s: Tables, b: Tables, k: nat)
    requires WellFormedBatch(b)
    requires |s.selections| <= k < |FlushStore(s, b).selections|
    ensures var r := FlushStore(s, b);
      var id := r.selections[k].contest;
      && |s.contests| < id <= |r.contests|
      && exists i :: 0 <= i < |b.selections| &&
           var ci := b.selections[i].contest;
           && Admitted(s.contests, r.ballots, b, ci)
           && r.contests[id - 1].ballot == RowFor(r.ballots, b, ci).ballot
           && r.contests[id - 1].contestId == b.contests[ci].contestId
           && r.selections[k] == SelectionRow(id, b.selections[i].candidateName, b.selections[i].candidateId, b.selections[i].value)
  {
    var r := FlushStore(s, b);
    FlushSelectionRows(s, b);
    FlushContestRows(s, b);
    var plan := PlanContests(s.contests, r.ballots, b, |b.contests|);
    assert r.contests == s.contests + plan.0;
    var sels := PlanSelections(b.selections, plan.1, ContestRecordIds(r.contests, plan.0));
    var row := sels[k - |s.selections|];
    assert r.selections[k] == row;
    PlanSelectionsNew(s.contests, r.ballots, b, k - |s.selections|);
    var i :| 0 <= i < |b.selections| &&
      var ci := b.selections[i].contest;
      && Admitted(s.contests, r.ballots, b, ci)
      && r.contests[row.contest - 1].ballot == RowFor(r.ballots, b, ci).ballot
      && r.contests[row.contest - 1].contestId == b.contests[ci].contestId
      && row == SelectionRow(row.contest, b.selections[i].candidateName, b.selections[i].candidateId, b.selections[i].value);
  }

  /** A flush keeps every contest pointing at a stored ballot and every selection at a stored contest. */
  lemma FlushReferential(s: Tables, b: Tables)
    requires WellFormedBatch(b) && Referential(s)
    ensures Referential(FlushStore(s, b))
  {
    var r := FlushStore(s, b);
    forall k | 0 <= k < |r.contests| ensures 1 <= r.contests[k].ballot <= |r.ballots| {
      if k < |s.contests| {
        assert r.contests[k] == s.contests[k];
      } else {
        FlushContestsNew(s, b, k);
      }
    }
    forall k | 0 <= k < |r.selections| ensures 1 <= r.selections[k].contest <= |r.contests| {
      if k < |s.selections| {
        assert r.selections[k] == s.selections[k];
      } else {
        FlushSelectionsNew(s, b, k);
      }
    }
  }

  // ---------------------------------------------------------------------------
  // The parser and its directory loop
  // ---------------------------------------------------------------------------

  /** `CvrParser`: the CVR tables, the three buffers, `batch_size` and the two counters. */
  datatype Parser = Parser(store: Tables, batch: Tables, batchSize: int, processed: nat, errors: nat)

  /**
   * `flush_batch` with the outcome of the transaction as an input: with
   * `fault` the transaction rolls back and the error is raised. An empty
   * buffer returns before touching the database. Whenever the database is
   * reached the buffers are cleared, whatever the outcome.
   */
  function Flush(p: Parser, fault: bool): (r: (Parser, bool))
    requires WellFormedBatch(p.batch)
    ensures r.0.batch == NoRows
    ensures r.1 <==> fault && p.batch.ballots != []
    ensures r.0.store == if fault then p.store else FlushStore(p.store, p.batch)
    ensures r.0.batchSize == p.batchSize && r.0.processed == p.processed && r.0.errors == p.errors
  {
    if p.batch.ballots == [] then
      assert |p.batch.contests| > 0 ==> p.batch.contests[0].ballot < |p.batch.ballots|;
      assert |p.batch.selections| > 0 ==> p.batch.selections[0].contest < |p.batch.contests|;
      (p, false)
    else if fault then (p.(batch := NoRows), true)
    else (p.(store := FlushStore(p.store, p.batch), batch := NoRows), false)
  }

  /** The ballots decoded from a list of files; `None` is a file that failed to parse. */
  function Decoded(files: seq<Option<ParsedBallot>>): (r: seq<ParsedBallot>)
    ensures |r| <= |files|
  {
    if files == [] then []
    else
      var n := |files| - 1;
      Decoded(files[..n]) + (if files[n].Some? then [files[n].value] else [])
  }

  /** The number of files that failed to parse. */
  function Failures(files: seq<Option<ParsedBallot>>): nat {
    if files == [] then 0 else Failures(files[..|files| - 1]) + (if files[|files| - 1].None? then 1 else 0)
  }

  lemma {:induction false} DecodedPlusFailures(files: seq<Option<ParsedBallot>>)
    ensures |Decoded(files)| + Failures(files) == |files|
    decreases |files|
  {
    if files != [] {
      DecodedPlusFailures(files[..|files| - 1]);
    }
  }

  /** Between files the buffer is empty or holds fewer than `batch_size` ballots. */
  predicate BetweenFiles(p: Parser) {
    WellFormedBatch(p.batch) && (p.batch.ballots == [] || |p.batch.ballots| < p.batchSize)
  }

  /** Every guid listed is stored. */
  predicate AllStored(rows: seq<BallotRow>, ds: seq<ParsedBallot>) {
    forall k :: 0 <= k < |ds| ==> BallotId(rows, ds[k].guid).Some?
  }

  /** Every guid listed is stored or buffered. */
  predicate StoredOrBuffered(p: Parser, ds: seq<ParsedBallot>) {
    forall k :: 0 <= k < |ds| ==> BallotId(p.store.ballots, ds[k].guid).Some? || BallotId(p.batch.ballots, ds[k].guid).Some?
  }

  /** Every buffered ballot's guid is stored. */
  predicate BufferStored(p: Parser) {
    forall k :: 0 <= k < |p.batch.ballots| ==> BallotId(p.store.ballots, p.batch.ballots[k].guid).Some?
  }

  /** Buffering a ballot keeps every stored or buffered guid so and adds the ballot's own. */
  lemma StoredAfterAdd(p: Parser, d: ParsedBallot, ds: seq<ParsedBallot>)
    requires StoredOrBuffered(p, ds)
    ensures StoredOrBuffered(p.(batch := AddToBatch(p.batch, d)), ds + [d])
  {
    var q := p.(batch := AddToBatch(p.batch, d));
    forall k | 0 <= k < |ds + [d]|
      ensures BallotId(q.store.ballots, (ds + [d])[k].guid).Some? || BallotId(q.batch.ballots, (ds + [d])[k].guid).Some?
    {
      var g := (ds + [d])[k].guid;
      FirstWhereAppend(p.batch.ballots, [BallotRowOf(d)], GuidIs(g));
      if k == |ds| {
        assert GuidIs(g)([BallotRowOf(d)][0]);
      }
    }
  }

  /** A stored guid stays stored when rows are appended. */
  lemma StoredStays(rows: seq<BallotRow>, more: seq<BallotRow>, g: string)
    requires |more| >= |rows| && more[..|rows|] == rows
    requires BallotId(rows, g).Some?
    ensures BallotId(more, g).Some?
  {
    assert more == rows + more[|rows|..];
    FirstWhereAppend(rows, more[|rows|..], GuidIs(g));
  }

  /** After the insert a guid that was stored or in the batch is stored. */
  lemma InsertOrIgnoreKeepsStored(rows: seq<BallotRow>, batch: seq<BallotRow>, g: string)
    requires BallotId(rows, g).Some? || BallotId(batch, g).Some?
    ensures BallotId(InsertOrIgnore(rows, batch), g).Some?
  {
    if BallotId(rows, g).Some? {
      InsertOrIgnoreKeepsIds(rows, batch, g);
    } else {
      var v := BallotId(batch, g).value;
      assert GuidIs(g)(batch[v - 1]);
      InsertOrIgnoreStores(rows, batch);
      assert batch[v - 1].guid == g;
    }
  }

  /** A committed flush stores a guid that was stored or buffered. */
  lemma StoredAfterFlushOne(p: Parser, g: string)
    requires WellFormedBatch(p.batch)
    requires BallotId(p.store.ballots, g).Some? || BallotId(p.batch.ballots, g).Some?
    ensures BallotId(FlushStore(p.store, p.batch).ballots, g).Some?
  {
    InsertOrIgnoreKeepsStored(p.store.ballots, p.batch.ballots, g);
  }

  /** A committed flush stores every buffered guid. */
  lemma StoredAfterFlush(p: Parser, ds: seq<ParsedBallot>)
    requires WellFormedBatch(p.batch) && StoredOrBuffered(p, ds)
    ensures StoredOrBuffered(Flush(p, false).0, ds)
    ensures AllStored(Flush(p, false).0.store.ballots, ds)
  {
    forall k | 0 <= k < |ds| ensures BallotId(FlushStore(p.store, p.batch).ballots, ds[k].guid).Some? {
      StoredAfterFlushOne(p, ds[k].guid);
    }
  }

  /** A flush of a buffer whose guids are all stored changes nothing in the store. */
  lemma FlushStoredBuffer(p: Parser, fault: bool)
    requires WellFormedBatch(p.batch) && BufferStored(p)
    ensures Flush(p, fault).0.store == p.store
  {
    FlushNothingNew(p.store, p.batch);
  }

  /** After buffering a ballot whose guid is stored, the buffer's guids are all stored. */
  lemma BufferStoredAfterAdd(p: Parser, d: ParsedBallot)
    requires BufferStored(p) && BallotId(p.store.ballots, d.guid).Some?
    ensures BufferStored(p.(batch := AddToBatch(p.batch, d)))
  {
  }

  /** The store only grows, and keeps its references and the uniqueness of its guids. */
  predicate Kept(p0: Parser, p: Parser) {
    && |p.store.ballots| >= |p0.store.ballots| && p.store.ballots[..|p0.store.ballots|] == p0.store.ballots
    && (Referential(p0.store) ==> Referential(p.store))
    && (UniqueGuids(p0.store.ballots) ==> UniqueGuids(p.store.ballots))
    && p.batchSize == p0.batchSize
  }

  lemma KeptTrans(p0: Parser, p1: Parser, p2: Parser)
    requires Kept(p0, p1) && Kept(p1, p2)
    ensures Kept(p0, p2)
  {
    assert p2.store.ballots[..|p0.store.ballots|] == p2.store.ballots[..|p1.store.ballots|][..|p0.store.ballots|];
  }

  /** The ballots one file contributes. */
  function FileBallots(f: Option<ParsedBallot>): seq<ParsedBallot> {
    if f.Some? then [f.value] else []
  }

  /**
   * One file of `process_directory`: a file that failed to parse is
   * counted as an error; a decoded ballot is buffered, and the buffer is
   * flushed once it holds `batch_size` ballots. The result is the new
   * state, whether the flush raised, and whether a flush was attempted.
   */
  function Feed(p: Parser, f: Option<ParsedBallot>, fault: bool): (r: (Parser, bool, bool))
    requires BetweenFiles(p)
    ensures WellFormedBatch(r.0.batch)
    ensures r.1 ==> r.2 && fault
    ensures !r.1 ==> BetweenFiles(r.0)
    ensures r.0.processed == p.processed + |FileBallots(f)|
    ensures r.0.errors == p.errors + (if f.None? then 1 else 0)
    ensures r.2 ==> r.0.batch == NoRows
    ensures !r.2 ==> r.0.store == p.store
  {
    match f
    case None => (p.(errors := p.errors + 1), false, false)
    case Some(d) =>
      var q := p.(batch := AddToBatch(p.batch, d), processed := p.processed + 1);
      if |q.batch.ballots| >= q.batchSize then
        var (next, up) := Flush(q, fault);
        (next, up, true)
      else (q, false, false)
  }

  lemma FeedKeeps(p: Parser, f: Option<ParsedBallot>, fault: bool)
    requires BetweenFiles(p)
    ensures Kept(p, Feed(p, f, fault).0)
  {
    var r := Feed(p, f, fault).0;
    if f.Some? {
      var q := p.(batch := AddToBatch(p.batch, f.value), processed := p.processed + 1);
      if |q.batch.ballots| >= q.batchSize {
        assert r == Flush(q, fault).0;
        KeptFlushed(p, q, fault);
      } else {
        KeptSameStore(p, r);
      }
    } else {
      KeptSameStore(p, r);
    }
  }

  lemma KeptSameStore(p0: Parser, p: Parser)
    requires p.store == p0.store && p.batchSize == p0.batchSize
    ensures Kept(p0, p)
  {
    assert p.store.ballots[..|p0.store.ballots|] == p0.store.ballots;
  }

  lemma KeptFlushed(p0: Parser, q: Parser, fault: bool)
    requires WellFormedBatch(q.batch) && q.store == p0.store && q.batchSize == p0.batchSize
    ensures Kept(p0, Flush(q, fault).0)
  {
    FlushKeeps(q, fault);
  }

  /** Without a failure, every guid stored or buffered before the file, and the file's own, is afterwards. */
  lemma FeedStored(p: Parser, f: Option<ParsedBallot>, fault: bool, seen: seq<ParsedBallot>)
    requires BetweenFiles(p) && StoredOrBuffered(p, seen)
    ensures !Feed(p, f, fault).1 ==> StoredOrBuffered(Feed(p, f, fault).0, seen + FileBallots(f))
  {
    if f.Some? {
      var d := f.value;
      StoredAfterAdd(p, d, seen);
      var q := p.(batch := AddToBatch(p.batch, d), processed := p.processed + 1);
      if |q.batch.ballots| >= q.batchSize && !fault {
        StoredAfterFlush(q, seen + [d]);
      }
    } else {
      assert seen + FileBallots(f) == seen;
    }
  }

  /** A file whose ballot is already stored leaves the store as it is. */
  lemma FeedRerun(p: Parser, f: Option<ParsedBallot>, fault: bool)
    requires BetweenFiles(p) && BufferStored(p)
    requires f.Some? ==> BallotId(p.store.ballots, f.value.guid).Some?
    ensures Feed(p, f, fault).0.store == p.store && BufferStored(Feed(p, f, fault).0)
  {
    if f.Some? {
      BufferStoredAfterAdd(p, f.value);
      var q := p.(batch := AddToBatch(p.batch, f.value), processed := p.processed + 1);
      FlushStoredBuffer(q, fault);
    }
  }

  /**
   * `process_directory`: decode each file, buffer every ballot that
   * decodes and count every file that does not, flush whenever the buffer
   * reaches `batch_size`, and flush what is left at the end. `faults` lists
   * the flushes (numbered from 0 among those that reach the database) whose
   * transaction fails; the first failure ends the run with the error raised.
   */
  method ProcessDirectory(p0: Parser, files: seq<Option<ParsedBallot>>, faults: set<nat>) returns (p: Parser, raised: bool)
    requires BetweenFiles(p0)
    ensures !raised ==> p.batch == NoRows
    ensures !raised ==> p.processed == p0.processed + |Decoded(files)| && p.errors == p0.errors + Failures(files)
    ensures !raised ==> AllStored(p.store.ballots, Decoded(files))
    ensures |p.store.ballots| >= |p0.store.ballots| && p.store.ballots[..|p0.store.ballots|] == p0.store.ballots
    ensures Referential(p0.store) ==> Referential(p.store)
    ensures UniqueGuids(p0.store.ballots) ==> UniqueGuids(p.store.ballots)
    ensures faults == {} ==> !raised
    ensures BufferStored(p0) && AllStored(p0.store.ballots, Decoded(files)) ==> p.store == p0.store
  {
    p := p0;
    raised := false;
    var attempts: nat := 0;
    var i := 0;
    ghost var rerun := BufferStored(p0) && AllStored(p0.store.ballots, Decoded(files));
    while i < |files| && !raised
      invariant 0 <= i <= |files|
      invariant BetweenFiles(p) || raised
      invariant WellFormedBatch(p.batch)
      invariant Kept(p0, p)
      invariant !raised ==> Progress(p0, p, files, i)
      invariant faults == {} ==> !raised
      invariant rerun ==> p.store == p0.store && BufferStored(p)
      decreases |files| - i
    {
      var fault := attempts in faults;
      FeedProgress(p0, p, files, i, fault);
      if rerun {
        FeedRerunStep(p0, p, files, i, fault);
      }
      var step := Feed(p, files[i], fault);
      p, raised := step.0, step.1;
      if step.2 {
        attempts := attempts + 1;
      }
      i := i + 1;
    }
    if !raised {
      ProgressDone(p0, p, files);
      var fault := attempts in faults;
      FinalFlush(p0, p, Decoded(files), fault);
      var last := Flush(p, fault);
      p, raised := last.0, last.1;
    }
  }

  /** What the run has done after the first `i` files: counted them and stored or buffered their ballots. */
  predicate Progress(p0: Parser, p: Parser, files: seq<Option<ParsedBallot>>, i: nat)
    requires i <= |files|
  {
    && p.processed == p0.processed + |Decoded(files[..i])|
    && p.errors == p0.errors + Failures(files[..i])
    && StoredOrBuffered(p, Decoded(files[..i]))
  }

  /** One more file keeps the run's progress, unless its flush raised. */
  lemma FeedProgress(p0: Parser, p: Parser, files: seq<Option<ParsedBallot>>, i: nat, fault: bool)
    requires i < |files| && BetweenFiles(p) && Kept(p0, p) && Progress(p0, p, files, i)
    ensures Kept(p0, Feed(p, files[i], fault).0)
    ensures !Feed(p, files[i], fault).1 ==> Progress(p0, Feed(p, files[i], fault).0, files, i + 1)
  {
    assert files[..i + 1][..i] == files[..i];
    assert Decoded(files[..i + 1]) == Decoded(files[..i]) + FileBallots(files[i]);
    FeedStored(p, files[i], fault, Decoded(files[..i]));
    FeedKeeps(p, files[i], fault);
    KeptTrans(p0, p, Feed(p, files[i], fault).0);
  }

  /** On a re-run over stored ballots one more file leaves the store as it is. */
  lemma FeedRerunStep(p0: Parser, p: Parser, files: seq<Option<ParsedBallot>>, i: nat, fault: bool)
    requires i < |files| && BetweenFiles(p) && BufferStored(p) && p.store == p0.store
    requires AllStored(p0.store.ballots, Decoded(files))
    ensures Feed(p, files[i], fault).0.store == p0.store && BufferStored(Feed(p, files[i], fault).0)
  {
    if files[i].Some? {
      DecodedPrefix(files, i);
    }
    FeedRerun(p, files[i], fault);
  }

  /** Progress over all the files. */
  lemma ProgressDone(p0: Parser, p: Parser, files: seq<Option<ParsedBallot>>)
    requires Progress(p0, p, files, |files|)
    ensures p.processed == p0.processed + |Decoded(files)| && p.errors == p0.errors + Failures(files)
    ensures StoredOrBuffered(p, Decoded(files))
  {
    assert files[..|files|] == files;
  }

  /** The flush at the end of the run, stated for `ProcessDirectory`. */
  lemma FinalFlush(p0: Parser, p: Parser, ds: seq<ParsedBallot>, fault: bool)
    requires WellFormedBatch(p.batch) && Kept(p0, p) && StoredOrBuffered(p, ds)
    ensures Kept(p0, Flush(p, fault).0)
    ensures !fault ==> !Flush(p, fault).1 && AllStored(Flush(p, fault).0.store.ballots, ds)
    ensures BufferStored(p) ==> Flush(p, fault).0.store == p.store
  {
    if !fault { StoredAfterFlush(p, ds); }
    if BufferStored(p) { FlushStoredBuffer(p, fault); }
    FlushKeeps(p, fault);
    KeptTrans(p0, p, Flush(p, fault).0);
  }

  /** Every ballot decoded from a prefix of the files is decoded from all of them. */
  lemma {:induction false} DecodedPrefix(files: seq<Option<ParsedBallot>>, i: nat)
    requires i < |files| && files[i].Some?
    ensures files[i].value in Decoded(files)
    decreases |files|
  {
    var n := |files| - 1;
    if i < n {
      DecodedPrefix(files[..n], i);
    }
  }

  /** A flush keeps the stored rows, the references and the uniqueness of guids. */
  lemma FlushKeeps(p: Parser, fault: bool)
    requires WellFormedBatch(p.batch)
    ensures var s := Flush(p, fault).0.store;
      && |s.ballots| >= |p.store.ballots| && s.ballots[..|p.store.ballots|] == p.store.ballots
      && (Referential(p.store) ==> Referential(s))
      && (UniqueGuids(p.store.ballots) ==> UniqueGuids(s.ballots))
  {
    if Referential(p.store) { FlushReferential(p.store, p.batch); }
    FlushBallots(p.store, p.batch, "");
  }
}
