/**
 * String helpers that mirror the Python and JavaScript string methods the
 * pipeline uses: case mapping, `str.replace`, `str.split(" ")` / `" ".join`,
 * substring search and the code-point order `sorted` uses on strings.
 * Case mapping covers the ASCII letters only.
 */
module Text {

  // ---------------------------------------------------------------------------
  // Case mapping (ASCII)
  // ---------------------------------------------------------------------------

  predicate IsUpperAscii(c: char) { 'A' <= c <= 'Z' }

  predicate IsLowerAscii(c: char) { 'a' <= c <= 'z' }

  function LowerChar(c: char): char {
    if IsUpperAscii(c) then (c as int + 32) as char else c
  }

  function UpperChar(c: char): char {
    if IsLowerAscii(c) then (c as int - 32) as char else c
  }

  /** `str.lower()` on ASCII text. */
  function Lower(s: string): (r: string)
    ensures |r| == |s|
    ensures forall i :: 0 <= i < |s| ==> r[i] == LowerChar(s[i])
  {
    seq(|s|, i requires 0 <= i < |s| => LowerChar(s[i]))
  }

  /** `str.upper()` on ASCII text. */
  function Upper(s: string): (r: string)
    ensures |r| == |s|
    ensures forall i :: 0 <= i < |s| ==> r[i] == UpperChar(s[i])
  {
    seq(|s|, i requires 0 <= i < |s| => UpperChar(s[i]))
  }

  /** Lower-casing leaves no upper-case ASCII letter and keeps every other character in place. */
  lemma LowerHasNoUpper(s: string)
    ensures forall i :: 0 <= i < |s| ==> !IsUpperAscii(Lower(s)[i])
    ensures forall i :: 0 <= i < |s| ==> (Lower(s)[i] == s[i] <==> !IsUpperAscii(s[i]))
  {
  }

  /** Upper-casing leaves no lower-case ASCII letter and keeps every other character in place. */
  lemma UpperHasNoLower(s: string)
    ensures forall i :: 0 <= i < |s| ==> !IsLowerAscii(Upper(s)[i])
    ensures forall i :: 0 <= i < |s| ==> (Upper(s)[i] == s[i] <==> !IsLowerAscii(s[i]))
  {
  }

  /** Case mapping round-trips on single characters and never creates or removes a space. */
  lemma CaseChars(c: char)
    ensures UpperChar(LowerChar(c)) == UpperChar(c) && LowerChar(UpperChar(c)) == LowerChar(c)
    ensures LowerChar(LowerChar(c)) == LowerChar(c) && UpperChar(UpperChar(c)) == UpperChar(c)
    ensures (LowerChar(c) == ' ' <==> c == ' ') && (UpperChar(c) == ' ' <==> c == ' ')
    ensures !IsLowerAscii(UpperChar(c)) && !IsUpperAscii(LowerChar(c))
  {
  }

  /** `str.capitalize()` on ASCII text: the first character upper-cased, the rest lower-cased. */
  function Capitalize(w: string): (r: string)
    ensures |r| == |w|
    ensures |w| > 0 ==> r[0] == UpperChar(w[0])
    ensures forall i :: 1 <= i < |w| ==> r[i] == LowerChar(w[i])
  {
    if w == [] then [] else [UpperChar(w[0])] + Lower(w[1..])
  }

  /**
   * A capitalized word keeps its spaces and its letters up to case, starts
   * with no lower-case letter and has no upper-case letter after that; and
   * capitalizing ignores the case of its input, so it is idempotent.
   */
  lemma CapitalizeFacts(w: string)
    ensures ' ' in Capitalize(w) <==> ' ' in w
    ensures Lower(Capitalize(w)) == Lower(w)
    ensures |w| > 0 ==> !IsLowerAscii(Capitalize(w)[0])
    ensures forall i :: 1 <= i < |w| ==> !IsUpperAscii(Capitalize(w)[i])
    ensures Capitalize(Lower(w)) == Capitalize(w)
    ensures Capitalize(Capitalize(w)) == Capitalize(w)
  {
    var r := Capitalize(w);
    forall i | 0 <= i < |w| ensures (r[i] == ' ' <==> w[i] == ' ') && LowerChar(r[i]) == LowerChar(w[i]) {
      CaseChars(w[i]);
    }
    forall i | 0 <= i < |w| ensures (i == 0 ==> !IsLowerAscii(r[i])) && (i > 0 ==> !IsUpperAscii(r[i])) {
      CaseChars(w[i]);
    }
    if w != [] {
      CaseChars(w[0]);
      forall i | 1 <= i < |w| ensures LowerChar(LowerChar(w[i])) == LowerChar(w[i]) {
        CaseChars(w[i]);
      }
    }
    assert ' ' in r ==> ' ' in w by {
      if ' ' in r {
        var i :| 0 <= i < |r| && r[i] == ' ';
        assert w[i] == ' ';
      }
    }
    assert ' ' in w ==> ' ' in r by {
      if ' ' in w {
        var i :| 0 <= i < |w| && w[i] == ' ';
        assert r[i] == ' ';
      }
    }
  }

  /** `[w.lower() for w in words]`. */
  function LowerWords(words: seq<string>): (r: seq<string>)
    ensures |r| == |words|
    ensures forall i :: 0 <= i < |words| ==> r[i] == Lower(words[i])
  {
    seq(|words|, i requires 0 <= i < |words| => Lower(words[i]))
  }

  /** Lower-casing before splitting at a space is lower-casing each piece. */
  lemma {:induction false} LowerSplit(s: string)
    ensures Split(Lower(s), ' ') == LowerWords(Split(s, ' '))
    decreases |s|
  {
    var t := Lower(s);
    assert ' ' in t <==> ' ' in s by {
      forall i | 0 <= i < |s| ensures t[i] == ' ' <==> s[i] == ' ' {
        CaseChars(s[i]);
      }
      if ' ' in t {
        var i :| 0 <= i < |t| && t[i] == ' ';
        assert s[i] == ' ';
      }
      if ' ' in s {
        var i :| 0 <= i < |s| && s[i] == ' ';
        assert t[i] == ' ';
      }
    }
    if ' ' in s {
      var k := IndexOf(s, ' ');
      assert t[..k] == Lower(s[..k]);
      assert ' ' !in t[..k] by {
        forall i | 0 <= i < k ensures t[i] != ' ' {
          assert s[..k][i] == s[i];
          CaseChars(s[i]);
        }
      }
      CaseChars(s[k]);
      IndexOfIs(t, ' ', k);
      assert t[k + 1..] == Lower(s[k + 1..]);
      LowerSplit(s[k + 1..]);
    }
  }

  // ---------------------------------------------------------------------------
  // Substring search and `str.replace`
  // ---------------------------------------------------------------------------

  /** `pat` occurs in `s` at index `i`. */
  predicate OccursAt(s: string, pat: string, i: int) {
    0 <= i && i + |pat| <= |s| && s[i..i + |pat|] == pat
  }

  /** JavaScript's `s.includes(pat)` and Python's `pat in s`. */
  predicate Contains(s: string, pat: string) {
    exists i | 0 <= i <= |s| :: OccursAt(s, pat, i)
  }

  /** A string always contains its own suffix. */
  lemma ContainsSuffix(a: string, b: string)
    ensures Contains(a + b, b)
  {
    assert (a + b)[|a|..|a| + |b|] == b;
    assert OccursAt(a + b, b, |a|);
  }

  /** A pattern whose first character is absent from `s` does not occur in `s`. */
  lemma AbsentHeadNotContained(s: string, pat: string)
    requires pat != [] && pat[0] !in s
    ensures !Contains(s, pat)
  {
    forall i | 0 <= i <= |s| ensures !OccursAt(s, pat, i) {
      if i + |pat| <= |s| {
        assert s[i..i + |pat|][0] == s[i];
        assert s[i] in s;
      }
    }
  }

  /**
   * Python's `s.replace(pat, rep)` for a non-empty pattern: occurrences are
   * replaced left to right, never overlapping.
   */
  function ReplaceAll(s: string, pat: string, rep: string): (r: string)
    requires pat != []
    decreases |s|
  {
    if |s| < |pat| then s
    else if s[..|pat|] == pat then rep + ReplaceAll(s[|pat|..], pat, rep)
    else [s[0]] + ReplaceAll(s[1..], pat, rep)
  }

  /** Replacing a pattern that does not occur changes nothing. */
  lemma {:induction false} ReplaceAllAbsent(s: string, pat: string, rep: string)
    requires pat != [] && !Contains(s, pat)
    ensures ReplaceAll(s, pat, rep) == s
    decreases |s|
  {
    if |s| >= |pat| {
      assert !OccursAt(s, pat, 0);
      assert !Contains(s[1..], pat) by {
        forall i | 0 <= i <= |s[1..]| ensures !OccursAt(s[1..], pat, i) {
          assert !OccursAt(s, pat, i + 1);
          if i + |pat| <= |s[1..]| {
            assert s[1..][i..i + |pat|] == s[i + 1..i + 1 + |pat|];
          }
        }
      }
      ReplaceAllAbsent(s[1..], pat, rep);
    }
  }

  /** Every character of a replacement result comes from the input or from the replacement text. */
  lemma {:induction false} ReplaceAllChars(s: string, pat: string, rep: string)
    requires pat != []
    ensures forall c :: c in ReplaceAll(s, pat, rep) ==> c in s || c in rep
    decreases |s|
  {
    if |s| < |pat| {
    } else if s[..|pat|] == pat {
      ReplaceAllChars(s[|pat|..], pat, rep);
      forall c | c in s[|pat|..] ensures c in s {
        var k :| 0 <= k < |s[|pat|..]| && s[|pat|..][k] == c;
        assert s[|pat| + k] == c;
      }
    } else {
      ReplaceAllChars(s[1..], pat, rep);
      forall c | c in s[1..] ensures c in s {
        var k :| 0 <= k < |s[1..]| && s[1..][k] == c;
        assert s[1 + k] == c;
      }
    }
  }

  /** Replacing a pattern by itself changes nothing. */
  lemma {:induction false} ReplaceAllSame(s: string, pat: string)
    requires pat != []
    ensures ReplaceAll(s, pat, pat) == s
    decreases |s|
  {
    if |s| < |pat| {
    } else if s[..|pat|] == pat {
      ReplaceAllSame(s[|pat|..], pat);
      assert s == s[..|pat|] + s[|pat|..];
    } else {
      ReplaceAllSame(s[1..], pat);
      assert s == [s[0]] + s[1..];
    }
  }

  /** Text before the first possible start of the pattern is copied unchanged. */
  lemma {:induction false} ReplaceAllSkip(a: string, b: string, pat: string, rep: string)
    requires pat != [] && pat[0] !in a
    ensures ReplaceAll(a + b, pat, rep) == a + ReplaceAll(b, pat, rep)
    decreases |a|
  {
    if a != [] {
      var s := a + b;
      if |s| < |pat| {
        ReplaceAllShort(s, pat, rep);
        ReplaceAllShort(b, pat, rep);
      } else {
        assert a[0] in a && s[0] == a[0];
        ReplaceAllMiss(s, pat, rep, 0);
        assert s[1..] == a[1..] + b;
        ReplaceAllSkip(a[1..], b, pat, rep);
        var tail := ReplaceAll(b, pat, rep);
        assert [a[0]] + (a[1..] + tail) == a + tail;
      }
    } else {
      assert a + b == b;
    }
  }

  /** Text shorter than the pattern is left as it is. */
  lemma ReplaceAllShort(s: string, pat: string, rep: string)
    requires pat != [] && |s| < |pat|
    ensures ReplaceAll(s, pat, rep) == s
  {
  }

  /** A mismatch at the front moves the scan on by one character. */
  lemma ReplaceAllMiss(s: string, pat: string, rep: string, k: nat)
    requires pat != [] && k < |pat| <= |s| && s[k] != pat[k]
    ensures ReplaceAll(s, pat, rep) == [s[0]] + ReplaceAll(s[1..], pat, rep)
  {
    assert s[..|pat|][k] == s[k];
  }

  /** A pattern whose first character occurs once, at a place where the pattern does not match, is never replaced. */
  lemma ReplaceAllOneMiss(a: string, t: string, pat: string, rep: string, k: nat)
    requires pat != [] && pat[0] !in a && pat[0] !in t
    requires 0 < k < |pat| <= 1 + |t| && t[k - 1] != pat[k]
    ensures ReplaceAll(a + [pat[0]] + t, pat, rep) == a + [pat[0]] + t
  {
    var m := [pat[0]] + t;
    assert a + [pat[0]] + t == a + m;
    ReplaceAllSkip(a, m, pat, rep);
    assert m[k] == t[k - 1];
    ReplaceAllMiss(m, pat, rep, k);
    assert m[1..] == t;
    ReplaceAllNoHead(t, pat, rep);
  }

  /** A pattern whose first character is absent is never replaced. */
  lemma ReplaceAllNoHead(s: string, pat: string, rep: string)
    requires pat != [] && pat[0] !in s
    ensures ReplaceAll(s, pat, rep) == s
  {
    AbsentHeadNotContained(s, pat);
    ReplaceAllAbsent(s, pat, rep);
  }

  /** An occurrence at the front is replaced and the scan resumes after it. */
  lemma ReplaceAllHead(pat: string, b: string, rep: string)
    requires pat != []
    ensures ReplaceAll(pat + b, pat, rep) == rep + ReplaceAll(b, pat, rep)
  {
    assert (pat + b)[..|pat|] == pat;
    assert (pat + b)[|pat|..] == b;
  }

  /** `s.replace(c, rep)` for one character `c` that `rep` does not contain removes every `c`. */
  lemma {:induction false} ReplaceCharRemoves(s: string, c: char, rep: string)
    requires c !in rep
    ensures c !in ReplaceAll(s, [c], rep)
    decreases |s|
  {
    if |s| < 1 {
    } else if s[..1] == [c] {
      ReplaceCharRemoves(s[1..], c, rep);
    } else {
      assert s[0] != c by { assert s[..1] == [s[0]]; }
      ReplaceCharRemoves(s[1..], c, rep);
    }
  }

  // ---------------------------------------------------------------------------
  // `s.split(c)` with an explicit separator and `c.join(parts)`
  // ---------------------------------------------------------------------------

  /** Index of the first `c` in `s`. */
  function IndexOf(s: string, c: char): (k: nat)
    requires c in s
    ensures k < |s| && s[k] == c && c !in s[..k]
  {
    if s[0] == c then 0 else 1 + IndexOf(s[1..], c)
  }

  /** Number of occurrences of `c` in `s`. */
  function CountChar(s: string, c: char): nat {
    if s == [] then 0 else (if s[0] == c then 1 else 0) + CountChar(s[1..], c)
  }

  /** Python's `s.split(c)`: every occurrence of `c` separates two pieces, empty pieces included. */
  function Split(s: string, c: char): (r: seq<string>)
    ensures |r| >= 1
    ensures forall i :: 0 <= i < |r| ==> c !in r[i]
    decreases |s|
  {
    if c !in s then [s]
    else
      var k := IndexOf(s, c);
      [s[..k]] + Split(s[k + 1..], c)
  }

  /** Python's `c.join(parts)` for a non-empty list of parts. */
  function Join(parts: seq<string>, c: char): string
    requires |parts| >= 1
  {
    if |parts| == 1 then parts[0] else parts[0] + [c] + Join(parts[1..], c)
  }

  /** Joining the pieces of a split gives back the original string. */
  lemma {:induction false} JoinSplit(s: string, c: char)
    ensures Join(Split(s, c), c) == s
    decreases |s|
  {
    if c in s {
      var k := IndexOf(s, c);
      var head, tail := s[..k], s[k + 1..];
      JoinSplit(tail, c);
      SplitStep(s, c);
      JoinCons(head, Split(tail, c), c);
      assert s == head + [c] + tail;
    }
  }

  /** A string holding `c` splits into the piece before its first `c` and the split of the rest. */
  lemma SplitStep(s: string, c: char)
    requires c in s
    ensures Split(s, c) == [s[..IndexOf(s, c)]] + Split(s[IndexOf(s, c) + 1..], c)
  {
  }

  /** Joining a piece in front of a list puts the separator between them. */
  lemma JoinCons(head: string, rest: seq<string>, c: char)
    requires |rest| >= 1
    ensures Join([head] + rest, c) == head + [c] + Join(rest, c)
  {
    assert ([head] + rest)[1..] == rest;
  }

  /** The first `c` of `s` is at `j` when `s[j]` is `c` and no earlier character is. */
  lemma {:induction false} IndexOfIs(s: string, c: char, j: nat)
    requires j < |s| && s[j] == c && c !in s[..j]
    ensures IndexOf(s, c) == j
    decreases j
  {
    if j > 0 {
      assert s[0] in s[..j];
      assert s[1..][..j - 1] == s[1..j];
      assert forall x :: x in s[1..j] ==> x in s[..j];
      IndexOfIs(s[1..], c, j - 1);
    }
  }

  /** Splitting a join of separator-free pieces gives back the pieces. */
  lemma {:induction false} SplitJoin(parts: seq<string>, c: char)
    requires |parts| >= 1
    requires forall i :: 0 <= i < |parts| ==> c !in parts[i]
    ensures Split(Join(parts, c), c) == parts
    decreases |parts|
  {
    if |parts| > 1 {
      var s := Join(parts, c);
      var rest := Join(parts[1..], c);
      assert s == parts[0] + [c] + rest;
      assert s[..|parts[0]|] == parts[0];
      IndexOfIs(s, c, |parts[0]|);
      assert s[|parts[0]| + 1..] == rest;
      SplitJoin(parts[1..], c);
    }
  }

  /** A split has one more piece than the string has separators. */
  lemma {:induction false} SplitCount(s: string, c: char)
    ensures |Split(s, c)| == CountChar(s, c) + 1
    decreases |s|
  {
    if c in s {
      var k := IndexOf(s, c);
      SplitCount(s[k + 1..], c);
      CountCharAppend(s[..k], s[k..], c);
      CountCharAppend(s[k..k + 1], s[k + 1..], c);
      assert s[k..] == s[k..k + 1] + s[k + 1..];
      assert s == s[..k] + s[k..];
      CountCharAbsent(s[..k], c);
    } else {
      CountCharAbsent(s, c);
    }
  }

  lemma {:induction false} CountCharAppend(a: string, b: string, c: char)
    ensures CountChar(a + b, c) == CountChar(a, c) + CountChar(b, c)
    decreases |a|
  {
    if a != [] {
      assert (a + b)[0] == a[0];
      assert (a + b)[1..] == a[1..] + b;
      CountCharAppend(a[1..], b, c);
    } else {
      assert a + b == b;
    }
  }

  lemma {:induction false} CountCharAbsent(s: string, c: char)
    requires c !in s
    ensures CountChar(s, c) == 0
    decreases |s|
  {
    if s != [] {
      assert s == [s[0]] + s[1..];
      CountCharAbsent(s[1..], c);
    }
  }

  /** Joining one more piece appends a separator and that piece. */
  lemma {:induction false} JoinSnoc(parts: seq<string>, b: string, c: char)
    requires |parts| >= 1
    ensures Join(parts + [b], c) == Join(parts, c) + [c] + b
    decreases |parts|
  {
    var q := parts + [b];
    if |parts| == 1 {
      assert q[1..] == [b];
    } else {
      assert q[1..] == parts[1..] + [b];
      JoinSnoc(parts[1..], b, c);
    }
  }

  /** The last piece of a split of `s + [c] + b` is `b` when `b` has no `c`. */
  lemma SplitLast(s: string, c: char, b: string)
    requires c !in b
    ensures var parts := Split(s + [c] + b, c); parts[|parts| - 1] == b
  {
    var p := Split(s, c);
    var q := p + [b];
    JoinSplit(s, c);
    JoinSnoc(p, b, c);
    assert forall i :: 0 <= i < |q| ==> c !in q[i] by {
      forall i | 0 <= i < |q| ensures c !in q[i] {
        if i < |p| {
          assert q[i] == p[i];
        }
      }
    }
    SplitJoin(q, c);
  }

  /** Python's `s.rstrip(c)`: every trailing `c` removed. */
  function RStrip(s: string, c: char): (r: string)
    ensures |r| <= |s| && r == s[..|r|]
    ensures r == [] || r[|r| - 1] != c
    ensures forall i :: |r| <= i < |s| ==> s[i] == c
    decreases |s|
  {
    if s != [] && s[|s| - 1] == c then RStrip(s[..|s| - 1], c) else s
  }

  // ---------------------------------------------------------------------------
  // Code-point order on strings, as Python's `<` and `sorted` use it
  // ---------------------------------------------------------------------------

  /** Lexicographic order by code point; a proper prefix sorts first. */
  predicate StrLt(a: string, b: string)
    decreases |a|
  {
    if a == [] then b != []
    else b != [] && (a[0] < b[0] || (a[0] == b[0] && StrLt(a[1..], b[1..])))
  }

  predicate StrLe(a: string, b: string) {
    a == b || StrLt(a, b)
  }

  lemma {:induction false} StrLtIrreflexive(a: string)
    ensures !StrLt(a, a)
    decreases |a|
  {
    if a != [] { StrLtIrreflexive(a[1..]); }
  }

  lemma {:induction false} StrLtTransitive(a: string, b: string, c: string)
    requires StrLt(a, b) && StrLt(b, c)
    ensures StrLt(a, c)
    decreases |a|
  {
    if a != [] && a[0] == b[0] && b[0] == c[0] {
      StrLtTransitive(a[1..], b[1..], c[1..]);
    }
  }

  lemma {:induction false} StrLtTotal(a: string, b: string)
    ensures a == b || StrLt(a, b) || StrLt(b, a)
    decreases |a|
  {
    if a != [] && b != [] && a[0] == b[0] {
      StrLtTotal(a[1..], b[1..]);
      if a[1..] == b[1..] {
        assert a == [a[0]] + a[1..] && b == [b[0]] + b[1..];
      }
    }
  }

  lemma StrLtAsymmetric(a: string, b: string)
    requires StrLt(a, b)
    ensures !StrLt(b, a)
  {
    if StrLt(b, a) {
      StrLtTransitive(a, b, a);
      StrLtIrreflexive(a);
    }
  }

  lemma StrLeTransitive(a: string, b: string, c: string)
    requires StrLe(a, b) && StrLe(b, c)
    ensures StrLe(a, c)
  {
    if a != b && b != c { StrLtTransitive(a, b, c); }
  }

  /** Two strings ordered both ways are equal. */
  lemma StrLeAntisymmetric(a: string, b: string)
    requires StrLe(a, b) && StrLe(b, a)
    ensures a == b
  {
    if a != b { StrLtAsymmetric(a, b); }
  }

  // ---------------------------------------------------------------------------
  // Decimal numerals: `str(n)` and `int(s)`
  // ---------------------------------------------------------------------------

  predicate IsDigit(c: char) { '0' <= c <= '9' }

  function DigitChar(d: nat): (c: char)
    requires d < 10
    ensures IsDigit(c)
  {
    ('0' as int + d) as char
  }

  function DigitValue(c: char): nat
    requires IsDigit(c)
  {
    (c as int - '0' as int) as nat
  }

  /** `str(n)`: the decimal numeral of `n`, without leading zeros. */
  function NatToString(n: nat): (r: string)
    ensures r != []
    ensures forall i :: 0 <= i < |r| ==> IsDigit(r[i])
  {
    if n < 10 then [DigitChar(n)] else NatToString(n / 10) + [DigitChar(n % 10)]
  }

  /** `int(s)` for a string of decimal digits. */
  function ParseDigits(s: string): nat
    requires forall i :: 0 <= i < |s| ==> IsDigit(s[i])
  {
    if s == [] then 0 else 10 * ParseDigits(s[..|s| - 1]) + DigitValue(s[|s| - 1])
  }

  /** Reading back a numeral gives the number. */
  lemma {:induction false} ParseNatToString(n: nat)
    ensures ParseDigits(NatToString(n)) == n
    decreases n
  {
    if n >= 10 {
      ParseNatToString(n / 10);
      var r := NatToString(n);
      assert r[..|r| - 1] == NatToString(n / 10);
    }
  }

  /** Distinct numbers have distinct numerals. */
  lemma NatToStringInjective(m: nat, n: nat)
    requires NatToString(m) == NatToString(n)
    ensures m == n
  {
    ParseNatToString(m);
    ParseNatToString(n);
  }

  // ---------------------------------------------------------------------------
  // `sorted(...)` on sets and lists of strings
  // ---------------------------------------------------------------------------

  /** Strictly increasing: the sorted listing of a set. */
  predicate StrictlySorted(xs: seq<string>) {
    forall i, j :: 0 <= i < j < |xs| ==> StrLt(xs[i], xs[j])
  }

  /** Non-decreasing: the sorted listing of a list that may repeat. */
  predicate Sorted(xs: seq<string>) {
    forall i, j :: 0 <= i < j < |xs| ==> StrLe(xs[i], xs[j])
  }

  predicate IsLeast(m: string, s: set<string>) {
    m in s && forall y :: y in s ==> StrLe(m, y)
  }

  lemma HasElement(s: set<string>)
    requires s != {}
    ensures exists x :: x in s
  {
    if forall x :: x !in s { assert false; }
  }

  lemma {:induction false} LeastExists(s: set<string>)
    requires s != {}
    ensures exists m :: IsLeast(m, s)
    decreases |s|
  {
    HasElement(s);
    var x :| x in s;
    if s == {x} {
      assert IsLeast(x, s);
    } else {
      LeastExists(s - {x});
      var m :| IsLeast(m, s - {x});
      StrLtTotal(x, m);
      if StrLt(x, m) {
        forall y | y in s ensures StrLe(x, y) {
          if y != x { StrLeTransitive(x, m, y); }
        }
        assert IsLeast(x, s);
      } else {
        assert IsLeast(m, s);
      }
    }
  }

  lemma LeastUnique(s: set<string>)
    ensures forall a, b :: IsLeast(a, s) && IsLeast(b, s) ==> a == b
  {
    forall a, b | IsLeast(a, s) && IsLeast(b, s) ensures a == b {
      StrLeAntisymmetric(a, b);
    }
  }

  /** The smallest string of a non-empty set. */
  function Least(s: set<string>): (m: string)
    requires s != {}
    ensures IsLeast(m, s)
  {
    LeastExists(s);
    LeastUnique(s);
    var m :| IsLeast(m, s); m
  }

  /** `sorted(s)` for a set of strings: its elements in increasing order, each once. */
  function SortedElements(s: set<string>): (r: seq<string>)
    ensures StrictlySorted(r)
    ensures forall x :: x in r <==> x in s
    ensures |r| == |s|
    decreases |s|
  {
    if s == {} then []
    else
      var m := Least(s);
      var rest := SortedElements(s - {m});
      assert forall y :: y in rest ==> StrLt(m, y);
      [m] + rest
  }

  /** A head no greater than any element of a sorted tail keeps the list sorted. */
  lemma SortedCons(h: string, t: seq<string>)
    requires Sorted(t)
    requires forall j :: 0 <= j < |t| ==> StrLe(h, t[j])
    ensures Sorted([h] + t)
  {
    var r := [h] + t;
    forall i, j | 0 <= i < j < |r| ensures StrLe(r[i], r[j]) {
      assert r[j] == t[j - 1];
      if i > 0 {
        assert r[i] == t[i - 1];
      }
    }
  }

  /** Something no greater than the first element of a sorted list is no greater than any. */
  lemma BelowHead(x: string, xs: seq<string>)
    requires Sorted(xs) && xs != [] && StrLe(x, xs[0])
    ensures forall j :: 0 <= j < |xs| ==> StrLe(x, xs[j])
  {
    forall j | 0 < j < |xs| ensures StrLe(x, xs[j]) {
      StrLeTransitive(x, xs[0], xs[j]);
    }
  }

  /** The first element of a sorted list is no greater than any element of the rest with `x` added, when it is no greater than `x`. */
  lemma HeadBelowInserted(xs: seq<string>, x: string, r: seq<string>)
    requires Sorted(xs) && xs != [] && StrLe(xs[0], x)
    requires multiset(r) == multiset(xs[1..]) + multiset{x}
    ensures forall j :: 0 <= j < |r| ==> StrLe(xs[0], r[j])
  {
    forall j | 0 <= j < |r| ensures StrLe(xs[0], r[j]) {
      var y := r[j];
      assert y in multiset(r);
      if y != x {
        assert y in multiset(xs[1..]);
        var i :| 0 <= i < |xs[1..]| && xs[1..][i] == y;
        assert xs[i + 1] == y;
      }
    }
  }

  /** Insert `x` into a sorted list after every element it does not precede. */
  function Insert(x: string, xs: seq<string>): (r: seq<string>)
    requires Sorted(xs)
    ensures Sorted(r)
    ensures multiset(r) == multiset(xs) + multiset{x}
    ensures |r| == |xs| + 1
  {
    if xs == [] then [x]
    else if StrLe(x, xs[0]) then
      BelowHead(x, xs);
      SortedCons(x, xs);
      [x] + xs
    else
      StrLtTotal(x, xs[0]);
      var r' := Insert(x, xs[1..]);
      HeadBelowInserted(xs, x, r');
      SortedCons(xs[0], r');
      assert xs == [xs[0]] + xs[1..];
      [xs[0]] + r'
  }

  /** `sorted(xs)` for a list of strings: a sorted permutation. */
  function Sort(xs: seq<string>): (r: seq<string>)
    ensures Sorted(r)
    ensures multiset(r) == multiset(xs)
    ensures |r| == |xs|
  {
    if xs == [] then []
    else
      assert xs == [xs[0]] + xs[1..];
      Insert(xs[0], Sort(xs[1..]))
  }
}
