/**
 * The Python string built-ins the file tools rely on, with their Python
 * semantics: `str.replace`, `str.split(sep)`, `sep.join`, `str.strip` and
 * `str.endswith`. A Python `str` is a sequence of code points, modelled as
 * Dafny's `string`.
 */
module PyText {

  // ---------------------------------------------------------------------
  // Matching a literal pattern
  // ---------------------------------------------------------------------

  /** `pat` occurs in `s` starting at index `i`. */
  predicate MatchAt(s: string, pat: string, i: nat) {
    i + |pat| <= |s| && s[i..i + |pat|] == pat
  }

  /** Python's `pat in s`; the empty pattern occurs in every string. */
  predicate Occurs(pat: string, s: string) {
    exists i: nat :: i <= |s| && MatchAt(s, pat, i)
  }

  /** No occurrence of `pat` in `t` starts before index `n`. */
  predicate NoMatchBefore(t: string, pat: string, n: nat) {
    forall j: nat :: j < n ==> !MatchAt(t, pat, j)
  }

  /** Python's `s.endswith(suffix)`. */
  predicate EndsWith(s: string, suffix: string) {
    |suffix| <= |s| && s[|s| - |suffix|..] == suffix
  }

  /** `s` ends with `suffix` exactly when `s` is some text followed by `suffix`. */
  lemma EndsWithIsSuffix(s: string, suffix: string)
    ensures EndsWith(s, suffix) <==> exists p: string :: s == p + suffix
  {
    if EndsWith(s, suffix) {
      assert s == s[..|s| - |suffix|] + suffix;
    }
    if p: string :| s == p + suffix {
      assert s[|s| - |suffix|..] == suffix;
    }
  }

  lemma MatchAtZero(s: string, pat: string)
    ensures MatchAt(s, pat, 0) <==> pat <= s
  {
  }

  /** Dropping the first character shifts every occurrence one place left. */
  lemma MatchAtCons(c: char, t: string, pat: string, j: nat)
    ensures MatchAt([c] + t, pat, j + 1) <==> MatchAt(t, pat, j)
  {
    if j + 1 + |pat| <= |[c] + t| {
      assert ([c] + t)[j + 1..j + 1 + |pat|] == t[j..j + |pat|];
    }
  }

  /** A match in a string that fits inside a prefix is a match in the prefix. */
  lemma MatchInLongPrefix(q: string, s: string, pat: string, j: nat)
    requires q <= s && j + |pat| <= |q| && MatchAt(s, pat, j)
    ensures MatchAt(q, pat, j)
  {
    assert s[j..j + |pat|] == q[j..j + |pat|];
  }

  /** A match inside a prefix is a match in the whole string. */
  lemma MatchInPrefix(q: string, s: string, pat: string, j: nat)
    requires q <= s && MatchAt(q, pat, j)
    ensures MatchAt(s, pat, j)
  {
    assert s[j..j + |pat|] == q[j..j + |pat|];
  }

  // ---------------------------------------------------------------------
  // str.split(sep) and sep.join(pieces)
  // ---------------------------------------------------------------------

  /**
   * Python's `s.split(sep)` for a non-empty separator (Python raises
   * ValueError for an empty one): the pieces between the non-overlapping
   * occurrences of `sep`, found scanning left to right.
   */
  function Split(s: string, sep: string): (pieces: seq<string>)
    requires |sep| > 0
    ensures |pieces| > 0
    decreases |s|
  {
    if |s| == 0 then [[]]
    else if sep <= s then [[]] + Split(s[|sep|..], sep)
    else
      var rest := Split(s[1..], sep);
      [[s[0]] + rest[0]] + rest[1..]
  }

  /** Python's `sep.join(pieces)`. */
  function Join(pieces: seq<string>, sep: string): string
    decreases |pieces|
  {
    if |pieces| == 0 then []
    else if |pieces| == 1 then pieces[0]
    else pieces[0] + sep + Join(pieces[1..], sep)
  }

  /**
   * `pieces` cuts `s` at occurrences of `sep` chosen greedily from the left:
   * joining them back gives `s`, no occurrence of `sep` starts inside a
   * piece that is followed by a separator (so every cut is at the leftmost
   * match still available), and the last piece holds no occurrence at all.
   */
  ghost predicate IsGreedySplit(s: string, sep: string, pieces: seq<string>) {
    && |pieces| > 0
    && Join(pieces, sep) == s
    && (forall k :: 0 <= k < |pieces| - 1 ==> NoMatchBefore(pieces[k] + sep, sep, |pieces[k]|))
    && !Occurs(sep, pieces[|pieces| - 1])
  }

  lemma JoinCons(c: char, p: string, rest: seq<string>, sep: string)
    ensures Join([[c] + p] + rest, sep) == [c] + Join([p] + rest, sep)
  {
    assert ([[c] + p] + rest)[1..] == rest;
    assert ([p] + rest)[1..] == rest;
  }

  lemma JoinTail(pieces: seq<string>, sep: string)
    requires |pieces| > 1
    ensures Join(pieces, sep) == pieces[0] + sep + Join(pieces[1..], sep)
  {
  }

  /** Split cuts greedily from the left. */
  lemma {:induction false} SplitIsGreedy(s: string, sep: string)
    requires |sep| > 0
    ensures IsGreedySplit(s, sep, Split(s, sep))
    decreases |s|
  {
    if |s| == 0 {
      assert Split(s, sep) == [[]];
    } else if sep <= s {
      SplitIsGreedy(s[|sep|..], sep);
      GreedyAfterMatch(s, sep, Split(s[|sep|..], sep));
    } else {
      SplitIsGreedy(s[1..], sep);
      GreedyAfterChar(s, sep, Split(s[1..], sep));
    }
  }

  /** A match at the front starts the greedy split with an empty piece. */
  lemma GreedyAfterMatch(s: string, sep: string, rest: seq<string>)
    requires |sep| > 0 && sep <= s
    requires IsGreedySplit(s[|sep|..], sep, rest)
    ensures IsGreedySplit(s, sep, [[]] + rest)
  {
    var pieces := [[]] + rest;
    assert pieces[1..] == rest;
    assert s == sep + s[|sep|..];
    forall k | 0 <= k < |pieces| - 1
      ensures NoMatchBefore(pieces[k] + sep, sep, |pieces[k]|)
    {
      if k > 0 {
        assert pieces[k] == rest[k - 1];
      }
    }
  }

  /** Without a match at the front, the first character joins the first piece. */
  lemma GreedyAfterChar(s: string, sep: string, rest: seq<string>)
    requires |sep| > 0 && |s| > 0 && !(sep <= s)
    requires IsGreedySplit(s[1..], sep, rest)
    ensures IsGreedySplit(s, sep, [[s[0]] + rest[0]] + rest[1..])
  {
    var tail := s[1..];
    var first := [s[0]] + rest[0];
    var pieces := [first] + rest[1..];
    assert rest == [rest[0]] + rest[1..];
    JoinCons(s[0], rest[0], rest[1..], sep);
    assert s == [s[0]] + tail;
    if |rest| > 1 {
      JoinTail(rest, sep);
      var u := Join(rest[1..], sep);
      assert s == [s[0]] + rest[0] + sep + u;
      FirstPieceCut(s[0], rest[0], sep, u);
      forall k | 0 <= k < |pieces| - 1
        ensures NoMatchBefore(pieces[k] + sep, sep, |pieces[k]|)
      {
        if k > 0 {
          assert pieces[k] == rest[k];
        }
      }
    } else {
      assert first == s;
      forall j: nat | j <= |s|
        ensures !MatchAt(s, sep, j)
      {
        if j == 0 {
          MatchAtZero(s, sep);
        } else {
          MatchAtCons(s[0], tail, sep, j - 1);
        }
      }
    }
  }

  /** No match starts inside the first piece when a cut follows it. */
  lemma FirstPieceCut(c: char, p: string, sep: string, u: string)
    requires |sep| > 0 && !(sep <= [c] + p + sep + u)
    requires NoMatchBefore(p + sep, sep, |p|)
    ensures NoMatchBefore([c] + p + sep, sep, |p| + 1)
  {
    var q := [c] + p + sep;
    var s := q + u;
    assert q <= s;
    forall j: nat | j < |p| + 1
      ensures !MatchAt(q, sep, j)
    {
      if j == 0 {
        if MatchAt(q, sep, 0) {
          MatchInPrefix(q, s, sep, 0);
          MatchAtZero(s, sep);
        }
      } else {
        assert q == [c] + (p + sep);
        MatchAtCons(c, p + sep, sep, j - 1);
      }
    }
  }

  /** There is only one greedy split: `IsGreedySplit` characterises `Split`. */
  lemma {:induction false} GreedySplitUnique(s: string, sep: string, pieces: seq<string>)
    requires |sep| > 0
    requires IsGreedySplit(s, sep, pieces)
    ensures pieces == Split(s, sep)
    decreases |s|
  {
    if |pieces| > 1 {
      JoinTail(pieces, sep);
    }
    if |s| == 0 {
      assert |pieces| == 1;
    } else if sep <= s {
      MatchAtZero(s, sep);
      if |pieces| == 1 {
        assert false;
      }
      var q := pieces[0] + sep;
      assert q <= s;
      if |pieces[0]| > 0 {
        MatchInLongPrefix(q, s, sep, 0);
        assert false;
      }
      var tail := s[|sep|..];
      var more := pieces[1..];
      assert Join(more, sep) == tail;
      forall k | 0 <= k < |more| - 1
        ensures NoMatchBefore(more[k] + sep, sep, |more[k]|)
      {
        assert more[k] == pieces[k + 1];
      }
      GreedySplitUnique(tail, sep, more);
      assert pieces == [[]] + more;
    } else {
      if pieces[0] == [] {
        assert false;
      }
      var c := pieces[0][0];
      var p := pieces[0][1..];
      assert pieces[0] == [c] + p;
      var shifted := [p] + pieces[1..];
      assert pieces == [[c] + p] + pieces[1..];
      JoinCons(c, p, pieces[1..], sep);
      assert s == [c] + Join(shifted, sep);
      var tail := s[1..];
      assert Join(shifted, sep) == tail;
      assert shifted[|shifted| - 1] == (if |pieces| == 1 then p else pieces[|pieces| - 1]);
      if |pieces| == 1 {
        forall j: nat | j <= |p|
          ensures !MatchAt(p, sep, j)
        {
          MatchAtCons(c, p, sep, j);
        }
      }
      forall k | 0 <= k < |shifted| - 1
        ensures NoMatchBefore(shifted[k] + sep, sep, |shifted[k]|)
      {
        if k == 0 {
          forall j: nat | j < |p|
            ensures !MatchAt(p + sep, sep, j)
          {
            assert pieces[0] + sep == [c] + (p + sep);
            MatchAtCons(c, p + sep, sep, j);
          }
        } else {
          assert shifted[k] == pieces[k];
        }
      }
      GreedySplitUnique(tail, sep, shifted);
      var rest := Split(tail, sep);
      assert Split(s, sep) == [[s[0]] + rest[0]] + rest[1..];
    }
  }

  // ---------------------------------------------------------------------
  // str.replace(pat, rep)
  // ---------------------------------------------------------------------

  /**
   * Python's `s.replace(pat, rep)`: every non-overlapping occurrence of
   * `pat`, found scanning left to right, is replaced by `rep`. An empty
   * `pat` inserts `rep` before every character and at the end.
   */
  function ReplaceAll(s: string, pat: string, rep: string): string
    decreases |s|
  {
    if |pat| == 0 then Interleave(s, rep)
    else if |s| == 0 then []
    else if pat <= s then rep + ReplaceAll(s[|pat|..], pat, rep)
    else [s[0]] + ReplaceAll(s[1..], pat, rep)
  }

  /** `s.replace("", rep)`: `rep` between every two characters and at both ends. */
  function Interleave(s: string, rep: string): string
    decreases |s|
  {
    if |s| == 0 then rep else rep + [s[0]] + Interleave(s[1..], rep)
  }

  /** The characters of `s`, one string each. */
  function Chars(s: string): (cs: seq<string>)
    ensures |cs| == |s|
  {
    seq(|s|, i requires 0 <= i < |s| => [s[i]])
  }

  /** With a non-empty pattern, replace is `rep.join(s.split(pat))`. */
  lemma {:induction false} ReplaceAllIsJoinSplit(s: string, pat: string, rep: string)
    requires |pat| > 0
    ensures ReplaceAll(s, pat, rep) == Join(Split(s, pat), rep)
    decreases |s|
  {
    if |s| == 0 {
    } else if pat <= s {
      var tail := s[|pat|..];
      ReplaceAllIsJoinSplit(tail, pat, rep);
      var rest := Split(tail, pat);
      assert Split(s, pat) == [[]] + rest;
      assert ([[]] + rest)[1..] == rest;
      JoinTail([[]] + rest, rep);
      assert ReplaceAll(s, pat, rep) == rep + ReplaceAll(tail, pat, rep);
    } else {
      var tail := s[1..];
      ReplaceAllIsJoinSplit(tail, pat, rep);
      var rest := Split(tail, pat);
      assert Split(s, pat) == [[s[0]] + rest[0]] + rest[1..];
      assert rest == [rest[0]] + rest[1..];
      JoinCons(s[0], rest[0], rest[1..], rep);
      assert ReplaceAll(s, pat, rep) == [s[0]] + ReplaceAll(tail, pat, rep);
    }
  }

  /** With an empty pattern, replace is `rep + rep.join(chars of s) + rep`. */
  lemma {:induction false} InterleaveIsJoin(s: string, rep: string)
    requires |s| > 0
    ensures ReplaceAll(s, [], rep) == rep + Join(Chars(s), rep) + rep
    decreases |s|
  {
    assert Chars(s)[0] == [s[0]];
    if |s| == 1 {
      assert Interleave(s[1..], rep) == rep;
    } else {
      InterleaveIsJoin(s[1..], rep);
      assert Chars(s)[1..] == Chars(s[1..]);
    }
  }

  /** A pattern that does not occur leaves the text as it was. */
  lemma {:induction false} ReplaceAllNoMatch(s: string, pat: string, rep: string)
    requires !Occurs(pat, s)
    ensures ReplaceAll(s, pat, rep) == s
    decreases |s|
  {
    if |pat| == 0 {
      assert MatchAt(s, pat, 0);
    } else if |s| > 0 {
      MatchAtZero(s, pat);
      assert s == [s[0]] + s[1..];
      forall j: nat | j <= |s[1..]|
        ensures !MatchAt(s[1..], pat, j)
      {
        MatchAtCons(s[0], s[1..], pat, j);
      }
      ReplaceAllNoMatch(s[1..], pat, rep);
    }
  }

  /** Replacing a pattern by itself leaves the text as it was. */
  lemma {:induction false} ReplaceAllSelf(s: string, pat: string)
    ensures ReplaceAll(s, pat, pat) == s
    decreases |s|
  {
    if |pat| == 0 {
      InterleaveNothing(s);
    } else if |s| > 0 {
      if pat <= s {
        ReplaceAllSelf(s[|pat|..], pat);
        assert s == pat + s[|pat|..];
      } else {
        ReplaceAllSelf(s[1..], pat);
        assert s == [s[0]] + s[1..];
      }
    }
  }

  lemma {:induction false} InterleaveNothing(s: string)
    ensures Interleave(s, []) == s
    decreases |s|
  {
    if |s| > 0 {
      InterleaveNothing(s[1..]);
      assert s == [s[0]] + s[1..];
    }
  }

  // ---------------------------------------------------------------------
  // str.strip()
  // ---------------------------------------------------------------------

  /** Python's `str.isspace()` on one code point: the characters `strip()` removes. */
  predicate IsSpace(c: char) {
    || c == ' '
    || ('\t' <= c <= '\r')
    || ('\U{1C}' <= c <= '\U{1F}')
    || c == '\U{85}'
    || c == '\U{A0}'
    || c == '\U{1680}'
    || ('\U{2000}' <= c <= '\U{200A}')
    || c == '\U{2028}'
    || c == '\U{2029}'
    || c == '\U{202F}'
    || c == '\U{205F}'
    || c == '\U{3000}'
  }

  predicate AllSpace(s: string) {
    forall k :: 0 <= k < |s| ==> IsSpace(s[k])
  }

  lemma SpaceAt(t: string, k: nat)
    requires AllSpace(t) && k < |t|
    ensures IsSpace(t[k])
  {
  }

  /** The length of the run of whitespace that `s` starts with. */
  function LeadingSpace(s: string): (n: nat)
    ensures n <= |s| && AllSpace(s[..n])
    ensures n < |s| ==> !IsSpace(s[n])
    decreases |s|
  {
    if |s| > 0 && IsSpace(s[0]) then 1 + LeadingSpace(s[1..]) else 0
  }

  /** The length of the run of whitespace that `s` ends with. */
  function TrailingSpace(s: string): (n: nat)
    ensures n <= |s| && AllSpace(s[|s| - n..])
    ensures n < |s| ==> !IsSpace(s[|s| - n - 1])
    decreases |s|
  {
    if |s| > 0 && IsSpace(s[|s| - 1]) then 1 + TrailingSpace(s[..|s| - 1]) else 0
  }

  /** `t` neither starts nor ends with whitespace. */
  predicate IsStripped(t: string) {
    t == [] || (!IsSpace(t[0]) && !IsSpace(t[|t| - 1]))
  }

  /** Python's `s.strip()`: `s` without its leading and trailing whitespace. */
  function Strip(s: string): (r: string)
    ensures |r| <= |s|
    ensures IsStripped(r)
  {
    var t := s[LeadingSpace(s)..];
    t[..|t| - TrailingSpace(t)]
  }

  lemma LeadingSpaceIs(s: string, n: nat)
    requires n <= |s| && AllSpace(s[..n])
    requires n < |s| ==> !IsSpace(s[n])
    ensures LeadingSpace(s) == n
  {
    var m := LeadingSpace(s);
    if m < n {
      SpaceAt(s[..n], m);
      assert false;
    } else if n < m {
      SpaceAt(s[..m], n);
      assert false;
    }
  }

  lemma TrailingSpaceIs(s: string, n: nat)
    requires n <= |s| && AllSpace(s[|s| - n..])
    requires n < |s| ==> !IsSpace(s[|s| - n - 1])
    ensures TrailingSpace(s) == n
  {
    var m := TrailingSpace(s);
    if m != n {
      assert false;
    }
  }

  /**
   * `Strip` is characterised by its result: whatever whitespace surrounds a
   * text that neither starts nor ends with whitespace, stripping gives that
   * text back.
   */
  lemma StripUnique(a: string, m: string, b: string)
    requires AllSpace(a) && AllSpace(b)
    requires IsStripped(m)
    ensures Strip(a + m + b) == m
  {
    var s := a + m + b;
    if m == [] {
      assert s == a + b;
      assert s[..|s|] == s;
      assert forall k :: 0 <= k < |s| ==> s[k] == (if k < |a| then a[k] else b[k - |a|]);
      LeadingSpaceIs(s, |s|);
      assert s[|s|..] == [];
    } else {
      assert s[..|a|] == a;
      assert s[|a|] == m[0];
      LeadingSpaceIs(s, |a|);
      var t := s[|a|..];
      assert t == m + b;
      assert t[|t| - |b|..] == b;
      assert t[|t| - |b| - 1] == m[|m| - 1];
      TrailingSpaceIs(t, |b|);
      assert t[..|m|] == m;
    }
  }
}
