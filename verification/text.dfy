/**
 * Character classes and the string operations the configuration loader
 * relies on: Python's `str.strip()`, `str.split(sep)` and `sep.join(xs)`,
 * and the list codec built from them (`split(',')`, strip every piece,
 * drop the empty ones).
 *
 * Python's `str.strip()` and the regular-expression class `\w` are
 * Unicode-aware; here both are restricted to ASCII.
 */
module Text {
  import opened Seqs

  /** The ASCII characters for which Python's `str.isspace()` holds. */
  predicate IsSpace(c: char) {
    c == ' ' || 9 <= c as int <= 13 || 28 <= c as int <= 31
  }

  predicate AllSpace(s: string) {
    forall i | 0 <= i < |s| :: IsSpace(s[i])
  }

  /** Neither the first nor the last character is whitespace. */
  predicate Trimmed(s: string) {
    |s| == 0 || (!IsSpace(s[0]) && !IsSpace(s[|s| - 1]))
  }

  /** Removes the longest whitespace prefix. */
  function TrimLeft(s: string): (r: string)
    ensures |r| <= |s| && r == s[|s| - |r|..]
    ensures r == [] || !IsSpace(r[0])
  {
    if |s| > 0 && IsSpace(s[0]) then TrimLeft(s[1..]) else s
  }

  /** Removes the longest whitespace suffix. */
  function TrimRight(s: string): (r: string)
    ensures |r| <= |s| && r == s[..|r|]
    ensures r == [] || !IsSpace(r[|r| - 1])
  {
    if |s| > 0 && IsSpace(s[|s| - 1]) then TrimRight(s[..|s| - 1]) else s
  }

  /** Python's `s.strip()`: whitespace removed from both ends. The result
      is a slice of `s` with only whitespace before and after it. */
  function Strip(s: string): (r: string)
    ensures Trimmed(r)
    ensures |r| <= |s|
    ensures exists k | 0 <= k <= |s| - |r| :: r == s[k..k + |r|] && AllSpace(s[..k]) && AllSpace(s[k + |r|..])
  {
    var t := TrimLeft(s);
    var r := TrimRight(t);
    TrimLeftCut(s);
    TrimRightCut(t);
    CutBetween(s, |s| - |t|, t, r);
    SliceWitness(s, |s| - |t|, r);
    r
  }

  /** A prefix `r` of the suffix `t == s[k..]` is a slice of `s`, and what
      `t` holds after `r` is what `s` holds after that slice. */
  lemma CutBetween(s: string, k: nat, t: string, r: string)
    requires k <= |s| && t == s[k..] && |r| <= |t| && r == t[..|r|]
    requires AllSpace(t[|r|..])
    ensures k + |r| <= |s| && r == s[k..k + |r|] && AllSpace(s[k + |r|..])
  {
    assert t[|r|..] == s[k + |r|..];
  }

  lemma SliceWitness(s: string, k: nat, r: string)
    requires k + |r| <= |s| && r == s[k..k + |r|] && AllSpace(s[..k]) && AllSpace(s[k + |r|..])
    ensures exists j | 0 <= j <= |s| - |r| :: r == s[j..j + |r|] && AllSpace(s[..j]) && AllSpace(s[j + |r|..])
  {
  }

  /** What `TrimLeft` removes is whitespace. */
  lemma {:induction false} TrimLeftCut(s: string)
    ensures AllSpace(s[..|s| - |TrimLeft(s)|])
    decreases |s|
  {
    if |s| > 0 && IsSpace(s[0]) {
      TrimLeftCut(s[1..]);
      SpacePrefixGrow(s, |s| - |TrimLeft(s)|);
    }
  }

  lemma SpacePrefixGrow(s: string, m: nat)
    requires 1 <= m <= |s| && IsSpace(s[0]) && AllSpace(s[1..][..m - 1])
    ensures AllSpace(s[..m])
  {
    var p, q := s[..m], s[1..][..m - 1];
    forall i | 0 <= i < |p|
      ensures IsSpace(p[i])
    {
      if i > 0 {
        assert p[i] == q[i - 1];
      }
    }
  }

  /** What `TrimRight` removes is whitespace. */
  lemma {:induction false} TrimRightCut(t: string)
    ensures AllSpace(t[|TrimRight(t)|..])
    decreases |t|
  {
    if |t| > 0 && IsSpace(t[|t| - 1]) {
      TrimRightCut(t[..|t| - 1]);
      SpaceSuffixGrow(t, |TrimRight(t)|);
    }
  }

  lemma SpaceSuffixGrow(s: string, m: nat)
    requires m < |s| && IsSpace(s[|s| - 1]) && AllSpace(s[..|s| - 1][m..])
    ensures AllSpace(s[m..])
  {
    var p, q := s[m..], s[..|s| - 1][m..];
    forall i | 0 <= i < |p|
      ensures IsSpace(p[i])
    {
      if i < |q| {
        assert p[i] == q[i];
      }
    }
  }

  /** `Strip` removes exactly the surrounding whitespace: whitespace around a
      trimmed, non-empty string strips to that string. */
  lemma StripSurrounded(v: string, x: string, w: string)
    requires AllSpace(v) && AllSpace(w) && Trimmed(x) && x != []
    ensures Strip(v + x + w) == x
  {
    assert v + x + w == v + (x + w);
    assert (x + w)[0] == x[0];
    TrimLeftSpacePrefix(v, x + w);
    TrimRightSpaceSuffix(x, w);
  }

  /** `Strip` yields the empty string exactly for blank input. */
  lemma StripBlank(s: string)
    ensures Strip(s) == [] <==> AllSpace(s)
  {
    var t := TrimLeft(s);
    assert t != [] ==> t[0] == s[|s| - |t|];
    assert t[0..] == t;
  }

  /** Stripping only removes characters: one absent from `s` is absent from
      `Strip(s)`. */
  lemma StripAvoids(s: string, c: char)
    requires c !in s
    ensures c !in Strip(s)
  {
  }

  /** Stripping a string that is already trimmed changes nothing. */
  lemma StripTrimmed(s: string)
    requires Trimmed(s)
    ensures Strip(s) == s
  {
  }

  /** Leading whitespace in front of a trimmed, non-empty string is all that
      `Strip` removes. */
  lemma {:induction false} StripSpacePrefix(w: string, s: string)
    requires AllSpace(w) && Trimmed(s) && s != []
    ensures Strip(w + s) == s
  {
    TrimLeftSpacePrefix(w, s);
  }

  lemma {:induction false} TrimLeftSpacePrefix(w: string, s: string)
    requires AllSpace(w) && s != [] && !IsSpace(s[0])
    ensures TrimLeft(w + s) == s
    decreases |w|
  {
    if |w| == 0 {
      assert w + s == s;
    } else {
      assert (w + s)[0] == w[0];
      assert (w + s)[1..] == w[1..] + s;
      TrimLeftSpacePrefix(w[1..], s);
    }
  }

  lemma {:induction false} TrimRightSpaceSuffix(x: string, w: string)
    requires AllSpace(w) && x != [] && !IsSpace(x[|x| - 1])
    ensures TrimRight(x + w) == x
    decreases |w|
  {
    if |w| == 0 {
      assert x + w == x;
    } else {
      var u := w[..|w| - 1];
      assert (x + w)[|x + w| - 1] == w[|w| - 1];
      assert (x + w)[..|x + w| - 1] == x + u;
      TrimRightSpaceSuffix(x, u);
    }
  }

  /** Python's `sep.join(xs)`. */
  function Join(xs: seq<string>, sep: string): string
  {
    if |xs| == 0 then []
    else if |xs| == 1 then xs[0]
    else xs[0] + sep + Join(xs[1..], sep)
  }

  /** A join starts with the first item and ends with the last; with one
      item it is that item. */
  lemma {:induction false} JoinEnds(xs: seq<string>, sep: string)
    requires |xs| >= 1
    ensures xs[0] <= Join(xs, sep)
    ensures var j, last := Join(xs, sep), xs[|xs| - 1];
      |last| <= |j| && j[|j| - |last|..] == last
    ensures |xs| == 1 ==> Join(xs, sep) == xs[0]
    decreases |xs|
  {
    if |xs| > 1 {
      var rest := Join(xs[1..], sep);
      JoinEnds(xs[1..], sep);
      assert xs[1..][|xs| - 2] == xs[|xs| - 1];
      assert Join(xs, sep) == (xs[0] + sep) + rest;
    }
  }

  /** The first position of `c` in `s`. */
  function IndexOf(s: string, c: char): (i: nat)
    requires c in s
    ensures i < |s| && s[i] == c && c !in s[..i]
  {
    if s[0] == c then 0 else IndexOf(s[1..], c) + 1
  }

  /** `IndexOf` finds the one occurrence that has no occurrence before it. */
  lemma IndexOfUnique(s: string, c: char, k: nat)
    requires k < |s| && s[k] == c && c !in s[..k]
    ensures IndexOf(s, c) == k
  {
  }

  /** Python's `s.split(sep)` for a one-character separator: the pieces
      between consecutive separators, always at least one. */
  function Split(s: string, sep: char): (r: seq<string>)
    ensures |r| >= 1
    ensures forall i | 0 <= i < |r| :: sep !in r[i]
    decreases |s|
  {
    if sep in s then
      var i := IndexOf(s, sep);
      [s[..i]] + Split(s[i + 1..], sep)
    else
      [s]
  }

  /** Joining the pieces with the separator restores the split string. */
  lemma {:induction false} JoinSplit(s: string, sep: char)
    ensures Join(Split(s, sep), [sep]) == s
    decreases |s|
  {
    if sep in s {
      var i := IndexOf(s, sep);
      var rest := Split(s[i + 1..], sep);
      JoinSplit(s[i + 1..], sep);
      assert ([s[..i]] + rest)[1..] == rest;
      assert s == s[..i] + [sep] + s[i + 1..];
    }
  }

  /** Splitting at the first separator: the part before it is one piece,
      the rest is split on its own. */
  lemma SplitAtSeparator(a: string, b: string, sep: char)
    requires sep !in a
    ensures Split(a + [sep] + b, sep) == [a] + Split(b, sep)
  {
    var s := a + [sep] + b;
    assert s[|a|] == sep && s[..|a|] == a;
    IndexOfUnique(s, sep, |a|);
    assert s[|a| + 1..] == b;
  }

  /** `Split` and `Join` are inverse: joining separator-free pieces and
      splitting again gives the pieces back. */
  lemma {:induction false} SplitJoin(xs: seq<string>, sep: char)
    requires |xs| >= 1
    requires forall i | 0 <= i < |xs| :: sep !in xs[i]
    ensures Split(Join(xs, [sep]), sep) == xs
    decreases |xs|
  {
    if |xs| > 1 {
      SplitAtSeparator(xs[0], Join(xs[1..], [sep]), sep);
      SplitJoin(xs[1..], sep);
      assert xs == [xs[0]] + xs[1..];
    }
  }

  /** Splitting distributes over a separator: the pieces of `a + sep + b`
      are the pieces of `a` followed by the pieces of `b`. */
  lemma SplitConcat(a: string, b: string, sep: char)
    ensures Split(a + [sep] + b, sep) == Split(a, sep) + Split(b, sep)
  {
    var pieces := Split(a, sep) + Split(b, sep);
    JoinConcat(Split(a, sep), Split(b, sep), [sep]);
    JoinSplit(a, sep);
    JoinSplit(b, sep);
    assert Join(pieces, [sep]) == a + [sep] + b;
    PiecesAvoid(Split(a, sep), Split(b, sep), sep);
    SplitJoin(pieces, sep);
  }

  /** Two lists of separator-free pieces concatenate to one. */
  lemma PiecesAvoid(x: seq<string>, y: seq<string>, sep: char)
    requires forall i | 0 <= i < |x| :: sep !in x[i]
    requires forall i | 0 <= i < |y| :: sep !in y[i]
    ensures forall i | 0 <= i < |x + y| :: sep !in (x + y)[i]
  {
    forall i | 0 <= i < |x + y|
      ensures sep !in (x + y)[i]
    {
      if i >= |x| {
        assert (x + y)[i] == y[i - |x|];
      }
    }
  }

  /** Joining a concatenation puts one separator between the two joins. */
  lemma {:induction false} JoinConcat(x: seq<string>, y: seq<string>, sep: string)
    requires |x| >= 1 && |y| >= 1
    ensures Join(x + y, sep) == Join(x, sep) + sep + Join(y, sep)
    decreases |x|
  {
    assert (x + y)[0] == x[0];
    assert (x + y)[1..] == x[1..] + y;
    if |x| > 1 {
      JoinConcat(x[1..], y, sep);
      AppendAssoc(x[0] + sep, Join(x[1..], sep), sep + Join(y, sep));
      assert Join(x[1..], sep) + sep + Join(y, sep) == Join(x[1..], sep) + (sep + Join(y, sep));
      assert x[0] + sep + (Join(x[1..], sep) + sep + Join(y, sep))
        == x[0] + sep + Join(x[1..], sep) + sep + Join(y, sep);
    }
  }

  /** An item the list codec keeps unchanged: non-empty, trimmed and free of
      the `,` delimiter. */
  predicate CleanItem(s: string) {
    s != [] && Trimmed(s) && ',' !in s
  }

  /** Strips every piece and drops those that become empty, keeping the
      order of the rest. */
  function StripNonEmpty(pieces: seq<string>): (r: seq<string>)
    ensures |r| <= |pieces|
    ensures forall i | 0 <= i < |r| :: r[i] != [] && Trimmed(r[i])
  {
    if |pieces| == 0 then []
    else
      var t := Strip(pieces[0]);
      var rest := StripNonEmpty(pieces[1..]);
      if t == [] then rest
      else
        var r := [t] + rest;
        forall i | 0 <= i < |r|
          ensures r[i] != [] && Trimmed(r[i])
        {
          if i > 0 {
            assert r[i] == rest[i - 1];
          }
        }
        r
  }

  /** A leading piece that is not blank contributes its stripped self. */
  lemma StripNonEmptyCons(a: string, rest: seq<string>)
    requires Strip(a) != []
    ensures StripNonEmpty([a] + rest) == [Strip(a)] + StripNonEmpty(rest)
  {
    assert ([a] + rest)[1..] == rest;
  }

  /** A blank piece contributes nothing: `filter(None, ...)` drops it
      wherever it stands in the list. */
  lemma StripNonEmptyBlank(a: string, rest: seq<string>)
    requires AllSpace(a)
    ensures StripNonEmpty([a] + rest) == StripNonEmpty(rest)
  {
    StripBlank(a);
    assert ([a] + rest)[1..] == rest;
  }

  /** A character absent from every piece is absent from every item kept. */
  lemma {:induction false} StripNonEmptyAvoids(pieces: seq<string>, c: char)
    requires forall j | 0 <= j < |pieces| :: c !in pieces[j]
    ensures forall i | 0 <= i < |StripNonEmpty(pieces)| :: c !in StripNonEmpty(pieces)[i]
  {
    if |pieces| > 0 {
      var t := Strip(pieces[0]);
      var rest := StripNonEmpty(pieces[1..]);
      assert c !in t by {
        StripAvoids(pieces[0], c);
      }
      assert forall i | 0 <= i < |rest| :: c !in rest[i] by {
        StripNonEmptyAvoids(pieces[1..], c);
      }
      if t != [] {
        var r := [t] + rest;
        assert StripNonEmpty(pieces) == r;
        forall i | 0 <= i < |r|
          ensures c !in r[i]
        {
          if i > 0 {
            assert r[i] == rest[i - 1];
          }
        }
      }
    }
  }

  /** The list codec of the configuration loader: `raw.split(',')`, every
      piece stripped, empty pieces dropped. Every item it yields is clean. */
  function SplitList(raw: string): (r: seq<string>)
    ensures forall i | 0 <= i < |r| :: CleanItem(r[i])
  {
    var pieces := Split(raw, ',');
    StripNonEmptyAvoids(pieces, ',');
    StripNonEmpty(pieces)
  }

  /** Whitespace followed by a clean item holds no `,`. */
  lemma SpaceThenItemHasNoComma(v: string, x: string)
    requires AllSpace(v) && CleanItem(x)
    ensures ',' !in v + x
  {
  }

  /** A blank string is an empty list. */
  lemma SplitListBlank(v: string)
    requires AllSpace(v)
    ensures SplitList(v) == []
  {
    assert ',' !in v;
    assert Split(v, ',') == [v];
    StripBlank(v);
  }

  /** Whitespace and one clean item is a one-element list. */
  lemma SplitListSingle(v: string, x: string)
    requires AllSpace(v) && CleanItem(x)
    ensures SplitList(v + x) == [x]
  {
    SpaceThenItemHasNoComma(v, x);
    assert Split(v + x, ',') == [v + x];
    StripSpacePrefix(v, x);
    StripNonEmptyCons(v + x, []);
  }

  /** The first comma ends the first item. */
  lemma SplitListCons(a: string, b: string)
    requires ',' !in a && Strip(a) != []
    ensures SplitList(a + [','] + b) == [Strip(a)] + SplitList(b)
  {
    SplitAtSeparator(a, b, ',');
    StripNonEmptyCons(a, Split(b, ','));
  }

  /** A blank piece before a comma is dropped: the list is that of the
      text after the comma. */
  lemma SplitListBlankCons(a: string, b: string)
    requires ',' !in a && AllSpace(a)
    ensures SplitList(a + [','] + b) == SplitList(b)
  {
    SplitAtSeparator(a, b, ',');
    StripNonEmptyBlank(a, Split(b, ','));
  }

  /** The generalised round trip: a whitespace prefix before the joined list
      does not disturb it. */
  lemma {:induction false} SplitListJoinAfterSpace(v: string, xs: seq<string>, w: string)
    requires AllSpace(v) && AllSpace(w)
    requires forall i | 0 <= i < |xs| :: CleanItem(xs[i])
    ensures SplitList(v + Join(xs, "," + w)) == xs
    decreases |xs|
  {
    var sep := "," + w;
    if |xs| == 0 {
      assert v + Join(xs, sep) == v;
      SplitListBlank(v);
    } else if |xs| == 1 {
      assert v + Join(xs, sep) == v + xs[0];
      SplitListSingle(v, xs[0]);
    } else {
      var a := v + xs[0];
      var b := w + Join(xs[1..], sep);
      assert SplitList(v + Join(xs, sep)) == [xs[0]] + SplitList(b) by {
        JoinAfterPrefix(v, xs, w);
        SpaceThenItemHasNoComma(v, xs[0]);
        StripSpacePrefix(v, xs[0]);
        SplitListCons(a, b);
      }
      assert SplitList(b) == xs[1..] by {
        SplitListJoinAfterSpace(w, xs[1..], w);
      }
      HeadTail(xs);
    }
  }

  /** Unfolds one separator of a joined list behind a prefix. */
  lemma JoinAfterPrefix(v: string, xs: seq<string>, w: string)
    requires |xs| >= 2
    ensures v + Join(xs, "," + w) == (v + xs[0]) + [','] + (w + Join(xs[1..], "," + w))
  {
    var sep := "," + w;
    var j := Join(xs[1..], sep);
    assert Join(xs, sep) == xs[0] + sep + j;
    assert sep == [','] + w;
    Regroup(v, xs[0], ',', w, j);
  }

  lemma Regroup(v: string, a: string, c: char, w: string, j: string)
    ensures v + (a + ([c] + w) + j) == (v + a) + [c] + (w + j)
  {
  }

  /** The round trip of the list codec: clean items joined with `,` and
      whitespace (`","` for ports, `",\n"` for commands) read back as the
      same items. */
  lemma SplitListJoin(xs: seq<string>, w: string)
    requires AllSpace(w)
    requires forall i | 0 <= i < |xs| :: CleanItem(xs[i])
    ensures SplitList(Join(xs, "," + w)) == xs
  {
    var e: string := [];
    assert AllSpace(e);
    var j := Join(xs, "," + w);
    assert e + j == j;
    SplitListJoinAfterSpace(e, xs, w);
  }
}
