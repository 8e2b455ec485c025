/**
 * Whitespace tokenisation as done by Python's `str.split()` with no
 * separator: the tokens are the maximal runs of non-whitespace characters,
 * and leading, trailing and repeated whitespace produce no empty tokens.
 */
module Tokens {

  /** The characters for which Python's `str.isspace()` holds. */
  predicate IsSpace(c: char)
  {
    || ('\t' <= c <= '\r')
    || ('\U{1C}' <= c <= '\U{1F}')
    || c == ' '
    || c == '\U{85}'
    || c == '\U{A0}'
    || c == '\U{1680}'
    || ('\U{2000}' <= c <= '\U{200A}')
    || c == '\U{2028}'
    || c == '\U{2029}'
    || c == '\U{202F}'
    || c == '\U{205F}'
    || c == '\U{3000}'
  }

  predicate NoSpace(w: string)
  {
    forall i :: 0 <= i < |w| ==> !IsSpace(w[i])
  }

  predicate AllSpace(w: string)
  {
    forall i :: 0 <= i < |w| ==> IsSpace(w[i])
  }

  /** Length of the whitespace run at the start of `s`. */
  function SpaceRun(s: string): (n: nat)
    ensures n <= |s|
    ensures n < |s| ==> !IsSpace(s[n])
  {
    if s == [] || !IsSpace(s[0]) then 0 else 1 + SpaceRun(s[1..])
  }

  /** Length of the non-whitespace run at the start of `s`. */
  function WordRun(s: string): (n: nat)
    ensures n <= |s|
    ensures n < |s| ==> IsSpace(s[n])
  {
    if s == [] || IsSpace(s[0]) then 0 else 1 + WordRun(s[1..])
  }

  /** The list `s.split()` returns. */
  function Split(s: string): seq<string>
    decreases |s|
  {
    var t := s[SpaceRun(s)..];
    if t == [] then []
    else
      var n := WordRun(t);
      assert t[0] == s[SpaceRun(s)] && n > 0;
      [t[..n]] + Split(t[n..])
  }

  /** Every token is non-empty and holds no whitespace character. */
  lemma {:induction false} SplitWords(s: string)
    ensures forall w :: w in Split(s) ==> w != [] && NoSpace(w)
    decreases |s|
  {
    var t := s[SpaceRun(s)..];
    if t != [] {
      var n := WordRun(t);
      SpaceRunSpaces(s);
      assert t[0] == s[SpaceRun(s)];
      WordRunWord(t);
      SplitWords(t[n..]);
    }
  }

  /** A run of whitespace splits into no tokens. */
  lemma {:induction false} SplitAllSpace(s: string)
    requires AllSpace(s)
    ensures Split(s) == []
  {
    SpaceRunOfAllSpace(s);
  }

  /** A non-empty string without whitespace is a single token. */
  lemma {:induction false} SplitWord(w: string)
    requires w != [] && NoSpace(w)
    ensures Split(w) == [w]
  {
    assert SpaceRun(w) == 0;
    assert w[0..] == w;
    WordRunOfNoSpace(w);
    assert w[..|w|] == w;
    assert w[|w|..] == [];
    assert Split([]) == [];
  }

  /**
   * Splitting distributes over a whitespace separator: the tokens of
   * `a + [c] + b` are those of `a` followed by those of `b`. With
   * SplitAllSpace and SplitWord this pins `Split` down as "maximal runs of
   * non-whitespace".
   */
  lemma {:induction false} SplitSeparated(a: string, c: char, b: string)
    requires IsSpace(c)
    ensures Split(a + [c] + b) == Split(a) + Split(b)
    decreases |a|
  {
    if SpaceRun(a) == |a| {
      SplitBlankFirst(a, c, b);
    } else {
      var w, r := SplitWordFirst(a, c, b);
      SplitSeparated(r, c, b);
      ConcatAssoc([w], Split(r), Split(b));
    }
  }

  lemma ConcatAssoc<T>(x: seq<T>, y: seq<T>, z: seq<T>)
    ensures x + (y + z) == (x + y) + z
  {
  }

  /** A separator after blank text leaves only the tokens of what follows. */
  lemma SplitBlankFirst(a: string, c: char, b: string)
    requires IsSpace(c) && SpaceRun(a) == |a|
    ensures Split(a + [c] + b) == Split(a) + Split(b)
  {
    SpaceRunSpaces(a);
    assert a[..|a|] == a;
    assert AllSpace(a + [c]);
    SplitAfterSpace(a + [c], b);
    SplitAllSpace(a);
  }

  /** Leading whitespace contributes no token. */
  lemma {:induction false} SplitAfterSpace(p: string, b: string)
    requires AllSpace(p)
    ensures Split(p + b) == Split(b)
  {
    SpaceRunAppend(p, b);
    DropAppend(p, b, SpaceRun(b));
    SplitSameRest(p + b, b);
  }

  /** Dropping past a prefix `p` of `p + b` drops within `b`. */
  lemma DropAppend(p: string, b: string, k: nat)
    requires k <= |b|
    ensures (p + b)[|p| + k..] == b[k..]
  {
    assert (p + b)[|p|..] == b;
  }

  /** Two strings that agree after their leading whitespace split alike. */
  lemma SplitSameRest(s: string, t: string)
    requires s[SpaceRun(s)..] == t[SpaceRun(t)..]
    ensures Split(s) == Split(t)
  {
  }

  /**
   * When `a` holds a token `w`, followed by the remainder `r`, the first
   * token of `a + [c] + b` is also `w`, followed by the tokens of `r + [c] + b`.
   */
  lemma SplitWordFirst(a: string, c: char, b: string) returns (w: string, r: string)
    requires IsSpace(c)
    requires SpaceRun(a) < |a|
    ensures |r| < |a|
    ensures Split(a) == [w] + Split(r)
    ensures Split(a + [c] + b) == [w] + Split(r + [c] + b)
  {
    var k := SpaceRun(a);
    var t := a[k..];
    assert t[0] == a[k];
    var n := WordRun(t);
    w, r := t[..n], t[n..];
    assert t == w + r;
    SplitFirstOf(a, k, w, r);
    SplitJoinFirst(a, c, b, k, w, r);
  }

  /** The first token of `a` stays the first token once `[c] + b` is appended. */
  lemma SplitJoinFirst(a: string, c: char, b: string, k: nat, w: string, r: string)
    requires IsSpace(c)
    requires k == SpaceRun(a) < |a|
    requires a[k..] == w + r && WordRun(a[k..]) == |w|
    ensures Split(a + [c] + b) == [w] + Split(r + [c] + b)
  {
    JoinParts(a, c, b, k, w, r);
    SpaceRunPrefix(a, [c] + b);
    WordRunPrefix(a[k..], c, b);
    SplitFirstOf(a + [c] + b, k, w, r + [c] + b);
  }

  /** Where the pieces of `a + [c] + b` sit once `a[k..]` is known to be `w + r`. */
  lemma JoinParts(a: string, c: char, b: string, k: nat, w: string, r: string)
    requires k <= |a| && a[k..] == w + r
    ensures a + [c] + b == a + ([c] + b)
    ensures (a + [c] + b)[k..] == a[k..] + [c] + b
    ensures (a + [c] + b)[k..] == w + (r + [c] + b)
  {
    assert (a + [c] + b)[k..] == a[k..] + [c] + b;
  }

  /** A string whose first token is `w`, followed by `rest`, splits into `w` and the split of `rest`. */
  lemma SplitFirstOf(s: string, k: nat, w: string, rest: string)
    requires k == SpaceRun(s) < |s|
    requires s[k..] == w + rest && WordRun(s[k..]) == |w|
    ensures Split(s) == [w] + Split(rest)
  {
    assert s[k..][..|w|] == w;
    assert s[k..][|w|..] == rest;
  }

  // Helper facts about the two run-length functions.

  lemma {:induction false} SpaceRunSpaces(s: string)
    ensures AllSpace(s[..SpaceRun(s)])
    decreases |s|
  {
    if s != [] && IsSpace(s[0]) {
      SpaceRunSpaces(s[1..]);
      assert s[..SpaceRun(s)] == [s[0]] + s[1..][..SpaceRun(s[1..])];
    }
  }

  lemma {:induction false} WordRunWord(s: string)
    ensures NoSpace(s[..WordRun(s)])
    decreases |s|
  {
    if s != [] && !IsSpace(s[0]) {
      WordRunWord(s[1..]);
      assert s[..WordRun(s)] == [s[0]] + s[1..][..WordRun(s[1..])];
    }
  }

  lemma {:induction false} SpaceRunOfAllSpace(s: string)
    requires AllSpace(s)
    ensures SpaceRun(s) == |s|
    decreases |s|
  {
    if s != [] {
      SpaceRunOfAllSpace(s[1..]);
    }
  }

  lemma {:induction false} WordRunOfNoSpace(s: string)
    requires NoSpace(s)
    ensures WordRun(s) == |s|
    decreases |s|
  {
    if s != [] {
      WordRunOfNoSpace(s[1..]);
    }
  }

  lemma {:induction false} SpaceRunAppend(a: string, b: string)
    requires AllSpace(a)
    ensures SpaceRun(a + b) == |a| + SpaceRun(b)
    decreases |a|
  {
    if a != [] {
      assert (a + b)[0] == a[0];
      assert (a + b)[1..] == a[1..] + b;
      assert AllSpace(a[1..]);
      SpaceRunAppend(a[1..], b);
    } else {
      assert a + b == b;
    }
  }

  lemma {:induction false} SpaceRunPrefix(a: string, b: string)
    requires SpaceRun(a) < |a|
    ensures SpaceRun(a + b) == SpaceRun(a)
    decreases |a|
  {
    if IsSpace(a[0]) {
      assert (a + b)[1..] == a[1..] + b;
      SpaceRunPrefix(a[1..], b);
    }
  }

  lemma {:induction false} WordRunPrefix(t: string, c: char, b: string)
    requires IsSpace(c)
    ensures WordRun(t + [c] + b) == WordRun(t)
    decreases |t|
  {
    if t != [] && !IsSpace(t[0]) {
      assert (t + [c] + b)[1..] == t[1..] + [c] + b;
      WordRunPrefix(t[1..], c, b);
    }
  }
}
