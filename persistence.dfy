/**
 * Persistence of scraped headlines: the source key derived from a page URL,
 * the insert-if-absent loop over a table keyed by (source, headline), and
 * the sentiment update-by-id loop. The database is an in-memory table; the
 * connection, cursor and commit plumbing are not modelled.
 */
module Persistence {
  import opened Wrappers

  // ---------------------------------------------------------------------
  // Source key: a leftmost search for
  //   https?://(?:www\.|edition\.)?([a-zA-Z0-9-]+)\.
  // returning the captured group, or None when nothing matches.
  // ---------------------------------------------------------------------

  predicate IsLabelChar(c: char)
  {
    'a' <= c <= 'z' || 'A' <= c <= 'Z' || '0' <= c <= '9' || c == '-'
  }

  predicate AllLabelChars(w: string)
  {
    forall i :: 0 <= i < |w| ==> IsLabelChar(w[i])
  }

  /** A string the group `[a-zA-Z0-9-]+` can capture. */
  predicate IsLabel(k: string)
  {
    k != [] && AllLabelChars(k)
  }

  /** `w` occurs in `s` starting at position `p`, compared character by character. */
  predicate HasAt(s: string, p: nat, w: string)
    decreases w
  {
    p + |w| <= |s| && (w == [] || (s[p] == w[0] && HasAt(s, p + 1, w[1..])))
  }

  /** HasAt read as a slice of `s`. */
  lemma {:induction false} HasAtSlice(s: string, p: nat, w: string)
    ensures HasAt(s, p, w) <==> p + |w| <= |s| && s[p..p + |w|] == w
    decreases w
  {
    if w != [] && p + |w| <= |s| {
      HasAtSlice(s, p + 1, w[1..]);
      assert s[p..p + |w|] == [s[p]] + s[p + 1..p + 1 + |w[1..]|];
      assert w == [w[0]] + w[1..];
    }
  }

  /** Length of the longest run of label characters starting at `q`. */
  function LabelRun(s: string, q: nat): (n: nat)
    requires q <= |s|
    ensures q + n <= |s|
    decreases |s| - q
  {
    if q < |s| && IsLabelChar(s[q]) then 1 + LabelRun(s, q + 1) else 0
  }

  /** The run is made of label characters and cannot be extended. */
  lemma {:induction false} LabelRunMaximal(s: string, q: nat)
    requires q <= |s|
    ensures AllLabelChars(s[q..q + LabelRun(s, q)])
    ensures q + LabelRun(s, q) < |s| ==> !IsLabelChar(s[q + LabelRun(s, q)])
    decreases |s| - q
  {
    if q < |s| && IsLabelChar(s[q]) {
      LabelRunMaximal(s, q + 1);
      var n := LabelRun(s, q);
      assert s[q..q + n] == [s[q]] + s[q + 1..q + n];
    }
  }

  /**
   * `([a-zA-Z0-9-]+)\.` tried at `q`. The greedy `+` first takes the whole
   * run; giving characters back cannot help, since the character after a
   * shorter run is a label character and never the required dot.
   */
  function LabelAt(s: string, q: nat): Option<string>
    requires q <= |s|
  {
    var n := LabelRun(s, q);
    if n > 0 && q + n < |s| && s[q + n] == '.' then Some(s[q..q + n]) else None
  }

  /** `https?://` tried at `p`: the position after the scheme, if it matches. */
  function SchemeEnd(s: string, p: nat): (r: Option<nat>)
    ensures r.Some? ==> p < r.value <= |s|
  {
    if HasAt(s, p, "https://") then Some(p + 8)
    else if HasAt(s, p, "http://") then Some(p + 7)
    else None
  }

  /**
   * The alternative of `(?:www\.|edition\.)?` the engine settles on at `q`:
   * `www.` first, then `edition.`, then nothing; a prefix is given up again
   * when no label and dot follow it.
   */
  function MatchedPrefix(s: string, q: nat): (prefix: string)
    requires q <= |s|
    ensures q + |prefix| <= |s|
  {
    if HasAt(s, q, "www.") && LabelAt(s, q + 4).Some? then "www."
    else if HasAt(s, q, "edition.") && LabelAt(s, q + 8).Some? then "edition."
    else ""
  }

  /** The optional prefix and the captured label, tried right after the scheme. */
  function MatchAfterScheme(s: string, q: nat): Option<string>
    requires q <= |s|
  {
    LabelAt(s, q + |MatchedPrefix(s, q)|)
  }

  /** The whole pattern tried at start position `p`. */
  function MatchAt(s: string, p: nat): Option<string>
  {
    match SchemeEnd(s, p)
    case None => None
    case Some(q) => MatchAfterScheme(s, q)
  }

  /** The outcome of trying the pattern at each start position `0..|s|`. */
  function Attempts(s: string): (r: seq<Option<string>>)
    ensures |r| == |s| + 1
    ensures forall p :: 0 <= p <= |s| ==> r[p] == MatchAt(s, p)
  {
    seq(|s| + 1, p requires 0 <= p <= |s| => MatchAt(s, p))
  }

  /** `re.search`: the first attempt that succeeds, scanning left to right. */
  function Leftmost(xs: seq<Option<string>>): Option<string>
  {
    if xs == [] then None
    else if xs[0].Some? then xs[0]
    else Leftmost(xs[1..])
  }

  /** The source column, derived once per batch from the page URL. */
  function SourceOf(url: string): Option<string>
  {
    Leftmost(Attempts(url))
  }

  /**
   * The regular expression read declaratively: from `p` on, the text reads
   * a scheme, one of the optional prefixes, the captured label `k` and a
   * dot, one after the other.
   */
  ghost predicate RegexMatch(s: string, p: nat, scheme: string, prefix: string, k: string)
  {
    && (scheme == "http://" || scheme == "https://")
    && (prefix == "" || prefix == "www." || prefix == "edition.")
    && HasAt(s, p, scheme)
    && HasAt(s, p + |scheme|, prefix)
    && IsLabel(k)
    && HasAt(s, p + |scheme| + |prefix|, k + ".")
  }

  /** The pattern matches at `p` and captures `k`. */
  ghost predicate Captures(s: string, p: nat, k: string)
  {
    exists scheme, prefix :: RegexMatch(s, p, scheme, prefix, k)
  }

  ghost predicate MatchesAt(s: string, p: nat)
  {
    exists scheme, prefix, k :: RegexMatch(s, p, scheme, prefix, k)
  }

  /** The pattern matches at no position before `p`. */
  ghost predicate NoMatchBefore(s: string, p: nat)
  {
    forall i: nat :: i < p ==> !MatchesAt(s, i)
  }

  /** Some match at `p` uses the given optional prefix. */
  ghost predicate AnyMatchWith(s: string, p: nat, prefix: string)
  {
    exists scheme, k :: RegexMatch(s, p, scheme, prefix, k)
  }

  lemma {:induction false} LabelRunExact(s: string, q: nat, n: nat)
    requires q + n <= |s|
    requires AllLabelChars(s[q..q + n])
    requires q + n == |s| || !IsLabelChar(s[q + n])
    ensures LabelRun(s, q) == n
    decreases n
  {
    if n > 0 {
      assert s[q] == s[q..q + n][0];
      assert s[q + 1..q + n] == s[q..q + n][1..];
      LabelRunExact(s, q + 1, n - 1);
    }
  }

  /** A label followed by a dot at `q` is exactly what LabelAt captures there. */
  lemma LabelAtExact(s: string, q: nat, k: string)
    requires IsLabel(k) && HasAt(s, q, k + ".")
    ensures LabelAt(s, q) == Some(k)
  {
    HasAtSlice(s, q, k + ".");
    assert s[q..q + |k| + 1][|k|] == (k + ".")[|k|] == '.';
    assert s[q..q + |k|] == s[q..q + |k| + 1][..|k|] == k;
    LabelRunExact(s, q, |k|);
  }

  /** Whatever LabelAt captures is a label followed by a dot. */
  lemma LabelAtSound(s: string, q: nat)
    requires q <= |s| && LabelAt(s, q).Some?
    ensures IsLabel(LabelAt(s, q).value) && HasAt(s, q, LabelAt(s, q).value + ".")
  {
    var k := LabelAt(s, q).value;
    var n := LabelRun(s, q);
    LabelRunMaximal(s, q);
    assert k == s[q..q + n];
    assert s[q..q + n + 1] == k + ".";
    HasAtSlice(s, q, k + ".");
  }

  /** A scheme that is present is the one SchemeEnd steps over. */
  lemma SchemeEndComplete(s: string, p: nat, scheme: string)
    requires scheme == "http://" || scheme == "https://"
    requires HasAt(s, p, scheme)
    ensures SchemeEnd(s, p) == Some(p + |scheme|)
  {
    HasAtSlice(s, p, scheme);
    HasAtSlice(s, p, "https://");
    if scheme == "http://" && p + 8 <= |s| {
      assert s[p..p + 8][4] == s[p..p + 7][4] == ':';
    }
  }

  /** `www.` and `edition.` cannot both start at `q`. */
  lemma PrefixesExclusive(s: string, q: nat)
    ensures !(HasAt(s, q, "www.") && HasAt(s, q, "edition."))
  {
    if HasAt(s, q, "www.") {
      assert s[q] == 'w';
      assert !HasAt(s, q, "edition.");
    }
  }

  /** A prefix after the scheme that LabelAt accepts the label after. */
  predicate PrefixApplies(s: string, q: nat, prefix: string)
  {
    q + |prefix| <= |s| && HasAt(s, q, prefix) && LabelAt(s, q + |prefix|).Some?
  }

  /**
   * After the scheme: a label with its dot, behind one of the three
   * prefixes, is found; a prefixed one is the capture, and a bare one is
   * the capture when neither prefix applies.
   */
  lemma MatchAfterSchemeComplete(s: string, q: nat, prefix: string, k: string)
    requires prefix == "" || prefix == "www." || prefix == "edition."
    requires HasAt(s, q, prefix) && IsLabel(k) && HasAt(s, q + |prefix|, k + ".")
    ensures MatchAfterScheme(s, q).Some?
    ensures prefix != "" ==> MatchAfterScheme(s, q) == Some(k)
    ensures prefix == "" && !PrefixApplies(s, q, "www.") && !PrefixApplies(s, q, "edition.") ==>
      MatchAfterScheme(s, q) == Some(k)
  {
    LabelAtExact(s, q + |prefix|, k);
    if prefix == "www." {
      assert MatchedPrefix(s, q) == prefix;
    } else if prefix == "edition." {
      PrefixesExclusive(s, q);
      assert MatchedPrefix(s, q) == prefix;
    } else if !PrefixApplies(s, q, "www.") && !PrefixApplies(s, q, "edition.") {
      assert MatchedPrefix(s, q) == "";
    }
  }

  /** What MatchAfterScheme captures is a label with its dot behind one of the prefixes. */
  lemma MatchAfterSchemeSound(s: string, q: nat) returns (prefix: string, k: string)
    requires q <= |s| && MatchAfterScheme(s, q).Some?
    ensures MatchAfterScheme(s, q) == Some(k)
    ensures prefix == "" || prefix == "www." || prefix == "edition."
    ensures HasAt(s, q, prefix) && IsLabel(k) && HasAt(s, q + |prefix|, k + ".")
  {
    prefix := MatchedPrefix(s, q);
    k := MatchAfterScheme(s, q).value;
    assert HasAt(s, q, "");
    LabelAtSound(s, q + |prefix|);
  }

  /** MatchAt captures only what the regular expression matches at `p`. */
  lemma MatchAtSound(s: string, p: nat) returns (scheme: string, prefix: string)
    requires MatchAt(s, p).Some?
    ensures RegexMatch(s, p, scheme, prefix, MatchAt(s, p).value)
  {
    scheme := MatchedScheme(s, p);
    var k;
    prefix, k := MatchAfterSchemeSound(s, p + |scheme|);
    RegexIntro(s, p, scheme, prefix, k);
  }

  lemma RegexIntro(s: string, p: nat, scheme: string, prefix: string, k: string)
    requires scheme == "http://" || scheme == "https://"
    requires prefix == "" || prefix == "www." || prefix == "edition."
    requires HasAt(s, p, scheme) && HasAt(s, p + |scheme|, prefix)
    requires IsLabel(k) && HasAt(s, p + |scheme| + |prefix|, k + ".")
    ensures RegexMatch(s, p, scheme, prefix, k)
  {
  }

  /** The scheme a successful MatchAt stepped over. */
  lemma MatchedScheme(s: string, p: nat) returns (scheme: string)
    requires MatchAt(s, p).Some?
    ensures scheme == "http://" || scheme == "https://"
    ensures HasAt(s, p, scheme) && p + |scheme| <= |s|
    ensures MatchAt(s, p) == MatchAfterScheme(s, p + |scheme|)
  {
    if HasAt(s, p, "https://") {
      scheme := "https://";
    } else {
      scheme := "http://";
    }
  }

  /**
   * Where the regular expression matches at `p`, MatchAt finds a capture,
   * and it is the one of the highest-priority prefix that matches there.
   * (`www.` and `edition.` never both match at one position.)
   */
  lemma MatchAtComplete(s: string, p: nat, scheme: string, prefix: string, k: string)
    requires RegexMatch(s, p, scheme, prefix, k)
    ensures MatchAt(s, p).Some?
    ensures prefix != "" ==> MatchAt(s, p) == Some(k)
    ensures prefix == "" && !AnyMatchWith(s, p, "www.") && !AnyMatchWith(s, p, "edition.") ==>
      MatchAt(s, p) == Some(k)
  {
    MatchAtScheme(s, p, scheme);
    AfterSchemeComplete(s, p, scheme, prefix, k);
  }

  /** MatchAtComplete, behind the scheme. */
  lemma AfterSchemeComplete(s: string, p: nat, scheme: string, prefix: string, k: string)
    requires RegexMatch(s, p, scheme, prefix, k)
    ensures p + |scheme| <= |s|
    ensures MatchAfterScheme(s, p + |scheme|).Some?
    ensures prefix != "" ==> MatchAfterScheme(s, p + |scheme|) == Some(k)
    ensures prefix == "" && !AnyMatchWith(s, p, "www.") && !AnyMatchWith(s, p, "edition.") ==>
      MatchAfterScheme(s, p + |scheme|) == Some(k)
  {
    var q := p + |scheme|;
    MatchAfterSchemeComplete(s, q, prefix, k);
    PrefixNotApplying(s, p, scheme, "www.");
    PrefixNotApplying(s, p, scheme, "edition.");
  }

  /** Where a scheme is present, the match goes on right after it. */
  lemma MatchAtScheme(s: string, p: nat, scheme: string)
    requires scheme == "http://" || scheme == "https://"
    requires HasAt(s, p, scheme)
    ensures p + |scheme| <= |s| && MatchAt(s, p) == MatchAfterScheme(s, p + |scheme|)
  {
    SchemeEndComplete(s, p, scheme);
  }

  /** A prefix that applies after the scheme gives a match at `p`. */
  lemma PrefixNotApplying(s: string, p: nat, scheme: string, prefix: string)
    requires scheme == "http://" || scheme == "https://"
    requires prefix == "www." || prefix == "edition."
    requires HasAt(s, p, scheme)
    ensures PrefixApplies(s, p + |scheme|, prefix) ==> AnyMatchWith(s, p, prefix)
  {
    var q := p + |scheme|;
    if PrefixApplies(s, q, prefix) {
      LabelAtSound(s, q + |prefix|);
      assert RegexMatch(s, p, scheme, prefix, LabelAt(s, q + |prefix|).value);
    }
  }

  lemma MatchesAtInside(s: string, p: nat)
    requires MatchesAt(s, p)
    ensures p < |s|
  {
    var sc, pr, k :| RegexMatch(s, p, sc, pr, k);
  }

  /** The attempt at `p` succeeds exactly when the pattern matches at `p`. */
  lemma AttemptIff(s: string, p: nat)
    requires p <= |s|
    ensures Attempts(s)[p].Some? <==> MatchesAt(s, p)
  {
    if MatchAt(s, p).Some? {
      var _, _ := MatchAtSound(s, p);
    }
    if MatchesAt(s, p) {
      var sc, pr, k :| RegexMatch(s, p, sc, pr, k);
      MatchAtComplete(s, p, sc, pr, k);
    }
  }

  lemma {:induction false} LeftmostFirst(xs: seq<Option<string>>, m: nat)
    requires m < |xs| && xs[m].Some?
    requires forall i :: 0 <= i < m ==> xs[i].None?
    ensures Leftmost(xs) == xs[m]
  {
    if m > 0 {
      assert xs[0].None?;
      LeftmostFirst(xs[1..], m - 1);
    }
  }

  lemma {:induction false} LeftmostSome(xs: seq<Option<string>>) returns (m: nat)
    requires Leftmost(xs).Some?
    ensures m < |xs| && xs[m] == Leftmost(xs)
    ensures forall i :: 0 <= i < m ==> xs[i].None?
  {
    if xs[0].Some? {
      m := 0;
    } else {
      var m' := LeftmostSome(xs[1..]);
      m := m' + 1;
    }
  }

  /** The first successful attempt at or before a successful one. */
  lemma {:induction false} LeftmostFrom(xs: seq<Option<string>>, p: nat) returns (m: nat)
    requires p < |xs| && xs[p].Some?
    ensures m <= p && xs[m].Some?
    ensures forall i :: 0 <= i < m ==> xs[i].None?
  {
    if forall i :: 0 <= i < p ==> xs[i].None? {
      m := p;
    } else {
      var j :| 0 <= j < p && xs[j].Some?;
      m := LeftmostFrom(xs, j);
    }
  }

  /**
   * The derived source is what the pattern captures at the leftmost
   * position where it matches at all; no position before it matches.
   */
  lemma SourceSound(url: string)
    requires SourceOf(url).Some?
    ensures IsLabel(SourceOf(url).value)
    ensures exists p: nat :: Captures(url, p, SourceOf(url).value) && NoMatchBefore(url, p)
  {
    var p, scheme, prefix := SourceWitness(url);
    assert Captures(url, p, SourceOf(url).value);
  }

  /** Where SourceSound's match starts, and how it reads. */
  lemma SourceWitness(url: string) returns (p: nat, scheme: string, prefix: string)
    requires SourceOf(url).Some?
    ensures RegexMatch(url, p, scheme, prefix, SourceOf(url).value) && NoMatchBefore(url, p)
  {
    var xs := Attempts(url);
    p := LeftmostSome(xs);
    assert MatchAt(url, p) == SourceOf(url);
    scheme, prefix := MatchAtSound(url, p);
    forall i: nat | i < p ensures !MatchesAt(url, i) {
      AttemptIff(url, i);
    }
  }

  /** No source exactly when the pattern matches nowhere in the URL. */
  lemma SourceNoneIff(url: string)
    ensures SourceOf(url) == None <==> forall p: nat :: !MatchesAt(url, p)
  {
    var xs := Attempts(url);
    if SourceOf(url).Some? {
      var p, scheme, prefix := SourceWitness(url);
      assert MatchesAt(url, p);
    } else {
      forall p: nat ensures !MatchesAt(url, p) {
        if MatchesAt(url, p) {
          MatchesAtInside(url, p);
          AttemptIff(url, p);
          var m := LeftmostFrom(xs, p);
          LeftmostFirst(xs, m);
        }
      }
    }
  }

  /**
   * Which capture wins at the leftmost matching position: a `www.` or an
   * `edition.` match, else the label right after the scheme.
   */
  lemma SourcePriority(url: string, p: nat, scheme: string, prefix: string, k: string)
    requires RegexMatch(url, p, scheme, prefix, k)
    requires NoMatchBefore(url, p)
    requires prefix == "" ==> !AnyMatchWith(url, p, "www.") && !AnyMatchWith(url, p, "edition.")
    ensures SourceOf(url) == Some(k)
  {
    MatchAtComplete(url, p, scheme, prefix, k);
    var xs := Attempts(url);
    assert xs[p] == Some(k);
    forall i | 0 <= i < p ensures xs[i].None? {
      AttemptIff(url, i);
    }
    LeftmostFirst(xs, p);
  }

  /** A derived source is followed by a dot in the URL; `i` is where. */
  lemma SourceDot(url: string) returns (i: nat)
    requires SourceOf(url).Some?
    ensures i < |url| && url[i] == '.'
  {
    var p, scheme, prefix := SourceWitness(url);
    i := RegexDot(url, p, scheme, prefix, SourceOf(url).value);
  }

  /** The dot that ends a reading of the pattern. */
  lemma RegexDot(s: string, p: nat, scheme: string, prefix: string, k: string) returns (i: nat)
    requires RegexMatch(s, p, scheme, prefix, k)
    ensures i < |s| && s[i] == '.'
  {
    i := p + |scheme| + |prefix| + |k|;
    DotAfter(s, p + |scheme| + |prefix|, k);
  }

  /** A URL without a dot has no source (for example `http://localhost/`). */
  lemma NoDotNoSource(url: string)
    requires forall i :: 0 <= i < |url| ==> url[i] != '.'
    ensures SourceOf(url) == None
  {
    if SourceOf(url).Some? {
      var _ := SourceDot(url);
    }
  }

  /** A URL in which neither `http://` nor `https://` occurs has no source. */
  lemma NoSchemeNoSource(url: string)
    requires forall p: nat :: !HasAt(url, p, "http://") && !HasAt(url, p, "https://")
    ensures SourceOf(url) == None
  {
    if SourceOf(url).Some? {
      var _, _, _ := SourceWitness(url);
    }
  }

  // ---------------------------------------------------------------------
  // The source key on URLs of the shapes the scraper visits.
  // ---------------------------------------------------------------------

  /** `a` occurs at the start of `a + b`. */
  lemma HasAtStart(a: string, b: string)
    ensures HasAt(a + b, 0, a)
  {
    HasAtSlice(a + b, 0, a);
    assert (a + b)[0..|a|] == a;
  }

  /** `w` occurs in `t` at `i` exactly when it occurs in `a + t` at `|a| + i`. */
  lemma HasAtShift(a: string, t: string, i: nat, w: string)
    ensures HasAt(a + t, |a| + i, w) <==> HasAt(t, i, w)
  {
    HasAtSlice(a + t, |a| + i, w);
    HasAtSlice(t, i, w);
    if i + |w| <= |t| {
      assert (a + t)[|a| + i..|a| + i + |w|] == t[i..i + |w|];
    }
  }

  /** The dot of `k + "."` found at `i`. */
  lemma DotAfter(t: string, i: nat, k: string)
    requires HasAt(t, i, k + ".")
    ensures i + |k| < |t| && t[i + |k|] == '.'
  {
    HasAtSlice(t, i, k + ".");
    assert t[i..i + |k| + 1][|k|] == (k + ".")[|k|];
  }

  /** The label that opens `k + "." + rest` is `k` and no other. */
  lemma LabelDotPrefix(k: string, rest: string, w: string)
    requires IsLabel(k) && AllLabelChars(w)
    requires HasAt(k + "." + rest, 0, w + ".")
    ensures w == k
  {
    var t := k + "." + rest;
    HasAtSlice(t, 0, w + ".");
    assert t[0..|k|] == k;
    assert t[0..|w|] == (w + ".")[..|w|] == w;
    assert t[|w|] == (w + ".")[|w|];
    LabelRunExact(t, 0, |k|);
    LabelRunExact(t, 0, |w|);
  }

  /** The three leading parts of `a + b + c + d` sit where their lengths put them. */
  lemma Parts(a: string, b: string, c: string, d: string)
    ensures HasAt(a + b + c + d, 0, a)
    ensures HasAt(a + b + c + d, |a|, b)
    ensures HasAt(a + b + c + d, |a| + |b|, c)
  {
    var s := a + b + c + d;
    HasAtSlice(s, 0, a);
    assert s[0..|a|] == a;
    HasAtSlice(s, |a|, b);
    assert s[|a|..|a| + |b|] == b;
    HasAtSlice(s, |a| + |b|, c);
    assert s[|a| + |b|..|a| + |b| + |c|] == c;
  }

  lemma PrefixedSource(scheme: string, prefix: string, k: string, rest: string)
    requires scheme == "http://" || scheme == "https://"
    requires prefix == "www." || prefix == "edition."
    requires IsLabel(k)
    ensures SourceOf(scheme + prefix + k + "." + rest) == Some(k)
  {
    var url := scheme + prefix + (k + ".") + rest;
    assert scheme + prefix + k + "." + rest == url;
    Parts(scheme, prefix, k + ".", rest);
    RegexIntro(url, 0, scheme, prefix, k);
    SourcePriority(url, 0, scheme, prefix, k);
  }

  lemma PlainSource(scheme: string, k: string, rest: string)
    requires scheme == "http://" || scheme == "https://"
    requires IsLabel(k) && k != "www" && k != "edition"
    ensures SourceOf(scheme + k + "." + rest) == Some(k)
  {
    var url := scheme + "" + (k + ".") + rest;
    assert scheme + k + "." + rest == url;
    Parts(scheme, "", k + ".", rest);
    RegexIntro(url, 0, scheme, "", k);
    assert url == scheme + (k + "." + rest);
    PlainNoPrefix(scheme, k, rest);
    SourcePriority(url, 0, scheme, "", k);
  }

  /** Behind a label other than `www` and `edition`, no match at the start uses a prefix. */
  lemma PlainNoPrefix(scheme: string, k: string, rest: string)
    requires scheme == "http://" || scheme == "https://"
    requires IsLabel(k) && k != "www" && k != "edition"
    ensures !AnyMatchWith(scheme + (k + "." + rest), 0, "www.")
    ensures !AnyMatchWith(scheme + (k + "." + rest), 0, "edition.")
  {
    NoPrefixAfter(scheme, k, rest, "www");
    NoPrefixAfter(scheme, k, rest, "edition");
    assert "www" + "." == "www." && "edition" + "." == "edition.";
  }

  /** A prefix some match at the start uses sits right after the scheme, with a label and a dot behind it. */
  lemma PrefixAfterScheme(scheme: string, t: string, prefix: string) returns (k: string)
    requires scheme == "http://" || scheme == "https://"
    requires AnyMatchWith(scheme + t, 0, prefix)
    ensures HasAt(t, 0, prefix) && IsLabel(k) && HasAt(t, |prefix|, k + ".")
  {
    var url := scheme + t;
    var sc, k' :| RegexMatch(url, 0, sc, prefix, k');
    k := k';
    HasAtStart(scheme, t);
    SchemeEndComplete(url, 0, scheme);
    SchemeEndComplete(url, 0, sc);
    HasAtShift(scheme, t, 0, prefix);
    HasAtShift(scheme, t, |prefix|, k + ".");
  }

  /** Neither `www.` nor `edition.` begins a host that starts with another label. */
  lemma NoPrefixAfter(scheme: string, k: string, rest: string, word: string)
    requires scheme == "http://" || scheme == "https://"
    requires word == "www" || word == "edition"
    requires IsLabel(k) && k != word
    ensures !AnyMatchWith(scheme + (k + "." + rest), 0, word + ".")
  {
    if AnyMatchWith(scheme + (k + "." + rest), 0, word + ".") {
      var _ := PrefixAfterScheme(scheme, k + "." + rest, word + ".");
      LabelDotPrefix(k, rest, word);
    }
  }

  lemma BacktrackSource(scheme: string, rest: string)
    requires scheme == "http://" || scheme == "https://"
    requires forall i :: 0 <= i < |rest| ==> rest[i] != '.'
    ensures SourceOf(scheme + "www." + rest) == Some("www")
  {
    var url := scheme + "" + ("www" + ".") + rest;
    var t := "www." + rest;
    assert scheme + "www." + rest == url;
    Parts(scheme, "", "www" + ".", rest);
    assert IsLabel("www");
    RegexIntro(url, 0, scheme, "", "www");
    assert url == scheme + t;
    BacktrackNoPrefix(scheme, rest);
    SourcePriority(url, 0, scheme, "", "www");
  }

  /** With no dot after `www.`, no match at the start uses a prefix. */
  lemma BacktrackNoPrefix(scheme: string, rest: string)
    requires scheme == "http://" || scheme == "https://"
    requires forall i :: 0 <= i < |rest| ==> rest[i] != '.'
    ensures !AnyMatchWith(scheme + ("www." + rest), 0, "www.")
    ensures !AnyMatchWith(scheme + ("www." + rest), 0, "edition.")
  {
    var t := "www." + rest;
    if AnyMatchWith(scheme + t, 0, "www.") {
      var k := PrefixAfterScheme(scheme, t, "www.");
      HasAtShift("www.", rest, 0, k + ".");
      DotAfter(rest, 0, k);
    }
    if AnyMatchWith(scheme + t, 0, "edition.") {
      var _ := PrefixAfterScheme(scheme, t, "edition.");
    }
  }

  lemma SourceFt()
    ensures SourceOf("https://www.ft.com/") == Some("ft")
  {
    assert "https://" + "www." + "ft" + "." + "com/" == "https://www.ft.com/";
    PrefixedSource("https://", "www.", "ft", "com/");
  }

  lemma SourceCnn()
    ensures SourceOf("https://edition.cnn.com/markets") == Some("cnn")
  {
    assert "https://" + "edition." + "cnn" + "." + "com/markets" == "https://edition.cnn.com/markets";
    PrefixedSource("https://", "edition.", "cnn", "com/markets");
  }

  lemma SourceExample()
    ensures SourceOf("https://example.org/a") == Some("example")
  {
    assert "https://" + "example" + "." + "org/a" == "https://example.org/a";
    PlainSource("https://", "example", "org/a");
  }

  lemma SourceNews()
    ensures SourceOf("https://news.bbc.co.uk/") == Some("news")
  {
    assert "https://" + "news" + "." + "bbc.co.uk/" == "https://news.bbc.co.uk/";
    PlainSource("https://", "news", "bbc.co.uk/");
  }

  lemma SourceWwwCom()
    ensures SourceOf("https://www.com") == Some("www")
  {
    assert "https://" + "www." + "com" == "https://www.com";
    BacktrackSource("https://", "com");
  }

  lemma SourceLocalhost()
    ensures SourceOf("http://localhost/") == None
  {
    NoDotNoSource("http://localhost/");
  }

  // ---------------------------------------------------------------------
  // The headlines table: rows keyed by id, unique on (source, headline)
  // when the source is present.
  // ---------------------------------------------------------------------

  /** A reading of the clock, stored in the `scraped` column. */
  type Timestamp = int

  datatype Row = Row(
    id: nat,
    source: Option<string>,
    headline: string,
    url: string,
    scraped: Timestamp,
    sentimentScore: Option<real>,
    sentiment: Option<string>)

  /** The table's rows by id, and the id the next inserted row receives. */
  datatype Table = Table(rows: map<nat, Row>, nextId: nat)

  /**
   * Ids are below the counter and agree with the row they key, and two rows
   * with the same present source never share a headline. A missing source
   * never conflicts, as NULLs are distinct in a unique index.
   */
  ghost predicate ValidTable(t: Table)
  {
    && (forall id :: id in t.rows ==> id < t.nextId && t.rows[id].id == id)
    && (forall i, j ::
          (i in t.rows && j in t.rows && t.rows[i].source.Some? &&
           t.rows[i].source == t.rows[j].source && t.rows[i].headline == t.rows[j].headline) ==> i == j)
  }

  /** Some row holds the key (source, h). */
  predicate HasKey(t: Table, source: string, h: string)
  {
    exists id :: id in t.rows && t.rows[id].source == Some(source) && t.rows[id].headline == h
  }

  /** One `INSERT ... ON CONFLICT (source, headline) DO NOTHING`. */
  function InsertRow(t: Table, source: Option<string>, h: string, url: string, at: Timestamp): Table
  {
    if source.Some? && HasKey(t, source.value, h) then t
    else Table(t.rows[t.nextId := Row(t.nextId, source, h, url, at, None, None)], t.nextId + 1)
  }

  /** The insert loop: one InsertRow per headline, in order, with its own clock reading. */
  function InsertBatch(t: Table, source: Option<string>, url: string, hs: seq<string>, clock: seq<Timestamp>): Table
    requires |clock| == |hs|
  {
    if hs == [] then t
    else
      var n := |hs| - 1;
      InsertRow(InsertBatch(t, source, url, hs[..n], clock[..n]), source, hs[n], url, clock[n])
  }

  /**
   * One insert: the old rows stay as they were, and either the key was
   * present and nothing changed, or exactly one row, under the old counter
   * and with no sentiment yet, was added.
   */
  lemma InsertRowEffect(t: Table, source: Option<string>, h: string, url: string, at: Timestamp)
    requires ValidTable(t)
    ensures var r := InsertRow(t, source, h, url, at);
      && (forall id :: id in t.rows ==> id in r.rows && r.rows[id] == t.rows[id])
      && (source.Some? && HasKey(t, source.value, h) ==> r == t)
      && (!(source.Some? && HasKey(t, source.value, h)) ==>
            && r.nextId == t.nextId + 1
            && r.rows.Keys == t.rows.Keys + {t.nextId}
            && t.nextId !in t.rows
            && r.rows[t.nextId] == Row(t.nextId, source, h, url, at, None, None))
      && (source.Some? ==> HasKey(r, source.value, h))
  {
    var r := InsertRow(t, source, h, url, at);
    if source.Some? && !HasKey(t, source.value, h) {
      assert r.rows[t.nextId].source == source && r.rows[t.nextId].headline == h;
    }
  }

  lemma InsertRowValid(t: Table, source: Option<string>, h: string, url: string, at: Timestamp)
    requires ValidTable(t)
    ensures ValidTable(InsertRow(t, source, h, url, at))
  {
    InsertRowEffect(t, source, h, url, at);
  }

  /** The insert loop, one headline further. */
  lemma InsertBatchStep(t: Table, source: Option<string>, url: string, hs: seq<string>, clock: seq<Timestamp>, i: nat)
    requires |clock| == |hs| && i < |hs|
    ensures InsertBatch(t, source, url, hs[..i + 1], clock[..i + 1]) ==
      InsertRow(InsertBatch(t, source, url, hs[..i], clock[..i]), source, hs[i], url, clock[i])
  {
    assert hs[..i + 1][..i] == hs[..i] && clock[..i + 1][..i] == clock[..i];
  }

  /** The insert loop keeps the table's invariant. */
  lemma {:induction false} InsertBatchValid(t: Table, source: Option<string>, url: string, hs: seq<string>, clock: seq<Timestamp>)
    requires |clock| == |hs| && ValidTable(t)
    ensures ValidTable(InsertBatch(t, source, url, hs, clock))
  {
    if hs != [] {
      var n := |hs| - 1;
      InsertBatchValid(t, source, url, hs[..n], clock[..n]);
      InsertRowValid(InsertBatch(t, source, url, hs[..n], clock[..n]), source, hs[n], url, clock[n]);
    }
  }

  /**
   * What a batch does to the table: existing rows, timestamps included, are
   * untouched; every new row carries the batch's source and URL, one of its
   * headlines and no sentiment yet, under an id at or above the old counter.
   */
  lemma {:induction false} InsertBatchRows(t: Table, source: Option<string>, url: string, hs: seq<string>, clock: seq<Timestamp>)
    requires |clock| == |hs| && ValidTable(t)
    ensures var r := InsertBatch(t, source, url, hs, clock);
      && t.nextId <= r.nextId
      && (forall id :: id in t.rows ==> id in r.rows && r.rows[id] == t.rows[id])
      && (forall id :: id in r.rows && id !in t.rows ==>
            && t.nextId <= id < r.nextId
            && r.rows[id].source == source && r.rows[id].url == url
            && r.rows[id].headline in hs
            && r.rows[id].sentimentScore == None && r.rows[id].sentiment == None)
  {
    if hs != [] {
      var n := |hs| - 1;
      InsertBatchRows(t, source, url, hs[..n], clock[..n]);
      InsertBatchValid(t, source, url, hs[..n], clock[..n]);
      var prev := InsertBatch(t, source, url, hs[..n], clock[..n]);
      InsertRowEffect(prev, source, hs[n], url, clock[n]);
      assert forall x :: x in hs[..n] ==> x in hs;
    }
  }

  /** With a present source, every headline of the batch is in the table afterwards. */
  lemma {:induction false} InsertBatchComplete(t: Table, source: string, url: string, hs: seq<string>, clock: seq<Timestamp>)
    requires |clock| == |hs| && ValidTable(t)
    ensures forall h :: h in hs ==> HasKey(InsertBatch(t, Some(source), url, hs, clock), source, h)
  {
    if hs != [] {
      var n := |hs| - 1;
      InsertBatchComplete(t, source, url, hs[..n], clock[..n]);
      InsertBatchValid(t, Some(source), url, hs[..n], clock[..n]);
      var prev := InsertBatch(t, Some(source), url, hs[..n], clock[..n]);
      InsertRowEffect(prev, Some(source), hs[n], url, clock[n]);
      var r := InsertBatch(t, Some(source), url, hs, clock);
      forall h | h in hs ensures HasKey(r, source, h) {
        if h != hs[n] {
          assert h in hs[..n];
          var id :| id in prev.rows && prev.rows[id].source == Some(source) && prev.rows[id].headline == h;
          assert id in r.rows && r.rows[id] == prev.rows[id];
        }
      }
    }
  }

  /** Inserting keys that are all present already changes nothing. */
  lemma {:induction false} InsertBatchPresent(t: Table, source: string, url: string, hs: seq<string>, clock: seq<Timestamp>)
    requires |clock| == |hs|
    requires forall h :: h in hs ==> HasKey(t, source, h)
    ensures InsertBatch(t, Some(source), url, hs, clock) == t
  {
    if hs != [] {
      var n := |hs| - 1;
      assert forall h :: h in hs[..n] ==> h in hs;
      InsertBatchPresent(t, source, url, hs[..n], clock[..n]);
    }
  }

  /**
   * Running the same batch again, at later clock readings, leaves the table
   * as the first run left it.
   */
  lemma InsertBatchIdempotent(t: Table, source: string, url: string, hs: seq<string>, clock: seq<Timestamp>, later: seq<Timestamp>)
    requires |clock| == |hs| && |later| == |hs| && ValidTable(t)
    ensures var once := InsertBatch(t, Some(source), url, hs, clock);
      InsertBatch(once, Some(source), url, hs, later) == once
  {
    InsertBatchComplete(t, source, url, hs, clock);
    InsertBatchPresent(InsertBatch(t, Some(source), url, hs, clock), source, url, hs, later);
  }

  /**
   * With a present source, a batch adds at most one row per distinct
   * headline: a headline repeated in the batch, or already stored, is
   * stored once.
   */
  lemma OneRowPerHeadline(t: Table, source: string, url: string, hs: seq<string>, clock: seq<Timestamp>, i: nat, j: nat)
    requires |clock| == |hs| && ValidTable(t)
    requires var r := InsertBatch(t, Some(source), url, hs, clock);
      i in r.rows && j in r.rows && r.rows[i].source == r.rows[j].source == Some(source) &&
      r.rows[i].headline == r.rows[j].headline
    ensures i == j
  {
    InsertBatchValid(t, Some(source), url, hs, clock);
  }

  /** Without a source nothing conflicts: every headline of the batch becomes a row. */
  lemma {:induction false} InsertBatchNoSource(t: Table, url: string, hs: seq<string>, clock: seq<Timestamp>)
    requires |clock| == |hs| && ValidTable(t)
    ensures var r := InsertBatch(t, None, url, hs, clock);
      r.nextId == t.nextId + |hs| && |r.rows| == |t.rows| + |hs|
    ensures var r := InsertBatch(t, None, url, hs, clock);
      forall id :: t.nextId <= id < t.nextId + |hs| ==>
        id in r.rows && r.rows[id] == Row(id, None, hs[id - t.nextId], url, clock[id - t.nextId], None, None)
  {
    if hs != [] {
      var n := |hs| - 1;
      InsertBatchNoSource(t, url, hs[..n], clock[..n]);
      InsertBatchValid(t, None, url, hs[..n], clock[..n]);
      assert InsertBatch(t, None, url, hs[..n], clock[..n]).nextId !in InsertBatch(t, None, url, hs[..n], clock[..n]).rows;
      NoSourceStep(t, InsertBatch(t, None, url, hs[..n], clock[..n]), url, hs, clock);
    }
  }

  /** One more source-less insert after `n` of them lands under the next id. */
  lemma NoSourceStep(t: Table, prev: Table, url: string, hs: seq<string>, clock: seq<Timestamp>)
    requires |clock| == |hs| > 0 && prev.nextId !in prev.rows
    requires var n := |hs| - 1;
      && prev.nextId == t.nextId + n && |prev.rows| == |t.rows| + n
      && forall id :: t.nextId <= id < t.nextId + n ==>
        id in prev.rows && prev.rows[id] == Row(id, None, hs[..n][id - t.nextId], url, clock[..n][id - t.nextId], None, None)
    ensures var r := InsertRow(prev, None, hs[|hs| - 1], url, clock[|hs| - 1]);
      && r.nextId == t.nextId + |hs| && |r.rows| == |t.rows| + |hs|
      && forall id :: t.nextId <= id < t.nextId + |hs| ==>
        id in r.rows && r.rows[id] == Row(id, None, hs[id - t.nextId], url, clock[id - t.nextId], None, None)
  {
    var n := |hs| - 1;
    var rows := prev.rows[prev.nextId := Row(prev.nextId, None, hs[n], url, clock[n], None, None)];
    assert InsertRow(prev, None, hs[n], url, clock[n]) == Table(rows, prev.nextId + 1);
    assert |rows| == |prev.rows| + 1;
    forall id | t.nextId <= id < t.nextId + |hs|
      ensures id in rows && rows[id] == Row(id, None, hs[id - t.nextId], url, clock[id - t.nextId], None, None)
    {
      if id < t.nextId + n {
        var k := id - t.nextId;
        assert hs[..n][k] == hs[k] && clock[..n][k] == clock[k];
      }
    }
  }

  // ---------------------------------------------------------------------
  // The sentiment update loop: `UPDATE headlines SET ... WHERE id = ...`.
  // ---------------------------------------------------------------------

  /** One row of the scored frame: the id and the two values to store. */
  datatype Update = Update(id: nat, score: real, sentiment: string)

  /** One UPDATE by id; an id with no row matches nothing. */
  function ApplyUpdate(t: Table, u: Update): Table
  {
    if u.id in t.rows then
      Table(t.rows[u.id := t.rows[u.id].(sentimentScore := Some(u.score), sentiment := Some(u.sentiment))], t.nextId)
    else t
  }

  /** The update loop, in the frame's row order. */
  function ApplyUpdates(t: Table, us: seq<Update>): Table
  {
    if us == [] then t else ApplyUpdate(ApplyUpdates(t, us[..|us| - 1]), us[|us| - 1])
  }

  /** The update loop, one update further. */
  lemma ApplyUpdatesStep(t: Table, us: seq<Update>, i: nat)
    requires i < |us|
    ensures ApplyUpdates(t, us[..i + 1]) == ApplyUpdate(ApplyUpdates(t, us[..i]), us[i])
  {
    assert us[..i + 1][..i] == us[..i];
  }

  /** The last update in `us` addressed to `id`, if any. */
  function LastFor(us: seq<Update>, id: nat): (r: Option<Update>)
    ensures r.None? ==> forall k :: 0 <= k < |us| ==> us[k].id != id
    ensures r.Some? ==> r.value.id == id
    ensures r.Some? ==> exists k :: 0 <= k < |us| && us[k] == r.value && (forall j :: k < j < |us| ==> us[j].id != id)
  {
    if us == [] then None
    else if us[|us| - 1].id == id then Some(us[|us| - 1])
    else LastFor(us[..|us| - 1], id)
  }

  /**
   * The update loop touches only the two sentiment columns, and only of
   * rows whose id occurs in the frame, where the last occurrence wins; the
   * set of rows and the id counter do not change.
   */
  lemma {:induction false} ApplyUpdatesEffect(t: Table, us: seq<Update>)
    ensures var r := ApplyUpdates(t, us);
      && r.nextId == t.nextId
      && r.rows.Keys == t.rows.Keys
      && (forall id :: id in t.rows && LastFor(us, id).None? ==> r.rows[id] == t.rows[id])
      && (forall id :: id in t.rows && LastFor(us, id).Some? ==>
            r.rows[id] == t.rows[id].(sentimentScore := Some(LastFor(us, id).value.score),
                                      sentiment := Some(LastFor(us, id).value.sentiment)))
  {
    if us != [] {
      var n := |us| - 1;
      ApplyUpdatesEffect(t, us[..n]);
      ApplyUpdateEffect(ApplyUpdates(t, us[..n]), us[n]);
    }
  }

  /** One update: only the addressed row's two sentiment columns change. */
  lemma ApplyUpdateEffect(t: Table, u: Update)
    ensures var r := ApplyUpdate(t, u);
      && r.nextId == t.nextId
      && r.rows.Keys == t.rows.Keys
      && (forall id :: id in t.rows && id != u.id ==> r.rows[id] == t.rows[id])
      && (u.id in t.rows ==>
            r.rows[u.id] == t.rows[u.id].(sentimentScore := Some(u.score), sentiment := Some(u.sentiment)))
  {
  }

  /** The update loop keeps the table's invariant. */
  lemma ApplyUpdatesValid(t: Table, us: seq<Update>)
    requires ValidTable(t)
    ensures ValidTable(ApplyUpdates(t, us))
  {
    ApplyUpdatesEffect(t, us);
  }

  // ---------------------------------------------------------------------
  // The table as the two loops see it: a store updated row by row.
  // ---------------------------------------------------------------------

  class HeadlineStore {
    var rows: map<nat, Row>
    var nextId: nat

    function State(): Table
      reads this
    {
      Table(rows, nextId)
    }

    ghost predicate Valid()
      reads this
    {
      ValidTable(State())
    }

    /** An empty table. */
    constructor ()
      ensures State() == Table(map[], 0) && Valid()
    {
      rows := map[];
      nextId := 0;
    }

    /**
     * Stores a page's headlines: the source is derived once from the URL,
     * then each headline is inserted unless its (source, headline) key is
     * present. `clock` holds the clock reading taken for each insert.
     */
    method Headlines2Db(url: string, headlines: seq<string>, clock: seq<Timestamp>)
      requires Valid() && |clock| == |headlines|
      modifies this
      ensures State() == InsertBatch(old(State()), SourceOf(url), url, headlines, clock)
      ensures Valid()
    {
      var source := SourceOf(url);
      for i := 0 to |headlines|
        invariant State() == InsertBatch(old(State()), source, url, headlines[..i], clock[..i])
        invariant Valid()
      {
        InsertBatchStep(old(State()), source, url, headlines, clock, i);
        InsertRowValid(State(), source, headlines[i], url, clock[i]);
        var h := headlines[i];
        var conflict := source.Some? && HasKey(State(), source.value, h);
        if !conflict {
          rows := rows[nextId := Row(nextId, source, h, url, clock[i], None, None)];
          nextId := nextId + 1;
        }
      }
      assert headlines[..|headlines|] == headlines && clock[..|clock|] == clock;
    }

    /** Stores each scored row's score and label on the row with its id. */
    method Sentiment2Db(updates: seq<Update>)
      modifies this
      ensures State() == ApplyUpdates(old(State()), updates)
      ensures old(Valid()) ==> Valid()
    {
      for i := 0 to |updates|
        invariant State() == ApplyUpdates(old(State()), updates[..i])
      {
        ApplyUpdatesStep(old(State()), updates, i);
        var u := updates[i];
        if u.id in rows {
          rows := rows[u.id := rows[u.id].(sentimentScore := Some(u.score), sentiment := Some(u.sentiment))];
        }
      }
      assert updates[..|updates|] == updates;
      if old(Valid()) {
        ApplyUpdatesValid(old(State()), updates);
      }
    }
  }
}
