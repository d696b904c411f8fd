/**
 * Hand-written scanners for the regular-expression shapes the extraction uses.
 *
 * Most patterns are a chain of literals joined by lazy gaps, `L0(.*?)L1(.*?)L2...`, used with
 * the `s` flag so that a gap may hold any character. A lazy gap stops at the first occurrence
 * of the next literal, so a chain is found by taking the first occurrence of each literal after
 * the previous one. The document-reference pattern `\d{1,3}\/\d{1,10}` is scanned position by
 * position.
 */
module Patterns {
  import opened Wrappers
  import opened JsString

  /** A match of a pattern: the characters `s[start..end]`. */
  datatype Span = Span(start: nat, end: nat)

  /** `p` occurs in `s` ending at index `e`. */
  predicate EndsAt(s: string, e: nat, p: string) {
    |p| <= e <= |s| && s[e - |p|..e] == p
  }

  function Last(lits: seq<string>): string
    requires lits != []
  {
    lits[|lits| - 1]
  }

  /**
   * Where the rest `.*?lits[0].*?lits[1]...` of a chain ends when the previous literal ended at
   * `from`: every lazy gap stops at the first occurrence of the literal after it.
   */
  function ChainEnd(s: string, lits: seq<string>, from: nat): (r: Option<nat>)
    requires from <= |s|
    decreases |lits|
    ensures r.Some? ==> from <= r.value <= |s|
  {
    if lits == [] then Some(from)
    else
      match IndexOf(s, lits[0], from)
      case None => None
      case Some(i) => ChainEnd(s, lits[1..], i + |lits[0]|)
  }

  /** A chain that completes ends with its last literal. */
  lemma {:induction false} ChainEndLast(s: string, lits: seq<string>, from: nat)
    requires from <= |s| && lits != [] && ChainEnd(s, lits, from).Some?
    ensures from + |Last(lits)| <= ChainEnd(s, lits, from).value
    ensures EndsAt(s, ChainEnd(s, lits, from).value, Last(lits))
    decreases |lits|
  {
    var i := IndexOf(s, lits[0], from).value;
    var y := i + |lits[0]|;
    ChainEndUnfold(s, lits, from, i, y);
    if |lits| == 1 {
      assert lits[1..] == [];
      assert ChainEnd(s, lits[1..], y).value == y;
    } else {
      assert Last(lits[1..]) == Last(lits);
      ChainEndLast(s, lits[1..], y);
    }
  }

  /**
   * The first match at or after `from` of the chain `lits[0].*?lits[1].*?...`: the first
   * occurrence of `lits[0]`, continued lazily.
   */
  function LazyMatch(s: string, lits: seq<string>, from: nat): (r: Option<Span>)
    requires lits != []
    ensures r.Some? ==> from <= r.value.start && r.value.start + |lits[0]| <= r.value.end <= |s|
    ensures r.Some? ==> StartsAt(s, r.value.start, lits[0]) && EndsAt(s, r.value.end, Last(lits))
    ensures r.Some? && |lits| >= 2 ==> r.value.start + |lits[0]| + |Last(lits)| <= r.value.end
    ensures r.Some? ==> ChainEnd(s, lits[1..], r.value.start + |lits[0]|).Some?
    ensures r.Some? ==> ChainEnd(s, lits[1..], r.value.start + |lits[0]|).value == r.value.end
  {
    match IndexOf(s, lits[0], from)
    case None => None
    case Some(i) =>
      match ChainEnd(s, lits[1..], i + |lits[0]|)
      case None => None
      case Some(e) =>
        if |lits| >= 2 then
          assert Last(lits[1..]) == Last(lits);
          ChainEndLast(s, lits[1..], i + |lits[0]|);
          Some(Span(i, e))
        else
          Some(Span(i, e))
  }

  /** A match starts at the leftmost occurrence of `lits[0]`: no occurrence lies before it. */
  lemma LazyMatchLeftmost(s: string, lits: seq<string>, from: nat, k: nat)
    requires lits != [] && LazyMatch(s, lits, from).Some?
    requires from <= k && StartsAt(s, k, lits[0])
    ensures LazyMatch(s, lits, from).value.start <= k
  {
    IndexOfFirst(s, lits[0], from, k);
  }

  /** A later starting point never lets a chain succeed that failed from an earlier one. */
  lemma {:induction false} ChainEndMonotone(s: string, lits: seq<string>, a: nat, b: nat)
    requires a <= b <= |s|
    requires ChainEnd(s, lits, a).None?
    ensures ChainEnd(s, lits, b).None?
    decreases |lits|
  {
    match IndexOf(s, lits[0], b)
    case None =>
    case Some(j) =>
      IndexOfFirst(s, lits[0], a, j);
      var i := IndexOf(s, lits[0], a).value;
      var x, y := i + |lits[0]|, j + |lits[0]|;
      ChainEndUnfold(s, lits, a, i, x);
      ChainEndUnfold(s, lits, b, j, y);
      ChainEndMonotone(s, lits[1..], x, y);
  }

  /**
   * Taking the first occurrence of `lits[0]` loses no match: when the scan finds nothing, no
   * occurrence of `lits[0]` at or after `from` starts a chain that completes.
   */
  lemma LazyMatchComplete(s: string, lits: seq<string>, from: nat)
    requires lits != [] && LazyMatch(s, lits, from).None?
    ensures forall k: nat :: from <= k && StartsAt(s, k, lits[0]) ==>
              ChainEnd(s, lits[1..], k + |lits[0]|).None?
  {
    forall k: nat | from <= k && StartsAt(s, k, lits[0])
      ensures ChainEnd(s, lits[1..], k + |lits[0]|).None?
    {
      IndexOfFirst(s, lits[0], from, k);
      var i := IndexOf(s, lits[0], from).value;
      var x, y := i + |lits[0]|, k + |lits[0]|;
      ChainEndMonotone(s, lits[1..], x, y);
    }
  }

  lemma SliceOfSlice(s: string, a: nat, b: nat, x: nat, y: nat)
    requires a <= b <= |s| && x <= y <= b - a
    ensures s[a..b][x..y] == s[a + x..a + y]
  {
    assert forall j :: 0 <= j < y - x ==> s[a..b][x..y][j] == s[a + x + j];
  }

  /** An occurrence in `s` that lies inside the slice `s[a..b]` is one of the slice, shifted. */
  lemma StartsAtInSlice(s: string, p: string, a: nat, b: nat, k: nat, i: nat)
    requires a <= b <= |s| && k + |p| <= b - a && i == a + k && StartsAt(s, i, p)
    ensures StartsAt(s[a..b], k, p)
  {
    SliceOfSlice(s, a, b, k, k + |p|);
  }

  /** An occurrence in the slice `s[a..b]` is one of `s`, shifted. */
  lemma StartsAtOfSlice(s: string, p: string, a: nat, b: nat, k: nat, i: nat)
    requires a <= b <= |s| && k + |p| <= b - a && i == a + k && StartsAt(s[a..b], k, p)
    ensures StartsAt(s, i, p)
  {
    SliceOfSlice(s, a, b, k, k + |p|);
  }

  /** Searching a slice `s[a..b]` finds the same occurrence, shifted, when it lies inside it. */
  lemma IndexOfSlice(s: string, p: string, f: nat, a: nat, b: nat, i: nat)
    requires a <= f && b <= |s|
    requires IndexOf(s, p, f) == Some(i) && i + |p| <= b
    ensures a <= i && f - a <= b - a && IndexOf(s[a..b], p, f - a) == Some(i - a)
  {
    var t := s[a..b];
    IndexOfSliceNoLater(s, p, f, a, b, i);
    var j := IndexOf(t, p, f - a).value;
    StartsAtOfSlice(s, p, a, b, j, a + j);
    IndexOfFirst(s, p, f, a + j);
  }

  /** The search in the slice finds an occurrence no later than the shifted one. */
  lemma IndexOfSliceNoLater(s: string, p: string, f: nat, a: nat, b: nat, i: nat)
    requires a <= f && b <= |s|
    requires IndexOf(s, p, f) == Some(i) && i + |p| <= b
    ensures a <= i && f - a <= i - a
    ensures IndexOf(s[a..b], p, f - a).Some? && IndexOf(s[a..b], p, f - a).value <= i - a
  {
    var k := i - a;
    StartsAtInSlice(s, p, a, b, k, i);
    IndexOfFirst(s[a..b], p, f - a, k);
  }

  /** One literal of a chain: the rest of the chain continues after its first occurrence. */
  lemma ChainEndUnfold(t: string, lits: seq<string>, x: nat, i: nat, y: nat)
    requires lits != [] && x <= |t| && IndexOf(t, lits[0], x) == Some(i) && y == i + |lits[0]|
    ensures y <= |t|
    ensures ChainEnd(t, lits, x).Some? == ChainEnd(t, lits[1..], y).Some?
    ensures ChainEnd(t, lits, x).Some? ==> ChainEnd(t, lits, x).value == ChainEnd(t, lits[1..], y).value
  {
  }

  /** The first literal of a chain is found again, shifted, in a slice that holds it. */
  lemma ChainEndSliceHead(s: string, lits: seq<string>, f: nat, a: nat, b: nat, i: nat, g: nat,
                          t: string, x: nat, z: nat)
    requires lits != [] && a <= f <= |s| && b <= |s|
    requires IndexOf(s, lits[0], f) == Some(i) && g == i + |lits[0]| && g <= b
    requires a <= b && t == s[a..b] && x == f - a && z == g - a
    ensures x <= |t| && z <= |t|
    ensures ChainEnd(t, lits, x).Some? == ChainEnd(t, lits[1..], z).Some?
    ensures ChainEnd(t, lits, x).Some? ==> ChainEnd(t, lits, x).value == ChainEnd(t, lits[1..], z).value
  {
    IndexOfSlice(s, lits[0], f, a, b, i);
    ChainEndUnfold(t, lits, x, i - a, z);
  }

  /** A chain that ends inside `s[a..b]` is found again, shifted, in that slice. */
  lemma {:induction false} ChainEndSlice(s: string, lits: seq<string>, f: nat, a: nat, b: nat, e: nat,
                                         t: string, x: nat)
    requires a <= f <= |s| && a <= b <= |s| && t == s[a..b] && x == f - a
    requires ChainEnd(s, lits, f).Some? && ChainEnd(s, lits, f).value == e && e <= b
    ensures x <= |t|
    ensures ChainEnd(t, lits, x).Some? && ChainEnd(t, lits, x).value == e - a
    decreases |lits|
  {
    if lits == [] {
      assert ChainEnd(t, lits, x) == Some(x);
    } else {
      var i := IndexOf(s, lits[0], f).value;
      var g := i + |lits[0]|;
      var z := g - a;
      ChainEndUnfold(s, lits, f, i, g);
      ChainEndSlice(s, lits[1..], g, a, b, e, t, z);
      ChainEndSliceHead(s, lits, f, a, b, i, g, t, x, z);
    }
  }

  /** `t` as a whole is a match of the chain `lits`. */
  predicate IsChainText(t: string, lits: seq<string>)
    requires lits != []
  {
    StartsAt(t, 0, lits[0]) && ChainEnd(t, lits[1..], |lits[0]|).Some?
    && ChainEnd(t, lits[1..], |lits[0]|).value == |t|
  }

  /** The text of a match is itself a match of the chain, from its first character to its last. */
  lemma MatchIsChain(s: string, lits: seq<string>, start: nat, end: nat)
    requires lits != [] && start + |lits[0]| <= end <= |s| && StartsAt(s, start, lits[0])
    requires ChainEnd(s, lits[1..], start + |lits[0]|).Some?
    requires ChainEnd(s, lits[1..], start + |lits[0]|).value == end
    ensures IsChainText(s[start..end], lits)
  {
    var t := s[start..end];
    var rest := lits[1..];
    var x := start + |lits[0]|;
    ChainEndSlice(s, rest, x, start, end, end, t, |lits[0]|);
    StartsAtInSlice(s, lits[0], start, end, 0, start);
  }

  /** The text of each span of `s`, in order. */
  function Texts(s: string, spans: seq<Span>): (r: seq<string>)
    requires forall k :: 0 <= k < |spans| ==> spans[k].start <= spans[k].end <= |s|
    ensures |r| == |spans|
    ensures forall k :: 0 <= k < |r| ==> r[k] == s[spans[k].start..spans[k].end]
  {
    seq(|spans|, k requires 0 <= k < |spans| => s[spans[k].start..spans[k].end])
  }

  /**
   * A pattern tried at each position of a text of length `n`: `at(i)` is the length of the match
   * that starts at `i`, if the pattern matches there. Such a match is never empty and never runs
   * past the text.
   */
  ghost predicate Progress(n: nat, at: nat -> Option<nat>) {
    forall i: nat :: i < n && at(i).Some? ==> 0 < at(i).value && i + at(i).value <= n
  }

  /**
   * `s.match(re)` with the `g` flag, as spans of a text of length `n`: the pattern is tried at
   * `from` and then at each following position; after a match the search resumes where the
   * match ended.
   */
  function ScanSpans(n: nat, at: nat -> Option<nat>, from: nat): (r: seq<Span>)
    requires Progress(n, at)
    decreases n - from
  {
    if from >= n then []
    else
      match at(from)
      case None => ScanSpans(n, at, from + 1)
      case Some(m) => [Span(from, from + m)] + ScanSpans(n, at, from + m)
  }

  /** Each span the scan reports lies in the text, after `from`, and is a match of the pattern. */
  lemma {:induction false} ScanSpansMatch(n: nat, at: nat -> Option<nat>, from: nat)
    requires Progress(n, at)
    ensures forall k :: 0 <= k < |ScanSpans(n, at, from)| ==>
              from <= ScanSpans(n, at, from)[k].start < ScanSpans(n, at, from)[k].end <= n
              && at(ScanSpans(n, at, from)[k].start).Some?
              && at(ScanSpans(n, at, from)[k].start).value == ScanSpans(n, at, from)[k].end - ScanSpans(n, at, from)[k].start
    decreases n - from
  {
    if from < n {
      if at(from).None? {
        assert ScanSpans(n, at, from) == ScanSpans(n, at, from + 1);
        ScanSpansMatch(n, at, from + 1);
      } else {
        var m := at(from).value;
        var r := ScanSpans(n, at, from + m);
        ScanSpansMatch(n, at, from + m);
        assert ScanSpans(n, at, from) == [Span(from, from + m)] + r;
        assert forall k :: 0 <= k < |r| ==> ([Span(from, from + m)] + r)[k + 1] == r[k];
      }
    }
  }

  /**
   * `r` is what a global match from `from` finds: its first match starts at the first position,
   * from `from` on, at which the pattern matches, and spans exactly the match there; the rest is
   * the global match from where that match ends; and with no match left, no position from `from`
   * on starts one.
   */
  ghost predicate GlobalScan(n: nat, at: nat -> Option<nat>, from: nat, r: seq<Span>)
    decreases |r|
  {
    if r == [] then
      forall j: nat :: from <= j < n ==> at(j).None?
    else
      from <= r[0].start < r[0].end <= n
      && (forall j: nat :: from <= j < r[0].start ==> at(j).None?)
      && at(r[0].start).Some? && at(r[0].start).value == r[0].end - r[0].start
      && GlobalScan(n, at, r[0].end, r[1..])
  }

  /** The scan finds exactly the matches of a global match. */
  lemma {:induction false} ScanSpansSpec(n: nat, at: nat -> Option<nat>, from: nat)
    requires Progress(n, at)
    ensures GlobalScan(n, at, from, ScanSpans(n, at, from))
    decreases n - from
  {
    if from < n {
      if at(from).None? {
        ScanSpansSpec(n, at, from + 1);
        ScanSkip(n, at, from);
      } else {
        var next := from + at(from).value;
        assert from < next <= n;
        ScanSpansSpec(n, at, next);
        ScanTake(n, at, from);
      }
    }
  }

  /** A match at `from` is the first match, and the search resumes where it ends. */
  lemma ScanTake(n: nat, at: nat -> Option<nat>, from: nat)
    requires Progress(n, at) && from < n && at(from).Some?
    requires GlobalScan(n, at, from + at(from).value, ScanSpans(n, at, from + at(from).value))
    ensures GlobalScan(n, at, from, ScanSpans(n, at, from))
  {
    var m := at(from).value;
    var r := ScanSpans(n, at, from + m);
    assert ScanSpans(n, at, from) == [Span(from, from + m)] + r;
    assert ([Span(from, from + m)] + r)[1..] == r;
  }

  /** A position where the pattern does not match starts no match, and the search moves on. */
  lemma ScanSkip(n: nat, at: nat -> Option<nat>, from: nat)
    requires Progress(n, at) && from < n && at(from).None?
    requires GlobalScan(n, at, from + 1, ScanSpans(n, at, from + 1))
    ensures GlobalScan(n, at, from, ScanSpans(n, at, from))
  {
    assert ScanSpans(n, at, from) == ScanSpans(n, at, from + 1);
  }

  /** A global match is determined by the pattern: two results that both meet it are equal. */
  lemma {:induction false} GlobalScanUnique(n: nat, at: nat -> Option<nat>, from: nat, r1: seq<Span>, r2: seq<Span>)
    requires GlobalScan(n, at, from, r1) && GlobalScan(n, at, from, r2)
    ensures r1 == r2
    decreases |r1|
  {
    if r1 != [] && r2 != [] {
      assert r1[0] == r2[0];
      GlobalScanUnique(n, at, r1[0].end, r1[1..], r2[1..]);
      assert r1 == [r1[0]] + r1[1..] && r2 == [r2[0]] + r2[1..];
    } else if r1 != [] || r2 != [] {
      assert false;
    }
  }

  /** The length of the match of the chain `lits` that starts at `i`, if the chain matches there. */
  function ChainAt(s: string, lits: seq<string>, i: nat): (r: Option<nat>)
    requires lits != []
    ensures r.Some? ==> |lits[0]| <= r.value && i + r.value <= |s|
    ensures r.Some? <==> StartsAt(s, i, lits[0]) && ChainEnd(s, lits[1..], i + |lits[0]|).Some?
    ensures r.Some? ==> i + r.value == ChainEnd(s, lits[1..], i + |lits[0]|).value
  {
    if StartsAt(s, i, lits[0]) then
      match ChainEnd(s, lits[1..], i + |lits[0]|)
      case None => None
      case Some(e) => Some(e - i)
    else None
  }

  /** The chain `lits` as a pattern tried at each position of `s`. */
  function ChainMatcher(s: string, lits: seq<string>): (at: nat -> Option<nat>)
    requires lits != [] && |lits[0]| > 0
    ensures Progress(|s|, at)
    ensures forall i: nat :: at(i) == ChainAt(s, lits, i)
  {
    i => ChainAt(s, lits, i)
  }

  /** A match of the chain at `i` is a text of the chain. */
  lemma ChainAtIsChain(s: string, lits: seq<string>, i: nat, e: nat)
    requires lits != [] && ChainAt(s, lits, i).Some? && ChainAt(s, lits, i).value == e - i
    ensures i <= e <= |s| && IsChainText(s[i..e], lits)
  {
    MatchIsChain(s, lits, i, e);
  }

  /**
   * `s.match(re)` with the `g` flag for a chain `re`, `[]` for `null`: the text of every match, left
   * to right. It is empty exactly when no occurrence of the first literal starts a match, and each
   * element is itself a match of the chain.
   */
  function AllMatches(s: string, lits: seq<string>): (r: seq<string>)
    requires lits != [] && |lits[0]| > 0
    ensures r == [] <==>
              forall i: nat :: StartsAt(s, i, lits[0]) ==> ChainEnd(s, lits[1..], i + |lits[0]|).None?
    ensures forall k :: 0 <= k < |r| ==> IsChainText(r[k], lits)
  {
    var at := ChainMatcher(s, lits);
    var spans := ScanSpans(|s|, at, 0);
    ScanSpansSpec(|s|, at, 0);
    ScanSpansMatch(|s|, at, 0);
    ChainScanEmpty(s, lits, spans);
    var r := Texts(s, spans);
    assert forall k :: 0 <= k < |r| ==> IsChainText(r[k], lits) by {
      forall k | 0 <= k < |r| ensures IsChainText(r[k], lits) {
        var sp := spans[k];
        assert at(sp.start).Some? && at(sp.start).value == sp.end - sp.start;
        ChainAtIsChain(s, lits, sp.start, sp.end);
        assert r[k] == s[sp.start..sp.end];
      }
    }
    r
  }

  /** A global match of a chain finds nothing exactly when no start of the first literal completes. */
  lemma ChainScanEmpty(s: string, lits: seq<string>, r: seq<Span>)
    requires lits != [] && |lits[0]| > 0 && GlobalScan(|s|, ChainMatcher(s, lits), 0, r)
    ensures r == [] <==>
              forall i: nat :: StartsAt(s, i, lits[0]) ==> ChainEnd(s, lits[1..], i + |lits[0]|).None?
  {
    if r == [] {
      forall i: nat | StartsAt(s, i, lits[0])
        ensures ChainEnd(s, lits[1..], i + |lits[0]|).None?
      {
        assert i < |s|;
        assert ChainAt(s, lits, i).None?;
      }
    } else {
      assert ChainAt(s, lits, r[0].start).Some?;
    }
  }

  /**
   * The global match of a chain, as spans of `s`: the matches the scan finds, which are those of
   * a global match (and, by `GlobalScanUnique`, the only sequence that is one).
   */
  lemma AllMatchesSpec(s: string, lits: seq<string>)
    requires lits != [] && |lits[0]| > 0
    ensures var spans := ScanSpans(|s|, ChainMatcher(s, lits), 0);
            GlobalScan(|s|, ChainMatcher(s, lits), 0, spans)
            && |AllMatches(s, lits)| == |spans|
            && forall k :: 0 <= k < |spans| ==>
                 spans[k].start <= spans[k].end <= |s| && AllMatches(s, lits)[k] == s[spans[k].start..spans[k].end]
  {
    ScanSpansSpec(|s|, ChainMatcher(s, lits), 0);
    ScanSpansMatch(|s|, ChainMatcher(s, lits), 0);
  }

  /**
   * `s.match(re)[0]` for a chain `re` with the `g` flag, or the match `s.match(re)` of a chain
   * without it: the text of the first match, if any, from the first occurrence of the first
   * literal to where the chain completes.
   */
  function FirstMatch(s: string, lits: seq<string>): (r: Option<string>)
    requires lits != []
    ensures r.None? <==> LazyMatch(s, lits, 0).None?
    ensures r.Some? ==> IsChainText(r.value, lits)
    ensures r.Some? ==>
              LazyMatch(s, lits, 0).Some?
              && r.value == s[LazyMatch(s, lits, 0).value.start..LazyMatch(s, lits, 0).value.end]
  {
    match LazyMatch(s, lits, 0)
    case None => None
    case Some(sp) =>
      MatchIsChain(s, lits, sp.start, sp.end);
      Some(s[sp.start..sp.end])
  }

  /** `[0]` of the global match is the first match: `FirstMatch` is the head of `AllMatches`. */
  lemma FirstMatchIsFirst(s: string, lits: seq<string>)
    requires lits != [] && |lits[0]| > 0
    ensures FirstMatch(s, lits).None? <==> AllMatches(s, lits) == []
    ensures FirstMatch(s, lits).Some? ==> AllMatches(s, lits) != [] && FirstMatch(s, lits).value == AllMatches(s, lits)[0]
  {
    var spans := ScanSpans(|s|, ChainMatcher(s, lits), 0);
    AllMatchesSpec(s, lits);
    if LazyMatch(s, lits, 0).None? {
      LazyMatchComplete(s, lits, 0);
    } else {
      FirstSpanIsLazy(s, lits, spans);
    }
  }

  /** The first match of a global match of a chain is the chain's first match. */
  lemma FirstSpanIsLazy(s: string, lits: seq<string>, spans: seq<Span>)
    requires lits != [] && |lits[0]| > 0 && LazyMatch(s, lits, 0).Some?
    requires GlobalScan(|s|, ChainMatcher(s, lits), 0, spans)
    ensures spans != [] && spans[0] == LazyMatch(s, lits, 0).value
  {
    var at := ChainMatcher(s, lits);
    var m := LazyMatch(s, lits, 0).value;
    LazyMatchChainAt(s, lits, m);
    GlobalScanFirst(|s|, at, 0, spans, m.start);
    var first := spans[0];
    assert ChainAt(s, lits, first.start).Some?;
    LazyMatchLeftmost(s, lits, 0, first.start);
  }

  /** The first match of a chain is the match of the chain at its start. */
  lemma LazyMatchChainAt(s: string, lits: seq<string>, m: Span)
    requires lits != [] && LazyMatch(s, lits, 0).Some? && LazyMatch(s, lits, 0).value == m
    ensures ChainAt(s, lits, m.start).Some? && ChainAt(s, lits, m.start).value == m.end - m.start
  {
  }

  /** A position, from `from` on, where the pattern matches is at or after the first match. */
  lemma GlobalScanFirst(n: nat, at: nat -> Option<nat>, from: nat, r: seq<Span>, i: nat)
    requires GlobalScan(n, at, from, r) && from <= i < n && at(i).Some?
    ensures r != [] && r[0].start <= i
    ensures at(r[0].start).Some? && at(r[0].start).value == r[0].end - r[0].start
  {
  }

  /** The text `(.*?)` captures in a match `t` of the two-literal chain `lits[0](.*?)lits[1]`. */
  function Inner(t: string, lits: seq<string>): (r: string)
    requires |lits| == 2 && IsChainText(t, lits)
    ensures |lits[0]| + |r| + |lits[1]| == |t|
    ensures t == lits[0] + r + lits[1]
  {
    ChainEndLast(t, lits[1..], |lits[0]|);
    var r := t[|lits[0]|..|t| - |lits[1]|];
    assert t[..|lits[0]|] == lits[0];
    assert t[|t| - |lits[1]|..] == lits[1];
    assert t == t[..|lits[0]|] + r + t[|t| - |lits[1]|..];
    r
  }

  /**
   * The first match of a two-literal chain `lits[0](.*?)lits[1]` runs from the first occurrence `i`
   * of `lits[0]` to the end of the first occurrence `j` of `lits[1]` after it.
   */
  lemma FirstPairMatch(s: string, lits: seq<string>) returns (i: nat, j: nat)
    requires |lits| == 2 && FirstMatch(s, lits).Some?
    ensures IndexOf(s, lits[0], 0).Some? && IndexOf(s, lits[0], 0).value == i
    ensures IndexOf(s, lits[1], i + |lits[0]|).Some? && IndexOf(s, lits[1], i + |lits[0]|).value == j
    ensures i <= j + |lits[1]| <= |s| && FirstMatch(s, lits).value == s[i..j + |lits[1]|]
  {
    var m := LazyMatch(s, lits, 0).value;
    LazyMatchStart(s, lits, 0);
    i := m.start;
    assert lits[1..] == [lits[1]];
    ChainEndSingle(s, lits[1], i + |lits[0]|);
    j := IndexOf(s, lits[1], i + |lits[0]|).value;
  }

  /**
   * When a text starts with `lits[0]`, the first match of `lits[0](.*?)lits[1]` captures the text
   * from there to the first occurrence of `lits[1]`.
   */
  lemma FirstPairAtStart(s: string, lits: seq<string>) returns (j: nat)
    requires |lits| == 2 && StartsAt(s, 0, lits[0]) && FirstMatch(s, lits).Some?
    ensures IndexOf(s, lits[1], |lits[0]|).Some? && IndexOf(s, lits[1], |lits[0]|).value == j
    ensures |lits[0]| <= j <= |s| && Inner(FirstMatch(s, lits).value, lits) == s[|lits[0]|..j]
  {
    var i;
    i, j := FirstPairMatch(s, lits);
    IndexOfFirst(s, lits[0], 0, 0);
    var e := j + |lits[1]|;
    assert i == 0 && FirstMatch(s, lits).value == s[0..e];
    SliceOfSlice(s, 0, e, |lits[0]|, e - |lits[1]|);
  }

  /** A chain rest of one literal ends where the first occurrence of that literal ends. */
  lemma ChainEndSingle(s: string, lit: string, y: nat)
    requires y <= |s| && ChainEnd(s, [lit], y).Some?
    ensures IndexOf(s, lit, y).Some? && ChainEnd(s, [lit], y).value == IndexOf(s, lit, y).value + |lit|
  {
    assert [lit][1..] == [];
  }

  /** A match starts at the first occurrence of its first literal. */
  lemma LazyMatchStart(s: string, lits: seq<string>, from: nat)
    requires lits != [] && LazyMatch(s, lits, from).Some?
    ensures IndexOf(s, lits[0], from).Some? && IndexOf(s, lits[0], from).value == LazyMatch(s, lits, from).value.start
  {
  }

  /** `s` is `\d{1,hi1}`, then `sep`, then `\d{1,hi2}`, and nothing else. */
  ghost predicate DigitPair(s: string, sep: char, hi1: nat, hi2: nat) {
    exists k :: 1 <= k <= hi1 && k < |s| && s[k] == sep && AllDigits(s[..k])
             && 1 <= |s| - k - 1 <= hi2 && AllDigits(s[k + 1..])
  }

  /** A council document identifier, `^\d{1,3}\/\d{1,10}$`. */
  ghost predicate IsDocRef(s: string) { DigitPair(s, '/', 3, 10) }

  /** A clock time as the row pattern takes it, `^\d{1,2}:\d{1,2}$`. */
  ghost predicate IsClock(s: string) { DigitPair(s, ':', 2, 2) }

  lemma DigitPairAt(s: string, i: nat, a: nat, n: nat, sep: char, hi1: nat, hi2: nat)
    requires i + n <= |s| && 1 <= a <= hi1 && a < n && s[i + a] == sep
    requires 1 <= n - a - 1 <= hi2
    requires forall k :: i <= k < i + a ==> IsDigit(s[k])
    requires forall k :: i + a + 1 <= k < i + n ==> IsDigit(s[k])
    ensures DigitPair(s[i..i + n], sep, hi1, hi2)
  {
    var x := s[i..i + n];
    assert x[a] == sep;
    assert forall k :: 0 <= k < a ==> x[..a][k] == s[i + k];
    var y := x[a + 1..];
    forall j | 0 <= j < |y| ensures IsDigit(y[j]) {
      assert y[j] == s[i + a + 1 + j];
    }
  }

  /** Neither half of a digit pair holds a `<`. */
  lemma DigitPairHasNoTag(s: string, sep: char, hi1: nat, hi2: nat)
    requires DigitPair(s, sep, hi1, hi2) && sep != '<'
    ensures '<' !in s
  {
    var k :| 1 <= k <= hi1 && k < |s| && s[k] == sep && AllDigits(s[..k])
             && 1 <= |s| - k - 1 <= hi2 && AllDigits(s[k + 1..]);
    forall j | 0 <= j < |s| ensures s[j] != '<' {
      if j < k { assert s[..k][j] == s[j]; }
      else if j > k { assert s[k + 1..][j - k - 1] == s[j]; }
    }
  }

  /**
   * The length of the match of `\d{1,3}\/\d{1,10}` starting at `i`, if any. The greedy
   * quantifiers give back digits only to reach the `/`, and they cannot: the first run of digits
   * must have between one and three digits; the second one is cut after ten.
   */
  function DocRefAt(s: string, i: nat): (r: Option<nat>)
    ensures r.Some? ==> 3 <= r.value && i + r.value <= |s| && IsDocRef(s[i..i + r.value])
  {
    if i >= |s| then None
    else
      var a := DigitRun(s, i);
      if 1 <= a <= 3 && i + a < |s| && s[i + a] == '/' then
        var b := DigitRun(s, i + a + 1);
        if b >= 1 then
          DigitPairAt(s, i, a, a + 1 + Min(b, 10), '/', 3, 10);
          Some(a + 1 + Min(b, 10))
        else None
      else None
  }

  /** The document-reference pattern as a pattern tried at each position of `s`. */
  function DocRefMatcher(s: string): (at: nat -> Option<nat>)
    ensures Progress(|s|, at)
    ensures forall i: nat :: at(i) == DocRefAt(s, i)
  {
    i => DocRefAt(s, i)
  }

  /** `s.match(/\d{1,3}\/\d{1,10}/g) || []`: every reference, left to right; each is a document identifier. */
  function DocRefs(s: string): (r: seq<string>)
    ensures forall k :: 0 <= k < |r| ==> IsDocRef(r[k])
  {
    var spans := ScanSpans(|s|, DocRefMatcher(s), 0);
    ScanSpansMatch(|s|, DocRefMatcher(s), 0);
    var r := Texts(s, spans);
    assert forall k :: 0 <= k < |r| ==> IsDocRef(r[k]) by {
      forall k | 0 <= k < |r| ensures IsDocRef(r[k]) {
        DocRefSpanText(s, spans[k], r[k]);
      }
    }
    r
  }

  lemma DocRefSpanText(s: string, sp: Span, t: string)
    requires DocRefAt(s, sp.start).Some? && sp.start + DocRefAt(s, sp.start).value == sp.end
    requires sp.end <= |s| && t == s[sp.start..sp.end]
    ensures IsDocRef(t)
  {
  }

  /** The references are the texts, in order, of a global match of the pattern. */
  lemma DocRefsSpec(s: string)
    ensures var spans := ScanSpans(|s|, DocRefMatcher(s), 0);
            GlobalScan(|s|, DocRefMatcher(s), 0, spans)
            && |DocRefs(s)| == |spans|
            && forall k :: 0 <= k < |spans| ==>
                 spans[k].start <= spans[k].end <= |s| && DocRefs(s)[k] == s[spans[k].start..spans[k].end]
  {
    ScanSpansSpec(|s|, DocRefMatcher(s), 0);
    ScanSpansMatch(|s|, DocRefMatcher(s), 0);
  }

  /**
   * The runs of a document identifier `s[j..j + len]`: its first run of digits is the whole run
   * of digits at `j`, and a slash follows it.
   */
  lemma DocRefRuns(s: string, j: nat, len: nat) returns (k: nat)
    requires j + len <= |s| && IsDocRef(s[j..j + len])
    ensures 1 <= k <= 3 && k < len && j + k < |s| && s[j + k] == '/' && DigitRun(s, j) == k
    ensures 1 <= len - k - 1 <= 10
    ensures forall x :: j + k + 1 <= x < j + len ==> IsDigit(s[x])
  {
    var t := s[j..j + len];
    k :| 1 <= k <= 3 && k < |t| && t[k] == '/' && AllDigits(t[..k])
         && 1 <= |t| - k - 1 <= 10 && AllDigits(t[k + 1..]);
    forall x | j <= x < j + k ensures IsDigit(s[x]) {
      assert s[x] == t[..k][x - j];
    }
    forall x | j + k + 1 <= x < j + len ensures IsDigit(s[x]) {
      assert s[x] == t[k + 1..][x - j - k - 1];
    }
    DigitRunOf(s, j, k);
  }

  /** A run of at least `b` digits at `c` is measured as such. */
  lemma {:induction false} DigitRunAtLeast(s: string, c: nat, b: nat)
    requires c + b <= |s| && forall x :: c <= x < c + b ==> IsDigit(s[x])
    ensures DigitRun(s, c) >= b
    decreases b
  {
    if b > 0 {
      DigitRunAtLeast(s, c + 1, b - 1);
    }
  }

  /**
   * The match at `i` is the longest document identifier that starts there: every identifier
   * starting at `i` is matched, and none is longer than the match.
   */
  lemma DocRefAtLongest(s: string, i: nat, m: nat)
    requires i + m <= |s| && IsDocRef(s[i..i + m])
    ensures DocRefAt(s, i).Some? && m <= DocRefAt(s, i).value
  {
    var k := DocRefRuns(s, i, m);
    DigitRunAtLeast(s, i + k + 1, m - k - 1);
  }

  /** Text without a `/` holds no document reference. */
  lemma DocRefsNeedSlash(s: string)
    requires '/' !in s
    ensures DocRefs(s) == []
  {
    forall i: nat ensures DocRefAt(s, i).None? {
      if i < |s| {
        var a := DigitRun(s, i);
        if i + a < |s| { assert s[i + a] in s; }
      }
    }
    DocRefsSpec(s);
  }

  /**
   * The pattern has no boundaries: a number with too many digits before the slash is not
   * dropped, its last three digits are taken as a reference.
   */
  lemma DocRefsInsideLongerNumber(s: string)
    requires s == "12345/6"
    ensures DocRefs(s) == ["345/6"]
  {
    DigitRunOf(s, 0, 5);
    DigitRunOf(s, 1, 4);
    DigitRunOf(s, 2, 3);
    assert DocRefAt(s, 0).None? && DocRefAt(s, 1).None? && DocRefAt(s, 2) == Some(5);
    var at := DocRefMatcher(s);
    assert ScanSpans(7, at, 7) == [];
    assert ScanSpans(7, at, 2) == [Span(2, 7)];
    assert ScanSpans(7, at, 0) == ScanSpans(7, at, 1) == ScanSpans(7, at, 2);
    assert s[2..7] == "345/6";
  }

  /** Nor is a number with more than ten digits after the slash: its first ten are taken. */
  lemma DocRefsCutLongTail(s: string)
    requires s == "1/12345678901"
    ensures DocRefs(s) == ["1/1234567890"]
  {
    DigitRunOf(s, 0, 1);
    DigitRunAtLeast(s, 2, 11);
    assert DocRefAt(s, 0) == Some(12);
    assert DocRefAt(s, 12).None?;
    var at := DocRefMatcher(s);
    assert ScanSpans(13, at, 12) == [];
    assert ScanSpans(13, at, 0) == [Span(0, 12)];
    assert s[0..12] == "1/1234567890";
  }
}
