/**
 * The week-navigation markers of an agenda page (`getPreviousNextData`, `src/Browser.js`,
 * lines 49-63): four attributes `data-...="digits"`, each searched on its own.
 */
module Pagination {
  import opened Wrappers
  import opened JsString

  /**
   * The pattern `prefix(\d{lo,hi})"`: an attribute opening, between `lo` and `hi` digits, which
   * are captured, and the closing quote.
   */
  datatype Marker = Marker(prefix: string, lo: nat, hi: nat)

  const PREVIOUS_YEAR := Marker("data-previousyear=\"", 4, 4)
  const PREVIOUS_WEEK := Marker("data-previousweeknumber=\"", 1, 2)
  const NEXT_YEAR := Marker("data-nextyear=\"", 4, 4)
  const NEXT_WEEK := Marker("data-nextweeknumber=\"", 1, 2)

  /** The pattern of `m` matches `s` at `i` with the capture `v`. */
  predicate MatchesAt(s: string, i: nat, m: Marker, v: string) {
    StartsAt(s, i, m.prefix) && m.lo <= |v| <= m.hi && AllDigits(v)
    && StartsAt(s, i + |m.prefix|, v + "\"")
  }

  /**
   * A capture is the whole run of digits after the prefix, followed by the quote; so a match
   * attempt has at most one capture.
   */
  lemma MatchIsRun(s: string, i: nat, m: Marker, v: string)
    requires MatchesAt(s, i, m, v)
    ensures i + |m.prefix| + |v| < |s| && s[i + |m.prefix| + |v|] == '"'
    ensures DigitRun(s, i + |m.prefix|) == |v| && s[i + |m.prefix|..i + |m.prefix| + |v|] == v
  {
    QuotedRun(s, i + |m.prefix|, v);
  }

  lemma QuotedRun(s: string, j: nat, v: string)
    requires AllDigits(v) && StartsAt(s, j, v + "\"")
    ensures j + |v| < |s| && s[j + |v|] == '"' && DigitRun(s, j) == |v| && s[j..j + |v|] == v
  {
    var w := s[j..j + |v| + 1];
    assert w[|v|] == '"';
    assert s[j + |v|] == w[|v|];
    forall k | j <= k < j + |v| ensures IsDigit(s[k]) {
      assert s[k] == w[k - j];
    }
    DigitRunOf(s, j, |v|);
    assert s[j..j + |v|] == w[..|v|];
  }

  /** The whole run of digits after the prefix, when the quote follows it, is a capture. */
  lemma RunIsMatch(s: string, i: nat, m: Marker, n: nat)
    requires StartsAt(s, i, m.prefix) && i + |m.prefix| + n < |s|
    requires DigitRun(s, i + |m.prefix|) == n && m.lo <= n <= m.hi && s[i + |m.prefix| + n] == '"'
    ensures MatchesAt(s, i, m, s[i + |m.prefix|..i + |m.prefix| + n])
  {
    var j := i + |m.prefix|;
    var v := s[j..j + n];
    assert s[j..j + n + 1] == v + "\"";
  }

  /**
   * The capture of `m` for a match attempt at `i`. The greedy `\d{lo,hi}` can only be followed
   * by the quote once it has taken every digit of the run, so the run must itself fit the bounds.
   */
  function CaptureAt(s: string, i: nat, m: Marker): (r: Option<string>)
    ensures r.Some? ==> MatchesAt(s, i, m, r.value)
    ensures forall v :: MatchesAt(s, i, m, v) ==> r == Some(v)
  {
    if !StartsAt(s, i, m.prefix) then None
    else
      var j := i + |m.prefix|;
      var n := DigitRun(s, j);
      assert forall v :: MatchesAt(s, i, m, v) ==>
               m.lo <= n <= m.hi && j + n < |s| && s[j + n] == '"' && v == s[j..j + n] by {
        forall v | MatchesAt(s, i, m, v)
          ensures m.lo <= n <= m.hi && j + n < |s| && s[j + n] == '"' && v == s[j..j + n]
        {
          MatchIsRun(s, i, m, v);
        }
      }
      if m.lo <= n <= m.hi && j + n < |s| && s[j + n] == '"' then
        RunIsMatch(s, i, m, n);
        Some(s[j..j + n])
      else None
  }

  /** The capture of the leftmost match of `m` at or after `from`. */
  function CaptureFrom(s: string, m: Marker, from: nat): (r: Option<string>)
    decreases |s| + 1 - from
    ensures r.Some? ==> exists i: nat :: from <= i && MatchesAt(s, i, m, r.value)
  {
    if from > |s| then None
    else if CaptureAt(s, from, m).Some? then CaptureAt(s, from, m)
    else CaptureFrom(s, m, from + 1)
  }

  /** A match at `k` is found by a search from `from <= k`, at `k` or at an earlier match. */
  lemma {:induction false} CaptureFromFirst(s: string, m: Marker, from: nat, k: nat, v: string)
    requires from <= k && MatchesAt(s, k, m, v)
    ensures CaptureFrom(s, m, from).Some?
    ensures exists i: nat :: from <= i <= k && MatchesAt(s, i, m, CaptureFrom(s, m, from).value)
              && forall j: nat, w :: from <= j < i ==> !MatchesAt(s, j, m, w)
    decreases k - from
  {
    if CaptureAt(s, from, m).Some? {
      assert MatchesAt(s, from, m, CaptureFrom(s, m, from).value);
    } else {
      CaptureFromFirst(s, m, from + 1, k, v);
      var i :| from + 1 <= i <= k && MatchesAt(s, i, m, CaptureFrom(s, m, from + 1).value)
               && forall j: nat, w :: from + 1 <= j < i ==> !MatchesAt(s, j, m, w);
      assert forall w :: !MatchesAt(s, from, m, w);
    }
  }

  /** A search from the start finds the leftmost match, and finds nothing only when there is none. */
  lemma CaptureFromStart(s: string, m: Marker)
    ensures CaptureFrom(s, m, 0).None? <==> forall i: nat, v :: !MatchesAt(s, i, m, v)
    ensures CaptureFrom(s, m, 0).Some? ==>
              exists i: nat :: MatchesAt(s, i, m, CaptureFrom(s, m, 0).value)
                && forall k: nat, v :: k < i ==> !MatchesAt(s, k, m, v)
  {
    forall i: nat, v | MatchesAt(s, i, m, v) ensures CaptureFrom(s, m, 0).Some? {
      CaptureFromFirst(s, m, 0, i, v);
    }
    if CaptureFrom(s, m, 0).Some? {
      var i: nat :| MatchesAt(s, i, m, CaptureFrom(s, m, 0).value);
      CaptureFromFirst(s, m, 0, i, CaptureFrom(s, m, 0).value);
    }
  }

  /**
   * `body.match(re)` for the pattern of `m`: `null` when the pattern matches nowhere, otherwise the
   * capture of the leftmost match, of between `lo` and `hi` digits.
   */
  function Capture(s: string, m: Marker): (r: Option<string>)
    ensures r.None? <==> forall i: nat, v :: !MatchesAt(s, i, m, v)
    ensures r.Some? ==> m.lo <= |r.value| <= m.hi && AllDigits(r.value)
    ensures r.Some? ==>
              exists i: nat :: MatchesAt(s, i, m, r.value) && forall k: nat, v :: k < i ==> !MatchesAt(s, k, m, v)
  {
    CaptureFromStart(s, m);
    CaptureFrom(s, m, 0)
  }

  /** The pagination attributes of a page; `null` becomes `None`. */
  datatype Links = Links(previousYear: Option<string>, previousWeek: Option<string>,
                         nextYear: Option<string>, nextWeek: Option<string>)

  /**
   * `getPreviousNextData(body)`: `false` (here `None`) exactly when none of the four patterns
   * matches anywhere in the page; otherwise each field is the capture of its pattern, a year of
   * exactly four digits and a week of one or two.
   */
  function GetPreviousNextData(body: string): (r: Option<Links>)
    ensures r.None? <==>
              (forall i: nat, v :: !MatchesAt(body, i, PREVIOUS_YEAR, v))
              && (forall i: nat, v :: !MatchesAt(body, i, PREVIOUS_WEEK, v))
              && (forall i: nat, v :: !MatchesAt(body, i, NEXT_YEAR, v))
              && (forall i: nat, v :: !MatchesAt(body, i, NEXT_WEEK, v))
    ensures r.Some? ==>
              r.value == Links(Capture(body, PREVIOUS_YEAR), Capture(body, PREVIOUS_WEEK),
                               Capture(body, NEXT_YEAR), Capture(body, NEXT_WEEK))
    ensures r.Some? ==>
              var l := r.value;
              (l.previousYear.Some? ==> |l.previousYear.value| == 4 && AllDigits(l.previousYear.value))
              && (l.nextYear.Some? ==> |l.nextYear.value| == 4 && AllDigits(l.nextYear.value))
              && (l.previousWeek.Some? ==> 1 <= |l.previousWeek.value| <= 2 && AllDigits(l.previousWeek.value))
              && (l.nextWeek.Some? ==> 1 <= |l.nextWeek.value| <= 2 && AllDigits(l.nextWeek.value))
  {
    var links := Links(Capture(body, PREVIOUS_YEAR), Capture(body, PREVIOUS_WEEK),
                       Capture(body, NEXT_YEAR), Capture(body, NEXT_WEEK));
    if links.previousYear.None? && links.previousWeek.None?
       && links.nextYear.None? && links.nextWeek.None?
    then None
    else Some(links)
  }

  /** `initialize` rejects a first page without pagination: `throw new Error('Wrong initial data!')`. */
  function CheckInitialPage(body: string): (r: Result<Links, string>)
    ensures r.Err? <==> GetPreviousNextData(body).None?
    ensures r.Err? ==> r.error == "Wrong initial data!"
  {
    match GetPreviousNextData(body)
    case None => Err("Wrong initial data!")
    case Some(l) => Ok(l)
  }
}
