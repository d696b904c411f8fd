/**
 * The German month names that `Date.parse` does not understand, and the loop that rewrites a
 * caption's date text into English before it is parsed (`src/Browser.js`, lines 5-10, 70-72).
 */
module Months {
  import opened JsString

  /** One entry of the month table: a German name and the English name put in its place. */
  datatype MonthFix = MonthFix(name: string, fix: string)

  /** The table, in the order the loop visits it. */
  const MONTH: seq<MonthFix> := [
    MonthFix("März", "March"),
    MonthFix("Mai", "May"),
    MonthFix("Oktober", "October"),
    MonthFix("Dezember", "December")
  ]

  /** The date text after the first `n` entries of the table have been applied, in table order. */
  function FixedUpTo(date: string, n: nat): string
    requires n <= |MONTH|
  {
    if n == 0 then date
    else ReplaceFirst(FixedUpTo(date, n - 1), MONTH[n - 1].name, MONTH[n - 1].fix)
  }

  /** The date text once every entry has been applied; a text naming none of the months is kept. */
  function Fixed(date: string): (r: string)
    ensures (forall j: nat, k: nat :: j < |MONTH| ==> !StartsAt(date, k, MONTH[j].name)) ==> r == date
  {
    FixedUpToWithoutNames(date, |MONTH|);
    FixedUpTo(date, |MONTH|)
  }

  /**
   * `MONTH.forEach(({ string, fix }) => { date = date.replace(string, fix); })`: each entry,
   * in order, replaces the first occurrence of its name in the text left by the entries before.
   */
  method FixMonths(date: string) returns (r: string)
    ensures r == Fixed(date)
  {
    r := date;
    for i := 0 to |MONTH|
      invariant r == FixedUpTo(date, i)
    {
      r := ReplaceFirst(r, MONTH[i].name, MONTH[i].fix);
    }
  }

  /**
   * Each stage replaces the first occurrence of its name, if any, in the text left by the
   * stages before it, and changes nothing else.
   */
  lemma StageReplacesFirst(date: string, n: nat, i: nat)
    requires n < |MONTH|
    requires StartsAt(FixedUpTo(date, n), i, MONTH[n].name)
    requires forall k: nat :: k < i ==> !StartsAt(FixedUpTo(date, n), k, MONTH[n].name)
    ensures FixedUpTo(date, n + 1) ==
              FixedUpTo(date, n)[..i] + MONTH[n].fix + FixedUpTo(date, n)[i + |MONTH[n].name|..]
  {
    ReplaceFirstAt(FixedUpTo(date, n), MONTH[n].name, MONTH[n].fix, i);
  }

  /** A text that names none of the months is left as it is by every stage. */
  lemma {:induction false} FixedUpToWithoutNames(date: string, n: nat)
    requires n <= |MONTH|
    ensures (forall j: nat, k: nat :: j < |MONTH| ==> !StartsAt(date, k, MONTH[j].name)) ==> FixedUpTo(date, n) == date
  {
    if n > 0 {
      FixedUpToWithoutNames(date, n - 1);
      if forall j: nat, k: nat :: j < |MONTH| ==> !StartsAt(date, k, MONTH[j].name) {
        var m := MONTH[n - 1];
        assert forall k: nat :: !StartsAt(date, k, m.name);
      }
    }
  }

  /** No English name holds a German name that a later entry of the table looks for. */
  lemma FixesHoldNoLaterName()
    ensures forall i: nat, j: nat, k: nat :: i < j < |MONTH| ==> !StartsAt(MONTH[i].fix, k, MONTH[j].name)
  {
    NoOccurrenceWithout("March", "Mai", 2);
    NoOccurrenceWithout("March", "Oktober", 0);
    NoOccurrenceWithout("March", "Dezember", 0);
    NoOccurrenceWithout("May", "Oktober", 0);
    NoOccurrenceWithout("May", "Dezember", 0);
    NoOccurrenceWithout("October", "Dezember", 0);
  }

  /** The four stages of the loop, each replacing (at most) one name, give the fixed text. */
  lemma FixedByStages(date: string, a: string, b: string, c: string, d: string)
    requires ReplaceFirst(date, "März", "March") == a && ReplaceFirst(a, "Mai", "May") == b
    requires ReplaceFirst(b, "Oktober", "October") == c && ReplaceFirst(c, "Dezember", "December") == d
    ensures Fixed(date) == d
  {
    assert FixedUpTo(date, 1) == a;
    assert FixedUpTo(date, 2) == b;
    assert FixedUpTo(date, 3) == c;
  }

  /** A caption date in March: `15. März 2023` is handed on as `15. March 2023`. */
  lemma MarchDate(date: string)
    requires date == "15. März 2023"
    ensures Fixed(date) == "15. March 2023"
  {
    var fixed := "15. March 2023";
    MarchStage(date, fixed);
    MarchLateStages(fixed);
    FixedByStages(date, fixed, fixed, fixed, fixed);
  }

  lemma MarchLateStages(t: string)
    requires t == "15. March 2023"
    ensures ReplaceFirst(t, "Mai", "May") == t
    ensures ReplaceFirst(t, "Oktober", "October") == t
    ensures ReplaceFirst(t, "Dezember", "December") == t
  {
    assert 'i' !in t && 'O' !in t && 'D' !in t;
    UnchangedStages(t);
  }

  lemma MarchStage(s: string, fixed: string)
    requires s == "15. März 2023" && fixed == "15. March 2023"
    ensures ReplaceFirst(s, "März", "March") == fixed
  {
    MarchFirstAt(s);
    ReplaceFirstAt(s, "März", "March", 4);
    MarchSpliced(s, fixed);
  }

  lemma MarchFirstAt(s: string)
    requires s == "15. März 2023"
    ensures StartsAt(s, 4, "März") && forall k: nat :: k < 4 ==> !StartsAt(s, k, "März")
  {
    assert s[4..8] == "März";
    forall k: nat | k < 4 ensures !StartsAt(s, k, "März") { NotAt(s, "März", k, 0); }
  }

  lemma MarchSpliced(s: string, fixed: string)
    requires s == "15. März 2023" && fixed == "15. March 2023"
    ensures s[..4] + "March" + s[4 + |"März"|..] == fixed
  {
    assert s[..4] == "15. " && s[8..] == " 2023";
    assert "15. " + "March" + " 2023" == fixed;
  }

  /** A text without `i`, `O` and `D` passes the last three stages unchanged. */
  lemma UnchangedStages(t: string)
    requires 'i' !in t && 'O' !in t && 'D' !in t
    ensures ReplaceFirst(t, "Mai", "May") == t
    ensures ReplaceFirst(t, "Oktober", "October") == t
    ensures ReplaceFirst(t, "Dezember", "December") == t
  {
    ReplaceFirstAbsent(t, "Mai", 2, "May");
    ReplaceFirstAbsent(t, "Oktober", 0, "October");
    ReplaceFirstAbsent(t, "Dezember", 0, "December");
  }

  /**
   * Only the first occurrence of a name is replaced, so fixing is not idempotent: a text that
   * names May twice needs two passes.
   */
  lemma FixedNotIdempotent(date: string)
    requires date == "Mai Mai"
    ensures Fixed(date) == "May Mai"
    ensures Fixed(Fixed(date)) == "May May"
  {
    FixedMaiMai(date);
    FixedMayMai(Fixed(date));
  }

  lemma FixedMaiMai(s: string)
    requires s == "Mai Mai"
    ensures Fixed(s) == "May Mai"
  {
    var m := "May Mai";
    FirstMayStage(s, m);
    MayLateStages(s, m);
    FixedByStages(s, s, m, m, m);
  }

  lemma FixedMayMai(t: string)
    requires t == "May Mai"
    ensures Fixed(t) == "May May"
  {
    var m := "May May";
    SecondMayStage(t, m);
    MayLateStages(t, m);
    FixedByStages(t, t, m, m, m);
  }

  lemma FirstMayStage(s: string, m: string)
    requires s == "Mai Mai" && m == "May Mai"
    ensures ReplaceFirst(s, "Mai", "May") == m
  {
    ReplaceFirstAt(s, "Mai", "May", 0);
    assert s[..0] + "May" + s[3..] == m;
  }

  lemma SecondMayStage(t: string, m: string)
    requires t == "May Mai" && m == "May May"
    ensures ReplaceFirst(t, "Mai", "May") == m
  {
    NotAt(t, "Mai", 0, 2);
    forall k: nat | 1 <= k < 4 ensures !StartsAt(t, k, "Mai") { NotAt(t, "Mai", k, 0); }
    ReplaceFirstAt(t, "Mai", "May", 4);
    assert t[..4] + "May" + t[7..] == m;
  }

  /** `Mai Mai` and `May Mai` name no March, and their first stage leaves no October or December. */
  lemma MayLateStages(s: string, m: string)
    requires (s == "Mai Mai" && m == "May Mai") || (s == "May Mai" && m == "May May")
    ensures ReplaceFirst(s, "März", "March") == s
    ensures ReplaceFirst(m, "Oktober", "October") == m
    ensures ReplaceFirst(m, "Dezember", "December") == m
  {
    assert 'ä' !in s && 'O' !in m && 'D' !in m;
    ReplaceFirstAbsent(s, "März", 1, "March");
    LateStages(m);
  }

  /** A text without `O` and `D` passes the last two stages unchanged. */
  lemma LateStages(t: string)
    requires 'O' !in t && 'D' !in t
    ensures ReplaceFirst(t, "Oktober", "October") == t
    ensures ReplaceFirst(t, "Dezember", "December") == t
  {
    ReplaceFirstAbsent(t, "Oktober", 0, "October");
    ReplaceFirstAbsent(t, "Dezember", 0, "December");
  }
}
