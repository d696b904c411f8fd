/**
 * One agenda row `<tr>...</tr>` of a meeting table (`src/Browser.js`, lines 76-130): its time,
 * its `TOP` number, the topic cell (title, details, documents) and the status lines.
 */
module Rows {
  import opened Wrappers
  import opened JsString
  import opened Tags
  import opened Patterns
  import opened Topic

  /**
   * Why a call of `getTables` throws: the `null` match that is dereferenced, in the order the
   * source evaluates the matches.
   */
  datatype ParseError =
    | NoTables        // no caption/tbody block on the page (`tables.map` on `null`)
    | NoCaptionDate   // the caption has no `(` before its first line break
    | NoMeetingNumber // the caption has no `(` followed by a digit
    | NoRows          // the table body holds no `<tr>...</tr>`
    | NoTime          // no time token on the line after an `Uhrzeit` cell opening
    | NoAgendaNumber  // no `TOP` cell
    | NoTopicCell     // no `Thema` cell
    | NoStatusCell    // no `Status/ Abstimmung` cell
  {
    /** An error that one agenda row can raise. */
    predicate InRow() {
      NoTime? || NoAgendaNumber? || NoTopicCell? || NoStatusCell?
    }
  }

  /** One row of a meeting table; `dateTime` is the text `Date.parse` is given. */
  datatype AgendaItem = AgendaItem(
    dateTime: string,
    time: string,
    agendaNumber: string,
    topic: string,
    topicDetails: seq<TopicDetail>,
    topicDocuments: seq<string>,
    status: seq<string>)

  const TIME_CELL := "<td data-th=\"Uhrzeit\">"
  const CELL_END := "</td>"

  /** `<td data-th="TOP">(.*?)<\/td>` */
  const TOP_CELL: seq<string> := ["<td data-th=\"TOP\">", "</td>"]

  /** `<td data-th="Thema">(.*?)<\/td>` */
  const TOPIC_CELL: seq<string> := ["<td data-th=\"Thema\">", "</td>"]

  /** `<td data-th="Status\/ Abstimmung">(.*?)<\/td>` */
  const STATUS_CELL: seq<string> := ["<td data-th=\"Status/ Abstimmung\">", "</td>"]

  const SHOW_DETAILS := "Details einblenden"
  const HIDE_DETAILS := "Details ausblenden"
  const LINE_BREAK := "<br>"

  // ---------------------------------------------------------------------------------------
  // The time: /<td data-th="Uhrzeit">.*?(\d{1,2}:\d{1,2}).*?<\/td>/, without the `s` flag
  // ---------------------------------------------------------------------------------------

  /**
   * The length of `\d{1,2}:\d{1,2}` at `p`. Each `\d{1,2}` first tries two digits; two digits
   * and one digit cannot both be followed by the `:`, and taking the second run short never
   * lets `.*?<\/td>` succeed where the long one failed, so the capture is fixed by `p` alone.
   */
  function ClockAt(s: string, p: nat): (r: Option<nat>)
    ensures r.Some? ==> 3 <= r.value <= 5 && p + r.value <= |s| && IsClock(s[p..p + r.value])
  {
    var a := if p + 2 < |s| && IsDigit(s[p]) && IsDigit(s[p + 1]) && s[p + 2] == ':' then 2
             else if p + 1 < |s| && IsDigit(s[p]) && s[p + 1] == ':' then 1
             else 0;
    if a == 0 then None
    else
      var q := p + a + 1;
      var b := if q + 1 < |s| && IsDigit(s[q]) && IsDigit(s[q + 1]) then 2
               else if q < |s| && IsDigit(s[q]) then 1
               else 0;
      if b == 0 then None
      else
        DigitPairAt(s, p, a, a + 1 + b, ':', 2, 2);
        Some(a + 1 + b)
  }

  /** `.*?<\/td>` from `e`: a `</td>` follows with no line terminator before it. */
  predicate CellEndsFrom(s: string, e: nat)
    requires e <= |s|
  {
    match IndexOf(s, CELL_END, e)
    case None => false
    case Some(k) => NoLineBreak(s, e, k)
  }

  /** The token and the rest of the pattern match at `p`. */
  predicate TimeTokenAt(s: string, p: nat) {
    ClockAt(s, p).Some? && CellEndsFrom(s, p + ClockAt(s, p).value)
  }

  /**
   * The leading `.*?` of the pattern, from `from`: the first position where the token and the
   * rest match, reached without crossing a line terminator.
   */
  function TimeFrom(s: string, from: nat): (r: Option<nat>)
    decreases |s| - from
    ensures r.Some? ==> TimeTokenAt(s, r.value) && from <= r.value <= |s| && NoLineBreak(s, from, r.value)
    ensures r.Some? ==> forall p :: from <= p < r.value ==> !TimeTokenAt(s, p)
    ensures r.None? ==> forall p: nat :: from <= p <= |s| && NoLineBreak(s, from, p) ==> !TimeTokenAt(s, p)
  {
    if from >= |s| then None
    else if TimeTokenAt(s, from) then Some(from)
    else if IsLineTerminator(s[from]) then None
    else
      var r := TimeFrom(s, from + 1);
      TimeFromStep(s, from, r);
      r
  }

  /** A token that is not at `from`, with no line terminator at `from`, is the one found after it. */
  lemma TimeFromStep(s: string, from: nat, r: Option<nat>)
    requires from < |s| && !TimeTokenAt(s, from) && !IsLineTerminator(s[from])
    requires r.Some? ==> TimeTokenAt(s, r.value) && from + 1 <= r.value <= |s| && NoLineBreak(s, from + 1, r.value)
    requires r.Some? ==> forall p :: from + 1 <= p < r.value ==> !TimeTokenAt(s, p)
    requires r.None? ==> forall p: nat :: from + 1 <= p <= |s| && NoLineBreak(s, from + 1, p) ==> !TimeTokenAt(s, p)
    ensures r.Some? ==> TimeTokenAt(s, r.value) && from <= r.value <= |s| && NoLineBreak(s, from, r.value)
    ensures r.Some? ==> forall p :: from <= p < r.value ==> !TimeTokenAt(s, p)
    ensures r.None? ==> forall p: nat :: from <= p <= |s| && NoLineBreak(s, from, p) ==> !TimeTokenAt(s, p)
  {
    if r.None? {
      forall p: nat | from < p <= |s| && NoLineBreak(s, from, p) ensures NoLineBreak(s, from + 1, p) {}
    }
  }

  /** The pattern matches from the `Uhrzeit` cell opening at `i`. */
  predicate TimeCellAt(s: string, i: nat) {
    StartsAt(s, i, TIME_CELL) && TimeFrom(s, i + |TIME_CELL|).Some?
  }

  /** The leftmost start at or after `from` from which the pattern matches. */
  function TimeCellFrom(s: string, from: nat): (r: Option<nat>)
    decreases |s| + 1 - from
    ensures r.Some? ==> from <= r.value && TimeCellAt(s, r.value)
    ensures r.Some? ==> forall i :: from <= i < r.value ==> !TimeCellAt(s, i)
    ensures r.None? ==> forall i: nat :: from <= i ==> !TimeCellAt(s, i)
  {
    if from > |s| then None
    else if TimeCellAt(s, from) then Some(from)
    else
      var r := TimeCellFrom(s, from + 1);
      TimeCellFromStep(s, from, r);
      r
  }

  /** A cell opening that is not at `from` is the one found after it. */
  lemma TimeCellFromStep(s: string, from: nat, r: Option<nat>)
    requires !TimeCellAt(s, from)
    requires r.Some? ==> from + 1 <= r.value && TimeCellAt(s, r.value)
    requires r.Some? ==> forall i :: from + 1 <= i < r.value ==> !TimeCellAt(s, i)
    requires r.None? ==> forall i: nat :: from + 1 <= i ==> !TimeCellAt(s, i)
    ensures r.Some? ==> from <= r.value && TimeCellAt(s, r.value)
    ensures r.Some? ==> forall i :: from <= i < r.value ==> !TimeCellAt(s, i)
    ensures r.None? ==> forall i: nat :: from <= i ==> !TimeCellAt(s, i)
  {
  }

  /** A clock token begins and ends with a digit, so `trim` leaves it alone. */
  lemma ClockTrim(t: string)
    requires IsClock(t)
    ensures Trim(t) == t
  {
    var k :| 1 <= k <= 2 && k < |t| && t[k] == ':' && AllDigits(t[..k])
             && 1 <= |t| - k - 1 <= 2 && AllDigits(t[k + 1..]);
    assert t[..k][0] == t[0];
    assert t[k + 1..][|t| - k - 2] == t[|t| - 1];
    TrimNoOp(t);
  }

  /**
   * Where `row.match(timePattern)` captures the time: after the first `Uhrzeit` cell opening
   * from which the pattern can match, the first token on the same line that completes it, which
   * may lie past that cell's `</td>`; or `None` (the match is `null`) when no cell opening is
   * followed by one.
   */
  function TimePosition(row: string): (r: Option<nat>)
    ensures r.None? <==> forall i: nat :: !TimeCellAt(row, i)
    ensures r.Some? ==> TimeTokenAt(row, r.value)
    ensures r.Some? ==>
              exists i: nat :: TimeCellAt(row, i) && (forall j: nat :: j < i ==> !TimeCellAt(row, j))
                && i + |TIME_CELL| <= r.value && NoLineBreak(row, i + |TIME_CELL|, r.value)
                && forall q :: i + |TIME_CELL| <= q < r.value ==> !TimeTokenAt(row, q)
  {
    match TimeCellFrom(row, 0)
    case None => None
    case Some(i) =>
      var r := TimeFrom(row, i + |TIME_CELL|);
      TimeInFirstCell(row, i, r);
      r
  }

  /** The token found after the first cell opening from which the pattern matches. */
  lemma TimeInFirstCell(row: string, i: nat, r: Option<nat>)
    requires TimeCellFrom(row, 0) == Some(i) && r == TimeFrom(row, i + |TIME_CELL|)
    ensures r.Some? && TimeTokenAt(row, r.value)
    ensures r.Some? ==>
              exists i: nat :: TimeCellAt(row, i) && (forall j: nat :: j < i ==> !TimeCellAt(row, j))
                && i + |TIME_CELL| <= r.value && NoLineBreak(row, i + |TIME_CELL|, r.value)
                && forall q :: i + |TIME_CELL| <= q < r.value ==> !TimeTokenAt(row, q)
  {
  }

  /** `row.match(timePattern)[1].trim()`: the captured token, a clock time. */
  function RowTime(row: string): (r: Option<string>)
    ensures r.Some? <==> TimePosition(row).Some?
    ensures r.Some? ==> IsClock(r.value)
    ensures r.Some? ==>
              var p := TimePosition(row).value;
              ClockAt(row, p).Some? && r.value == row[p..p + ClockAt(row, p).value]
  {
    match TimePosition(row)
    case None => None
    case Some(p) =>
      ClockText(row, p);
      Some(Trim(row[p..p + ClockAt(row, p).value]))
  }

  /**
   * The leading `.*?` is not held inside the `Uhrzeit` cell: when that cell holds no time, the
   * token of a later cell on the same line is taken. The `Uhrzeit` cell ends at 23, the token
   * is found at 32, and the row's time is `1:2` (by `RowTime`'s contract) instead of `NoTime`.
   */
  lemma TimeFromLaterCell(row: string)
    requires row == TIME_CELL + "x</td><td>1:2</td>"
    ensures StartsAt(row, 23, CELL_END)
    ensures TimePosition(row) == Some(32)
    ensures ClockAt(row, 32) == Some(3) && row[32..35] == "1:2"
  {
    LaterRowSlices(row);
    FirstCellTime(row);
    LaterToken(row);
    TimeAfterCell(row, 0, 32);
  }

  /** The time position once the first matching cell opening and its token are known. */
  lemma TimeAfterCell(row: string, i: nat, p: nat)
    requires TimeCellFrom(row, 0) == Some(i) && TimeFrom(row, i + |TIME_CELL|) == Some(p)
    ensures TimePosition(row) == Some(p)
  {
  }

  /** The pieces of the example row: the cell opening, the cell's `</td>` and the later token. */
  lemma LaterRowSlices(row: string)
    requires row == TIME_CELL + "x</td><td>1:2</td>"
    ensures StartsAt(row, 0, TIME_CELL) && StartsAt(row, 23, CELL_END) && row[32..35] == "1:2"
    ensures NoLineBreak(row, 22, 32)
  {
    assert row[..22] == TIME_CELL;
    assert row[23..28] == CELL_END;
  }

  /** The pattern matches from the cell opening at 0, with its token at 32. */
  lemma FirstCellTime(row: string)
    requires row == TIME_CELL + "x</td><td>1:2</td>"
    ensures TimeCellFrom(row, 0) == Some(0) && TimeFrom(row, 22) == Some(32)
  {
    LaterRowSlices(row);
    LaterToken(row);
    NoTokenInFirstCell(row);
  }

  /** The pattern completes from 32: the token `1:2` and the `</td>` right after it. */
  lemma LaterToken(row: string)
    requires row == TIME_CELL + "x</td><td>1:2</td>"
    ensures ClockAt(row, 32) == Some(3) && TimeTokenAt(row, 32)
  {
    assert row[35..40] == CELL_END;
    assert IndexOf(row, CELL_END, 35) == Some(35);
  }

  /** `x</td><td>` holds no digit, so no token starts in it. */
  lemma NoTokenInFirstCell(row: string)
    requires row == TIME_CELL + "x</td><td>1:2</td>"
    ensures forall p | 22 <= p < 32 :: !TimeTokenAt(row, p)
  {
    var between := row[22..32];
    assert between == "x</td><td>";
    forall p | 22 <= p < 32 ensures ClockAt(row, p).None? {
      assert row[p] == between[p - 22];
    }
  }

  lemma ClockText(s: string, p: nat)
    requires ClockAt(s, p).Some?
    ensures p + ClockAt(s, p).value <= |s| && Trim(s[p..p + ClockAt(s, p).value]) == s[p..p + ClockAt(s, p).value]
  {
    ClockTrim(s[p..p + ClockAt(s, p).value]);
  }

  // ---------------------------------------------------------------------------------------
  // The status lines
  // ---------------------------------------------------------------------------------------

  /** `.map(res => res.trim())` */
  function TrimEach(parts: seq<string>): (r: seq<string>)
    ensures |r| == |parts|
    ensures forall k :: 0 <= k < |r| ==> r[k] == Trim(parts[k])
  {
    seq(|parts|, k requires 0 <= k < |parts| => Trim(parts[k]))
  }

  /**
   * `striptags(cell.replace('Details einblenden', '').replace('Details ausblenden', ''))
   * .split('<br>').map(res => res.trim())`
   */
  function StatusLines(cell: string): (r: seq<string>)
    ensures |r| >= 1
  {
    var text := StripTags(ReplaceFirst(ReplaceFirst(cell, SHOW_DETAILS, ""), HIDE_DETAILS, ""));
    TrimEach(Split(text, LINE_BREAK))
  }

  /**
   * Tags are stripped before the split, so no `<br>` is left to split on: the status is always
   * exactly one line, the stripped and trimmed cell without its toggle labels.
   */
  lemma StatusIsOneLine(cell: string)
    ensures StatusLines(cell) == [Trim(StripTags(ReplaceFirst(ReplaceFirst(cell, SHOW_DETAILS, ""), HIDE_DETAILS, "")))]
    ensures '<' !in StatusLines(cell)[0]
  {
    var text := StripTags(ReplaceFirst(ReplaceFirst(cell, SHOW_DETAILS, ""), HIDE_DETAILS, ""));
    SplitWithoutSeparator(text, LINE_BREAK);
    CleanText(ReplaceFirst(ReplaceFirst(cell, SHOW_DETAILS, ""), HIDE_DETAILS, ""));
  }

  /**
   * A status cell `Details einblenden<br>Closed<br>Approved` gives the single line
   * `ClosedApproved`: the line breaks are stripped as tags before the split.
   */
  lemma StatusExample(cell: string)
    requires cell == "Details einblenden<br>Closed<br>Approved"
    ensures StatusLines(cell) == ["ClosedApproved"]
  {
    var shown := cell[|SHOW_DETAILS|..];
    StatusExampleLabels(cell);
    StatusExampleTags(shown);
    TrimNoOp("ClosedApproved");
    StatusIsOneLine(cell);
  }

  lemma StatusExampleLabels(cell: string)
    requires cell == "Details einblenden<br>Closed<br>Approved"
    ensures ReplaceFirst(ReplaceFirst(cell, SHOW_DETAILS, ""), HIDE_DETAILS, "") == cell[|SHOW_DETAILS|..]
  {
    var shown := cell[|SHOW_DETAILS|..];
    ReplaceFirstAt(cell, SHOW_DETAILS, "", 0);
    assert cell[..0] + "" + shown == shown;
    assert shown == "<br>Closed<br>Approved";
    HideLabelAbsent(shown);
  }

  lemma HideLabelAbsent(t: string)
    requires t == "<br>Closed<br>Approved"
    ensures ReplaceFirst(t, HIDE_DETAILS, "") == t
  {
    assert 'u' !in t;
    ReplaceFirstAbsent(t, HIDE_DETAILS, 9, "");
  }

  lemma StatusExampleTags(shown: string)
    requires shown == "<br>Closed<br>Approved"
    ensures StripTags(shown) == "ClosedApproved"
  {
    var a, b := shown[4..10], shown[14..];
    StatusExampleParts(shown);
    SplitFour(shown, 4, 10, 14);
    BreaksStripped(a, b);
    ClosedApproved(shown);
  }

  lemma StatusExampleParts(shown: string)
    requires shown == "<br>Closed<br>Approved"
    ensures |shown| == 22 && shown[..4] == LINE_BREAK && shown[10..14] == LINE_BREAK
    ensures '<' !in shown[4..10] && '<' !in shown[14..]
  {
    assert shown[..4] == LINE_BREAK;
    assert shown[10..14] == LINE_BREAK;
  }

  lemma ClosedApproved(shown: string)
    requires shown == "<br>Closed<br>Approved"
    ensures shown[4..10] + shown[14..] == "ClosedApproved"
  {
    var a, b := shown[4..10], shown[14..];
    forall k | 0 <= k < 6 ensures a[k] == "Closed"[k] { assert a[k] == shown[4 + k]; }
    forall k | 0 <= k < 8 ensures b[k] == "Approved"[k] { assert b[k] == shown[14 + k]; }
    assert a == "Closed" && b == "Approved";
  }

  lemma SplitFour(s: string, i: nat, j: nat, k: nat)
    requires i <= j <= k <= |s|
    ensures s == s[..i] + s[i..j] + s[j..k] + s[k..]
  {
    assert s[..j] == s[..i] + s[i..j];
    assert s[..k] == s[..j] + s[j..k];
    assert s == s[..k] + s[k..];
  }

  /** `<br>` is a tag like any other: stripping removes it and keeps the text around it. */
  lemma BreaksStripped(a: string, b: string)
    requires '<' !in a && '<' !in b
    ensures StripTags(LINE_BREAK + a + LINE_BREAK + b) == a + b
  {
    assert LINE_BREAK + a + LINE_BREAK + b == "<" + "br" + ">" + (a + ("<" + "br" + ">" + b));
    StripTagsTag("br", a + ("<" + "br" + ">" + b));
    StripTagsText(a, "<" + "br" + ">" + b);
    StripTagsTag("br", b);
    StripTagsPlainText(b);
  }

  // ---------------------------------------------------------------------------------------
  // The row
  // ---------------------------------------------------------------------------------------

  /**
   * The row callback of `rows.map`, for a table whose normalised date is `date`: the first
   * `null` match, in evaluation order, makes it fail.
   */
  function ParseRow(row: string, date: string): (r: Result<AgendaItem, ParseError>)
    ensures r.Err? <==>
              (forall i: nat :: !TimeCellAt(row, i)) || FirstMatch(row, TOP_CELL).None?
              || FirstMatch(row, TOPIC_CELL).None? || FirstMatch(row, STATUS_CELL).None?
    ensures r.Err? ==> r.error.InRow()
    ensures (forall i: nat :: !TimeCellAt(row, i)) ==> r == Err(NoTime)
    ensures RowTime(row).Some? && FirstMatch(row, TOP_CELL).None? ==> r == Err(NoAgendaNumber)
    ensures RowTime(row).Some? && FirstMatch(row, TOP_CELL).Some? && FirstMatch(row, TOPIC_CELL).None? ==>
              r == Err(NoTopicCell)
    ensures RowTime(row).Some? && FirstMatch(row, TOP_CELL).Some? && FirstMatch(row, TOPIC_CELL).Some?
            && FirstMatch(row, STATUS_CELL).None? ==>
              r == Err(NoStatusCell)
    ensures r.Ok? ==>
              var item := r.value;
              IsClock(item.time) && item.dateTime == date + " " + item.time
              && '<' !in item.agendaNumber && '<' !in item.topic && Trim(item.topic) == item.topic
              && |item.status| == 1 && '<' !in item.status[0]
              && RefsOnly(item.topicDetails)
              && (forall k :: 0 <= k < |item.topicDocuments| ==> IsDocRef(item.topicDocuments[k]))
    ensures r.Ok? ==>
              RowTime(row).Some? && r.value.time == RowTime(row).value
              && FirstMatch(row, TOP_CELL).Some?
              && r.value.agendaNumber == Trim(StripTags(FirstMatch(row, TOP_CELL).value))
              && FirstMatch(row, STATUS_CELL).Some?
              && r.value.status == StatusLines(FirstMatch(row, STATUS_CELL).value)
    ensures r.Ok? ==>
              r.value.topic == Title(FirstMatch(row, TOPIC_CELL).value)
              && r.value.topicDetails == TopicDetails(FirstMatch(row, TOPIC_CELL).value)
              && r.value.topicDocuments == TopicDocuments(FirstMatch(row, TOPIC_CELL).value)
  {
    match RowTime(row)
    case None => Err(NoTime)
    case Some(time) =>
      match FirstMatch(row, TOP_CELL)
      case None => Err(NoAgendaNumber)
      case Some(top) =>
        match FirstMatch(row, TOPIC_CELL)
        case None => Err(NoTopicCell)
        case Some(topicCell) =>
          match FirstMatch(row, STATUS_CELL)
          case None => Err(NoStatusCell)
          case Some(statusCell) =>
            CleanText(top);
            StatusIsOneLine(statusCell);
            TopicDocumentsAreRefs(topicCell);
            Ok(AgendaItem(
              date + " " + time,
              time,
              Trim(StripTags(top)),
              Title(topicCell),
              TopicDetails(topicCell),
              TopicDocuments(topicCell),
              StatusLines(statusCell)))
  }
}
