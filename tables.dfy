/**
 * `getTables({ body, year, week })` (`src/Browser.js`, lines 65-140): every caption/tbody block
 * of an agenda page becomes a meeting table with its date, its meeting number, its rows and
 * the pagination of the whole page.
 */
module Tables {
  import opened Wrappers
  import opened JsString
  import opened Patterns
  import opened Months
  import opened Pagination
  import opened Rows

  /** `<caption>(.*?)<\/caption>.*?<tbody>(.*?)<\/tbody>` */
  const TABLE: seq<string> := ["<caption>", "</caption>", "<tbody>", "</tbody>"]

  /** `<caption>(.*?)<\/caption>` */
  const CAPTION: seq<string> := ["<caption>", "</caption>"]

  /** `<tbody>(.*?)<\/tbody>` */
  const TBODY: seq<string> := ["<tbody>", "</tbody>"]

  /** `<tr>(.*?)<\/tr>` */
  const ROW: seq<string> := ["<tr>", "</tr>"]

  /**
   * One meeting: the caller's `year` and `week`, the caption's date text with its month names
   * fixed (what `Date.parse` is given), the meeting number, the rows, and the page's pagination
   * (`None` when `getPreviousNextData` gave `false`, whose spread adds no field).
   */
  datatype MeetingTable = MeetingTable(
    year: int,
    week: int,
    date: string,
    meeting: nat,
    rows: seq<AgendaItem>,
    pagination: Option<Links>)

  /**
   * A block begins with its caption and holds a tbody after it, so the two searches of the
   * block text that the source dereferences cannot come back `null`.
   */
  lemma TableParts(t: string)
    requires IsChainText(t, TABLE)
    ensures FirstMatch(t, CAPTION).Some? && FirstMatch(t, TBODY).Some?
  {
    assert TABLE[1..][0] == "</caption>" && TABLE[1..][1..] == TBODY;
    var c := IndexOf(t, "</caption>", 9).value;
    CaptionFound(t);
    assert ChainEnd(t, TBODY, c + 10).Some?;
    BodyFound(t, c + 10);
  }

  lemma CaptionFound(t: string)
    requires StartsAt(t, 0, CAPTION[0]) && IndexOf(t, CAPTION[1], |CAPTION[0]|).Some?
    ensures LazyMatch(t, CAPTION, 0).Some?
  {
    IndexOfFirst(t, CAPTION[0], 0, 0);
    assert IndexOf(t, CAPTION[0], 0) == Some(0);
    assert CAPTION[1..] == [CAPTION[1]];
    assert ChainEnd(t, [CAPTION[1]], |CAPTION[0]|).Some?;
  }

  /** A tbody somewhere after `from` means the first `<tbody>` of the text starts one too. */
  lemma BodyFound(t: string, from: nat)
    requires from <= |t| && ChainEnd(t, TBODY, from).Some?
    ensures LazyMatch(t, TBODY, 0).Some?
  {
    assert TBODY[1..] == [TBODY[1]];
    var b := IndexOf(t, TBODY[0], from).value;
    assert ChainEnd(t, [TBODY[1]], b + |TBODY[0]|).Some?;
    IndexOfFirst(t, TBODY[0], 0, b);
    var i := IndexOf(t, TBODY[0], 0).value;
    if ChainEnd(t, [TBODY[1]], i + |TBODY[0]|).None? {
      ChainEndMonotone(t, [TBODY[1]], i + |TBODY[0]|, b + |TBODY[0]|);
    }
  }

  /**
   * `table.match(/<caption>(.*?)<\/caption>/s)[1].trim()`: the trimmed text between the block's
   * opening `<caption>` and the first `</caption>` after it.
   */
  function CaptionText(t: string): (r: string)
    requires IsChainText(t, TABLE)
    ensures IndexOf(t, CAPTION[1], |CAPTION[0]|).Some?
    ensures r == Trim(t[|CAPTION[0]|..IndexOf(t, CAPTION[1], |CAPTION[0]|).value])
  {
    TableParts(t);
    CaptionBetween(t);
    Trim(Inner(FirstMatch(t, CAPTION).value, CAPTION))
  }

  lemma CaptionBetween(t: string)
    requires StartsAt(t, 0, CAPTION[0]) && FirstMatch(t, CAPTION).Some?
    ensures IndexOf(t, CAPTION[1], |CAPTION[0]|).Some?
    ensures Inner(FirstMatch(t, CAPTION).value, CAPTION) == t[|CAPTION[0]|..IndexOf(t, CAPTION[1], |CAPTION[0]|).value]
  {
    var c := FirstPairAtStart(t, CAPTION);
  }

  /**
   * `table.match(/<tbody>(.*?)<\/tbody>/gs)[0].match(/<tr>(.*?)<\/tr>/gs)`, `[]` for `null`: the
   * row matches of the block's first tbody, which runs from the first `<tbody>` to the first
   * `</tbody>` after it.
   */
  function TableRows(t: string): (r: seq<string>)
    requires IsChainText(t, TABLE)
    ensures IndexOf(t, TBODY[0], 0).Some?
    ensures var b := IndexOf(t, TBODY[0], 0).value;
            IndexOf(t, TBODY[1], b + |TBODY[0]|).Some?
            && r == AllMatches(t[b..IndexOf(t, TBODY[1], b + |TBODY[0]|).value + |TBODY[1]|], ROW)
  {
    TableParts(t);
    FirstBody(t);
    AllMatches(FirstMatch(t, TBODY).value, ROW)
  }

  lemma FirstBody(t: string)
    requires FirstMatch(t, TBODY).Some?
    ensures IndexOf(t, TBODY[0], 0).Some?
    ensures var b := IndexOf(t, TBODY[0], 0).value;
            IndexOf(t, TBODY[1], b + |TBODY[0]|).Some?
            && FirstMatch(t, TBODY).value == t[b..IndexOf(t, TBODY[1], b + |TBODY[0]|).value + |TBODY[1]|]
  {
    var b, e := FirstPairMatch(t, TBODY);
  }

  /**
   * `dateMeeting.match(/^(.*?)\(/)[1].trim()`: the trimmed text before the first `(`. The `.`
   * of the pattern does not cross a line terminator, so a line break before the first `(`
   * makes the match `null`.
   */
  function CaptionDate(caption: string): (r: Option<string>)
    ensures r.None? <==>
              forall i :: 0 <= i < |caption| && caption[i] == '(' ==> !NoLineBreak(caption, 0, i)
    ensures r.Some? ==>
              exists i :: 0 <= i < |caption| && caption[i] == '(' && '(' !in caption[..i]
                && NoLineBreak(caption, 0, i) && r.value == Trim(caption[..i])
  {
    IndexOfSpec(caption, "(", 0);
    forall i | 0 <= i < |caption| ensures StartsAt(caption, i, "(") <==> caption[i] == '(' {
      StartsAtChar(caption, i, '(');
    }
    match IndexOf(caption, "(", 0)
    case None => None
    case Some(i) =>
      assert caption[i] == '(' by { StartsAtChar(caption, i, '('); }
      assert '(' !in caption[..i] by {
        forall j | 0 <= j < i ensures caption[..i][j] != '(' {
          assert caption[..i][j] == caption[j];
        }
      }
      if NoLineBreak(caption, 0, i) then Some(Trim(caption[..i])) else None
  }

  /** `\(\d`: an opening parenthesis with a digit after it, at `i`. */
  predicate OpenDigitAt(s: string, i: nat) {
    i + 1 < |s| && s[i] == '(' && IsDigit(s[i + 1])
  }

  /** The leftmost `\(\d` at or after `from`. */
  function OpenDigitFrom(s: string, from: nat): (r: Option<nat>)
    decreases |s| - from
    ensures r.Some? ==> from <= r.value && OpenDigitAt(s, r.value)
    ensures r.Some? ==> forall i :: from <= i < r.value ==> !OpenDigitAt(s, i)
    ensures r.None? ==> forall i: nat :: from <= i ==> !OpenDigitAt(s, i)
  {
    if from >= |s| then None
    else if OpenDigitAt(s, from) then Some(from)
    else OpenDigitFrom(s, from + 1)
  }

  /**
   * `parseInt(dateMeeting.match(/\((\d{1,3})/)[1].trim(), 10)`: the value of the (at most three)
   * digits after the first `(` that has a digit after it.
   */
  function CaptionMeeting(caption: string): (r: Option<nat>)
    ensures r.None? <==> forall i: nat :: !OpenDigitAt(caption, i)
    ensures r.Some? ==>
              exists i: nat :: OpenDigitAt(caption, i) && (forall j: nat :: j < i ==> !OpenDigitAt(caption, j))
                && r.value == DigitsValue(MeetingDigits(caption, i))
    ensures r.Some? ==> r.value < 1000
  {
    match OpenDigitFrom(caption, 0)
    case None => None
    case Some(i) =>
      var d := MeetingDigits(caption, i);
      MeetingBelow1000(d);
      Some(DigitsValue(Trim(d)))
  }

  /** At most three digits, and `trim` leaves them alone: the value is below 1000. */
  lemma MeetingBelow1000(d: string)
    requires 1 <= |d| <= 3 && AllDigits(d)
    ensures Trim(d) == d && DigitsValue(d) < 1000
  {
    assert IsDigit(d[0]) && IsDigit(d[|d| - 1]);
    TrimNoOp(d);
    Pow10UpTo3(|d|);
  }

  lemma Pow10UpTo3(n: nat)
    requires n <= 3
    ensures Pow10(n) <= 1000
  {
    assert Pow10(0) == 1;
    assert Pow10(1) == 10;
    assert Pow10(2) == 100;
    assert Pow10(3) == 1000;
  }

  /**
   * What `(\d{1,3})` captures after the `(` at `i`: the digits that follow it, taken greedily,
   * which stop at three or where the digits end.
   */
  function MeetingDigits(caption: string, i: nat): (d: string)
    requires OpenDigitAt(caption, i)
    ensures 1 <= |d| <= 3 && AllDigits(d)
    ensures i + 1 + |d| <= |caption| && d == caption[i + 1..i + 1 + |d|]
    ensures |d| == 3 || i + 1 + |d| == |caption| || !IsDigit(caption[i + 1 + |d|])
  {
    var n := Min(DigitRun(caption, i + 1), 3);
    var d := caption[i + 1..i + 1 + n];
    assert AllDigits(d) by {
      forall k | 0 <= k < |d| ensures IsDigit(d[k]) { assert d[k] == caption[i + 1 + k]; }
    }
    d
  }

  /**
   * When the first `(` of a caption is followed by a run of one to three digits, the meeting
   * number is the value of exactly that run.
   */
  lemma MeetingAfterFirstParen(caption: string, i: nat, n: nat)
    requires i < |caption| && caption[i] == '(' && '(' !in caption[..i]
    requires 1 <= n <= 3 && i + 1 + n <= |caption| && AllDigits(caption[i + 1..i + 1 + n])
    requires i + 1 + n == |caption| || !IsDigit(caption[i + 1 + n])
    ensures CaptionMeeting(caption) == Some(DigitsValue(caption[i + 1..i + 1 + n]))
  {
    var d := caption[i + 1..i + 1 + n];
    assert d[0] == caption[i + 1];
    assert OpenDigitAt(caption, i);
    forall j: nat | j < i ensures !OpenDigitAt(caption, j) {
      assert caption[..i][j] == caption[j];
    }
    var v := OpenDigitFrom(caption, 0).value;
    assert v == i;
    forall k | i + 1 <= k < i + 1 + n ensures IsDigit(caption[k]) {
      assert caption[k] == d[k - i - 1];
    }
    if i + 1 + n < |caption| {
      DigitRunOf(caption, i + 1, n);
    } else {
      DigitRunToEnd(caption, i + 1);
    }
    assert Min(DigitRun(caption, i + 1), 3) == n;
    assert MeetingDigits(caption, i) == d;
    TrimNoOp(d);
    assert CaptionMeeting(caption) == Some(DigitsValue(Trim(MeetingDigits(caption, i))));
  }

  /** A run of digits that reaches the end of the text is measured whole. */
  lemma {:induction false} DigitRunToEnd(s: string, i: nat)
    requires i <= |s| && forall k :: i <= k < |s| ==> IsDigit(s[k])
    ensures DigitRun(s, i) == |s| - i
    decreases |s| - i
  {
    if i < |s| {
      DigitRunToEnd(s, i + 1);
    }
  }

  /**
   * When the first `(` of a caption is at `i` and no line break comes before it, the date text
   * is the trimmed text before it.
   */
  lemma DateBeforeFirstParen(caption: string, i: nat)
    requires i < |caption| && caption[i] == '(' && '(' !in caption[..i] && NoLineBreak(caption, 0, i)
    ensures CaptionDate(caption) == Some(Trim(caption[..i]))
  {
    IndexOfSpec(caption, "(", 0);
    StartsAtChar(caption, i, '(');
    forall k: nat | k < i ensures !StartsAt(caption, k, "(") {
      StartsAtChar(caption, k, '(');
      assert caption[..i][k] == caption[k];
    }
    assert IndexOf(caption, "(", 0) == Some(i);
  }

  /** The caption `01.03.2023 (15. Sitzung` gives the date text `01.03.2023`... */
  lemma CaptionDateExample(c: string)
    requires c == "01.03.2023 (15. Sitzung"
    ensures CaptionDate(c) == Some("01.03.2023")
  {
    assert c[..11] == "01.03.2023 ";
    DateBeforeFirstParen(c, 11);
    TrimExample(c[..11]);
  }

  lemma TrimExample(s: string)
    requires s == "01.03.2023 "
    ensures Trim(s) == "01.03.2023"
  {
    assert SkipSpace(s, 0) == 0;
    assert IsSpace(s[10]) && !IsSpace(s[9]);
    assert SkipSpaceBack(s, 0, 10) == 10;
    assert SkipSpaceBack(s, 0, 11) == 10;
    assert s[0..10] == "01.03.2023";
  }

  /** ... and the meeting number 15. */
  lemma CaptionMeetingExample(c: string)
    requires c == "01.03.2023 (15. Sitzung"
    ensures CaptionMeeting(c) == Some(15)
  {
    CaptionMeetingParts(c);
    MeetingAfterFirstParen(c, 11, 2);
    FifteenValue(c[12..14]);
  }

  lemma CaptionMeetingParts(c: string)
    requires c == "01.03.2023 (15. Sitzung"
    ensures |c| == 23 && c[11] == '(' && '(' !in c[..11] && !IsDigit(c[14])
    ensures |c[12..14]| == 2 && c[12..14][0] == '1' && c[12..14][1] == '5' && AllDigits(c[12..14])
  {
    assert '(' !in c[..11];
    var d := c[12..14];
    assert d[0] == '1' && d[1] == '5';
  }

  lemma FifteenValue(d: string)
    requires |d| == 2 && d[0] == '1' && d[1] == '5'
    ensures DigitsValue(d) == 15
  {
    assert d[..1][0] == '1';
    assert DigitsValue(d[..1][..0]) == 0;
  }

  /**
   * A meeting table from the trimmed caption text `dateMeeting` and the row matches `rows` of
   * its body: the date text, then the meeting number, then every row; the first `null` match
   * makes it fail.
   */
  function BuildTable(dateMeeting: string, rows: seq<string>, pagination: Option<Links>, year: int, week: int)
    : (r: Result<MeetingTable, ParseError>)
    ensures r.Err? <==>
              CaptionDate(dateMeeting).None? || CaptionMeeting(dateMeeting).None? || rows == []
              || exists k :: 0 <= k < |rows| && ParseRow(rows[k], Fixed(CaptionDate(dateMeeting).value)).Err?
    ensures r.Err? ==> r.error != NoTables
    ensures CaptionDate(dateMeeting).None? ==> r == Err(NoCaptionDate)
    ensures CaptionDate(dateMeeting).Some? && CaptionMeeting(dateMeeting).None? ==> r == Err(NoMeetingNumber)
    ensures CaptionDate(dateMeeting).Some? && CaptionMeeting(dateMeeting).Some? && rows == [] ==> r == Err(NoRows)
    ensures CaptionDate(dateMeeting).Some? && CaptionMeeting(dateMeeting).Some? && rows != [] && r.Err? ==>
              exists k :: 0 <= k < |rows| && ParseRow(rows[k], Fixed(CaptionDate(dateMeeting).value)) == Err(r.error)
                && forall m :: 0 <= m < k ==> ParseRow(rows[m], Fixed(CaptionDate(dateMeeting).value)).Ok?
    ensures r.Ok? ==>
              r.value.year == year && r.value.week == week && r.value.pagination == pagination
              && r.value.date == Fixed(CaptionDate(dateMeeting).value)
              && Some(r.value.meeting) == CaptionMeeting(dateMeeting)
    ensures r.Ok? ==>
              |r.value.rows| == |rows|
              && forall k :: 0 <= k < |rows| ==> ParseRow(rows[k], r.value.date) == Ok(r.value.rows[k])
  {
    match CaptionDate(dateMeeting)
    case None => Err(NoCaptionDate)
    case Some(d) =>
      match CaptionMeeting(dateMeeting)
      case None => Err(NoMeetingNumber)
      case Some(meeting) => RowsTable(Fixed(d), meeting, rows, pagination, year, week)
  }

  /**
   * The table once its date text and meeting number are known: `rows.map` over the row matches,
   * where no row match at all (`null`) and the first failing row are the errors.
   */
  function RowsTable(date: string, meeting: nat, rows: seq<string>, pagination: Option<Links>, year: int, week: int)
    : (r: Result<MeetingTable, ParseError>)
    ensures r.Err? <==> rows == [] || exists k :: 0 <= k < |rows| && ParseRow(rows[k], date).Err?
    ensures rows == [] ==> r == Err(NoRows)
    ensures r.Err? ==> r.error != NoTables
    ensures rows != [] && r.Err? ==>
              exists k :: 0 <= k < |rows| && ParseRow(rows[k], date) == Err(r.error)
                && forall m :: 0 <= m < k ==> ParseRow(rows[m], date).Ok?
    ensures r.Ok? ==>
              r.value.year == year && r.value.week == week && r.value.pagination == pagination
              && r.value.date == date && r.value.meeting == meeting
              && |r.value.rows| == |rows|
              && forall k :: 0 <= k < |rows| ==> ParseRow(rows[k], date) == Ok(r.value.rows[k])
  {
    if rows == [] then Err(NoRows)
    else
      match ParseRows(rows, date)
      case Err(e) => Err(e)
      case Ok(items) => Ok(MeetingTable(year, week, date, meeting, items, pagination))
  }

  /**
   * The callback of `tables.map` for one block `t` of the page `body`: its caption text, the
   * rows of its first tbody, and the pagination of the whole page.
   */
  function ParseTable(t: string, body: string, year: int, week: int): (r: Result<MeetingTable, ParseError>)
    requires IsChainText(t, TABLE)
    ensures r.Err? ==> r.error != NoTables
    ensures r.Ok? ==>
              r.value.year == year && r.value.week == week && r.value.pagination == GetPreviousNextData(body)
              && |r.value.rows| == |TableRows(t)|
  {
    BuildTable(CaptionText(t), TableRows(t), GetPreviousNextData(body), year, week)
  }

  /**
   * `rows.map(row => ...)`: every row parsed against the table's date, in order, or the failure
   * of the first row that fails.
   */
  function ParseRows(rows: seq<string>, date: string): (r: Result<seq<AgendaItem>, ParseError>)
    ensures r.Ok? <==> forall k :: 0 <= k < |rows| ==> ParseRow(rows[k], date).Ok?
    ensures r.Ok? ==> |r.value| == |rows| && forall k :: 0 <= k < |rows| ==> ParseRow(rows[k], date) == Ok(r.value[k])
    ensures r.Err? ==> r.error.InRow()
    ensures r.Err? ==>
              exists k :: 0 <= k < |rows| && ParseRow(rows[k], date) == Err(r.error)
                && forall m :: 0 <= m < k ==> ParseRow(rows[m], date).Ok?
  {
    var parse := row => ParseRow(row, date);
    assert forall k :: 0 <= k < |rows| ==> parse(rows[k]) == ParseRow(rows[k], date);
    MapResult(rows, parse)
  }

  /**
   * `tables.map(table => ...)` over the blocks of the page `body`: every block in order, or the
   * failure of the first block that fails.
   */
  function ParseTables(tables: seq<string>, body: string, year: int, week: int)
    : (r: Result<seq<MeetingTable>, ParseError>)
    requires forall k :: 0 <= k < |tables| ==> IsChainText(tables[k], TABLE)
    ensures r.Ok? <==> forall k :: 0 <= k < |tables| ==> ParseTable(tables[k], body, year, week).Ok?
    ensures r.Ok? ==>
              |r.value| == |tables|
              && forall k :: 0 <= k < |tables| ==> ParseTable(tables[k], body, year, week) == Ok(r.value[k])
    ensures r.Err? ==>
              exists k :: 0 <= k < |tables| && ParseTable(tables[k], body, year, week) == Err(r.error)
                && forall m :: 0 <= m < k ==> ParseTable(tables[m], body, year, week).Ok?
    ensures r.Err? ==> r.error != NoTables
  {
    MapResult(tables, t requires IsChainText(t, TABLE) => ParseTable(t, body, year, week))
  }

  /**
   * `getTables({ body, year, week })`: one table per caption/tbody block, in document order, or
   * the failure of the first block that fails; no partial list.
   */
  function GetTables(body: string, year: int, week: int): (r: Result<seq<MeetingTable>, ParseError>)
    ensures r == Err(NoTables) <==>
              forall i: nat :: StartsAt(body, i, TABLE[0]) ==> ChainEnd(body, TABLE[1..], i + |TABLE[0]|).None?
    ensures r != Err(NoTables) ==> r == ParseTables(AllMatches(body, TABLE), body, year, week)
  {
    var tables := AllMatches(body, TABLE);
    if tables == [] then Err(NoTables) else ParseTables(tables, body, year, week)
  }
}
