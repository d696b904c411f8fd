/**
 * The `Thema` cell of an agenda row (`src/Browser.js`, lines 79-113): its title, the document
 * references behind its icons, and the details of its first paragraph, cut at the lettered
 * markers `a)`, `b)`, ...
 */
module Topic {
  import opened Wrappers
  import opened JsString
  import opened Tags
  import opened Patterns

  /** `<a href="#" .*?>(.*?)<\/a>` */
  const TITLE_ANCHOR: seq<string> := ["<a href=\"#\" ", ">", "</a>"]

  /** `<p>(.*?)<\/p>` */
  const PARAGRAPH: seq<string> := ["<p>", "</p>"]

  /** The icon that precedes a document link. */
  const ICON := "<i class=\"icon-doc\"></i>"

  const ANCHOR_END := "</a>"

  /**
   * The topic title: the stripped, trimmed text of the first title anchor, or of the whole cell
   * when the cell has none.
   */
  function Title(cell: string): (r: string)
    ensures FirstMatch(cell, TITLE_ANCHOR).Some? ==> r == Trim(StripTags(FirstMatch(cell, TITLE_ANCHOR).value))
    ensures FirstMatch(cell, TITLE_ANCHOR).None? ==> r == Trim(StripTags(cell))
    ensures '<' !in r && Trim(r) == r
  {
    match FirstMatch(cell, TITLE_ANCHOR)
    case Some(anchor) => CleanText(anchor); Trim(StripTags(anchor))
    case None => CleanText(cell); Trim(StripTags(cell))
  }

  /** `striptags(x).trim()` holds no tag opening and is its own trim. */
  lemma CleanText(s: string)
    ensures '<' !in Trim(StripTags(s)) && Trim(Trim(StripTags(s))) == Trim(StripTags(s))
  {
    TrimIdempotent(StripTags(s));
    TrimSubstring(StripTags(s));
  }

  /** `t` is a match of `<i class="icon-doc"><\/i>(\d{1,3}\/\d{1,10})<\/a>`. */
  ghost predicate IsIconMatch(t: string) {
    |ICON| + |ANCHOR_END| <= |t| && t[..|ICON|] == ICON && t[|t| - |ANCHOR_END|..] == ANCHOR_END
    && IsDocRef(t[|ICON|..|t| - |ANCHOR_END|])
  }

  /** The reference an icon match captures. */
  function IconRef(t: string): string
    requires |ICON| + |ANCHOR_END| <= |t|
  {
    t[|ICON|..|t| - |ANCHOR_END|]
  }

  /**
   * The part `(\d{1,3}\/\d{1,10})<\/a>` of the icon pattern from `j`: the length of the
   * reference. The first run of digits must reach the `/` and the second must reach `</a>`, so
   * each run is taken whole and must fit its bounds.
   */
  function RefThenAnchorAt(s: string, j: nat): (r: Option<nat>)
    requires j <= |s|
    ensures r.Some? ==> j + r.value + |ANCHOR_END| <= |s|
    ensures r.Some? ==> IsDocRef(s[j..j + r.value]) && StartsAt(s, j + r.value, ANCHOR_END)
  {
    var a := DigitRun(s, j);
    if 1 <= a <= 3 && j + a < |s| && s[j + a] == '/' then
      var c := j + a + 1;
      var b := DigitRun(s, c);
      if 1 <= b <= 10 && StartsAt(s, c + b, ANCHOR_END) then
        var n := a + 1 + b;
        DigitPairAt(s, j, a, n, '/', 3, 10);
        assert j + n == c + b;
        Some(n)
      else None
    else None
  }

  /** The length of the icon match starting at `i`, if any. */
  function IconMatchAt(s: string, i: nat): (r: Option<nat>)
    ensures r.Some? ==> |ICON| < r.value && i + r.value <= |s|
    ensures r.Some? ==> IsIconMatch(s[i..i + r.value])
  {
    if !StartsAt(s, i, ICON) then None
    else
      match RefThenAnchorAt(s, i + |ICON|)
      case None => None
      case Some(n) =>
        var m := |ICON| + n + |ANCHOR_END|;
        IconMatchParts(s, i, n, m);
        Some(m)
  }

  lemma IconMatchParts(s: string, i: nat, n: nat, m: nat)
    requires StartsAt(s, i, ICON) && StartsAt(s, i + |ICON| + n, ANCHOR_END)
    requires IsDocRef(s[i + |ICON|..i + |ICON| + n])
    requires m == |ICON| + n + |ANCHOR_END|
    ensures i + m <= |s| && IsIconMatch(s[i..i + m])
  {
    var e := i + m;
    var t := s[i..e];
    SliceOfSlice(s, i, e, 0, |ICON|);
    SliceOfSlice(s, i, e, |ICON| + n, |t|);
    SliceOfSlice(s, i, e, |ICON|, |ICON| + n);
    assert t[..|ICON|] == t[0..|ICON|];
    assert t[|t| - |ANCHOR_END|..] == t[|ICON| + n..|t|];
  }

  /**
   * The part `(\d{1,3}\/\d{1,10})<\/a>` matches exactly the identifiers followed by `</a>`:
   * wherever such an identifier starts, the match found there is that identifier.
   */
  lemma RefThenAnchorExact(s: string, j: nat, len: nat)
    requires j + len <= |s| && IsDocRef(s[j..j + len]) && StartsAt(s, j + len, ANCHOR_END)
    ensures RefThenAnchorAt(s, j).Some? && RefThenAnchorAt(s, j).value == len
  {
    var k := DocRefRuns(s, j, len);
    assert s[j + len] == s[j + len..j + len + |ANCHOR_END|][0];
    DigitRunOf(s, j + k + 1, len - k - 1);
  }

  /**
   * The icon pattern finds exactly its own texts: wherever a text of the pattern starts, the
   * match found there is that text.
   */
  lemma IconMatchAtExact(s: string, i: nat, m: nat)
    requires i + m <= |s| && IsIconMatch(s[i..i + m])
    ensures IconMatchAt(s, i).Some? && IconMatchAt(s, i).value == m
  {
    var t := s[i..i + m];
    var e := m - |ANCHOR_END|;
    SliceOfSlice(s, i, i + m, 0, |ICON|);
    SliceOfSlice(s, i, i + m, e, m);
    SliceOfSlice(s, i, i + m, |ICON|, e);
    assert t[..|ICON|] == t[0..|ICON|];
    assert t[|t| - |ANCHOR_END|..] == t[e..m];
    assert StartsAt(s, i, ICON);
    RefThenAnchorExact(s, i + |ICON|, e - |ICON|);
  }

  /** The icon pattern as a pattern tried at each position of `s`. */
  function IconMatcher(s: string): (at: nat -> Option<nat>)
    ensures Progress(|s|, at)
    ensures forall i: nat :: at(i) == IconMatchAt(s, i)
  {
    i => IconMatchAt(s, i)
  }

  /** `s.match(re) || []` with the `g` flag for the icon pattern: each element is a match of it. */
  function IconMatches(s: string): (r: seq<string>)
    ensures forall k :: 0 <= k < |r| ==> IsIconMatch(r[k])
  {
    var spans := ScanSpans(|s|, IconMatcher(s), 0);
    ScanSpansMatch(|s|, IconMatcher(s), 0);
    var r := Texts(s, spans);
    assert forall k :: 0 <= k < |r| ==> IsIconMatch(r[k]) by {
      forall k | 0 <= k < |r| ensures IsIconMatch(r[k]) {
        IconSpanText(s, spans[k], r[k]);
      }
    }
    r
  }

  lemma IconSpanText(s: string, sp: Span, t: string)
    requires IconMatchAt(s, sp.start).Some? && sp.start + IconMatchAt(s, sp.start).value == sp.end
    requires sp.end <= |s| && t == s[sp.start..sp.end]
    ensures IsIconMatch(t)
  {
  }

  /** The icon matches are the texts, in order, of a global match of the icon pattern. */
  lemma IconMatchesSpec(s: string)
    ensures var spans := ScanSpans(|s|, IconMatcher(s), 0);
            GlobalScan(|s|, IconMatcher(s), 0, spans)
            && |IconMatches(s)| == |spans|
            && forall k :: 0 <= k < |spans| ==>
                 spans[k].start <= spans[k].end <= |s| && IconMatches(s)[k] == s[spans[k].start..spans[k].end]
  {
    ScanSpansSpec(|s|, IconMatcher(s), 0);
    ScanSpansMatch(|s|, IconMatcher(s), 0);
  }

  /**
   * `doc.replace('<i class="icon-doc"></i>', '').replace('</a>', '')`: cleaning an icon match
   * leaves exactly the reference it captured.
   */
  function CleanDoc(doc: string): (r: string)
    ensures IsIconMatch(doc) ==> r == IconRef(doc)
  {
    CleanedIconMatch(doc);
    ReplaceFirst(ReplaceFirst(doc, ICON, ""), ANCHOR_END, "")
  }

  /** Dropping the icon markup and then the closing tag of an icon match leaves its reference. */
  lemma CleanedIconMatch(t: string)
    ensures IsIconMatch(t) ==> ReplaceFirst(ReplaceFirst(t, ICON, ""), ANCHOR_END, "") == IconRef(t)
  {
    if IsIconMatch(t) {
      var ref := IconRef(t);
      IconDropped(t);
      DigitPairHasNoTag(ref, '/', 3, 10);
      AnchorDropped(ref);
    }
  }

  /** The icon markup at the head of a match is its first occurrence, and `replace` drops it. */
  lemma IconDropped(t: string)
    requires |ICON| + |ANCHOR_END| <= |t| && t[..|ICON|] == ICON && t[|t| - |ANCHOR_END|..] == ANCHOR_END
    ensures ReplaceFirst(t, ICON, "") == IconRef(t) + ANCHOR_END
  {
    var rest := t[|ICON|..];
    assert StartsAt(t, 0, ICON);
    ReplaceFirstAt(t, ICON, "", 0);
    assert t[..0] + "" + rest == rest;
    assert rest == IconRef(t) + ANCHOR_END;
  }

  /** Before the closing `</a>` a reference holds no `<`, so that closing tag is the first. */
  lemma AnchorDropped(ref: string)
    requires '<' !in ref
    ensures ReplaceFirst(ref + ANCHOR_END, ANCHOR_END, "") == ref
  {
    var rest := ref + ANCHOR_END;
    assert StartsAt(rest, |ref|, ANCHOR_END);
    forall k: nat | k < |ref| ensures !StartsAt(rest, k, ANCHOR_END) {
      assert rest[k] == ref[k];
      assert ref[k] in ref;
      NotAt(rest, ANCHOR_END, k, 0);
    }
    ReplaceFirstAt(rest, ANCHOR_END, "", |ref|);
    assert rest[..|ref|] == ref;
    assert rest[|ref| + |ANCHOR_END|..] == [];
  }

  /** `data.map(doc => doc.replace(...).replace(...))`: every icon match cleaned, in order. */
  function CleanDocs(docs: seq<string>): (r: seq<string>)
    ensures |r| == |docs|
  {
    seq(|docs|, k requires 0 <= k < |docs| => CleanDoc(docs[k]))
  }

  /**
   * The document references of the cell, one per icon match; empty when no icon match is
   * found.
   */
  function TopicDocuments(cell: string): (r: seq<string>)
    ensures |r| == |IconMatches(cell)|
  {
    var data := IconMatches(cell);
    if data == [] then [] else CleanDocs(data)
  }

  /**
   * The documents of a topic are, in order, exactly the references captured by the icon
   * matches; each is a document identifier.
   */
  lemma TopicDocumentsAreRefs(cell: string)
    ensures forall k :: 0 <= k < |IconMatches(cell)| ==>
              TopicDocuments(cell)[k] == IconRef(IconMatches(cell)[k])
              && IsDocRef(TopicDocuments(cell)[k])
  {
    var data := IconMatches(cell);
    forall k | 0 <= k < |data|
      ensures TopicDocuments(cell)[k] == IconRef(data[k]) && IsDocRef(TopicDocuments(cell)[k])
    {
      assert TopicDocuments(cell)[k] == CleanDoc(data[k]);
    }
  }

  /** One entry of `topicDetails`: the text of a detail and the references found in it. */
  datatype TopicDetail = TopicDetail(text: string, documents: seq<string>)

  /** Every document of every detail is a document identifier. */
  ghost predicate RefsOnly(details: seq<TopicDetail>) {
    forall k :: 0 <= k < |details| ==> forall j :: 0 <= j < |details[k].documents| ==> IsDocRef(details[k].documents[j])
  }

  /** A lettered marker `[a-z]\)` at `i`. */
  predicate MarkerAt(s: string, i: nat) {
    i + 1 < |s| && IsLower(s[i]) && s[i + 1] == ')'
  }

  /** Where a lazy `(.+?)` may stop: `\W[a-z]\)` (the next marker) or `<\/p>`. */
  predicate TerminatorAt(s: string, e: nat) {
    (e + 2 < |s| && !IsWordChar(s[e]) && IsLower(s[e + 1]) && s[e + 2] == ')')
    || (e + 3 < |s| && s[e] == '<' && s[e + 1] == '/' && s[e + 2] == 'p' && s[e + 3] == '>')
  }

  /** The first terminator at or after `from`. */
  function TerminatorFrom(s: string, from: nat): (r: Option<nat>)
    decreases |s| + 1 - from
    ensures r.Some? ==> from <= r.value <= |s| && TerminatorAt(s, r.value)
  {
    if from > |s| then None
    else if TerminatorAt(s, from) then Some(from)
    else TerminatorFrom(s, from + 1)
  }

  /** Every terminator at or after `from` is found, and none before the one reported. */
  lemma {:induction false} TerminatorFromFirst(s: string, from: nat, e: nat)
    requires from <= e && TerminatorAt(s, e)
    ensures TerminatorFrom(s, from).Some? && TerminatorFrom(s, from).value <= e
    decreases e - from
  {
    if !TerminatorAt(s, from) {
      TerminatorFromFirst(s, from + 1, e);
    }
  }

  /** A match of `[a-z]\)(.+?)(?:\W[a-z]\)|<\/p>)`: where it starts and where its capture ends. */
  datatype Lettered = Lettered(index: nat, end: nat)

  /** The regular expression can match at `i`: a marker, then at least one character, then a terminator. */
  predicate LetteredAt(s: string, i: nat) {
    MarkerAt(s, i) && TerminatorFrom(s, i + 3).Some?
  }

  /** The leftmost match at or after `from`. */
  function LetterFrom(s: string, from: nat): (r: Option<Lettered>)
    decreases |s| - from
    ensures r.Some? ==> from <= r.value.index && LetteredAt(s, r.value.index)
    ensures r.Some? ==> r.value.end == TerminatorFrom(s, r.value.index + 3).value
  {
    if from >= |s| then None
    else if LetteredAt(s, from) then
      var e := TerminatorFrom(s, from + 3);
      Some(Lettered(from, e.value))
    else LetterFrom(s, from + 1)
  }

  /**
   * `input.match(/[a-z]\)(.+?)(?:\W[a-z]\)|<\/p>)/s)`: the leftmost position where the pattern
   * matches, with the capture running from after the marker to the first terminator that leaves
   * it non-empty.
   */
  function LetterMatch(s: string): (r: Option<Lettered>)
    ensures r.Some? ==> MarkerAt(s, r.value.index) && r.value.index + 3 <= r.value.end <= |s|
    ensures r.Some? ==> TerminatorAt(s, r.value.end)
  {
    LetterFrom(s, 0)
  }

  lemma {:induction false} LetterFromFirst(s: string, from: nat, k: nat)
    requires from <= k && LetteredAt(s, k)
    ensures LetterFrom(s, from).Some? && LetterFrom(s, from).value.index <= k
    decreases k - from
  {
    if !LetteredAt(s, from) {
      LetterFromFirst(s, from + 1, k);
    }
  }

  /**
   * `LetterMatch` as a specification: it fails exactly when the pattern matches nowhere, and
   * otherwise reports the leftmost match, whose capture stops at the first terminator.
   */
  lemma LetterMatchSpec(s: string)
    ensures LetterMatch(s).None? <==> forall i: nat :: !LetteredAt(s, i)
    ensures LetterMatch(s).Some? ==> forall i: nat :: i < LetterMatch(s).value.index ==> !LetteredAt(s, i)
    ensures LetterMatch(s).Some? ==>
              forall e: nat :: LetterMatch(s).value.index + 3 <= e < LetterMatch(s).value.end ==> !TerminatorAt(s, e)
  {
    forall i: nat | LetteredAt(s, i)
      ensures LetterMatch(s).Some? && LetterMatch(s).value.index <= i
    {
      LetterFromFirst(s, 0, i);
    }
    if LetterMatch(s).Some? {
      var m := LetterMatch(s).value;
      forall e: nat | m.index + 3 <= e && TerminatorAt(s, e) ensures m.end <= e {
        TerminatorFromFirst(s, m.index + 3, e);
      }
    }
  }

  /** A detail built from a fragment of the paragraph, as the loop body and the fallback build it. */
  function Detail(fragment: string): (d: TopicDetail)
    ensures d.text == Trim(StripTags(Join(Split(fragment, "<br/>"), " ")))
    ensures '<' !in d.text && Trim(d.text) == d.text
    ensures d.documents == DocRefs(StripTags(fragment))
    ensures forall k :: 0 <= k < |d.documents| ==> IsDocRef(d.documents[k])
  {
    var text := StripTags(ReplaceAll(fragment, "<br/>", " "));
    TrimIdempotent(text);
    TrimSubstring(text);
    TopicDetail(Trim(text), DocRefs(StripTags(fragment)))
  }
  /** `replace(/<br\/>/g, ' ')` leaves no `<br/>` in the fragment. */
  lemma BreaksReplaced(fragment: string)
    ensures forall j: nat :: !StartsAt(ReplaceAll(fragment, "<br/>", " "), j, "<br/>")
  {
    assert forall c :: c in " " ==> c == ' ';
    assert ' ' !in "<br/>";
    ReplaceAllLeavesNone(fragment, "<br/>", " ");
  }


  /**
   * The details the loop pushes while scanning `input`: each match contributes the detail of its
   * capture, and the scan goes on with `input.substring(index + capture.length)`, which starts
   * two characters before the terminator.
   */
  function SegmentDetails(input: string): (r: seq<TopicDetail>)
    decreases |input|
    ensures r == [] <==> LetterMatch(input).None?
  {
    match LetterMatch(input)
    case None => []
    case Some(m) =>
      // index + capture.length, the capture starting two characters after the index
      [Detail(input[m.index + 2..m.end])] + SegmentDetails(input[m.end - 2..])
  }

  /** Every document the scan collects is a document identifier. */
  lemma {:induction false} SegmentDetailsRefsOnly(input: string)
    ensures RefsOnly(SegmentDetails(input))
    decreases |input|
  {
    var r := LetterMatch(input);
    if r.Some? {
      var m := r.value;
      var d := Detail(input[m.index + 2..m.end]);
      var next := input[m.end - 2..];
      SegmentStep(input, m);
      SegmentDetailsRefsOnly(next);
      RefsOnlyCons(d, SegmentDetails(next));
    }
  }

  /** One step of the scan: the detail of the first capture, then the scan of what follows. */
  lemma SegmentStep(input: string, m: Lettered)
    requires LetterMatch(input) == Some(m)
    ensures SegmentDetails(input) == [Detail(input[m.index + 2..m.end])] + SegmentDetails(input[m.end - 2..])
  {
    assert m.index + 3 <= m.end <= |input|;
    var d := Detail(input[m.index + 2..m.end]);
    var rest := SegmentDetails(input[m.end - 2..]);
    assert SegmentDetails(input) == [d] + rest;
  }

  /**
   * Where the scan goes on: `input.substring(index + capture.length)` starts two characters
   * before the terminator that ended the capture, so it is shorter than `input` and still holds
   * what that terminator announced: the next marker at index 3, or the closing `</p>` at index 2.
   */
  lemma ScanResumesBeforeTerminator(input: string)
    requires LetterMatch(input).Some?
    ensures var m := LetterMatch(input).value;
            var next := input[m.end - 2..];
            |next| < |input| && (MarkerAt(next, 3) || (6 <= |next| && next[2..6] == "</p>"))
  {
    var m := LetterMatch(input).value;
    var next := input[m.end - 2..];
    assert forall x :: 0 <= x < |next| ==> next[x] == input[m.end - 2 + x];
    if !MarkerAt(next, 3) {
      assert next[2..6] == "</p>";
    }
  }

  /** One iteration of the loop: the detail pushed is the first one the rest of the scan owes. */
  lemma PushDetail(done: seq<TopicDetail>, input: string, m: Lettered)
    requires LetterMatch(input) == Some(m)
    ensures done + SegmentDetails(input)
            == (done + [Detail(input[m.index + 2..m.end])]) + SegmentDetails(input[m.end - 2..])
  {
    SegmentStep(input, m);
    var d := Detail(input[m.index + 2..m.end]);
    var rest := SegmentDetails(input[m.end - 2..]);
    assert done + ([d] + rest) == (done + [d]) + rest;
  }

  lemma RefsOnlyCons(d: TopicDetail, rest: seq<TopicDetail>)
    requires forall j :: 0 <= j < |d.documents| ==> IsDocRef(d.documents[j])
    requires RefsOnly(rest)
    ensures RefsOnly([d] + rest)
  {
    forall k | 1 <= k < |rest| + 1 ensures ([d] + rest)[k] == rest[k - 1] {}
  }

  /**
   * `topicDetails`: nothing without a paragraph; the whole first paragraph when it has no
   * lettered marker; otherwise one detail per lettered segment.
   */
  function TopicDetails(cell: string): (r: seq<TopicDetail>)
    ensures FirstMatch(cell, PARAGRAPH).None? ==> r == []
    ensures FirstMatch(cell, PARAGRAPH).Some? && LetterMatch(FirstMatch(cell, PARAGRAPH).value).None? ==>
              r == [Detail(FirstMatch(cell, PARAGRAPH).value)]
    ensures FirstMatch(cell, PARAGRAPH).Some? && LetterMatch(FirstMatch(cell, PARAGRAPH).value).Some? ==>
              r == SegmentDetails(FirstMatch(cell, PARAGRAPH).value) && 1 <= |r|
    ensures RefsOnly(r)
  {
    match FirstMatch(cell, PARAGRAPH)
    case None => []
    case Some(p) =>
      if LetterMatch(p).None? then
        RefsOnlyCons(Detail(p), []);
        [Detail(p)]
      else
        SegmentDetailsRefsOnly(p);
        SegmentDetails(p)
  }

  /**
   * The loop of the source: `multipleDocs` is matched against a shrinking `input`, and each
   * iteration pushes one detail. Each iteration drops at least one character (the capture is
   * never empty), so the loop ends.
   */
  method ScanDetails(body: string) returns (topicDetails: seq<TopicDetail>)
    ensures topicDetails == SegmentDetails(body)
  {
    topicDetails := [];
    var input := body;
    var multipleDocs := LetterMatch(input);
    while multipleDocs.Some?
      invariant multipleDocs == LetterMatch(input)
      invariant topicDetails + SegmentDetails(input) == SegmentDetails(body)
      decreases |input|
    {
      var m := multipleDocs.value;
      var capture := input[m.index + 2..m.end];
      var d := Detail(capture);
      var next := input[m.end - 2..];
      PushDetail(topicDetails, input, m);
      topicDetails := topicDetails + [d];
      input := next;
      multipleDocs := LetterMatch(input);
    }
  }

  /** The topic details of a cell, with the loop run when the paragraph has a lettered marker. */
  method CollectTopicDetails(cell: string) returns (topicDetails: seq<TopicDetail>)
    ensures topicDetails == TopicDetails(cell)
  {
    topicDetails := [];
    var topicDetailsBody := FirstMatch(cell, PARAGRAPH);
    if topicDetailsBody.Some? {
      if LetterMatch(topicDetailsBody.value).Some? {
        topicDetails := ScanDetails(topicDetailsBody.value);
      } else {
        topicDetails := [Detail(topicDetailsBody.value)];
      }
    }
  }

  /**
   * The lettered scan starts at the first marker, so text before it is lost: the paragraph
   * `<p>Intro a) x</p>` gives the single detail `x`, and `Intro` appears in no detail.
   */
  lemma LetteredScanDropsIntro(p: string)
    requires p == "<p>Intro a) x</p>"
    ensures SegmentDetails(p) == [Detail(" x")]
    ensures Detail(" x").text == "x"
  {
    IntroLetterMatch(p);
    assert p[11..13] == " x";
    assert p[11..] == " x</p>";
    NoMarkerInRest(p[11..]);
    DetailOfX(" x");
  }

  lemma IntroLetterMatch(p: string)
    requires p == "<p>Intro a) x</p>"
    ensures LetterMatch(p) == Some(Lettered(9, 13))
  {
    LetterMatchSpec(p);
    assert MarkerAt(p, 9) && TerminatorAt(p, 13) && !TerminatorAt(p, 12);
    TerminatorFromFirst(p, 12, 13);
    assert LetteredAt(p, 9);
    forall i: nat | i < 9 ensures !MarkerAt(p, i) {
      assert p[i + 1] != ')';
    }
  }

  lemma NoMarkerInRest(q: string)
    requires q == " x</p>"
    ensures LetterMatch(q).None?
  {
    LetterMatchSpec(q);
    forall i: nat ensures !MarkerAt(q, i) {
      if i + 1 < |q| {
        assert q[i + 1] != ')';
      }
    }
  }

  lemma DetailOfX(f: string)
    requires f == " x"
    ensures Detail(f).text == "x"
  {
    SplitWithoutSeparator(f, "<br/>");
    StripTagsPlainText(f);
    assert SkipSpace(f, 0) == 1 && SkipSpaceBack(f, 1, 2) == 2;
    assert f[1..2] == "x";
  }
}
