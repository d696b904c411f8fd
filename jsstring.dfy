/**
 * The JavaScript string built-ins the extraction relies on (`replace` with a string pattern,
 * the global `replace` of a literal, `trim`, `split`, `parseInt`, and the substring search
 * under them), and the character classes of
 * JavaScript regular expressions without the `u` flag. Strings are sequences of characters.
 */
module JsString {
  import opened Wrappers

  predicate IsDigit(c: char) { '0' <= c <= '9' }

  predicate IsLower(c: char) { 'a' <= c <= 'z' }

  /** Membership in `\w`; `\W` is its complement (so every non-ASCII letter is in `\W`). */
  predicate IsWordChar(c: char) { 'a' <= c <= 'z' || 'A' <= c <= 'Z' || '0' <= c <= '9' || c == '_' }

  /** The characters that `.` does not match unless the `s` flag is set. */
  predicate IsLineTerminator(c: char) {
    c == '\n' || c == '\r' || c as int == 0x2028 || c as int == 0x2029
  }

  /** What `String.prototype.trim` removes: the WhiteSpace and LineTerminator characters. */
  predicate IsSpace(c: char) {
    var n := c as int;
    (0x09 <= n <= 0x0D) || n == 0x20 || n == 0xA0 || n == 0x1680 || (0x2000 <= n <= 0x200A)
    || n == 0x2028 || n == 0x2029 || n == 0x202F || n == 0x205F || n == 0x3000 || n == 0xFEFF
  }

  predicate AllDigits(s: string) { forall k :: 0 <= k < |s| ==> IsDigit(s[k]) }

  /** No line terminator among `s[a..b]`. */
  predicate NoLineBreak(s: string, a: nat, b: nat)
    requires a <= b <= |s|
  {
    forall k :: a <= k < b ==> !IsLineTerminator(s[k])
  }

  /** `p` occurs in `s` at index `i`. */
  predicate StartsAt(s: string, i: nat, p: string) {
    i + |p| <= |s| && s[i..i + |p|] == p
  }

  lemma StartsAtChar(s: string, i: nat, c: char)
    ensures StartsAt(s, i, [c]) <==> i < |s| && s[i] == c
  {
    if i < |s| { assert s[i..i + 1] == [s[i]]; }
  }

  /** The first occurrence of `p` in `s` at or after `from`. */
  function IndexOf(s: string, p: string, from: nat): (r: Option<nat>)
    decreases |s| + 1 - from
    ensures r.Some? ==> from <= r.value && StartsAt(s, r.value, p)
  {
    if from > |s| then None
    else if StartsAt(s, from, p) then Some(from)
    else IndexOf(s, p, from + 1)
  }

  /** Every occurrence at or after `from` is found, and none before the one reported. */
  lemma {:induction false} IndexOfFirst(s: string, p: string, from: nat, k: nat)
    requires from <= k && StartsAt(s, k, p)
    ensures IndexOf(s, p, from).Some? && IndexOf(s, p, from).value <= k
    decreases k - from
  {
    if !StartsAt(s, from, p) {
      IndexOfFirst(s, p, from + 1, k);
    }
  }

  /** `IndexOf` as a specification: `None` exactly when there is no occurrence, else the leftmost. */
  lemma IndexOfSpec(s: string, p: string, from: nat)
    ensures IndexOf(s, p, from).None? <==> forall k: nat :: from <= k ==> !StartsAt(s, k, p)
    ensures IndexOf(s, p, from).Some? ==>
              forall k: nat :: from <= k < IndexOf(s, p, from).value ==> !StartsAt(s, k, p)
  {
    forall k: nat | from <= k && StartsAt(s, k, p)
      ensures IndexOf(s, p, from).Some? && IndexOf(s, p, from).value <= k
    {
      IndexOfFirst(s, p, from, k);
    }
  }

  /** `s.replace(pat, rep)` with a string pattern: only the first occurrence is replaced. */
  function ReplaceFirst(s: string, pat: string, rep: string): (r: string)
    ensures (forall k: nat :: !StartsAt(s, k, pat)) ==> r == s
  {
    IndexOfSpec(s, pat, 0);
    match IndexOf(s, pat, 0)
    case None => s
    case Some(i) => s[..i] + rep + s[i + |pat|..]
  }

  /** When the first occurrence of `pat` is at `i`, `rep` takes its place and nothing else changes. */
  lemma ReplaceFirstAt(s: string, pat: string, rep: string, i: nat)
    requires StartsAt(s, i, pat) && forall k: nat :: k < i ==> !StartsAt(s, k, pat)
    ensures ReplaceFirst(s, pat, rep) == s[..i] + rep + s[i + |pat|..]
  {
    IndexOfFirst(s, pat, 0, i);
  }

  /** A character of `s` that differs from the `j`-th of `p` rules out an occurrence of `p` at `k`. */
  lemma NotAt(s: string, p: string, k: nat, j: nat)
    requires j < |p| && (k + j < |s| ==> s[k + j] != p[j])
    ensures !StartsAt(s, k, p)
  {
    if k + |p| <= |s| {
      assert s[k..k + |p|][j] == s[k + j];
    }
  }

  /** A text lacking one of the characters of `p` holds no occurrence of `p`. */
  lemma NoOccurrenceWithout(s: string, p: string, j: nat)
    requires j < |p| && p[j] !in s
    ensures forall k: nat :: !StartsAt(s, k, p)
  {
    forall k: nat ensures !StartsAt(s, k, p) {
      if k + |p| <= |s| {
        assert s[k..k + |p|][j] == s[k + j];
        assert s[k + j] in s;
      }
    }
  }

  /** So `replace` leaves such a text alone. */
  lemma ReplaceFirstAbsent(s: string, pat: string, j: nat, rep: string)
    requires j < |pat| && pat[j] !in s
    ensures ReplaceFirst(s, pat, rep) == s
  {
    NoOccurrenceWithout(s, pat, j);
  }

  /**
   * `s.replace(/pat/g, rep)` for a literal, non-empty pattern: every occurrence, left to right,
   * which is `s.split(pat).join(rep)`.
   */
  function ReplaceAll(s: string, pat: string, rep: string): (r: string)
    requires |pat| > 0
    decreases |s|
    ensures r == Join(Split(s, pat), rep)
  {
    match IndexOf(s, pat, 0)
    case None => s
    case Some(i) =>
      var rest := Split(s[i + |pat|..], pat);
      assert Split(s, pat) == [s[..i]] + rest;
      assert ([s[..i]] + rest)[1..] == rest;
      s[..i] + rep + ReplaceAll(s[i + |pat|..], pat, rep)
  }

  /**
   * Once every occurrence of `pat` is replaced by a text none of whose characters occur in `pat`,
   * no occurrence of `pat` is left.
   */
  lemma ReplaceAllLeavesNone(s: string, pat: string, rep: string)
    requires |pat| > 0 && |rep| > 0 && forall c :: c in rep ==> c !in pat
    ensures forall j: nat :: !StartsAt(ReplaceAll(s, pat, rep), j, pat)
  {
    JoinWithout(Split(s, pat), pat, rep);
  }

  /** Joining parts free of `sep` with such a text creates no occurrence of `sep`. */
  lemma {:induction false} JoinWithout(parts: seq<string>, sep: string, rep: string)
    requires |sep| > 0 && |rep| > 0 && forall c :: c in rep ==> c !in sep
    requires forall k: nat, j: nat :: k < |parts| ==> !StartsAt(parts[k], j, sep)
    ensures forall j: nat :: !StartsAt(Join(parts, rep), j, sep)
    decreases |parts|
  {
    if |parts| >= 2 {
      assert forall k: nat :: k < |parts[1..]| ==> parts[1..][k] == parts[k + 1];
      JoinWithout(parts[1..], sep, rep);
      var a := parts[0];
      var b := Join(parts[1..], rep);
      assert Join(parts, rep) == a + rep + b;
      forall j: nat | StartsAt(a + rep + b, j, sep) ensures false {
        OccurrenceAcrossJoin(a, rep, b, sep, j);
      }
    }
  }

  /** An occurrence of `sep` in `a + rep + b` lies in `a`, in `b`, or covers a character of `rep`. */
  lemma OccurrenceAcrossJoin(a: string, rep: string, b: string, sep: string, j: nat)
    requires |sep| > 0 && |rep| > 0 && forall c :: c in rep ==> c !in sep
    requires StartsAt(a + rep + b, j, sep)
    ensures StartsAt(a, j, sep) || (j >= |a| + |rep| && StartsAt(b, j - |a| - |rep|, sep))
  {
    var t := a + rep + b;
    if j + |sep| <= |a| {
      assert t[j..j + |sep|] == a[j..j + |sep|];
    } else if j >= |a| + |rep| {
      var x := j - |a| - |rep|;
      assert t[j..j + |sep|] == b[x..x + |sep|];
    } else {
      var q := if j >= |a| then j else |a|;
      OverlapChar(a, rep, b, sep, j, q);
      assert false;
    }
  }

  /** A character of `rep` covered by an occurrence of `sep` in `a + rep + b` is a character of `sep`. */
  lemma OverlapChar(a: string, rep: string, b: string, sep: string, j: nat, q: nat)
    ensures StartsAt(a + rep + b, j, sep) && j <= q < j + |sep| && |a| <= q < |a| + |rep| ==>
              rep[q - |a|] in rep && rep[q - |a|] in sep
  {
    if StartsAt(a + rep + b, j, sep) && j <= q < j + |sep| && |a| <= q < |a| + |rep| {
      var t := a + rep + b;
      assert t[j..j + |sep|][q - j] == t[q];
      assert t[q] == rep[q - |a|];
    }
  }

  /** The first index at or after `i` that holds no white space (or `|s|`). */
  function SkipSpace(s: string, i: nat): (j: nat)
    requires i <= |s|
    decreases |s| - i
    ensures i <= j <= |s|
    ensures forall k :: i <= k < j ==> IsSpace(s[k])
    ensures j == |s| || !IsSpace(s[j])
  {
    if i < |s| && IsSpace(s[i]) then SkipSpace(s, i + 1) else i
  }

  /** Going down from `j`, not below `lo`: the end of the text once trailing white space is cut. */
  function SkipSpaceBack(s: string, lo: nat, j: nat): (e: nat)
    requires lo <= j <= |s|
    decreases j
    ensures lo <= e <= j
    ensures forall k :: e <= k < j ==> IsSpace(s[k])
    ensures e == lo || !IsSpace(s[e - 1])
  {
    if lo < j && IsSpace(s[j - 1]) then SkipSpaceBack(s, lo, j - 1) else j
  }

  /**
   * `s.trim()`: the slice left once the leading and then the trailing white space are cut. It
   * has no white space at either end.
   */
  function Trim(s: string): (r: string)
    ensures r == [] || (!IsSpace(r[0]) && !IsSpace(r[|r| - 1]))
    ensures exists i: nat, e: nat :: i <= e <= |s| && r == s[i..e]
              && (forall k :: 0 <= k < i ==> IsSpace(s[k])) && (forall k :: e <= k < |s| ==> IsSpace(s[k]))
  {
    var i := SkipSpace(s, 0);
    var e := SkipSpaceBack(s, i, |s|);
    assert e > i ==> !IsSpace(s[i]) && !IsSpace(s[e - 1]);
    assert forall k :: e <= k < |s| ==> IsSpace(s[k]);
    s[i..e]
  }

  /** A string without white space at either end is its own trim. */
  lemma TrimNoOp(s: string)
    requires s == [] || (!IsSpace(s[0]) && !IsSpace(s[|s| - 1]))
    ensures Trim(s) == s
  {
    if s != [] {
      assert SkipSpace(s, 0) == 0;
      assert SkipSpaceBack(s, 0, |s|) == |s|;
    }
  }

  /** Trimming twice is trimming once. */
  lemma TrimIdempotent(s: string)
    ensures Trim(Trim(s)) == Trim(s)
  {
    TrimNoOp(Trim(s));
  }

  /** Every character of `Trim(s)` comes from `s`: trimming adds nothing. */
  lemma TrimSubstring(s: string)
    ensures forall c :: c in Trim(s) ==> c in s
  {
    var i := SkipSpace(s, 0);
    var e := SkipSpaceBack(s, i, |s|);
    assert Trim(s) == s[i..e];
    forall c | c in Trim(s) ensures c in s {
      var k :| 0 <= k < |Trim(s)| && Trim(s)[k] == c;
      assert s[i + k] == c;
    }
  }

  /** `parts.join(sep)` */
  function Join(parts: seq<string>, sep: string): string
  {
    if parts == [] then []
    else if |parts| == 1 then parts[0]
    else parts[0] + sep + Join(parts[1..], sep)
  }

  /** `s.split(sep)` for a non-empty string separator: the pieces between the occurrences of `sep`. */
  function Split(s: string, sep: string): (r: seq<string>)
    requires |sep| > 0
    decreases |s|
    ensures |r| >= 1
    ensures Join(r, sep) == s
    ensures forall k: nat, j: nat :: k < |r| ==> !StartsAt(r[k], j, sep)
    ensures (forall k: nat :: !StartsAt(s, k, sep)) ==> r == [s]
  {
    IndexOfSpec(s, sep, 0);
    match IndexOf(s, sep, 0)
    case None => [s]
    case Some(i) =>
      var rest := Split(s[i + |sep|..], sep);
      NoOccurrenceBefore(s, sep, i);
      PartsWithout(s[..i], rest, sep);
      assert s == s[..i] + sep + s[i + |sep|..];
      [s[..i]] + rest
  }

  lemma PartsWithout(head: string, rest: seq<string>, sep: string)
    requires forall j: nat :: !StartsAt(head, j, sep)
    requires forall k: nat, j: nat :: k < |rest| ==> !StartsAt(rest[k], j, sep)
    ensures forall k: nat, j: nat :: k < |[head] + rest| ==> !StartsAt(([head] + rest)[k], j, sep)
  {
    forall k: nat, j: nat | 0 < k < |[head] + rest| ensures !StartsAt(([head] + rest)[k], j, sep) {
      assert ([head] + rest)[k] == rest[k - 1];
    }
  }

  /** Text before the first occurrence of a non-empty `p` holds no occurrence of `p`. */
  lemma NoOccurrenceBefore(s: string, p: string, i: nat)
    requires |p| > 0 && i <= |s| && forall k: nat :: k < i ==> !StartsAt(s, k, p)
    ensures forall j: nat :: !StartsAt(s[..i], j, p)
  {
    forall j: nat | StartsAt(s[..i], j, p) ensures false {
      assert s[..i][j..j + |p|] == s[j..j + |p|];
      assert StartsAt(s, j, p);
    }
  }

  /** A string that does not contain the first character of `sep` does not split. */
  lemma SplitWithoutSeparator(s: string, sep: string)
    requires |sep| > 0 && sep[0] !in s
    ensures Split(s, sep) == [s]
  {
    forall k: nat ensures !StartsAt(s, k, sep) {
      if k + |sep| <= |s| {
        assert s[k..k + |sep|][0] == s[k];
        assert s[k] in s;
      }
    }
  }

  /** The number of consecutive digits in `s` starting at `i`. */
  function DigitRun(s: string, i: nat): (n: nat)
    requires i <= |s|
    decreases |s| - i
    ensures i + n <= |s|
    ensures forall k :: i <= k < i + n ==> IsDigit(s[k])
    ensures i + n == |s| || !IsDigit(s[i + n])
  {
    if i < |s| && IsDigit(s[i]) then 1 + DigitRun(s, i + 1) else 0
  }

  /** A run of exactly `n` digits followed by a non-digit is what `DigitRun` measures. */
  lemma {:induction false} DigitRunOf(s: string, i: nat, n: nat)
    requires i + n < |s| && !IsDigit(s[i + n])
    requires forall k :: i <= k < i + n ==> IsDigit(s[k])
    ensures DigitRun(s, i) == n
    decreases n
  {
    if n > 0 {
      DigitRunOf(s, i + 1, n - 1);
    }
  }

  function Min(a: nat, b: nat): nat { if a <= b then a else b }

  function Pow10(n: nat): (r: nat)
    ensures r >= 1
  {
    if n == 0 then 1 else 10 * Pow10(n - 1)
  }

  /** `parseInt(d, 10)` for a string of decimal digits. */
  function DigitsValue(d: string): (r: nat)
    requires AllDigits(d)
    ensures r < Pow10(|d|)
  {
    if d == [] then 0
    else
      var p := DigitsValue(d[..|d| - 1]);
      var r := 10 * p + (d[|d| - 1] as int - '0' as int);
      assert p + 1 <= Pow10(|d| - 1);
      assert 10 * (p + 1) <= 10 * Pow10(|d| - 1);
      r
  }

  /**
   * Decimal digits are positional: the value of `a + b` is the value of `a` shifted left by the
   * length of `b`, plus the value of `b`. In particular leading zeros do not change the value.
   */
  lemma {:induction false} DigitsValueConcat(a: string, b: string)
    requires AllDigits(a) && AllDigits(b)
    ensures AllDigits(a + b)
    ensures DigitsValue(a + b) == DigitsValue(a) * Pow10(|b|) + DigitsValue(b)
    decreases |b|
  {
    if b == [] {
      assert a + b == a;
    } else {
      var init := b[..|b| - 1];
      assert (a + b)[..|a + b| - 1] == a + init;
      DigitsValueConcat(a, init);
      ShiftStep(DigitsValue(a), Pow10(|init|), DigitsValue(init), b[|b| - 1] as int - '0' as int);
    }
  }

  lemma ShiftStep(x: int, p: int, y: int, c: int)
    ensures 10 * (x * p + y) + c == x * (10 * p) + (10 * y + c)
  {
  }
}
