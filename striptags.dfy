/**
 * The `striptags` library, modelled only as a remover of `<...>` spans: a `<` opens a tag that
 * the next `>` closes, and an unclosed tag drops the rest of the input.
 */
module Tags {
  import opened JsString

  /** `striptags(html)` */
  function StripTags(html: string): (text: string)
    decreases |html|
    ensures '<' !in text
    ensures |text| <= |html|
  {
    if html == [] then []
    else if html[0] == '<' then SkipTag(html[1..])
    else [html[0]] + StripTags(html[1..])
  }

  /** Inside a tag: drop characters up to and including the closing `>`. */
  function SkipTag(rest: string): (text: string)
    decreases |rest|
    ensures '<' !in text
    ensures |text| <= |rest|
  {
    if rest == [] then []
    else if rest[0] == '>' then StripTags(rest[1..])
    else SkipTag(rest[1..])
  }

  /** Text without a `<` is left alone; in particular stripping twice is stripping once. */
  lemma {:induction false} StripTagsPlainText(s: string)
    requires '<' !in s
    ensures StripTags(s) == s
  {
    if s != [] {
      assert s[0] != '<';
      assert forall c :: c in s[1..] ==> c in s;
      StripTagsPlainText(s[1..]);
      assert s == [s[0]] + s[1..];
    }
  }

  lemma StripTagsIdempotent(s: string)
    ensures StripTags(StripTags(s)) == StripTags(s)
  {
    StripTagsPlainText(StripTags(s));
  }

  /** A tag `<t>` is dropped whole. */
  lemma StripTagsTag(t: string, rest: string)
    requires '>' !in t
    ensures StripTags("<" + t + ">" + rest) == StripTags(rest)
  {
    assert ("<" + t + ">" + rest)[1..] == t + ">" + rest;
    SkipTagText(t, rest);
  }

  lemma {:induction false} SkipTagText(t: string, rest: string)
    requires '>' !in t
    ensures SkipTag(t + ">" + rest) == StripTags(rest)
  {
    if t == [] {
      assert (t + ">" + rest)[1..] == rest;
    } else {
      assert t[0] in t;
      assert forall c :: c in t[1..] ==> c in t;
      assert (t + ">" + rest)[1..] == t[1..] + ">" + rest;
      SkipTagText(t[1..], rest);
    }
  }

  /** Text before the next tag is kept as it is. */
  lemma {:induction false} StripTagsText(a: string, rest: string)
    requires '<' !in a
    ensures StripTags(a + rest) == a + StripTags(rest)
  {
    if a != [] {
      assert a[0] in a;
      assert forall c :: c in a[1..] ==> c in a;
      assert (a + rest)[1..] == a[1..] + rest;
      StripTagsText(a[1..], rest);
    } else {
      assert a + rest == rest;
    }
  }
}
