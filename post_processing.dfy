/** The per-cell helpers that clean the scraped article fields before analysis
    (app/post_processing.py): text normalisation, list coercion, word and
    character counts and the domain of the canonical URL. */
module PostProcessing {
  import opened Wrappers
  import opened PyText
  import opened PyJson

  // ---------- tags ----------

  /** The pattern `<[^>]+>` matches at the start of `s`: a `<`, at least one
      character other than `>`, then a `>`. */
  predicate TagAtStart(s: string) {
    |s| >= 2 && s[0] == '<' && s[1] != '>' && '>' in s[2..]
  }

  /** `_TAG_RE.sub(" ", s)`: every match of `<[^>]+>`, found left to right,
      becomes one space. A match runs up to the first `>` after its `<`. */
  function StripTags(s: string): (r: string)
    ensures |r| <= |s|
    decreases |s|
  {
    if s == [] then []
    else if TagAtStart(s) then
      var k := IndexOf(s, '>');
      " " + StripTags(s[k + 1..])
    else [s[0]] + StripTags(s[1..])
  }

  /** Text without a `<` holds no tag and is left as it is. */
  lemma {:induction false} StripTagsNoAngle(s: string)
    requires '<' !in s
    ensures StripTags(s) == s
    decreases |s|
  {
    if s != [] {
      assert s[0] != '<';
      StripTagsNoAngle(s[1..]);
      assert [s[0]] + s[1..] == s;
    }
  }

  /** A tag followed by text: the tag becomes one space and the rest is
      processed on its own. */
  lemma {:induction false} StripTagsOfTag(name: string, rest: string)
    requires name != [] && name[0] != '>' && '>' !in name
    ensures StripTags("<" + name + ">" + rest) == " " + StripTags(rest)
  {
    var s := "<" + name + ">" + rest;
    assert s[2..] == name[1..] + ">" + rest;
    assert s[|name| + 1] == '>';
    assert TagAtStart(s);
    assert forall i | 0 <= i < |name| + 1 :: s[i] != '>' by {
      assert forall i | 1 <= i < |name| + 1 :: s[i] == name[i - 1];
    }
    assert IndexOf(s, '>') == |name| + 1;
    assert s[|name| + 2..] == rest;
  }

  /** Text without a `>` holds no tag: every `<` in it is kept. */
  lemma {:induction false} StripTagsNoClose(s: string)
    requires '>' !in s
    ensures StripTags(s) == s
    decreases |s|
  {
    if s != [] {
      assert !TagAtStart(s) by {
        if |s| >= 2 {
          assert forall i | 0 <= i < |s[2..]| :: s[2..][i] == s[i + 2];
        }
      }
      StripTagsNoClose(s[1..]);
      assert [s[0]] + s[1..] == s;
    }
  }

  /** `<>` is no tag (the pattern needs a character between the brackets), so
      both brackets are kept. */
  lemma {:induction false} StripTagsEmptyBrackets(rest: string)
    ensures StripTags("<>" + rest) == "<>" + StripTags(rest)
  {
    var s := "<>" + rest;
    assert !TagAtStart(s);
    assert s[1..] == ">" + rest;
    assert (">" + rest)[1..] == rest;
    assert StripTags(">" + rest) == ">" + StripTags(rest);
  }

  // ---------- whitespace ----------

  /** Text in which every whitespace character is a space and no two spaces
      are adjacent. */
  predicate SingleSpaced(s: string) {
    forall i | 0 <= i < |s| :: IsSpace(s[i]) ==> s[i] == ' ' && (i + 1 < |s| ==> !IsSpace(s[i + 1]))
  }

  /** `_WS_RE.sub(" ", s)`: every maximal run of whitespace becomes one space. */
  function CollapseWs(s: string): (r: string)
    ensures SingleSpaced(r)
    ensures r == [] <==> s == []
    ensures s != [] && !IsSpace(s[0]) ==> r[0] == s[0]
    ensures s != [] && IsSpace(s[0]) ==> r[0] == ' '
    decreases |s|
  {
    if s == [] then []
    else if IsSpace(s[0]) then
      var rest := CollapseWs(LStrip(s, Whitespace));
      var r := " " + rest;
      assert forall i | 1 <= i < |r| :: r[i] == rest[i - 1];
      r
    else
      var rest := CollapseWs(s[1..]);
      var r := [s[0]] + rest;
      assert forall i | 1 <= i < |r| :: r[i] == rest[i - 1];
      r
  }

  /** Single-spaced text is left as it is. */
  lemma {:induction false} CollapseWsSingleSpaced(s: string)
    requires SingleSpaced(s)
    ensures CollapseWs(s) == s
    decreases |s|
  {
    if s != [] {
      assert SingleSpaced(s[1..]) by {
        assert forall i | 0 <= i < |s[1..]| :: s[1..][i] == s[i + 1];
      }
      CollapseWsSingleSpaced(s[1..]);
      if IsSpace(s[0]) {
        assert LStrip(s, Whitespace) == s[1..] by {
          assert LStrip(s, Whitespace) == LStrip(s[1..], Whitespace);
          assert s[1..] != [] ==> !IsSpace(s[1]);
        }
      }
      assert [s[0]] + s[1..] == s;
    }
  }

  /** Every piece of single-spaced text is single-spaced. */
  lemma {:induction false} SingleSpacedSlice(s: string, i: nat, j: nat)
    requires SingleSpaced(s) && i <= j <= |s|
    ensures SingleSpaced(s[i..j])
  {
    assert forall k | 0 <= k < j - i :: s[i..j][k] == s[i + k];
  }

  /** Stripping single-spaced text keeps it single-spaced. */
  lemma {:induction false} StripSingleSpaced(s: string)
    requires SingleSpaced(s)
    ensures SingleSpaced(Strip(s))
  {
    var l := LStrip(s, Whitespace);
    var r := RStrip(l, Whitespace);
    SingleSpacedSlice(s, |s| - |l|, |s|);
    assert l == s[|s| - |l|..];
    SingleSpacedSlice(l, 0, |r|);
    assert r == l[..|r|];
  }

  /** Collapsing whitespace keeps the words: `_WS_RE.sub(" ", s).split() == s.split()`. */
  lemma {:induction false} WordsCollapse(s: string)
    ensures Words(CollapseWs(s)) == Words(s)
    decreases |s|
  {
    if s != [] {
      if IsSpace(s[0]) {
        var k := LeadingIn(s, Whitespace);
        var l := s[k..];
        assert k > 0;
        WordsCollapse(l);
        var r := " " + CollapseWs(l);
        assert r[1..] == CollapseWs(l);
        assert s[..k] + l == s;
        WordsBlankPrefix(s[..k], l);
      } else {
        var y := s[1..];
        var c := CollapseWs(y);
        WordsCollapse(y);
        assert (c == [] || IsSpace(c[0])) <==> (y == [] || IsSpace(y[0]));
        WordsCons(s[0], c);
        WordsCons(s[0], y);
        assert [s[0]] + y == s;
      }
    }
  }

  /** Trimmed single-spaced text is its words joined by single spaces. */
  lemma {:induction false} JoinWords(t: string)
    requires SingleSpaced(t) && IsTrimmed(t)
    ensures Join(" ", Words(t)) == t
    decreases |t|
  {
    if t != [] {
      var n := WordLen(t);
      if n == |t| {
        assert Words(t) == [t[..n]] + Words(t[n..]);
        assert t[..n] == t && t[n..] == [];
      } else {
        var u := t[n + 1..];
        WordThenGap(t);
        JoinWords(u);
        WordsStartWord(u);
        JoinCons(" ", t[..n], Words(u));
      }
    }
  }

  /** In trimmed single-spaced text, a first word that is not all of it is
      followed by one space and a trimmed single-spaced rest. */
  lemma {:induction false} WordThenGap(t: string)
    requires SingleSpaced(t) && IsTrimmed(t) && t != [] && WordLen(t) < |t|
    ensures var n := WordLen(t); var u := t[n + 1..];
            && n + 1 < |t| && t == t[..n] + " " + u && Words(t) == [t[..n]] + Words(u)
            && SingleSpaced(u) && IsTrimmed(u) && u != [] && !IsSpace(u[0])
  {
    var n := WordLen(t);
    GapRest(t, n);
    GapWords(t, n);
  }

  /** The text after the space that ends a word is trimmed and single-spaced. */
  lemma {:induction false} GapRest(t: string, n: nat)
    requires SingleSpaced(t) && IsTrimmed(t) && n < |t| && IsSpace(t[n])
    ensures n + 1 < |t| && t[n] == ' '
    ensures SingleSpaced(t[n + 1..]) && IsTrimmed(t[n + 1..]) && !IsSpace(t[n + 1])
  {
    SingleSpacedSlice(t, n + 1, |t|);
  }

  /** A word, one space and the rest: the words are that word and the rest's. */
  lemma {:induction false} GapWords(t: string, n: nat)
    requires t != [] && !IsSpace(t[0]) && n == WordLen(t) && n + 1 < |t| && t[n] == ' '
    ensures t == t[..n] + " " + t[n + 1..]
    ensures Words(t) == [t[..n]] + Words(t[n + 1..])
  {
    assert Words(t) == [t[..n]] + Words(t[n..]);
    assert t[n..][1..] == t[n + 1..];
    assert t[..n] + " " + t[n + 1..] == t[..n] + t[n..];
  }

  /** Text that starts with a non-whitespace character has a word. */
  lemma {:induction false} WordsStartWord(u: string)
    requires u != [] && !IsSpace(u[0])
    ensures Words(u) != []
  {
    assert Words(u) == [u[..WordLen(u)]] + Words(u[WordLen(u)..]);
  }

  // ---------- _clean_text ----------

  /** `_clean_text(x)`: `None` stays `None`; anything else that is not a
      string goes through `str()`; then tags become spaces,
      whitespace runs become one space, the ends are stripped, and an empty
      result is `None`. */
  function CleanText(x: Json): (r: Option<string>)
    ensures x.JNull? ==> r.None?
    ensures r.Some? ==> r.value != [] && IsTrimmed(r.value) && SingleSpaced(r.value)
  {
    if x.JNull? then None
    else
      var c := CollapseWs(StripTags(Str(x)));
      var t := Strip(c);
      StripSingleSpaced(c);
      if t != [] then Some(t) else None
  }

  /** `_clean_text` against an independent reference: after tag removal, the
      value is `" ".join(x.split())`, and `None` when there is no word. */
  lemma {:induction false} CleanTextWords(x: Json)
    ensures !x.JNull? ==>
              CleanText(x) == var w := Words(StripTags(Str(x))); if w == [] then None else Some(Join(" ", w))
  {
    if !x.JNull? {
      var u := StripTags(Str(x));
      var c := CollapseWs(u);
      var t := Strip(c);
      assert CleanText(x) == if t != [] then Some(t) else None;
      WordsCollapse(u);
      WordsStrip(c);
      StripSingleSpaced(c);
      JoinWords(t);
      if t != [] {
        WordsStartWord(t);
      }
    }
  }

  /** A string without `>` holds no tag, so every `<` in it survives cleaning:
      the result is its words joined by single spaces. */
  lemma {:induction false} CleanTextNoClose(s: string)
    requires '>' !in s
    ensures CleanText(JString(s)) == var w := Words(s); if w == [] then None else Some(Join(" ", w))
  {
    CleanTextWords(JString(s));
    StripTagsNoClose(s);
  }

  /** A non-empty string with no `<`, nothing to strip and single spaces only
      comes back unchanged. */
  lemma {:induction false} CleanTextFixedPoint(s: string)
    requires IsClean(s)
    ensures CleanText(JString(s)) == Some(s)
  {
    StripTagsNoAngle(s);
    CollapseWsSingleSpaced(s);
  }

  /** Cleaning is idempotent on text without `<`: a cleaned value cleans to
      itself. */
  lemma {:induction false} CleanTextIdempotent(x: Json)
    requires '<' !in Str(x)
    ensures CleanText(x).Some? ==> CleanText(JString(CleanText(x).value)) == CleanText(x)
  {
    if !x.JNull? {
      var s := Str(x);
      StripTagsNoAngle(s);
      var c := CollapseWs(s);
      var t := Strip(c);
      assert CleanText(x) == if t != [] then Some(t) else None;
      if t != [] {
        CollapseAvoids(s, '<');
        StripCharsAvoids(c, Whitespace, '<');
        StripSingleSpaced(c);
        assert IsClean(t);
        CleanTextFixedPoint(t);
      }
    }
  }

  /** Collapsing whitespace introduces no character other than a space. */
  lemma {:induction false} CollapseAvoids(s: string, c: char)
    requires c != ' ' && c !in s
    ensures c !in CollapseWs(s)
    decreases |s|
  {
    if s != [] {
      if IsSpace(s[0]) {
        var l := LStrip(s, Whitespace);
        assert c !in l by {
          assert forall i | 0 <= i < |l| :: l[i] == s[LeadingIn(s, Whitespace) + i];
        }
        CollapseAvoids(l, c);
      } else {
        assert c !in s[1..] by {
          assert forall i | 0 <= i < |s[1..]| :: s[1..][i] == s[i + 1];
        }
        CollapseAvoids(s[1..], c);
      }
    }
  }

  /** A tag between two words leaves the words apart by a single space. */
  lemma {:induction false} CleanTextDropsTag(a: string, name: string, b: string)
    requires IsClean(a) && IsClean(b)
    requires name != [] && name[0] != '>' && '>' !in name
    ensures CleanText(JString(a + "<" + name + ">" + b)) == Some(a + " " + b)
  {
    StripTagsBetween(a, name, b);
    SingleSpacedJoin(a, b);
    CleanTextOfUntagged(a + "<" + name + ">" + b, a + " " + b);
  }

  /** A tag between two texts without `<` becomes one space. */
  lemma {:induction false} StripTagsBetween(a: string, name: string, b: string)
    requires '<' !in a && '<' !in b
    requires name != [] && name[0] != '>' && '>' !in name
    ensures StripTags(a + "<" + name + ">" + b) == a + " " + b
  {
    var t := "<" + name + ">" + b;
    assert a + "<" + name + ">" + b == a + t;
    StripTagsPrefix(a, t);
    StripTagsOfTag(name, b);
    StripTagsNoAngle(b);
  }

  /** Text whose tags leave a non-empty, trimmed, single-spaced text cleans to
      that text. */
  lemma {:induction false} CleanTextOfUntagged(s: string, u: string)
    requires StripTags(s) == u && u != [] && IsTrimmed(u) && SingleSpaced(u)
    ensures CleanText(JString(s)) == Some(u)
  {
    CollapseWsSingleSpaced(u);
  }

  /** Two trimmed single-spaced texts joined by a space are single-spaced and
      trimmed. */
  lemma {:induction false} SingleSpacedJoin(a: string, b: string)
    requires a != [] && b != []
    requires IsTrimmed(a) && IsTrimmed(b) && SingleSpaced(a) && SingleSpaced(b)
    ensures SingleSpaced(a + " " + b) && IsTrimmed(a + " " + b)
  {
    var u := a + " " + b;
    assert forall i | 0 <= i < |a| :: u[i] == a[i];
    assert forall i | |a| < i < |u| :: u[i] == b[i - |a| - 1];
  }

  /** Text without a `<` in front of the rest passes through unchanged before it. */
  lemma {:induction false} StripTagsPrefix(a: string, rest: string)
    requires '<' !in a
    ensures StripTags(a + rest) == a + StripTags(rest)
    decreases |a|
  {
    if a != [] {
      var s := a + rest;
      assert s[0] == a[0] && s[1..] == a[1..] + rest;
      StripTagsPrefix(a[1..], rest);
      assert [a[0]] + a[1..] == a;
    } else {
      assert a + rest == rest;
    }
  }

  // ---------- _ensure_list ----------

  /** `_clean_text` of every entry, in order. */
  function CleanEach(items: seq<Json>): (r: seq<Option<string>>)
    ensures |r| == |items|
    ensures forall i | 0 <= i < |items| :: r[i] == CleanText(items[i])
  {
    seq(|items|, i requires 0 <= i < |items| => CleanText(items[i]))
  }

  /** What `_ensure_list(x)` returns: `[]` for `None`, the cleaned non-empty
      entries of a list in order, and for any other value its cleaned text as a
      one-element list, or `[]` when that cleans to nothing. */
  function EnsureListOf(x: Json): seq<string> {
    match x
    case JNull => []
    case JArray(items) => KeepTrue(CleanEach(items))
    case _ => KeepTrue([CleanText(x)])
  }

  /** Every entry of the coerced list is cleaned text, and there is at most one
      per input entry. */
  lemma {:induction false} EnsureListClean(x: Json)
    ensures x.JArray? ==> |EnsureListOf(x)| <= |x.items|
    ensures !x.JArray? ==> |EnsureListOf(x)| <= 1
    ensures forall i | 0 <= i < |EnsureListOf(x)| ::
              var s := EnsureListOf(x)[i];
              s != [] && IsTrimmed(s) && SingleSpaced(s)
  {
    var ks := match x case JArray(items) => CleanEach(items) case _ => [CleanText(x)];
    if !x.JNull? {
      assert EnsureListOf(x) == KeepTrue(ks);
      KeepTrueFrom(ks);
      forall i | 0 <= i < |KeepTrue(ks)|
        ensures IsTrimmed(KeepTrue(ks)[i]) && SingleSpaced(KeepTrue(ks)[i])
      {
        var j :| 0 <= j < |ks| && ks[j] == Some(KeepTrue(ks)[i]);
      }
    }
  }

  /** The list case keeps order: coercing a concatenation gives the
      concatenation of the coerced parts. */
  lemma {:induction false} EnsureListConcat(a: seq<Json>, b: seq<Json>)
    ensures EnsureListOf(JArray(a + b)) == EnsureListOf(JArray(a)) + EnsureListOf(JArray(b))
  {
    CleanEachConcat(a, b);
    KeepTrueConcat(CleanEach(a), CleanEach(b));
  }

  /** Cleaning entry by entry respects concatenation. */
  lemma {:induction false} CleanEachConcat(a: seq<Json>, b: seq<Json>)
    ensures CleanEach(a + b) == CleanEach(a) + CleanEach(b)
  {
    var l, r := CleanEach(a + b), CleanEach(a) + CleanEach(b);
    assert |l| == |r|;
    forall i | 0 <= i < |l|
      ensures l[i] == r[i]
    {
      if i < |a| {
        assert (a + b)[i] == a[i];
      } else {
        assert (a + b)[i] == b[i - |a|];
      }
    }
  }

  /** A string is clean when `_clean_text` has nothing to do on it. */
  predicate IsClean(s: string) {
    s != [] && '<' !in s && IsTrimmed(s) && SingleSpaced(s)
  }

  /** The strings `ss` as a list of JSON strings. */
  function JStrings(ss: seq<string>): (r: seq<Json>)
    ensures |r| == |ss|
    ensures forall i | 0 <= i < |ss| :: r[i] == JString(ss[i])
  {
    seq(|ss|, i requires 0 <= i < |ss| => JString(ss[i]))
  }

  /** A list of strings that are already clean comes back as those strings. */
  lemma {:induction false} EnsureListOfCleanStrings(ss: seq<string>)
    requires forall i | 0 <= i < |ss| :: IsClean(ss[i])
    ensures EnsureListOf(JArray(JStrings(ss))) == ss
  {
    var cs := CleanEach(JStrings(ss));
    forall i | 0 <= i < |ss|
      ensures cs[i] == Some(ss[i])
    {
      CleanTextFixedPoint(ss[i]);
    }
    KeepTrueSomes(ss, cs);
  }

  /** `_ensure_list(x)`. */
  method EnsureList(x: Json) returns (r: seq<string>)
    ensures r == EnsureListOf(x)
  {
    if x.JNull? {
      return [];
    }
    if x.JArray? {
      var items := x.items;
      var out: seq<string> := [];
      var i := 0;
      while i < |items|
        invariant 0 <= i <= |items|
        invariant out == KeepTrue(CleanEach(items[..i]))
      {
        var cv := CleanText(items[i]);
        CleanEachStep(items, i);
        if cv.Some? && cv.value != [] {
          out := out + [cv.value];
        }
        i := i + 1;
      }
      assert items[..i] == items;
      return out;
    }
    var cv := CleanText(x);
    KeepTrueOne(cv);
    return if cv.Some? && cv.value != [] then [cv.value] else [];
  }

  /** One more list entry adds its cleaned text when that is not empty. */
  lemma {:induction false} CleanEachStep(items: seq<Json>, i: nat)
    requires i < |items|
    ensures var cv := CleanText(items[i]);
            KeepTrue(CleanEach(items[..i + 1]))
            == KeepTrue(CleanEach(items[..i])) + (if cv.Some? && cv.value != [] then [cv.value] else [])
  {
    assert items[..i + 1] == items[..i] + [items[i]];
    assert CleanEach(items[..i + 1]) == CleanEach(items[..i]) + [CleanText(items[i])];
    KeepTrueConcat(CleanEach(items[..i]), [CleanText(items[i])]);
    KeepTrueOne(CleanText(items[i]));
  }

  // ---------- counts ----------

  /** `_word_count(text)`: 0 for `None` or `""`, else the length of `text.split()`. */
  function WordCount(text: Option<string>): (n: nat)
    ensures text.Some? ==> n == RunStarts(text.value, true)
    ensures n <= CharCount(text)
  {
    if text.None? || text.value == [] then 0
    else
      WordsCountRuns(text.value);
      |Words(text.value)|
  }

  /** `_char_count(text)`: 0 for `None` or `""`, else the length. */
  function CharCount(text: Option<string>): (n: nat)
    ensures text.Some? ==> n == |text.value|
    ensures text.None? ==> n == 0
  {
    if text.None? || text.value == [] then 0 else |text.value|
  }

  /** The number of positions where a run of non-whitespace characters begins,
      counting from a position preceded by whitespace when `afterSpace` holds. */
  function RunStarts(s: string, afterSpace: bool): nat
    decreases |s|
  {
    if s == [] then 0
    else (if afterSpace && !IsSpace(s[0]) then 1 else 0) + RunStarts(s[1..], IsSpace(s[0]))
  }

  /** Inside a word, nothing new starts until the next whitespace. */
  lemma {:induction false} RunStartsInWord(s: string)
    ensures RunStarts(s, false) == RunStarts(s[WordLen(s)..], true)
    decreases |s|
  {
    if s != [] && !IsSpace(s[0]) {
      RunStartsInWord(s[1..]);
      assert s[1..][WordLen(s[1..])..] == s[WordLen(s)..];
    }
  }

  /** `text.split()` has one word per maximal run of non-whitespace characters. */
  lemma {:induction false} WordsCountRuns(s: string)
    ensures |Words(s)| == RunStarts(s, true)
    decreases |s|
  {
    if s != [] {
      if IsSpace(s[0]) {
        WordsCountRuns(s[1..]);
      } else {
        var n := WordLen(s);
        WordsCountRuns(s[n..]);
        RunStartsInWord(s[1..]);
        assert s[1..][WordLen(s[1..])..] == s[n..];
      }
    }
  }

  // ---------- canonical domain ----------

  /** `"://" in u` gives `u` at least two slashes. */
  lemma {:induction false} SchemeSlashes(u: string)
    requires Contains(u, "://")
    ensures multiset(u)['/'] >= 2
  {
    var i :| 0 <= i <= |u| - 3 && StartsWith(u[i..], "://");
    assert u == u[..i + 1] + ['/', '/'] + u[i + 3..] by {
      assert u[i..][..3] == "://";
    }
    assert multiset(u) == multiset(u[..i + 1]) + multiset(['/', '/']) + multiset(u[i + 3..]);
  }

  /** The `canonical_domain` of a cleaned canonical URL: `None` when it is
      missing or empty or has no `://`, otherwise the third `/`-separated
      piece of the URL. */
  function CanonicalDomain(u: Option<string>): (r: Option<string>)
    ensures u.None? || u.value == [] || !Contains(u.value, "://") ==> r.None?
    ensures r.Some? ==> '/' !in r.value
  {
    if u.None? || u.value == [] then None
    else if Contains(u.value, "://") then
      SchemeSlashes(u.value);
      SplitCount(u.value, '/');
      Some(Split(u.value, '/')[2])
    else None
  }

  /** For `scheme://host` followed by nothing or by a path, the domain is the
      host. */
  lemma {:induction false} DomainOfUrl(scheme: string, host: string, path: string)
    requires '/' !in scheme && '/' !in host
    requires path == [] || path[0] == '/'
    ensures CanonicalDomain(Some(scheme + "://" + host + path)) == Some(host)
  {
    assert scheme + "://" + host + path == scheme + "://" + (host + path);
    DomainAfterScheme(scheme, host + path);
    SplitHostFirst(host, path);
  }

  /** After `scheme://` the domain is the first `/`-separated piece of the rest. */
  lemma {:induction false} DomainAfterScheme(scheme: string, rest: string)
    requires '/' !in scheme
    ensures CanonicalDomain(Some(scheme + "://" + rest)) == Some(Split(rest, '/')[0])
  {
    SchemeMarker(scheme, rest);
    SplitOfUrl(scheme, rest);
  }

  lemma {:induction false} SchemeMarker(scheme: string, rest: string)
    ensures Contains(scheme + "://" + rest, "://")
  {
    var u := scheme + "://" + rest;
    assert u[|scheme|..][..3] == "://";
    assert StartsWith(u[|scheme|..], "://");
  }

  /** `scheme://rest` splits into `scheme:`, an empty piece, then the pieces
      of `rest`. */
  lemma {:induction false} SplitOfUrl(scheme: string, rest: string)
    requires '/' !in scheme
    ensures Split(scheme + "://" + rest, '/') == [scheme + ":", []] + Split(rest, '/')
  {
    var head := scheme + ":";
    var x := [] + ['/'] + rest;
    var u := scheme + "://" + rest;
    assert Split(u, '/') == [head] + Split(x, '/') by {
      assert u == head + ['/'] + x;
      SplitAt(head, '/', x);
    }
    assert Split(x, '/') == [[]] + Split(rest, '/') by {
      SplitAt([], '/', rest);
    }
  }

  /** The first `/`-separated piece of a host followed by a path is the host. */
  lemma {:induction false} SplitHostFirst(host: string, path: string)
    requires '/' !in host
    requires path == [] || path[0] == '/'
    ensures Split(host + path, '/')[0] == host
  {
    if path == [] {
      assert host + path == host;
      assert Split(host, '/') == [host];
    } else {
      assert path == ['/'] + path[1..];
      assert host + path == host + ['/'] + path[1..];
      SplitAt(host, '/', path[1..]);
    }
  }
}
