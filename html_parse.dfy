/** Field extraction from a news article page and the name of the file an
    extracted article is saved under (app/html_parse.py).

    The page is not parsed here: a document, or its `<body>`, is the sequence
    of its elements in document order, each with its tag name, its `class`
    list and its text nodes, which is what the CSS selectors and `get_text`
    of BeautifulSoup see. The JSON-LD script blocks arrive already decoded,
    or marked as empty or undecodable. */
module HtmlParse {
  import opened Wrappers
  import opened PyText
  import opened PyJson

  // ---------- the document ----------

  /** An HTML element: tag name, `class` attribute as a list, and the text
      nodes below it in document order. */
  datatype Element = Element(tag: string, classes: seq<string>, strings: seq<string>)

  /** A CSS selector `tag.class1.class2…`. */
  datatype Selector = Selector(tag: string, classes: seq<string>)

  predicate Matches(e: Element, sel: Selector) {
    e.tag == sel.tag && forall c | c in sel.classes :: c in e.classes
  }

  /** `node.select(selector)`: the matching elements, in document order. */
  function Select(node: seq<Element>, sel: Selector): (r: seq<Element>)
    ensures |r| <= |node|
    ensures forall i | 0 <= i < |r| :: Matches(r[i], sel)
  {
    if node == [] then []
    else (if Matches(node[0], sel) then [node[0]] else []) + Select(node[1..], sel)
  }

  /** `select` keeps document order: the selection of a concatenation is the
      concatenation of the selections. */
  lemma {:induction false} SelectConcat(a: seq<Element>, b: seq<Element>, sel: Selector)
    ensures Select(a + b, sel) == Select(a, sel) + Select(b, sel)
  {
    if a != [] {
      SelectConcat(a[1..], b, sel);
      assert (a + b)[1..] == a[1..] + b;
    } else {
      assert a + b == b;
    }
  }

  /** One element is selected exactly when it matches. */
  lemma {:induction false} SelectSingle(e: Element, sel: Selector)
    ensures Select([e], sel) == if Matches(e, sel) then [e] else []
  {
    assert [e][1..] == [];
  }

  // ---------- text helpers ----------

  /** `[p.strip() for p in parts]` with the empty results dropped. */
  function StrippedNonEmpty(parts: seq<string>): (r: seq<string>)
    ensures |r| <= |parts|
    ensures forall i | 0 <= i < |r| :: r[i] != [] && IsTrimmed(r[i])
    ensures r == [] <==> forall i | 0 <= i < |parts| :: Blank(parts[i])
  {
    if parts == [] then []
    else
      var p := Strip(parts[0]);
      var rest := StrippedNonEmpty(parts[1..]);
      AllBlankCons(parts);
      (if p != [] then [p] else []) + rest
  }

  lemma {:induction false} AllBlankCons(parts: seq<string>)
    requires parts != []
    ensures (forall i | 0 <= i < |parts| :: Blank(parts[i])) <==>
            Blank(parts[0]) && forall i | 0 <= i < |parts[1..]| :: Blank(parts[1..][i])
  {
    assert forall i | 0 <= i < |parts[1..]| :: parts[1..][i] == parts[i + 1];
  }

  /** The parts are stripped and kept in order: the result for a concatenation
      is the concatenation of the results. */
  lemma {:induction false} StrippedNonEmptyConcat(a: seq<string>, b: seq<string>)
    ensures StrippedNonEmpty(a + b) == StrippedNonEmpty(a) + StrippedNonEmpty(b)
    decreases |a|
  {
    if a != [] {
      var ab := a + b;
      assert ab[0] == a[0] && ab[1..] == a[1..] + b;
      StrippedNonEmptyCons(ab);
      StrippedNonEmptyCons(a);
      StrippedNonEmptyConcat(a[1..], b);
      var h := if Strip(a[0]) != [] then [Strip(a[0])] else [];
      PrependAssoc(h, StrippedNonEmpty(a[1..]), StrippedNonEmpty(b), StrippedNonEmpty(ab), StrippedNonEmpty(a));
    } else {
      assert a + b == b;
    }
  }

  /** Regrouping a common head: `h + (p + q)` is `(h + p) + q`. */
  lemma PrependAssoc(h: seq<string>, p: seq<string>, q: seq<string>, hpq: seq<string>, hp: seq<string>)
    requires hpq == h + (p + q) && hp == h + p
    ensures hpq == hp + q
  {
  }

  lemma {:induction false} StrippedNonEmptyCons(parts: seq<string>)
    requires parts != []
    ensures StrippedNonEmpty(parts) ==
              (if Strip(parts[0]) != [] then [Strip(parts[0])] else []) + StrippedNonEmpty(parts[1..])
  {
  }

  /** One part gives its stripped form, or nothing when it is blank. */
  lemma {:induction false} StrippedNonEmptySingle(p: string)
    ensures StrippedNonEmpty([p]) == if Blank(p) then [] else [Strip(p)]
  {
    assert [p][1..] == [];
  }

  /** Stripping and dropping empties never introduces a character: a character
      absent from every part is absent from every result. */
  lemma {:induction false} StrippedNonEmptyAvoids(parts: seq<string>, c: char)
    requires forall i | 0 <= i < |parts| :: c !in parts[i]
    ensures forall i | 0 <= i < |StrippedNonEmpty(parts)| :: c !in StrippedNonEmpty(parts)[i]
  {
    if parts != [] {
      StripCharsAvoids(parts[0], Whitespace, c);
      StrippedNonEmptyAvoids(parts[1..], c);
    }
  }

  /** `el.get_text(" ", strip=True)`: the stripped, non-empty text nodes joined
      by single spaces. */
  function GetText(e: Element): (r: string)
    ensures IsTrimmed(r)
  {
    var parts := StrippedNonEmpty(e.strings);
    JoinEnds(" ", parts);
    Join(" ", parts)
  }

  /** An element has no text exactly when all its text nodes are blank. */
  lemma {:induction false} GetTextEmpty(e: Element)
    ensures GetText(e) == [] <==> forall i | 0 <= i < |e.strings| :: Blank(e.strings[i])
  {
    var parts := StrippedNonEmpty(e.strings);
    JoinEnds(" ", parts);
  }

  /** `safe_strip(s)` on any Python value: false values give `None`, a string
      gives its stripped form or `None` when that is empty, and any other true
      value raises `AttributeError` at `s.strip()`. */
  function SafeStrip(v: Json): (r: Result<Option<string>>)
    ensures r.Failure? <==> Truthy(v) && !v.JString?
    ensures r.Failure? ==> r.error == AttributeError
    ensures r == Success(None) <==> !Truthy(v) || (v.JString? && Blank(v.s))
    ensures r.Success? && r.value.Some? ==>
              v.JString? && r.value.value == Strip(v.s) && r.value.value != [] && IsTrimmed(r.value.value)
  {
    if !Truthy(v) then Success(None)
    else if !v.JString? then Failure(AttributeError)
    else
      var s2 := Strip(v.s);
      if s2 != [] then Success(Some(s2)) else Success(None)
  }

  /** `safe_text(node, selector, default=[], many=True)`: the text of every
      matching element, in document order; `[]` when the node is missing. */
  function SafeTextMany(node: Option<seq<Element>>, sel: Selector): (r: seq<string>)
    ensures node.None? ==> r == []
    ensures node.Some? ==> |r| == |Select(node.value, sel)|
    ensures node.Some? ==> forall i | 0 <= i < |r| :: r[i] == GetText(Select(node.value, sel)[i])
    ensures forall i | 0 <= i < |r| :: IsTrimmed(r[i])
  {
    if node.None? then []
    else
      var els := Select(node.value, sel);
      seq(|els|, i requires 0 <= i < |els| => GetText(els[i]))
  }

  /** `safe_text(node, selector, default=None)`: the text of the first matching
      element, or `None` when the node is missing or nothing matches. */
  function SafeTextOne(node: Option<seq<Element>>, sel: Selector): (r: Option<string>)
    ensures r.Some? <==> node.Some? && Select(node.value, sel) != []
    ensures r.Some? ==> r.value == GetText(Select(node.value, sel)[0]) && IsTrimmed(r.value)
  {
    if node.None? then None
    else
      var els := Select(node.value, sel);
      if els == [] then None else Some(GetText(els[0]))
  }

  // ---------- field extractors ----------

  const LeadSelector := Selector("div", ["article-part", "article-lead"])
  const SourcesSelector := Selector("p", ["sources"])
  const CreditSelector := Selector("p", ["credit"])

  /** `extract_lead(soup)`: the text of the first `div.article-part.article-lead`. */
  function ExtractLead(doc: seq<Element>): (r: Option<string>)
    ensures r.Some? <==> exists i | 0 <= i < |doc| :: Matches(doc[i], LeadSelector)
    ensures r.Some? ==> IsTrimmed(r.value)
  {
    SelectNonEmpty(doc, LeadSelector);
    SafeTextOne(Some(doc), LeadSelector)
  }

  /** An element matches exactly when the selection is not empty. */
  lemma {:induction false} SelectNonEmpty(node: seq<Element>, sel: Selector)
    ensures Select(node, sel) != [] <==> exists i | 0 <= i < |node| :: Matches(node[i], sel)
  {
    if node != [] {
      SelectNonEmpty(node[1..], sel);
      assert forall i | 0 <= i < |node[1..]| :: node[1..][i] == node[i + 1];
      if Matches(node[0], sel) {
        assert Select(node, sel)[0] == node[0];
      }
    }
  }

  /** `extract_sources(body)`: the text of every `p.sources`, in order. */
  function ExtractSources(body: Option<seq<Element>>): (r: seq<string>)
    ensures |r| == if body.None? then 0 else |Select(body.value, SourcesSelector)|
    ensures forall i | 0 <= i < |r| :: IsTrimmed(r[i])
  {
    SafeTextMany(body, SourcesSelector)
  }

  /** `extract_credits(body)`: the text of every `p.credit`, in order. */
  function ExtractCredits(body: Option<seq<Element>>): (r: seq<string>)
    ensures |r| == if body.None? then 0 else |Select(body.value, CreditSelector)|
    ensures forall i | 0 <= i < |r| :: IsTrimmed(r[i])
  {
    SafeTextMany(body, CreditSelector)
  }

  // ---------- body ----------

  const TextTags: set<string> := {"p", "h2", "h3"}

  /** `body.select("p, h2, h3")`: paragraphs and sub-headings in document order. */
  function TextBlocks(body: seq<Element>): (r: seq<Element>)
    ensures |r| <= |body|
    ensures forall i | 0 <= i < |r| :: r[i].tag in TextTags
  {
    if body == [] then []
    else (if body[0].tag in TextTags then [body[0]] else []) + TextBlocks(body[1..])
  }

  /** One element is kept exactly when it is a paragraph or a sub-heading. */
  lemma {:induction false} TextBlocksSingle(e: Element)
    ensures TextBlocks([e]) == if e.tag in TextTags then [e] else []
  {
    assert [e][1..] == [];
  }

  lemma {:induction false} TextBlocksConcat(a: seq<Element>, b: seq<Element>)
    ensures TextBlocks(a + b) == TextBlocks(a) + TextBlocks(b)
  {
    if a != [] {
      TextBlocksConcat(a[1..], b);
      assert (a + b)[1..] == a[1..] + b;
    } else {
      assert a + b == b;
    }
  }

  /** A block that marks the end of the article text. */
  predicate IsTrailer(e: Element) {
    "sources" in e.classes || "credit" in e.classes
  }

  /** Position of the first sources or credit block, or the number of blocks. */
  function TrailerIndex(blocks: seq<Element>): (k: nat)
    ensures k <= |blocks|
    ensures forall i | 0 <= i < k :: !IsTrailer(blocks[i])
    ensures k < |blocks| ==> IsTrailer(blocks[k])
  {
    if blocks == [] || IsTrailer(blocks[0]) then 0 else 1 + TrailerIndex(blocks[1..])
  }

  /** The non-empty texts of the blocks without a class, in order. */
  function Paragraphs(blocks: seq<Element>): seq<string>
  {
    if blocks == [] then []
    else
      var e := blocks[|blocks| - 1];
      Paragraphs(blocks[..|blocks| - 1]) + (if e.classes == [] && GetText(e) != [] then [GetText(e)] else [])
  }

  /** Every paragraph kept is a non-empty stripped text. */
  lemma {:induction false} ParagraphsNonEmpty(blocks: seq<Element>)
    ensures forall i | 0 <= i < |Paragraphs(blocks)| :: Paragraphs(blocks)[i] != [] && IsTrimmed(Paragraphs(blocks)[i])
  {
    if blocks != [] {
      var init := blocks[..|blocks| - 1];
      var e := blocks[|blocks| - 1];
      ParagraphsNonEmpty(init);
      var extra := if e.classes == [] && GetText(e) != [] then [GetText(e)] else [];
      assert forall i | 0 <= i < |extra| :: extra[i] != [] && IsTrimmed(extra[i]);
      assert Paragraphs(blocks) == Paragraphs(init) + extra;
    }
  }

  lemma {:induction false} ParagraphsConcat(a: seq<Element>, b: seq<Element>)
    ensures Paragraphs(a + b) == Paragraphs(a) + Paragraphs(b)
    decreases |b|
  {
    if b != [] {
      var b' := b[..|b| - 1];
      ParagraphsConcat(a, b');
      assert (a + b)[..|a + b| - 1] == a + b';
    } else {
      assert a + b == a;
    }
  }

  /** What `extract_body(body)` returns: the texts of the unclassed paragraphs
      and sub-headings that come before the first sources or credit block,
      joined by a blank line; `None` when there is no body or no such text. */
  function BodyText(body: Option<seq<Element>>): Option<string>
  {
    if body.None? then None
    else
      var blocks := TextBlocks(body.value);
      var parts := Paragraphs(blocks[..TrailerIndex(blocks)]);
      if parts == [] then None else Some(Join("\n\n", parts))
  }

  /** The body, when there is one, is a non-empty text with no surrounding
      whitespace. */
  lemma {:induction false} BodyTextTrimmed(body: Option<seq<Element>>)
    ensures BodyText(body).Some? ==> BodyText(body).value != [] && IsTrimmed(BodyText(body).value)
  {
    if body.Some? {
      var blocks := TextBlocks(body.value);
      var parts := Paragraphs(blocks[..TrailerIndex(blocks)]);
      ParagraphsNonEmpty(blocks[..TrailerIndex(blocks)]);
      JoinEnds("\n\n", parts);
    }
  }

  /** `extract_body(body)`: walks the paragraphs and sub-headings, stops at the
      first sources or credit block, skips classed blocks and empty texts. */
  method ExtractBody(body: Option<seq<Element>>) returns (r: Option<string>)
    ensures r == BodyText(body)
  {
    if body.None? {
      return None;
    }
    var blocks := TextBlocks(body.value);
    var parts: seq<string> := [];
    var i := 0;
    assert blocks[..0] == [];
    // The loop condition is the source's `break` at the first sources or
    // credit block; a classed block adds nothing, as its `continue` does.
    while i < |blocks| && !IsTrailer(blocks[i])
      invariant 0 <= i <= TrailerIndex(blocks)
      invariant parts == Paragraphs(blocks[..i])
    {
      var el := blocks[i];
      TrailerIndexStep(blocks, i);
      ParagraphsStep(blocks, i);
      if el.classes == [] {
        var txt := GetText(el);
        if txt != [] {
          parts := parts + [txt];
        }
      }
      i := i + 1;
    }
    BodyTextOfBlocks(body.value, i);
    r := if parts == [] then None else Some(Join("\n\n", parts));
  }

  lemma {:induction false} BodyTextOfBlocks(body: seq<Element>, i: nat)
    requires i == TrailerIndex(TextBlocks(body))
    ensures var parts := Paragraphs(TextBlocks(body)[..i]);
            BodyText(Some(body)) == if parts == [] then None else Some(Join("\n\n", parts))
  {
  }

  /** A block before the trailer index that is no trailer is not the last
      one before it. */
  lemma {:induction false} TrailerIndexStep(blocks: seq<Element>, i: nat)
    requires i <= TrailerIndex(blocks) && i < |blocks| && !IsTrailer(blocks[i])
    ensures i + 1 <= TrailerIndex(blocks)
  {
  }

  /** One more block adds its text to the paragraphs when it is unclassed and
      its text is not empty. */
  lemma {:induction false} ParagraphsStep(blocks: seq<Element>, i: nat)
    requires i < |blocks|
    ensures var e := blocks[i];
            Paragraphs(blocks[..i + 1]) ==
              Paragraphs(blocks[..i]) + (if e.classes == [] && GetText(e) != [] then [GetText(e)] else [])
  {
    assert blocks[..i + 1][..i] == blocks[..i];
  }

  /** A position with no trailer before it and a trailer or the end at it is
      the trailer index. */
  lemma {:induction false} TrailerIndexIs(blocks: seq<Element>, i: nat)
    requires i <= |blocks|
    requires forall k | 0 <= k < i :: !IsTrailer(blocks[k])
    requires i == |blocks| || IsTrailer(blocks[i])
    ensures TrailerIndex(blocks) == i
    decreases i
  {
    if i > 0 {
      TrailerIndexIs(blocks[1..], i - 1);
    }
  }

  /** Nothing after the first sources or credit block reaches the body. */
  lemma {:induction false} BodyStopsAtTrailer(pre: seq<Element>, e: Element, post: seq<Element>)
    requires e.tag in TextTags && IsTrailer(e)
    requires forall i | 0 <= i < |pre| :: pre[i].tag in TextTags ==> !IsTrailer(pre[i])
    ensures BodyText(Some(pre + [e] + post)) == BodyText(Some(pre))
  {
    TextBlocksConcat(pre + [e], post);
    TextBlocksConcat(pre, [e]);
    assert TextBlocks([e]) == [e] by {
      assert [e][1..] == [];
    }
    var a := TextBlocks(pre);
    var blocks := a + [e] + TextBlocks(post);
    assert TextBlocks(pre + [e] + post) == blocks;
    TrailerIndexNone(pre);
    TrailerAt(a, e, TextBlocks(post));
    assert blocks[..|a|] == a == a[..TrailerIndex(a)];
  }

  lemma {:induction false} TrailerIndexNone(pre: seq<Element>)
    requires forall i | 0 <= i < |pre| :: pre[i].tag in TextTags ==> !IsTrailer(pre[i])
    ensures TrailerIndex(TextBlocks(pre)) == |TextBlocks(pre)|
  {
    if pre != [] {
      var t := TextBlocks(pre[1..]);
      TrailerIndexNone(pre[1..]);
      if pre[0].tag in TextTags {
        assert TextBlocks(pre) == [pre[0]] + t;
        assert ([pre[0]] + t)[1..] == t;
      } else {
        assert TextBlocks(pre) == t;
      }
    }
  }

  lemma {:induction false} TrailerAt(a: seq<Element>, e: Element, b: seq<Element>)
    requires forall i | 0 <= i < |a| :: !IsTrailer(a[i])
    requires IsTrailer(e)
    ensures TrailerIndex(a + [e] + b) == |a|
    decreases |a|
  {
    if a != [] {
      TrailerAt(a[1..], e, b);
      assert (a + [e] + b)[1..] == a[1..] + [e] + b;
    } else {
      assert (a + [e] + b)[0] == e;
    }
  }

  /** A block that is not a paragraph or sub-heading, or that carries a class
      other than sources or credit, changes nothing in the body. */
  lemma {:induction false} BodySkipsIgnored(pre: seq<Element>, e: Element, post: seq<Element>)
    requires e.tag !in TextTags || (e.classes != [] && !IsTrailer(e))
    ensures BodyText(Some(pre + [e] + post)) == BodyText(Some(pre + post))
  {
    var a, b := TextBlocks(pre), TextBlocks(post);
    assert TextBlocks(pre + [e] + post) == a + TextBlocks([e]) + b by {
      TextBlocksConcat(pre + [e], post);
      TextBlocksConcat(pre, [e]);
    }
    TextBlocksConcat(pre, post);
    if e.tag in TextTags {
      assert TextBlocks([e]) == [e] by {
        assert [e][1..] == [];
      }
      SkipOne(a, e, b);
    } else {
      assert TextBlocks([e]) == [] by {
        assert [e][1..] == [];
      }
      assert a + [] + b == a + b;
    }
  }

  lemma {:induction false} SkipOne(a: seq<Element>, e: Element, b: seq<Element>)
    requires e.classes != [] && !IsTrailer(e)
    ensures var s, t := a + [e] + b, a + b;
            Paragraphs(s[..TrailerIndex(s)]) == Paragraphs(t[..TrailerIndex(t)])
  {
    if TrailerIndex(a) < |a| {
      SkipOneBefore(a, e, b);
    } else {
      SkipOneAfter(a, e, b);
    }
  }

  /** The trailer lies inside `a`: both texts stop at the same place. */
  lemma {:induction false} SkipOneBefore(a: seq<Element>, e: Element, b: seq<Element>)
    requires TrailerIndex(a) < |a|
    ensures var s, t := a + [e] + b, a + b;
            s[..TrailerIndex(s)] == t[..TrailerIndex(t)]
  {
    var s, t := a + [e] + b, a + b;
    var ka := TrailerIndex(a);
    TrailerPrefix(a, [e] + b);
    TrailerPrefix(a, b);
    assert s == a + ([e] + b);
    assert s[..ka] == a[..ka] == t[..ka];
  }

  /** No trailer in `a`: the skipped block sits in the kept prefix and adds
      no paragraph. */
  lemma {:induction false} SkipOneAfter(a: seq<Element>, e: Element, b: seq<Element>)
    requires e.classes != [] && !IsTrailer(e)
    requires TrailerIndex(a) == |a|
    ensures var s, t := a + [e] + b, a + b;
            Paragraphs(s[..TrailerIndex(s)]) == Paragraphs(t[..TrailerIndex(t)])
  {
    var s, t := a + [e] + b, a + b;
    var kept := b[..TrailerIndex(b)];
    assert s[..TrailerIndex(s)] == (a + [e]) + kept && t[..TrailerIndex(t)] == a + kept by {
      SkipTrailerIndex(a, e, b);
    }
    assert Paragraphs((a + [e]) + kept) == Paragraphs(a) + Paragraphs(kept) by {
      ParagraphsConcat(a + [e], kept);
      ParagraphsClassed(a, e);
    }
    ParagraphsConcat(a, kept);
  }

  lemma {:induction false} SkipTrailerIndex(a: seq<Element>, e: Element, b: seq<Element>)
    requires !IsTrailer(e)
    requires TrailerIndex(a) == |a|
    ensures TrailerIndex(a + [e] + b) == |a| + 1 + TrailerIndex(b)
    ensures TrailerIndex(a + b) == |a| + TrailerIndex(b)
  {
    assert TrailerIndex([e] + b) == 1 + TrailerIndex(b) by {
      assert ([e] + b)[1..] == b;
    }
    assert a + [e] + b == a + ([e] + b);
    TrailerAfter(a, [e] + b);
    TrailerAfter(a, b);
  }

  /** A classed block adds no paragraph. */
  lemma {:induction false} ParagraphsClassed(a: seq<Element>, e: Element)
    requires e.classes != []
    ensures Paragraphs(a + [e]) == Paragraphs(a)
  {
    assert (a + [e])[..|a|] == a;
  }

  /** When the trailer is inside `a`, appending does not move it. */
  lemma {:induction false} TrailerPrefix(a: seq<Element>, b: seq<Element>)
    requires TrailerIndex(a) < |a|
    ensures TrailerIndex(a + b) == TrailerIndex(a)
    decreases |a|
  {
    if !IsTrailer(a[0]) {
      TrailerPrefix(a[1..], b);
      assert (a + b)[1..] == a[1..] + b;
    }
  }

  /** When `a` has no trailer, the first one of `a + b` is the first one of `b`. */
  lemma {:induction false} TrailerAfter(a: seq<Element>, b: seq<Element>)
    requires TrailerIndex(a) == |a|
    ensures TrailerIndex(a + b) == |a| + TrailerIndex(b)
    decreases |a|
  {
    if a != [] {
      assert !IsTrailer(a[0]);
      assert TrailerIndex(a[1..]) == |a| - 1;
      TrailerAfter(a[1..], b);
      var ab := a + b;
      assert ab[0] == a[0] && ab[1..] == a[1..] + b;
      assert TrailerIndex(ab) == 1 + TrailerIndex(ab[1..]);
    } else {
      assert a + b == b;
    }
  }

  /** Two unclassed paragraphs followed by a sources paragraph: the body is the
      two texts separated by a blank line, whatever follows. */
  lemma {:induction false} TwoParagraphsThenSources(p1: Element, p2: Element, p3: Element, rest: seq<Element>)
    requires p1.tag == "p" && p1.classes == [] && GetText(p1) != []
    requires p2.tag == "p" && p2.classes == [] && GetText(p2) != []
    requires p3.tag == "p" && "sources" in p3.classes
    ensures BodyText(Some([p1, p2, p3] + rest)) == Some(GetText(p1) + "\n\n" + GetText(p2))
  {
    var pre := [p1, p2];
    assert BodyText(Some([p1, p2, p3] + rest)) == BodyText(Some(pre)) by {
      assert [p1, p2, p3] + rest == pre + [p3] + rest;
      assert "p" in TextTags;
      assert forall i | 0 <= i < |pre| :: !IsTrailer(pre[i]);
      BodyStopsAtTrailer(pre, p3, rest);
    }
    BodyOfTwo(p1, p2);
  }

  /** Two unclassed blocks with text, each a paragraph or a sub-heading, are
      joined by a blank line. */
  lemma {:induction false} BodyOfTwo(p1: Element, p2: Element)
    requires p1.tag in TextTags && p1.classes == [] && GetText(p1) != []
    requires p2.tag in TextTags && p2.classes == [] && GetText(p2) != []
    ensures BodyText(Some([p1, p2])) == Some(GetText(p1) + "\n\n" + GetText(p2))
  {
    var two := [p1, p2];
    assert TextBlocks(two) == two by {
      TextBlocksConcat([p1], [p2]);
      TextBlocksSingle(p1);
      TextBlocksSingle(p2);
      assert [p1] + [p2] == two;
    }
    TrailerIndexIs(two, 2);
    assert two[..2] == two;
    assert Paragraphs([p1]) == [GetText(p1)] by {
      assert [p1][..0] == [];
    }
    assert Paragraphs(two) == Paragraphs([p1]) + [GetText(p2)] by {
      assert two[..1] == [p1];
    }
    var texts := [GetText(p1), GetText(p2)];
    assert Join("\n\n", texts) == GetText(p1) + "\n\n" + GetText(p2) by {
      assert texts[1..] == [GetText(p2)];
    }
    BodyTextOfBlocks(two, 2);
  }

  // ---------- JSON-LD ----------

  /** The `@type` values accepted as an article. */
  const ArticleTypes: seq<Json> := [JString("NewsArticle"), JString("Article")]

  predicate IsArticle(m: map<string, Json>) {
    Get(m, "@type") in ArticleTypes
  }

  predicate IsArticleEntry(v: Json) {
    v.JObject? && IsArticle(v.fields)
  }

  /** The first entry of a list that is an article object. */
  function FirstArticle(items: seq<Json>): (r: Option<map<string, Json>>)
    ensures r.None? <==> forall i | 0 <= i < |items| :: !IsArticleEntry(items[i])
    ensures r.Some? ==> IsArticle(r.value)
    ensures r.Some? ==> exists i | 0 <= i < |items| ::
              items[i] == JObject(r.value) && forall j | 0 <= j < i :: !IsArticleEntry(items[j])
  {
    if items == [] then None
    else if IsArticleEntry(items[0]) then Some(items[0].fields)
    else
      var r := FirstArticle(items[1..]);
      assert forall i | 0 <= i < |items[1..]| :: items[1..][i] == items[i + 1];
      r
  }

  /** What `_pick_newsarticle(obj)` returns: an article object as it is, the
      first article entry of a list, otherwise `None`. */
  function Pick(obj: Json): (r: Option<map<string, Json>>)
    ensures r.Some? ==> IsArticle(r.value)
    ensures obj.JObject? ==> (r.Some? <==> IsArticle(obj.fields)) && (r.Some? ==> r.value == obj.fields)
    ensures !obj.JObject? && !obj.JArray? ==> r.None?
  {
    match obj
    case JObject(m) => if IsArticle(m) then Some(m) else None
    case JArray(items) => FirstArticle(items)
    case _ => None
  }

  /** `_pick_newsarticle(obj)`. */
  method PickNewsArticle(obj: Json) returns (r: Option<map<string, Json>>)
    ensures r == Pick(obj)
  {
    match obj {
      case JObject(m) =>
        if IsArticle(m) {
          return Some(m);
        }
        return None;
      case JArray(items) =>
        var i := 0;
        while i < |items|
          invariant 0 <= i <= |items|
          invariant FirstArticle(items[i..]) == FirstArticle(items)
        {
          var it := items[i];
          if it.JObject? && IsArticle(it.fields) {
            return Some(it.fields);
          }
          assert items[i..][1..] == items[i + 1..];
          i := i + 1;
        }
        return None;
      case _ =>
        return None;
    }
  }

  /** A `<script type="application/ld+json">` block: no text, text that
      `json.loads` rejects, or the decoded value. */
  datatype ScriptBlock = NoText | Malformed | Parsed(value: Json)

  predicate Yields(b: ScriptBlock) {
    b.Parsed? && Pick(b.value).Some?
  }

  /** The pick of the first block that yields one. */
  function FirstBlockArticle(blocks: seq<ScriptBlock>): (r: Option<map<string, Json>>)
    ensures r.None? <==> forall k | 0 <= k < |blocks| :: !Yields(blocks[k])
    ensures r.Some? ==> IsArticle(r.value)
    ensures r.Some? ==> exists k | 0 <= k < |blocks| ::
              Yields(blocks[k]) && Pick(blocks[k].value) == r && forall j | 0 <= j < k :: !Yields(blocks[j])
  {
    if blocks == [] then None
    else if Yields(blocks[0]) then Pick(blocks[0].value)
    else
      var r := FirstBlockArticle(blocks[1..]);
      assert forall k | 0 <= k < |blocks[1..]| :: blocks[1..][k] == blocks[k + 1];
      r
  }

  /** `extract_jsonld_newsarticle(soup)`: the article object of the first block
      that holds one, or `{}`. Its extra test for `headline` or `datePublished`
      is kept; the contract shows it never decides anything, since every pick
      already has an article `@type`. */
  method ExtractJsonLd(blocks: seq<ScriptBlock>) returns (r: map<string, Json>)
    ensures r == match FirstBlockArticle(blocks) case Some(m) => m case None => map[]
  {
    var i := 0;
    while i < |blocks|
      invariant 0 <= i <= |blocks|
      invariant FirstBlockArticle(blocks[i..]) == FirstBlockArticle(blocks)
    {
      assert blocks[i..][1..] == blocks[i + 1..];
      match blocks[i] {
        case NoText =>
        case Malformed =>
        case Parsed(data) =>
          var article := PickNewsArticle(data);
          if article.Some? {
            var a := article.value;
            if Get(a, "@type") in ArticleTypes || "headline" in a || "datePublished" in a {
              return a;
            }
          }
      }
      i := i + 1;
    }
    return map[];
  }

  // ---------- JSON-LD fields ----------

  /** `safe_strip(str(x))` for one list entry: its stripped `str()`, or `None`
      when that is blank. */
  function StrKeyword(x: Json): (r: Option<string>)
    ensures r.None? <==> Blank(Str(x))
    ensures r.Some? ==> r.value == Strip(Str(x)) && r.value != [] && IsTrimmed(r.value)
  {
    match SafeStrip(JString(Str(x)))
    case Success(k) => k
    case Failure(_) => None
  }

  /** The generator `(safe_strip(str(x)) for x in kw)`. */
  function StrKeywords(items: seq<Json>): (r: seq<Option<string>>)
    ensures |r| == |items|
    ensures forall i | 0 <= i < |items| :: r[i] == StrKeyword(items[i])
  {
    seq(|items|, i requires 0 <= i < |items| => StrKeyword(items[i]))
  }

  /** `extract_keywords_from_jsonld` on a list. */
  function KeywordItems(items: seq<Json>): (r: seq<string>)
  {
    KeepTrue(StrKeywords(items))
  }

  /** The list case gives trimmed, non-empty keywords, at most one per entry. */
  lemma {:induction false} KeywordItemsTrimmed(items: seq<Json>)
    ensures |KeywordItems(items)| <= |items|
    ensures forall i | 0 <= i < |KeywordItems(items)| ::
              KeywordItems(items)[i] != [] && IsTrimmed(KeywordItems(items)[i])
  {
    var ks := StrKeywords(items);
    KeepTrueFrom(ks);
    forall i | 0 <= i < |KeywordItems(items)|
      ensures IsTrimmed(KeywordItems(items)[i])
    {
      var j :| 0 <= j < |ks| && ks[j] == Some(KeywordItems(items)[i]);
      assert ks[j] == StrKeyword(items[j]);
    }
  }

  /** The list case keeps the order of the entries: the keywords of a
      concatenation are the keywords of each part. */
  lemma {:induction false} KeywordItemsConcat(a: seq<Json>, b: seq<Json>)
    ensures KeywordItems(a + b) == KeywordItems(a) + KeywordItems(b)
  {
    assert StrKeywords(a + b) == StrKeywords(a) + StrKeywords(b);
    KeepTrueConcat(StrKeywords(a), StrKeywords(b));
  }

  /** One entry gives at most one keyword: its stripped `str()`, unless blank. */
  lemma {:induction false} KeywordItemsSingle(x: Json)
    ensures KeywordItems([x]) == if Blank(Str(x)) then [] else [Strip(Str(x))]
  {
    var ks := StrKeywords([x]);
    assert ks == [StrKeyword(x)];
    KeepTrueOne(StrKeyword(x));
  }

  /** `extract_keywords_from_jsonld(j)`: a list gives its entries, a string its
      comma-separated segments, each stripped and the empty ones dropped;
      anything else, or no `keywords` key, gives `[]`. */
  function Keywords(j: map<string, Json>): (r: seq<string>)
    ensures forall i | 0 <= i < |r| :: r[i] != [] && IsTrimmed(r[i])
    ensures Get(j, "keywords").JArray? ==> |r| <= |Get(j, "keywords").items|
    ensures Get(j, "keywords").JString? ==>
              |r| <= multiset(Get(j, "keywords").s)[','] + 1 && forall i | 0 <= i < |r| :: ',' !in r[i]
    ensures !Get(j, "keywords").JArray? && !Get(j, "keywords").JString? ==> r == []
    ensures Get(j, "keywords").JArray? ==> r == KeywordItems(Get(j, "keywords").items)
    ensures Get(j, "keywords").JString? ==> r == KeywordSegments(Get(j, "keywords").s)
  {
    match Get(j, "keywords")
    case JArray(items) =>
      KeywordItemsTrimmed(items);
      KeywordItems(items)
    case JString(s) =>
      SplitCount(s, ',');
      StrippedNonEmptyAvoids(Split(s, ','), ',');
      KeywordSegments(s)
    case _ => []
  }

  /** `extract_keywords_from_jsonld` on a string: its comma-separated
      segments, stripped, the empty ones dropped. */
  function KeywordSegments(s: string): seq<string> {
    StrippedNonEmpty(Split(s, ','))
  }

  /** Segment by segment: the first segment, stripped unless blank, comes first,
      then the keywords of the rest of the string. */
  lemma {:induction false} KeywordSegmentsComma(x: string, rest: string)
    requires ',' !in x
    ensures KeywordSegments(x + "," + rest) ==
              (if Blank(x) then [] else [Strip(x)]) + KeywordSegments(rest)
  {
    SplitAt(x, ',', rest);
    StrippedNonEmptyConcat([x], Split(rest, ','));
    StrippedNonEmptySingle(x);
  }

  /** A keyword string without a comma is one keyword, or none when blank. */
  lemma {:induction false} KeywordStringWithoutComma(j: map<string, Json>, s: string)
    requires Get(j, "keywords") == JString(s) && ',' !in s
    ensures Keywords(j) == if Blank(s) then [] else [Strip(s)]
  {
    assert Split(s, ',') == [s];
    StrippedNonEmptySingle(s);
  }

  const HeadlineKey := "headline"
  const AltHeadlineKey := "alternativeHeadline"
  const CanonicalUrlKey := "mainEntityOfPage"
  const ArticleSectionKey := "articleSection"
  const LanguageKey := "inLanguage"

  /** The text getters `extract_headline`, `extract_alt_headline`,
      `extract_canonical_url`, `extract_article_section` and
      `extract_language`, each on its key: a missing or false value gives
      `None`, a string gives its stripped form unless blank, and any other true
      value (a number, a list, an object such as a `WebPage`) raises
      `AttributeError`. */
  function JsonLdText(j: map<string, Json>, key: string): (r: Result<Option<string>>)
    ensures r.Failure? <==> key in j && Truthy(j[key]) && !j[key].JString?
    ensures r.Failure? ==> r.error == AttributeError
    ensures r == Success(None) <==> key !in j || !Truthy(j[key]) || (j[key].JString? && Blank(j[key].s))
    ensures r.Success? && r.value.Some? ==>
              key in j && j[key].JString? && r.value.value == Strip(j[key].s) && r.value.value != []
  {
    var v := Get(j, key);
    if Truthy(v) then SafeStrip(v) else Success(None)
  }

  /** `extract_publisher_name(j)`: the stripped `name` of a `publisher` object. */
  function PublisherName(j: map<string, Json>): (r: Result<Option<string>>)
    ensures !Get(j, "publisher").JObject? ==> r == Success(None)
    ensures r.Failure? <==>
              Get(j, "publisher").JObject? &&
              Truthy(Get(Get(j, "publisher").fields, "name")) &&
              !Get(Get(j, "publisher").fields, "name").JString?
    ensures r.Success? && r.value.Some? ==>
              Get(j, "publisher").JObject? && Get(Get(j, "publisher").fields, "name").JString? &&
              r.value.value == Strip(Get(Get(j, "publisher").fields, "name").s) && r.value.value != []
    ensures r == Success(None) <==>
              !Get(j, "publisher").JObject? ||
              !Truthy(Get(Get(j, "publisher").fields, "name")) ||
              (Get(Get(j, "publisher").fields, "name").JString? && Blank(Get(Get(j, "publisher").fields, "name").s))
  {
    match Get(j, "publisher")
    case JObject(pub) => SafeStrip(Get(pub, "name"))
    case _ => Success(None)
  }

  // ---------- file name ----------

  /** Length of the run of ASCII digits that ends `s`. */
  function TrailingDigits(s: string): (n: nat)
    ensures n <= |s|
    ensures AllDigits(s[|s| - n..])
    ensures n < |s| ==> !IsDigit(s[|s| - n - 1])
  {
    if s != [] && IsDigit(s[|s| - 1]) then
      var n := 1 + TrailingDigits(s[..|s| - 1]);
      assert s[|s| - n..] == s[..|s| - 1][|s| - n..] + [s[|s| - 1]];
      n
    else 0
  }

  lemma {:induction false} TrailingDigitsAfter(x: string, c: char, d: string)
    requires !IsDigit(c) && AllDigits(d)
    ensures TrailingDigits(x + [c] + d) == |d|
    decreases |d|
  {
    var s := x + [c] + d;
    if d == [] {
      assert s[|s| - 1] == c;
    } else {
      assert s[..|s| - 1] == x + [c] + d[..|d| - 1];
      TrailingDigitsAfter(x, c, d[..|d| - 1]);
    }
  }

  /** The digits captured by `-(\d+)\.html` when it ends exactly at the end of `v`. */
  function IdAtEnd(v: string): (r: Option<string>)
    ensures r.Some? ==> r.value != [] && AllDigits(r.value) && EndsWith(v, "-" + r.value + ".html")
  {
    if EndsWith(v, ".html") then
      var w := v[..|v| - 5];
      var n := TrailingDigits(w);
      if 0 < n < |w| && w[|w| - n - 1] == '-' then
        IdSuffix(v, w, n);
        Some(w[|w| - n..])
      else None
    else None
  }

  lemma {:induction false} IdSuffix(v: string, w: string, n: nat)
    requires EndsWith(v, ".html") && w == v[..|v| - 5]
    requires 0 < n < |w| && w[|w| - n - 1] == '-'
    ensures EndsWith(v, "-" + w[|w| - n..] + ".html")
  {
    var d := w[|w| - n..];
    var tail := v[|v| - 5..];
    assert v == w + tail;
    assert w == w[..|w| - n - 1] + "-" + d;
    assert v == w[..|w| - n - 1] + ("-" + d + ".html");
  }

  /** The capture of `re.search(r"-(\d+)\.html$", url)`. Python's `$` matches at
      the end of the text and also just before a final newline. */
  function NumericId(url: string): (r: Option<string>)
    ensures r.Some? ==>
              && r.value != [] && AllDigits(r.value)
              && (EndsWith(url, "-" + r.value + ".html") || EndsWith(url, "-" + r.value + ".html\n"))
  {
    match IdAtEnd(url)
    case Some(d) => Some(d)
    case None =>
      if url != [] && url[|url| - 1] == '\n' then
        IdBeforeNewline(url);
        IdAtEnd(url[..|url| - 1])
      else None
  }

  lemma {:induction false} IdBeforeNewline(url: string)
    requires url != [] && url[|url| - 1] == '\n'
    ensures var r := IdAtEnd(url[..|url| - 1]);
            r.Some? ==> EndsWith(url, "-" + r.value + ".html\n")
  {
    var v := url[..|url| - 1];
    var r := IdAtEnd(v);
    if r.Some? {
      var e := "-" + r.value + ".html";
      assert url == v + "\n";
      assert EndsWith(v, e);
      assert url[|url| - |e + "\n"|..] == v[|v| - |e|..] + "\n";
    }
  }

  /** Every URL of the form `…-<digits>.html`, with or without a final newline,
      yields exactly those digits. */
  lemma {:induction false} NumericIdOfArticleUrl(pre: string, d: string)
    requires d != [] && AllDigits(d)
    ensures NumericId(pre + "-" + d + ".html") == Some(d)
    ensures NumericId(pre + "-" + d + ".html\n") == Some(d)
  {
    var v := pre + "-" + d + ".html";
    assert v[..|v| - 5] == pre + ['-'] + d;
    TrailingDigitsAfter(pre, '-', d);
    var w := pre + ['-'] + d;
    assert w[|w| - |d|..] == d;
    var u := v + "\n";
    assert u == pre + "-" + d + ".html\n";
    assert u[..|u| - 1] == v;
    assert IdAtEnd(v) == Some(d);
    assert u[|u| - 1] == '\n';
    assert !EndsWith(u, ".html") by {
      assert u[|u| - 5..][4] == u[|u| - 1];
    }
  }

  /** Length of the run of characters outside `[a-zA-Z0-9]` that starts `s`. */
  function NonAlnumRun(s: string): (n: nat)
    ensures n <= |s|
    ensures forall i | 0 <= i < n :: !IsAlnum(s[i])
    ensures n < |s| ==> IsAlnum(s[n])
  {
    if s == [] || IsAlnum(s[0]) then 0 else 1 + NonAlnumRun(s[1..])
  }

  /** `re.sub(r"[^a-zA-Z0-9]+", "_", s)`: every maximal run of other characters
      becomes one underscore. */
  function Underscored(s: string): (r: string)
    ensures forall i | 0 <= i < |r| :: r[i] == '_' || IsAlnum(r[i])
    ensures forall i | 0 <= i < |r| - 1 :: r[i] == '_' ==> r[i + 1] != '_'
    ensures s != [] && IsAlnum(s[0]) ==> r != [] && r[0] == s[0]
    decreases |s|
  {
    if s == [] then []
    else if IsAlnum(s[0]) then [s[0]] + Underscored(s[1..])
    else "_" + Underscored(s[NonAlnumRun(s)..])
  }

  predicate NoAlnum(s: string) { forall i | 0 <= i < |s| :: !IsAlnum(s[i]) }

  predicate OnlyUnderscores(s: string) { forall i | 0 <= i < |s| :: s[i] == '_' }

  predicate NoUpper(s: string) { forall i | 0 <= i < |s| :: !IsUpper(s[i]) }

  /** `Underscored` introduces no upper-case letter. */
  lemma {:induction false} UnderscoredNoUpper(s: string)
    requires NoUpper(s)
    ensures NoUpper(Underscored(s))
    decreases |s|
  {
    if s != [] {
      var n := if IsAlnum(s[0]) then 1 else NonAlnumRun(s);
      assert NoUpper(s[n..]) by {
        assert forall i | 0 <= i < |s[n..]| :: s[n..][i] == s[i + n];
      }
      UnderscoredNoUpper(s[n..]);
    }
  }

  /** `Underscored` gives nothing but underscores exactly when the text has no
      letter or digit. */
  lemma {:induction false} UnderscoredBlank(s: string)
    ensures OnlyUnderscores(Underscored(s)) <==> NoAlnum(s)
    decreases |s|
  {
    if s != [] {
      var r := Underscored(s);
      if IsAlnum(s[0]) {
        assert r[0] == s[0];
      } else {
        var n := NonAlnumRun(s);
        var rest := Underscored(s[n..]);
        UnderscoredBlank(s[n..]);
        assert r == "_" + rest;
        assert OnlyUnderscores(r) <==> OnlyUnderscores(rest) by {
          assert forall i | 0 < i < |r| :: r[i] == rest[i - 1];
          assert forall j | 0 <= j < |rest| :: rest[j] == r[j + 1];
        }
        assert NoAlnum(s) <==> NoAlnum(s[n..]) by {
          assert forall i | 0 <= i < |s[n..]| :: s[n..][i] == s[i + n];
        }
      }
    }
  }

  /** A letter or digit passes through the substitution as it is. */
  lemma {:induction false} UnderscoredAlnumCons(c: char, b: string)
    requires IsAlnum(c)
    ensures Underscored([c] + b) == [c] + Underscored(b)
  {
    assert ([c] + b)[1..] == b;
  }

  /** A maximal run of characters other than letters and digits becomes
      exactly one underscore. */
  lemma {:induction false} UnderscoredRun(w: string, b: string)
    requires w != [] && NoAlnum(w) && (b == [] || IsAlnum(b[0]))
    ensures Underscored(w + b) == "_" + Underscored(b)
  {
    NonAlnumRunPrefix(w, b);
    assert (w + b)[0] == w[0];
    assert (w + b)[|w|..] == b;
  }

  /** The run of non-alphanumeric characters at the front of `w + b` is `w`
      when `b` does not continue it. */
  lemma {:induction false} NonAlnumRunPrefix(w: string, b: string)
    requires NoAlnum(w) && (b == [] || IsAlnum(b[0]))
    ensures NonAlnumRun(w + b) == |w|
    decreases |w|
  {
    if w == [] {
      assert w + b == b;
    } else {
      assert (w + b)[1..] == w[1..] + b;
      NonAlnumRunPrefix(w[1..], b);
    }
  }

  const SlugLimit := 30

  predicate IsSlugChar(c: char) {
    'a' <= c <= 'z' || IsDigit(c) || c == '_'
  }

  /** The fallback name of `make_filename`:
      `re.sub(r"[^a-zA-Z0-9]+", "_", title.lower()).strip("_")[:30]`. */
  function Slug(title: string): (r: string)
    ensures |r| <= SlugLimit
    ensures SlugShaped(r)
    ensures r != [] ==> r[0] != '_'
    ensures r == [] <==> NoAlnum(title)
  {
    var u := StripChars(Underscored(Lower(title)), {'_'});
    SlugFacts(title);
    if |u| <= SlugLimit then u else u[..SlugLimit]
  }

  /** Lower-case letters, digits and underscores, never two underscores in a row. */
  predicate SlugShaped(s: string) {
    && (forall i | 0 <= i < |s| :: IsSlugChar(s[i]))
    && (forall i | 0 <= i < |s| - 1 :: s[i] == '_' ==> s[i + 1] != '_')
  }

  /** What the stripped underscored text is made of, before truncation. */
  lemma {:induction false} SlugFacts(title: string)
    ensures var u := StripChars(Underscored(Lower(title)), {'_'});
            && SlugShaped(u)
            && (u != [] ==> u[0] != '_')
            && (u == [] <==> NoAlnum(title))
  {
    var low := Lower(title);
    var under := Underscored(low);
    UnderscoredNoUpper(low);
    assert SlugShaped(under);
    StripKeepsSlugShape(under);
    UnderscoredBlank(low);
    assert NoAlnum(low) <==> NoAlnum(title);
    assert OnlyUnderscores(under) <==> forall i | 0 <= i < |under| :: under[i] in {'_'};
  }

  /** Stripping the underscores at the ends keeps the slug shape. */
  lemma {:induction false} StripKeepsSlugShape(s: string)
    requires SlugShaped(s)
    ensures SlugShaped(StripChars(s, {'_'}))
  {
    var left := LStrip(s, {'_'});
    var u := RStrip(left, {'_'});
    assert u == StripChars(s, {'_'});
    var off := |s| - |left|;
    assert forall i | 0 <= i < |u| :: u[i] == s[off + i];
  }

  /** `make_filename(article)`: the numeric id of the canonical URL (or of
      `url`) when it has one, otherwise the slug of the title (or of the
      headline, or of "article"), with `.json` appended. A true title that is
      not a string raises `AttributeError` at `title.lower()`. */
  function MakeFilename(article: map<string, Json>): (r: Result<string>)
    ensures r.Failure? <==>
              var title, headline := Get(article, "title"), Get(article, "headline");
              && !HasNumericId(article)
              && ((Truthy(title) && !title.JString?) || (!Truthy(title) && Truthy(headline) && !headline.JString?))
    ensures r.Failure? ==> r.error == AttributeError
    ensures r.Success? ==> EndsWith(r.value, ".json")
    ensures r.Success? ==>
              var stem := r.value[..|r.value| - 5];
              (stem != [] && AllDigits(stem)) ||
              (|stem| <= SlugLimit && forall i | 0 <= i < |stem| :: IsSlugChar(stem[i]))
  {
    var url := Or(Get(article, "canonical_url"), Get(article, "url"));
    if HasNumericId(article) then
      var stem := NumericId(url.s).value;
      assert (stem + ".json")[..|stem|] == stem;
      Success(stem + ".json")
    else
      var title := Or(Or(Get(article, "title"), Get(article, "headline")), JString("article"));
      if title.JString? then
        var stem := Slug(title.s);
        assert (stem + ".json")[..|stem|] == stem;
        Success(stem + ".json")
      else Failure(AttributeError)
  }

  /** An article whose canonical URL, or else whose `url`, ends in
      `-<digits>.html` is saved as `<digits>.json`. */
  lemma {:induction false} FilenameFromArticleUrl(article: map<string, Json>, pre: string, d: string)
    requires d != [] && AllDigits(d)
    requires Or(Get(article, "canonical_url"), Get(article, "url")) == JString(pre + "-" + d + ".html")
    ensures MakeFilename(article) == Success(d + ".json")
  {
    NumericIdOfArticleUrl(pre, d);
  }

  /** The canonical URL (or else `url`) is a string with a numeric id. */
  predicate HasNumericId(article: map<string, Json>) {
    var url := Or(Get(article, "canonical_url"), Get(article, "url"));
    url.JString? && NumericId(url.s).Some?
  }

  /** Without a numeric id, a non-empty string title names the file. */
  lemma {:induction false} FilenameFromTitle(article: map<string, Json>, t: string)
    requires !HasNumericId(article)
    requires Get(article, "title") == JString(t) && t != []
    ensures MakeFilename(article) == Success(Slug(t) + ".json")
  {
  }

  /** Without a numeric id and without a true title, a non-empty string
      headline names the file. */
  lemma {:induction false} FilenameFromHeadline(article: map<string, Json>, h: string)
    requires !HasNumericId(article)
    requires !Truthy(Get(article, "title"))
    requires Get(article, "headline") == JString(h) && h != []
    ensures MakeFilename(article) == Success(Slug(h) + ".json")
  {
  }

  /** Without a numeric id, a true title or a true headline, the file is
      `article.json`. */
  lemma {:induction false} FilenameFallback(article: map<string, Json>)
    requires !HasNumericId(article)
    requires !Truthy(Get(article, "title")) && !Truthy(Get(article, "headline"))
    ensures MakeFilename(article) == Success("article.json")
  {
    FilenameOfTitleValue(article, "article");
    ArticleSlug();
    ArticleJson();
  }

  lemma {:induction false} ArticleJson()
    ensures "article" + ".json" == "article.json"
  {
  }

  lemma {:induction false} FilenameOfTitleValue(article: map<string, Json>, t: string)
    requires !HasNumericId(article)
    requires Or(Or(Get(article, "title"), Get(article, "headline")), JString("article")) == JString(t)
    ensures MakeFilename(article) == Success(Slug(t) + ".json")
  {
  }

  lemma {:induction false} ArticleSlug()
    ensures Slug("article") == "article"
  {
    var a := "article";
    assert |a| == 7 && forall i | 0 <= i < |a| :: 'a' <= a[i] <= 'z';
    SlugOfLowerWord(a);
  }

  /** A short word of lower-case letters is its own slug. */
  lemma {:induction false} SlugOfLowerWord(s: string)
    requires s != [] && |s| <= SlugLimit
    requires forall i | 0 <= i < |s| :: 'a' <= s[i] <= 'z'
    ensures Slug(s) == s
  {
    LowerOfLowerWord(s);
    UnderscoredAlnum(s);
    NoUnderscoreEnds(s);
    SlugOfFixedPoint(s);
  }

  /** A short text that lowering, the substitution and the strip all leave
      alone is its own slug. */
  lemma {:induction false} SlugOfFixedPoint(s: string)
    requires Lower(s) == s && Underscored(s) == s && StripChars(s, {'_'}) == s
    requires |s| <= SlugLimit
    ensures Slug(s) == s
  {
  }

  lemma {:induction false} LowerOfLowerWord(s: string)
    requires forall i | 0 <= i < |s| :: 'a' <= s[i] <= 'z'
    ensures Lower(s) == s && forall i | 0 <= i < |s| :: IsAlnum(s[i])
  {
    assert forall i | 0 <= i < |s| :: Lower(s)[i] == LowerChar(s[i]) == s[i];
  }

  lemma {:induction false} NoUnderscoreEnds(s: string)
    requires s != [] && s[0] != '_' && s[|s| - 1] != '_'
    ensures StripChars(s, {'_'}) == s
  {
  }

  /** Letters and digits pass through the substitution unchanged. */
  lemma {:induction false} UnderscoredAlnum(s: string)
    requires forall i | 0 <= i < |s| :: IsAlnum(s[i])
    ensures Underscored(s) == s
    decreases |s|
  {
    if s != [] {
      UnderscoredAlnum(s[1..]);
      assert [s[0]] + s[1..] == s;
    }
  }
}
