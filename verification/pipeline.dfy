/** The two stages run in sequence on one document: normalise, then
    extract. The string round trip between them (serialise, re-parse) is
    taken to be the identity. */
module Pipeline {
  import opened Results
  import opened Strings
  import opened Html
  import opened Normalizer
  import opened Extractor

  /** The entities of a document after normalisation, or the error: it
      fails exactly when the document has no `body`, and every entity's
      text is stripped. */
  function Process(doc: Document): (r: Result<seq<Entity>, Error>)
    ensures r.Failure? <==> !HasBody(doc)
    ensures r.Success? ==> forall k :: 0 <= k < |r.value| ==> IsStripped(r.value[k].text)
  {
    match MarkPlainText(doc)
    case Failure(e) => Failure(e)
    case Success(out) => Success(EntitiesOfAll(out))
  }

  /** The number of text nodes that meet the wrap condition. */
  function CountWrapped(ss: seq<Site>): nat
  {
    if ss == [] then 0
    else (if ShouldWrap(ss[0].parent, ss[0].text) then 1 else 0) + CountWrapped(ss[1..])
  }

  lemma {:induction false} CountWrappedAppend(a: seq<Site>, b: seq<Site>)
    ensures CountWrapped(a + b) == CountWrapped(a) + CountWrapped(b)
    decreases |a|
  {
    if a == [] {
      assert a + b == b;
    } else {
      assert (a + b)[1..] == a[1..] + b;
      CountWrappedAppend(a[1..], b);
    }
  }

  lemma {:induction false} CountWrappedZeroIff(ss: seq<Site>)
    ensures CountWrapped(ss) == 0 <==> NoneWrappable(ss)
    decreases |ss|
  {
    if ss != [] {
      CountWrappedZeroIff(ss[1..]);
    }
  }

  /** Each wrapped text node adds exactly one entity; nothing else changes
      the number of entities. */
  lemma {:induction false} MarkNodeCount(parent: Tag, n: Node)
    ensures |EntitiesOf(MarkNode(parent, n))| == |EntitiesOf(n)| + CountWrapped(SitesOf(parent, n))
    decreases n, 1
  {
    match n
    case Text(s) =>
      assert EntitiesOfAll([Text(s)]) == EntitiesOf(Text(s)) + EntitiesOfAll([]);
      assert CountWrapped([Site(parent, s)]) == (if ShouldWrap(parent, s) then 1 else 0) + CountWrapped([]);
    case Element(t, cs) =>
      MarkChildrenCount(t, cs);
  }

  lemma {:induction false} MarkChildrenCount(parent: Tag, ns: seq<Node>)
    ensures |EntitiesOfAll(MarkChildren(parent, ns))|
            == |EntitiesOfAll(ns)| + CountWrapped(SitesOfAll(parent, ns))
    decreases ns, 0
  {
    if ns != [] {
      var m := MarkChildren(parent, ns);
      assert m[0] == MarkNode(parent, ns[0]);
      assert m[1..] == MarkChildren(parent, ns[1..]);
      MarkNodeCount(parent, ns[0]);
      MarkChildrenCount(parent, ns[1..]);
      CountWrappedAppend(SitesOf(parent, ns[0]), SitesOfAll(parent, ns[1..]));
    }
  }

  /** Swapping the first body for `b` swaps its entities for those of `b`. */
  lemma {:induction false} ReplaceBodyCount(n: Node, b: Node)
    requires FindBody(n).Some?
    ensures |EntitiesOf(ReplaceBody(n, b))| + |EntitiesOf(FindBody(n).value)|
            == |EntitiesOf(n)| + |EntitiesOf(b)|
    decreases n, 1
  {
    if n.tag.name != "body" {
      ReplaceBodyInCount(n.children, b);
      assert |EntitiesOf(ReplaceBody(n, b))| - |EntitiesOfAll(ReplaceBodyIn(n.children, b))|
             == |EntitiesOf(n)| - |EntitiesOfAll(n.children)|;
    }
  }

  lemma {:induction false} ReplaceBodyInCount(ns: seq<Node>, b: Node)
    requires FindBodyIn(ns).Some?
    ensures |EntitiesOfAll(ReplaceBodyIn(ns, b))| + |EntitiesOf(FindBodyIn(ns).value)|
            == |EntitiesOfAll(ns)| + |EntitiesOf(b)|
    decreases ns, 0
  {
    var r := ReplaceBodyIn(ns, b);
    if FindBody(ns[0]).Some? {
      ReplaceBodyCount(ns[0], b);
      assert r[0] == ReplaceBody(ns[0], b) && r[1..] == ns[1..];
    } else {
      ReplaceBodyInCount(ns[1..], b);
      assert r[0] == ns[0] && r[1..] == ReplaceBodyIn(ns[1..], b);
    }
  }

  /** The whole pipeline fails exactly on a document without a `body`;
      otherwise it yields the entities already in the document plus one per
      text node below the body that meets the wrap condition. */
  lemma ProcessCount(doc: Document)
    ensures Process(doc).Failure? <==> FindBodyIn(doc).None?
    ensures Process(doc).Success? ==>
              var body := FindBodyIn(doc).value;
              |Process(doc).value| == |EntitiesOfAll(doc)| + CountWrapped(SitesOfAll(body.tag, body.children))
  {
    if FindBodyIn(doc).Some? {
      var body := FindBodyIn(doc).value;
      ReplaceBodyInCount(doc, MarkBody(body));
      MarkChildrenCount(body.tag, body.children);
    }
  }

  /** A document yields no entities exactly when it has a body, no span of
      it carries a `class`, and no text node below the body meets the wrap
      condition. */
  lemma EmptyResult(doc: Document)
    requires FindBodyIn(doc).Some?
    ensures var body := FindBodyIn(doc).value;
            Process(doc) == Success([]) <==>
              EntitiesOfAll(doc) == [] && Settled(body.tag, body.children)
  {
    var body := FindBodyIn(doc).value;
    ProcessCount(doc);
    CountWrappedZeroIff(SitesOfAll(body.tag, body.children));
  }

  /** Running the normaliser twice gives the same entities as running it
      once. */
  lemma ProcessStable(doc: Document)
    requires MarkPlainText(doc).Success?
    ensures Process(MarkPlainText(doc).value) == Process(doc)
  {
    MarkPlainTextIdempotent(doc);
  }

  lemma GeldiExample()
    ensures Strip(" geldi.") == "geldi."
  {
    var s := " geldi.";
    assert s[0] == ' ' && s[1..] == "geldi.";
    assert "geldi."[0] == 'g' && "geldi."[5] == '.';
  }

  lemma AliExample()
    ensures Strip("Ali") == "Ali"
  {
    assert "Ali"[0] == 'A' && "Ali"[2] == 'i';
  }

  lemma WrapExample(body: Tag)
    requires body.name == "body" && body.attrs == map[]
    ensures Strip(" geldi.") == "geldi."
    ensures ShouldWrap(body, " geldi.")
  {
    GeldiExample();
    assert "geldi." !in ExcludedTerms by {
      forall k | 0 <= k < |ExcludedTerms| ensures ExcludedTerms[k] != "geldi." {
        assert |ExcludedTerms[k]| != 6;
      }
    }
  }

  const PerSpan: Node := Element(Tag("span", map["class" := Tokens(["PER"])]), [Text("Ali")])
  const BodyTag: Tag := Tag("body", map[])
  const HtmlTag: Tag := Tag("html", map[])

  /** `<html><body><span class="PER">Ali</span> geldi.</body></html>` */
  const ExampleDoc: Document := [Element(HtmlTag, [Element(BodyTag, [PerSpan, Text(" geldi.")])])]

  lemma ExampleMarked()
    ensures MarkPlainText(ExampleDoc)
            == Success([Element(HtmlTag, [Element(BodyTag, [PerSpan, OutsideSpan(" geldi.")])])])
  {
    var body := Element(BodyTag, [PerSpan, Text(" geldi.")]);
    var marked := Element(BodyTag, [PerSpan, OutsideSpan(" geldi.")]);
    var out := [Element(HtmlTag, [marked])];
    AliExample();
    WrapExample(BodyTag);
    assert !ShouldWrap(PerSpan.tag, "Ali");
    var html := Element(HtmlTag, [body]);
    assert FindBody(html) == Some(body) by {
      assert HtmlTag.name[0] == 'h' && "body"[0] == 'b';
      assert FindBody(body) == Some(body);
      assert FindBodyIn([body]) == Some(body);
    }
    assert FindBodyIn(ExampleDoc) == Some(body) by {
      assert ExampleDoc == [html];
    }
    assert MarkChildren(PerSpan.tag, [Text("Ali")]) == [Text("Ali")];
    assert MarkChildren(BodyTag, [PerSpan, Text(" geldi.")]) == [PerSpan, OutsideSpan(" geldi.")] by {
      assert [PerSpan, Text(" geldi.")][1..] == [Text(" geldi.")];
    }
    assert MarkBody(body) == marked;
    assert ReplaceBodyIn(ExampleDoc, marked) == out by {
      assert ExampleDoc == [html];
      assert ReplaceBody(body, marked) == marked;
      assert [body][1..] == [];
      assert ReplaceBodyIn([body], marked) == [marked];
      assert ReplaceBody(html, marked) == Element(HtmlTag, [marked]);
      assert [html][1..] == [];
      assert ReplaceBodyIn([html], marked) == [ReplaceBody(html, marked)] + [html][1..];
    }
  }

  lemma PerSpanEntities()
    ensures EntitiesOf(PerSpan) == [Entity(["PER"], "Ali")]
  {
    AliExample();
    assert EntitiesOfAll([Text("Ali")]) == [];
    assert TextOf(PerSpan) == "Ali" by {
      assert TextOfAll([Text("Ali")]) == "Ali" + TextOfAll([]);
    }
  }

  lemma OutsideSpanEntities()
    ensures EntitiesOf(OutsideSpan(" geldi.")) == [Entity(["O"], "geldi.")]
  {
    WrapExample(BodyTag);
    assert EntitiesOfAll([Text(" geldi.")]) == [];
    assert TextOf(OutsideSpan(" geldi.")) == " geldi." by {
      assert TextOfAll([Text(" geldi.")]) == " geldi." + TextOfAll([]);
    }
  }

  lemma EntitiesOfPlainElement(t: Tag, cs: seq<Node>)
    requires t.name != "span"
    ensures EntitiesOf(Element(t, cs)) == EntitiesOfAll(cs)
  {
  }

  lemma EntitiesOfPair(x: Node, y: Node)
    ensures EntitiesOfAll([x]) == EntitiesOf(x)
    ensures EntitiesOfAll([x, y]) == EntitiesOf(x) + EntitiesOf(y)
  {
    assert [x][1..] == [] && [x, y][1..] == [y] && [y][1..] == [];
  }

  lemma ExampleEntities()
    ensures EntitiesOfAll([Element(HtmlTag, [Element(BodyTag, [PerSpan, OutsideSpan(" geldi.")])])])
            == [Entity(["PER"], "Ali"), Entity(["O"], "geldi.")]
  {
    var marked := Element(BodyTag, [PerSpan, OutsideSpan(" geldi.")]);
    var html := Element(HtmlTag, [marked]);
    assert HtmlTag.name[0] == 'h' && BodyTag.name[0] == 'b' && "span"[0] == 's';
    PerSpanEntities();
    OutsideSpanEntities();
    EntitiesOfPair(PerSpan, OutsideSpan(" geldi."));
    EntitiesOfPlainElement(BodyTag, [PerSpan, OutsideSpan(" geldi.")]);
    EntitiesOfPair(marked, marked);
    EntitiesOfPlainElement(HtmlTag, [marked]);
    EntitiesOfPair(html, html);
  }

  /** The example sentence: the text node " geldi." strips to "geldi.",
      which is not excluded, so the whole node is wrapped and yields one `O`
      entity whose text keeps the full stop. */
  lemma ExampleSentence()
    ensures Process(ExampleDoc) == Success([Entity(["PER"], "Ali"), Entity(["O"], "geldi.")])
  {
    ExampleMarked();
    ExampleEntities();
  }
}
