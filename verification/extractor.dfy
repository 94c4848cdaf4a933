/** The extractor (`extract_entities`): every `span` of the document, in
    document order, nested ones included, that carries a `class` attribute
    yields one entity: its class tokens and its stripped descendant text. */
module Extractor {
  import opened Strings
  import opened Html

  datatype Entity = Entity(classes: seq<string>, text: string)

  predicate IsLabelled(n: Node) {
    n.Element? && "class" in n.tag.attrs
  }

  /** The entity of one labelled span: `{'class': span['class'],
      'text': span.text.strip()}`. */
  function EntityOf(span: Node): (r: Entity)
    requires IsLabelled(span)
    ensures r.classes == ClassTokens(span.tag).value
    ensures Trims(TextOf(span), r.text)
  {
    StripTrims(TextOf(span));
    Entity(ClassTokens(span.tag).value, Strip(TextOf(span)))
  }

  /** What one iteration of the extraction loop appends. */
  function Step(span: Node): seq<Entity> {
    if IsLabelled(span) then [EntityOf(span)] else []
  }

  /** What the extraction loop has produced after visiting `spans`. */
  function Collect(spans: seq<Node>): seq<Entity>
  {
    if spans == [] then [] else Collect(spans[..|spans| - 1]) + Step(spans[|spans| - 1])
  }

  /** One more visited span appends what that span contributes. */
  lemma CollectSnoc(xs: seq<Node>, x: Node)
    ensures Collect(xs + [x]) == Collect(xs) + Step(x)
  {
    var c := xs + [x];
    assert c[..|c| - 1] == xs && c[|c| - 1] == x;
  }

  lemma {:induction false} CollectAppend(a: seq<Node>, b: seq<Node>)
    ensures Collect(a + b) == Collect(a) + Collect(b)
    decreases |b|
  {
    if b == [] {
      assert a + b == a;
    } else {
      var init := b[..|b| - 1];
      var last := b[|b| - 1];
      assert b == init + [last];
      assert a + b == (a + init) + [last];
      CollectSnoc(a + init, last);
      CollectSnoc(init, last);
      CollectAppend(a, init);
    }
  }

  /** The entities as one pre-order fold over the tree: a span's own entity
      before those of its descendants, siblings left to right. */
  function EntitiesOf(n: Node): (r: seq<Entity>)
    ensures forall k :: 0 <= k < |r| ==> IsStripped(r[k].text)
    decreases n, 1
  {
    match n
    case Text(_) => []
    case Element(t, cs) =>
      (if t.name == "span" then Step(n) else []) + EntitiesOfAll(cs)
  }

  function EntitiesOfAll(ns: seq<Node>): (r: seq<Entity>)
    ensures forall k :: 0 <= k < |r| ==> IsStripped(r[k].text)
    decreases ns, 0
  {
    if ns == [] then [] else EntitiesOf(ns[0]) + EntitiesOfAll(ns[1..])
  }

  /** Looping over `find_all('span')` and the pre-order fold agree. */
  lemma {:induction false} CollectSpansIsFold(n: Node)
    ensures Collect(FindAll(n, "span")) == EntitiesOf(n)
    decreases n, 1
  {
    match n
    case Text(_) =>
    case Element(t, cs) =>
      var own: seq<Node> := if t.name == "span" then [n] else [];
      var ownEntities: seq<Entity> := if t.name == "span" then Step(n) else [];
      assert FindAll(n, "span") == own + FindAllIn(cs, "span");
      assert EntitiesOf(n) == ownEntities + EntitiesOfAll(cs);
      CollectAppend(own, FindAllIn(cs, "span"));
      CollectSpansIsFoldIn(cs);
      assert Collect(own) == ownEntities by {
        if t.name == "span" {
          assert own[..0] == [];
        }
      }
  }

  lemma {:induction false} CollectSpansIsFoldIn(ns: seq<Node>)
    ensures Collect(FindAllIn(ns, "span")) == EntitiesOfAll(ns)
    decreases ns, 0
  {
    if ns != [] {
      CollectAppend(FindAll(ns[0], "span"), FindAllIn(ns[1..], "span"));
      CollectSpansIsFold(ns[0]);
      CollectSpansIsFoldIn(ns[1..]);
    }
  }

  /** `extract_entities`: visits `find_all('span')` in order and appends an
      entity for each span with a `class`. The result is the pre-order fold,
      and every entity's text is stripped. */
  method ExtractEntities(doc: Document) returns (es: seq<Entity>)
    ensures es == EntitiesOfAll(doc)
    ensures forall k :: 0 <= k < |es| ==> IsStripped(es[k].text)
  {
    var spans := FindAllIn(doc, "span");
    es := [];
    var i := 0;
    while i < |spans|
      invariant 0 <= i <= |spans|
      invariant es == Collect(spans[..i])
      invariant forall k :: 0 <= k < |es| ==> IsStripped(es[k].text)
    {
      var span := spans[i];
      if "class" in span.tag.attrs {
        es := es + [EntityOf(span)];
      }
      assert spans[..i + 1][..i] == spans[..i];
      i := i + 1;
    }
    assert spans[..i] == spans;
    CollectSpansIsFoldIn(doc);
  }

  /** Extraction is compositional: the entities of a concatenation are the
      entities of each part, in order, with no reordering or merging. */
  lemma {:induction false} EntitiesOfAllAppend(a: seq<Node>, b: seq<Node>)
    ensures EntitiesOfAll(a + b) == EntitiesOfAll(a) + EntitiesOfAll(b)
    decreases |a|
  {
    if a == [] {
      assert a + b == b;
    } else {
      assert (a + b)[1..] == a[1..] + b;
      EntitiesOfAllAppend(a[1..], b);
    }
  }

  /** A document yields no entity exactly when none of its spans carries a
      `class`. */
  lemma NoEntitiesIffNoLabelledSpan(doc: Document)
    ensures EntitiesOfAll(doc) == [] <==>
              forall k :: 0 <= k < |FindAllIn(doc, "span")| ==> !IsLabelled(FindAllIn(doc, "span")[k])
  {
    CollectSpansIsFoldIn(doc);
    CollectEmptyIff(FindAllIn(doc, "span"));
  }

  lemma {:induction false} CollectEmptyIff(spans: seq<Node>)
    ensures Collect(spans) == [] <==> forall k :: 0 <= k < |spans| ==> !IsLabelled(spans[k])
    decreases |spans|
  {
    if spans != [] {
      var init := spans[..|spans| - 1];
      CollectEmptyIff(init);
      assert forall k :: 0 <= k < |init| ==> init[k] == spans[k];
    }
  }
}
