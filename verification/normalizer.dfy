/** The normaliser (`mark_plain_text`): every text node under the document's
    first `body` whose parent is not a span, carries neither `class` nor
    `style`, and whose stripped value is not an excluded term, is replaced by
    a span of class `O` holding the original, unstripped text. */
module Normalizer {
  import opened Results
  import opened Strings
  import opened Html

  /** Stripped text values that are never wrapped: punctuation marks, the
      Turkish connectives "ve", "veya" and "ya da", the literal text "<br>",
      a triple quote, a single space and the empty string. */
  const ExcludedTerms: seq<string> :=
    [".", " ", "ve", "veya", "ya da", "<br>", "-", "", ";", ",", "\"\"\"", "(", ")", ":"]

  /** The tag of the span that labels text as outside any entity. */
  const OutsideTag: Tag := Tag("span", map["class" := Tokens(["O"])])

  function OutsideSpan(s: string): Node {
    Element(OutsideTag, [Text(s)])
  }

  /** The wrap condition for a text node `s` whose parent element has tag
      `parent`. */
  predicate ShouldWrap(parent: Tag, s: string) {
    && parent.name != "span"
    && "class" !in parent.attrs
    && "style" !in parent.attrs
    && Strip(s) !in ExcludedTerms
  }

  /** Rewrites the text nodes of `n`, whose parent has tag `parent`: an
      element keeps its tag and its number of children, and a text node
      either stays or becomes an `O` span around the same text. */
  function MarkNode(parent: Tag, n: Node): (r: Node)
    ensures n.Element? ==> r.Element? && r.tag == n.tag && |r.children| == |n.children|
    ensures n.Text? ==> r == n || r == OutsideSpan(n.value)
    decreases n, 1
  {
    match n
    case Text(s) => if ShouldWrap(parent, s) then OutsideSpan(s) else n
    case Element(t, cs) => Element(t, MarkChildren(t, cs))
  }

  /** Each node below `parent` is rewritten on its own, in place. */
  function MarkChildren(parent: Tag, ns: seq<Node>): (r: seq<Node>)
    ensures |r| == |ns|
    ensures forall i :: 0 <= i < |ns| ==> r[i] == MarkNode(parent, ns[i])
    decreases ns, 0
  {
    if ns == [] then [] else [MarkNode(parent, ns[0])] + MarkChildren(parent, ns[1..])
  }

  /** The body with every text node below it rewritten. */
  function MarkBody(b: Node): Node
    requires b.Element?
  {
    Element(b.tag, MarkChildren(b.tag, b.children))
  }

  datatype Error = MissingBody

  /** `mark_plain_text`: fails when the document has no `body`; otherwise
      rewrites the first `body` and leaves everything else as it was. */
  function MarkPlainText(doc: Document): (r: Result<Document, Error>)
    ensures r.Failure? <==> !HasBody(doc)
  {
    NoBodyIff(doc);
    match FindBodyIn(doc)
    case None => Failure(MissingBody)
    case Some(body) => Success(ReplaceBodyIn(doc, MarkBody(body)))
  }

  // ---------------------------------------------------------------------
  // Text sites: every text node with the tag of its parent, in document
  // order. They state the wrap condition node by node.

  datatype Site = Site(parent: Tag, text: string)

  function SitesOf(parent: Tag, n: Node): seq<Site>
    decreases n, 1
  {
    match n
    case Text(s) => [Site(parent, s)]
    case Element(t, cs) => SitesOfAll(t, cs)
  }

  function SitesOfAll(parent: Tag, ns: seq<Node>): seq<Site>
    decreases ns, 0
  {
    if ns == [] then [] else SitesOf(parent, ns[0]) + SitesOfAll(parent, ns[1..])
  }

  /** Where one text node ends up: under a fresh `O` span when the wrap
      condition holds, under its old parent otherwise. */
  function Relocate(s: Site): Site {
    if ShouldWrap(s.parent, s.text) then Site(OutsideTag, s.text) else s
  }

  function RelocateAll(ss: seq<Site>): seq<Site>
  {
    if ss == [] then [] else [Relocate(ss[0])] + RelocateAll(ss[1..])
  }

  lemma {:induction false} RelocateAllAppend(a: seq<Site>, b: seq<Site>)
    ensures RelocateAll(a + b) == RelocateAll(a) + RelocateAll(b)
    decreases |a|
  {
    if a == [] {
      assert a + b == b;
    } else {
      assert (a + b)[1..] == a[1..] + b;
      RelocateAllAppend(a[1..], b);
    }
  }

  lemma {:induction false} RelocateAllIndex(ss: seq<Site>, i: nat)
    requires i < |ss|
    ensures |RelocateAll(ss)| == |ss| && RelocateAll(ss)[i] == Relocate(ss[i])
    decreases |ss|
  {
    RelocateAllLength(ss[1..]);
    if i > 0 {
      RelocateAllIndex(ss[1..], i - 1);
    }
  }

  lemma {:induction false} RelocateAllLength(ss: seq<Site>)
    ensures |RelocateAll(ss)| == |ss|
    decreases |ss|
  {
    if ss != [] {
      RelocateAllLength(ss[1..]);
    }
  }

  /** Marking moves exactly the text nodes that meet the wrap condition under
      a fresh `O` span, keeps every other text node under its parent, and
      keeps all of them, with their unstripped text, in document order. */
  lemma {:induction false} MarkNodeSites(parent: Tag, n: Node)
    ensures SitesOf(parent, MarkNode(parent, n)) == RelocateAll(SitesOf(parent, n))
    decreases n, 1
  {
    match n
    case Text(s) =>
      if ShouldWrap(parent, s) {
        assert SitesOfAll(OutsideTag, [Text(s)]) == [Site(OutsideTag, s)] + [];
      }
    case Element(t, cs) =>
      MarkChildrenSites(t, cs);
  }

  lemma {:induction false} MarkChildrenSites(parent: Tag, ns: seq<Node>)
    ensures SitesOfAll(parent, MarkChildren(parent, ns)) == RelocateAll(SitesOfAll(parent, ns))
    decreases ns, 0
  {
    if ns != [] {
      var m := MarkChildren(parent, ns);
      assert m[0] == MarkNode(parent, ns[0]);
      assert m[1..] == MarkChildren(parent, ns[1..]);
      MarkNodeSites(parent, ns[0]);
      MarkChildrenSites(parent, ns[1..]);
      RelocateAllAppend(SitesOf(parent, ns[0]), SitesOfAll(parent, ns[1..]));
    }
  }

  /** The wrap condition, text node by text node: the `i`-th text node below
      `ns` ends up under a fresh `O` span if and only if it meets the wrap
      condition, and otherwise stays where it was; its text is unchanged. */
  lemma WrapExactly(parent: Tag, ns: seq<Node>, i: nat)
    requires i < |SitesOfAll(parent, ns)|
    ensures var before := SitesOfAll(parent, ns)[i];
            var after := SitesOfAll(parent, MarkChildren(parent, ns));
            && i < |after|
            && after[i].text == before.text
            && (ShouldWrap(before.parent, before.text) ==> after[i].parent == OutsideTag)
            && (!ShouldWrap(before.parent, before.text) ==> after[i] == before)
  {
    MarkChildrenSites(parent, ns);
    RelocateAllIndex(SitesOfAll(parent, ns), i);
  }

  /** A text node whose stripped value is an excluded term, in particular a
      whitespace-only one, is never wrapped, whatever its parent. */
  lemma ExcludedNeverWrapped(parent: Tag, ns: seq<Node>, i: nat)
    requires i < |SitesOfAll(parent, ns)|
    requires Strip(SitesOfAll(parent, ns)[i].text) in ExcludedTerms
    ensures i < |SitesOfAll(parent, MarkChildren(parent, ns))|
    ensures SitesOfAll(parent, MarkChildren(parent, ns))[i] == SitesOfAll(parent, ns)[i]
  {
    WrapExactly(parent, ns, i);
  }

  /** Whitespace-only text is excluded: it strips to the empty string. */
  lemma WhitespaceNeverWrapped(parent: Tag, s: string)
    requires AllSpace(s)
    ensures !ShouldWrap(parent, s)
  {
    StripEmptyIffAllSpace(s);
    var r := Strip(s);
    assert r == [];
    assert ExcludedTerms[7] == r;
  }

  /** The `" "` entry of the exclusion list can never match: a stripped
      value never is a lone space. */
  lemma SpaceTermNeverMatches(s: string)
    ensures Strip(s) != " "
  {
    var r := Strip(s);
    assert IsStripped(r);
    assert r == " " ==> IsSpace(r[0]);
  }

  // ---------------------------------------------------------------------
  // Settled trees: no text node meets the wrap condition any more.

  /** No site in `ss` meets the wrap condition. */
  predicate NoneWrappable(ss: seq<Site>) {
    ss == [] || (!ShouldWrap(ss[0].parent, ss[0].text) && NoneWrappable(ss[1..]))
  }

  /** Every text node below `ns` fails the wrap condition. */
  predicate Settled(parent: Tag, ns: seq<Node>) {
    NoneWrappable(SitesOfAll(parent, ns))
  }

  lemma {:induction false} NoneWrappableAppend(a: seq<Site>, b: seq<Site>)
    ensures NoneWrappable(a + b) <==> NoneWrappable(a) && NoneWrappable(b)
    decreases |a|
  {
    if a == [] {
      assert a + b == b;
    } else {
      assert (a + b)[0] == a[0] && (a + b)[1..] == a[1..] + b;
      NoneWrappableAppend(a[1..], b);
    }
  }

  /** After relocation no text node meets the wrap condition: a wrapped one
      now has a span for a parent. */
  lemma {:induction false} RelocatedNoneWrappable(ss: seq<Site>)
    ensures NoneWrappable(RelocateAll(ss))
    decreases |ss|
  {
    if ss != [] {
      var r := RelocateAll(ss);
      assert r[0] == Relocate(ss[0]) && r[1..] == RelocateAll(ss[1..]);
      RelocatedNoneWrappable(ss[1..]);
    }
  }

  /** Marking settles every tree. */
  lemma MarkSettles(parent: Tag, ns: seq<Node>)
    ensures Settled(parent, MarkChildren(parent, ns))
  {
    MarkChildrenSites(parent, ns);
    RelocatedNoneWrappable(SitesOfAll(parent, ns));
  }

  /** A settled node is left exactly as it was. */
  lemma {:induction false} SettledNodeUnchanged(parent: Tag, n: Node)
    requires NoneWrappable(SitesOf(parent, n))
    ensures MarkNode(parent, n) == n
    decreases n, 1
  {
    match n
    case Text(s) =>
      assert SitesOf(parent, n)[0] == Site(parent, s);
    case Element(t, cs) =>
      SettledChildrenUnchanged(t, cs);
  }

  lemma {:induction false} SettledChildrenUnchanged(parent: Tag, ns: seq<Node>)
    requires Settled(parent, ns)
    ensures MarkChildren(parent, ns) == ns
    decreases ns, 0
  {
    if ns != [] {
      NoneWrappableAppend(SitesOf(parent, ns[0]), SitesOfAll(parent, ns[1..]));
      SettledNodeUnchanged(parent, ns[0]);
      SettledChildrenUnchanged(parent, ns[1..]);
      assert [ns[0]] + ns[1..] == ns;
    }
  }

  /** Marking leaves a tree unchanged exactly when it is settled. */
  lemma MarkFixedIffSettled(parent: Tag, ns: seq<Node>)
    ensures MarkChildren(parent, ns) == ns <==> Settled(parent, ns)
  {
    if Settled(parent, ns) {
      SettledChildrenUnchanged(parent, ns);
    } else {
      MarkSettles(parent, ns);
    }
  }

  /** Marking is idempotent below a parent. */
  lemma MarkChildrenIdempotent(parent: Tag, ns: seq<Node>)
    ensures MarkChildren(parent, MarkChildren(parent, ns)) == MarkChildren(parent, ns)
  {
    MarkSettles(parent, ns);
    SettledChildrenUnchanged(parent, MarkChildren(parent, ns));
  }

  // ---------------------------------------------------------------------
  // Shape: only text-node positions change.

  /** `b` is `a` with some of its text nodes replaced by `O` spans holding
      the same text; every element keeps its tag and attributes. */
  predicate Preserves(a: Node, b: Node)
    decreases a, 1
  {
    match a
    case Text(s) => b == a || b == OutsideSpan(s)
    case Element(t, cs) => b.Element? && b.tag == t && PreservesAll(cs, b.children)
  }

  predicate PreservesAll(xs: seq<Node>, ys: seq<Node>)
    decreases xs, 0
  {
    |xs| == |ys| && forall i :: 0 <= i < |xs| ==> Preserves(xs[i], ys[i])
  }

  lemma {:induction false} MarkNodePreserves(parent: Tag, n: Node)
    ensures Preserves(n, MarkNode(parent, n))
    decreases n, 1
  {
    if n.Element? {
      MarkChildrenPreserves(n.tag, n.children);
    }
  }

  /** Marking keeps every element with its attributes, and replaces only
      text nodes, each by an `O` span around the same text. */
  lemma {:induction false} MarkChildrenPreserves(parent: Tag, ns: seq<Node>)
    ensures PreservesAll(ns, MarkChildren(parent, ns))
    decreases ns, 0
  {
    if ns != [] {
      var m := MarkChildren(parent, ns);
      MarkNodePreserves(parent, ns[0]);
      MarkChildrenPreserves(parent, ns[1..]);
      forall i | 0 <= i < |ns| ensures Preserves(ns[i], m[i]) {
        if i > 0 {
          assert ns[i] == ns[1..][i - 1] && m[i] == MarkChildren(parent, ns[1..])[i - 1];
        }
      }
    }
  }

  lemma {:induction false} PreservesReflexive(n: Node)
    ensures Preserves(n, n)
    decreases n, 1
  {
    if n.Element? {
      PreservesAllReflexive(n.children);
    }
  }

  lemma {:induction false} PreservesAllReflexive(ns: seq<Node>)
    ensures PreservesAll(ns, ns)
    decreases ns, 0
  {
    forall i | 0 <= i < |ns| ensures Preserves(ns[i], ns[i]) {
      PreservesReflexive(ns[i]);
    }
  }

  /** Replacing text nodes by `O` spans around them keeps all text. */
  lemma {:induction false} PreservesKeepsText(a: Node, b: Node)
    requires Preserves(a, b)
    ensures TextOf(b) == TextOf(a)
    decreases a, 1
  {
    match a
    case Text(s) =>
      assert TextOfAll([Text(s)]) == s + TextOfAll([]);
    case Element(_, cs) =>
      PreservesAllKeepsText(cs, b.children);
  }

  lemma {:induction false} PreservesAllKeepsText(xs: seq<Node>, ys: seq<Node>)
    requires PreservesAll(xs, ys)
    ensures TextOfAll(ys) == TextOfAll(xs)
    decreases xs, 0
  {
    if xs != [] {
      PreservesKeepsText(xs[0], ys[0]);
      assert PreservesAll(xs[1..], ys[1..]) by {
        forall i | 0 <= i < |xs| - 1 ensures Preserves(xs[1..][i], ys[1..][i]) {
          assert xs[1..][i] == xs[i + 1] && ys[1..][i] == ys[i + 1];
        }
      }
      PreservesAllKeepsText(xs[1..], ys[1..]);
    }
  }

  /** Replacing the first body by a rewrite of it rewrites the document. */
  lemma {:induction false} ReplaceBodyPreserves(n: Node, b: Node)
    requires FindBody(n).Some? && Preserves(FindBody(n).value, b)
    ensures Preserves(n, ReplaceBody(n, b))
    decreases n, 1
  {
    if n.Element? && n.tag.name != "body" {
      ReplaceBodyInPreserves(n.children, b);
    }
  }

  lemma {:induction false} ReplaceBodyInPreserves(ns: seq<Node>, b: Node)
    requires FindBodyIn(ns).Some? && Preserves(FindBodyIn(ns).value, b)
    ensures PreservesAll(ns, ReplaceBodyIn(ns, b))
    decreases ns, 0
  {
    var r := ReplaceBodyIn(ns, b);
    if FindBody(ns[0]).Some? {
      ReplaceBodyPreserves(ns[0], b);
      forall i | 0 <= i < |ns| ensures Preserves(ns[i], r[i]) {
        if i > 0 {
          assert r[i] == ns[i];
          PreservesReflexive(ns[i]);
        }
      }
    } else {
      ReplaceBodyInPreserves(ns[1..], b);
      PreservesReflexive(ns[0]);
      forall i | 0 <= i < |ns| ensures Preserves(ns[i], r[i]) {
        if i > 0 {
          assert ns[i] == ns[1..][i - 1] && r[i] == ReplaceBodyIn(ns[1..], b)[i - 1];
        }
      }
    }
  }

  // ---------------------------------------------------------------------
  // The whole document.

  /** Marking fails exactly on a document without a `body`; otherwise it
      changes the first body and nothing else (putting the original body
      back gives the input), keeps every element and all text, and settles
      every text node below the body. */
  lemma MarkPlainTextEffect(doc: Document)
    ensures MarkPlainText(doc).Failure? <==> FindBodyIn(doc).None?
    ensures MarkPlainText(doc).Success? ==>
              var body := FindBodyIn(doc).value;
              var out := MarkPlainText(doc).value;
              && FindBodyIn(out).Some?
              && var body' := FindBodyIn(out).value;
              && body'.tag == body.tag
              && ReplaceBodyIn(out, body) == doc
              && Settled(body.tag, body'.children)
              && PreservesAll(doc, out)
              && TextOfAll(out) == TextOfAll(doc)
  {
    if FindBodyIn(doc).Some? {
      var body := FindBodyIn(doc).value;
      var marked := MarkBody(body);
      var out := ReplaceBodyIn(doc, marked);
      FindReplacedBodyIn(doc, marked);
      ReplaceBodyTwiceIn(doc, marked, body);
      ReplaceBodyWithItselfIn(doc);
      MarkSettles(body.tag, body.children);
      MarkChildrenPreserves(body.tag, body.children);
      ReplaceBodyInPreserves(doc, marked);
      PreservesKeepsText(body, marked);
      ReplaceBodyKeepsTextIn(doc, marked);
    }
  }

  /** Normalising a normalised document changes nothing. */
  lemma MarkPlainTextIdempotent(doc: Document)
    requires MarkPlainText(doc).Success?
    ensures MarkPlainText(MarkPlainText(doc).value) == MarkPlainText(doc)
  {
    var body := FindBodyIn(doc).value;
    var marked := MarkBody(body);
    var out := ReplaceBodyIn(doc, marked);
    FindReplacedBodyIn(doc, marked);
    MarkChildrenIdempotent(body.tag, body.children);
    ReplaceBodyTwiceIn(doc, marked, marked);
  }
}
