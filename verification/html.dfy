/** An abstract HTML tree as the parser hands it over: elements with a tag
    name, attributes and children, and text nodes. */
module Html {
  import opened Results

  /** An attribute value. The parser splits `class` into a token list; other
      attributes keep their string. */
  datatype AttrValue = Value(text: string) | Tokens(tokens: seq<string>)

  /** An element's name and attribute dictionary. */
  datatype Tag = Tag(name: string, attrs: map<string, AttrValue>)

  datatype Node = Text(value: string) | Element(tag: Tag, children: seq<Node>)

  /** A parsed document: the top-level nodes under the parser's root object. */
  type Document = seq<Node>

  /** The one-character strings of `v`, which is what iterating over a
      Python string yields. */
  function Chars(v: string): (r: seq<string>)
    ensures |r| == |v| && forall k :: 0 <= k < |r| ==> r[k] == [v[k]]
  {
    seq(|v|, k requires 0 <= k < |v| => [v[k]])
  }

  /** The tokens of the `class` attribute, if the tag has one (`tag['class']`),
      as the tokens a later `join` iterates over: the list itself, or the
      characters of a plain string value. */
  function ClassTokens(t: Tag): (r: Option<seq<string>>)
    ensures r.Some? <==> "class" in t.attrs
    ensures "class" in t.attrs && t.attrs["class"].Tokens? ==> r == Some(t.attrs["class"].tokens)
  {
    if "class" !in t.attrs then None
    else match t.attrs["class"]
      case Tokens(ts) => Some(ts)
      case Value(v) => Some(Chars(v))
  }

  /** The strings of the text nodes at or below `n`, in document order. */
  function TextNodes(n: Node): seq<string>
    decreases n, 1
  {
    match n
    case Text(s) => [s]
    case Element(_, cs) => TextNodesIn(cs)
  }

  function TextNodesIn(ns: seq<Node>): seq<string>
    decreases ns, 0
  {
    if ns == [] then [] else TextNodes(ns[0]) + TextNodesIn(ns[1..])
  }

  /** The strings of `ss` written one after another. */
  function Concat(ss: seq<string>): string
  {
    if ss == [] then "" else ss[0] + Concat(ss[1..])
  }

  lemma {:induction false} ConcatAppend(a: seq<string>, b: seq<string>)
    ensures Concat(a + b) == Concat(a) + Concat(b)
    decreases |a|
  {
    if a == [] {
      assert a + b == b;
    } else {
      assert (a + b)[1..] == a[1..] + b;
      ConcatAppend(a[1..], b);
    }
  }

  /** All descendant text of a node (`.text`): the strings of its text
      nodes, in document order, with nothing between them. */
  function TextOf(n: Node): (r: string)
    ensures r == Concat(TextNodes(n))
    decreases n, 1
  {
    match n
    case Text(s) => assert Concat([s]) == s + Concat([]); s
    case Element(_, cs) => TextOfAll(cs)
  }

  function TextOfAll(ns: seq<Node>): (r: string)
    ensures r == Concat(TextNodesIn(ns))
    decreases ns, 0
  {
    if ns == [] then ""
    else
      ConcatAppend(TextNodes(ns[0]), TextNodesIn(ns[1..]));
      TextOf(ns[0]) + TextOfAll(ns[1..])
  }

  lemma {:induction false} TextOfAllAppend(a: seq<Node>, b: seq<Node>)
    ensures TextOfAll(a + b) == TextOfAll(a) + TextOfAll(b)
    decreases |a|
  {
    if a == [] {
      assert a + b == b;
    } else {
      assert (a + b)[1..] == a[1..] + b;
      TextOfAllAppend(a[1..], b);
    }
  }

  predicate IsBody(n: Node) {
    n.Element? && n.tag.name == "body"
  }

  /** `m` is `n` or one of its descendants. */
  predicate Occurs(m: Node, n: Node)
    decreases n, 1
  {
    m == n || (n.Element? && OccursIn(m, n.children))
  }

  /** `m` is one of `ns` or a descendant of one of them. */
  predicate OccursIn(m: Node, ns: seq<Node>)
    decreases ns, 0
  {
    ns != [] && (Occurs(m, ns[0]) || OccursIn(m, ns[1..]))
  }

  /** Some `body` element occurs somewhere in the document. */
  ghost predicate HasBody(doc: Document) {
    exists m :: OccursIn(m, doc) && IsBody(m)
  }

  /** `soup.find_all(name)`: every element called `name` at or below `n`, in
      document (pre-)order, an element before its descendants. */
  function FindAll(n: Node, name: string): (r: seq<Node>)
    ensures forall k :: 0 <= k < |r| ==> r[k].Element? && r[k].tag.name == name
    decreases n, 1
  {
    match n
    case Text(_) => []
    case Element(t, cs) => (if t.name == name then [n] else []) + FindAllIn(cs, name)
  }

  function FindAllIn(ns: seq<Node>, name: string): (r: seq<Node>)
    ensures forall k :: 0 <= k < |r| ==> r[k].Element? && r[k].tag.name == name
    decreases ns, 0
  {
    if ns == [] then [] else FindAll(ns[0], name) + FindAllIn(ns[1..], name)
  }

  /** `find_all` misses nothing: a node is returned exactly when it occurs
      in the tree and is an element with that name. */
  lemma {:induction false} FindAllComplete(m: Node, n: Node, name: string)
    ensures m in FindAll(n, name) <==> Occurs(m, n) && m.Element? && m.tag.name == name
    decreases n, 1
  {
    if n.Element? {
      FindAllInComplete(m, n.children, name);
    }
  }

  lemma {:induction false} FindAllInComplete(m: Node, ns: seq<Node>, name: string)
    ensures m in FindAllIn(ns, name) <==> OccursIn(m, ns) && m.Element? && m.tag.name == name
    decreases ns, 0
  {
    if ns != [] {
      FindAllComplete(m, ns[0], name);
      FindAllInComplete(m, ns[1..], name);
    }
  }

  /** The first node of a sequence, if there is one. */
  function First(ns: seq<Node>): (r: Option<Node>)
    ensures r.None? <==> ns == []
  {
    if ns == [] then None else Some(ns[0])
  }

  /** `soup.find('body')`: the first of the `body` elements `find_all` would
      list, that is, the first `body` at or under `n` in document order. */
  function FindBody(n: Node): (r: Option<Node>)
    ensures r == First(FindAll(n, "body"))
    ensures r.Some? ==> IsBody(r.value)
    decreases n, 1
  {
    match n
    case Text(_) => None
    case Element(t, cs) => if t.name == "body" then Some(n) else FindBodyIn(cs)
  }

  function FindBodyIn(ns: seq<Node>): (r: Option<Node>)
    ensures r == First(FindAllIn(ns, "body"))
    ensures r.Some? ==> IsBody(r.value)
    decreases ns, 0
  {
    if ns == [] then None
    else match FindBody(ns[0])
      case Some(b) => Some(b)
      case None => FindBodyIn(ns[1..])
  }

  /** `find('body')` finds nothing exactly when no `body` element occurs
      anywhere in the document. */
  lemma NoBodyIff(doc: Document)
    ensures FindBodyIn(doc).None? <==> !HasBody(doc)
  {
    var bodies := FindAllIn(doc, "body");
    if bodies == [] {
      forall m | OccursIn(m, doc) ensures !IsBody(m) {
        FindAllInComplete(m, doc, "body");
      }
    } else {
      FindAllInComplete(bodies[0], doc, "body");
    }
  }

  /** `n` with its first `body` element replaced by `b`, and nothing else
      changed; `n` itself when it holds no `body`. */
  function ReplaceBody(n: Node, b: Node): Node
  {
    match n
    case Text(_) => n
    case Element(t, cs) => if t.name == "body" then b else Element(t, ReplaceBodyIn(cs, b))
  }

  function ReplaceBodyIn(ns: seq<Node>, b: Node): seq<Node>
  {
    if ns == [] then []
    else if FindBody(ns[0]).Some? then [ReplaceBody(ns[0], b)] + ns[1..]
    else [ns[0]] + ReplaceBodyIn(ns[1..], b)
  }

  /** Putting the first body back in its own place changes nothing: the
      body is the only part of a document `ReplaceBody` touches. */
  lemma {:induction false} ReplaceBodyWithItself(n: Node)
    ensures FindBody(n).Some? ==> ReplaceBody(n, FindBody(n).value) == n
    ensures FindBody(n).None? ==> forall b :: ReplaceBody(n, b) == n
    decreases n, 1
  {
    if n.Element? && n.tag.name != "body" {
      ReplaceBodyWithItselfIn(n.children);
    }
  }

  lemma {:induction false} ReplaceBodyWithItselfIn(ns: seq<Node>)
    ensures FindBodyIn(ns).Some? ==> ReplaceBodyIn(ns, FindBodyIn(ns).value) == ns
    ensures FindBodyIn(ns).None? ==> forall b :: ReplaceBodyIn(ns, b) == ns
    decreases ns, 0
  {
    if ns != [] {
      ReplaceBodyWithItself(ns[0]);
      ReplaceBodyWithItselfIn(ns[1..]);
      assert [ns[0]] + ns[1..] == ns;
    }
  }

  /** After the first body is replaced by another `body` element, that
      element is the document's first body. */
  lemma {:induction false} FindReplacedBody(n: Node, b: Node)
    requires IsBody(b)
    ensures FindBody(n).Some? ==> FindBody(ReplaceBody(n, b)) == Some(b)
    decreases n, 1
  {
    if n.Element? && n.tag.name != "body" {
      FindReplacedBodyIn(n.children, b);
    }
  }

  lemma {:induction false} FindReplacedBodyIn(ns: seq<Node>, b: Node)
    requires IsBody(b)
    ensures FindBodyIn(ns).Some? ==> FindBodyIn(ReplaceBodyIn(ns, b)) == Some(b)
    decreases ns, 0
  {
    if ns != [] {
      var r := ReplaceBodyIn(ns, b);
      FindReplacedBody(ns[0], b);
      FindReplacedBodyIn(ns[1..], b);
      if FindBody(ns[0]).Some? {
        assert r[0] == ReplaceBody(ns[0], b);
      } else {
        assert r[0] == ns[0] && r[1..] == ReplaceBodyIn(ns[1..], b);
      }
    }
  }

  /** Replacing the first body twice, with a `body` element in between, is
      the same as replacing it once with the second value. */
  lemma {:induction false} ReplaceBodyTwice(n: Node, x: Node, y: Node)
    requires IsBody(x)
    ensures FindBody(n).Some? ==> ReplaceBody(ReplaceBody(n, x), y) == ReplaceBody(n, y)
    decreases n, 1
  {
    if n.Element? && n.tag.name != "body" {
      ReplaceBodyTwiceIn(n.children, x, y);
    }
  }

  lemma {:induction false} ReplaceBodyTwiceIn(ns: seq<Node>, x: Node, y: Node)
    requires IsBody(x)
    ensures FindBodyIn(ns).Some? ==>
              ReplaceBodyIn(ReplaceBodyIn(ns, x), y) == ReplaceBodyIn(ns, y)
    decreases ns, 0
  {
    if ns != [] {
      var r := ReplaceBodyIn(ns, x);
      ReplaceBodyTwice(ns[0], x, y);
      ReplaceBodyTwiceIn(ns[1..], x, y);
      FindReplacedBody(ns[0], x);
      if FindBody(ns[0]).Some? {
        assert r == [ReplaceBody(ns[0], x)] + ns[1..];
        assert r[1..] == ns[1..];
      } else {
        assert r[1..] == ReplaceBodyIn(ns[1..], x);
      }
    }
  }

  /** Replacing the first body by an element with the same text keeps the
      text of the whole document. */
  lemma {:induction false} ReplaceBodyKeepsText(n: Node, b: Node)
    requires FindBody(n).Some? && TextOf(b) == TextOf(FindBody(n).value)
    ensures TextOf(ReplaceBody(n, b)) == TextOf(n)
    decreases n, 1
  {
    if n.Element? && n.tag.name != "body" {
      ReplaceBodyKeepsTextIn(n.children, b);
    }
  }

  lemma {:induction false} ReplaceBodyKeepsTextIn(ns: seq<Node>, b: Node)
    requires FindBodyIn(ns).Some? && TextOf(b) == TextOf(FindBodyIn(ns).value)
    ensures TextOfAll(ReplaceBodyIn(ns, b)) == TextOfAll(ns)
    decreases ns, 0
  {
    var r := ReplaceBodyIn(ns, b);
    if FindBody(ns[0]).Some? {
      ReplaceBodyKeepsText(ns[0], b);
      assert r[1..] == ns[1..];
    } else {
      ReplaceBodyKeepsTextIn(ns[1..], b);
      assert r[1..] == ReplaceBodyIn(ns[1..], b);
    }
  }
}
