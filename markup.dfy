/**
 * The markup tree that BeautifulSoup builds from a page, kept as an arena: a
 * sequence of nodes that refer to their parent and children by index. Node 0
 * is the document root. Every child has a larger index than its parent, so a
 * walk down the tree or up the parent chain always terminates. A text run is
 * identified by its index, which plays the part of Python's id() of a string.
 */
module Markup {
  import opened Wrappers
  import opened Text

  datatype Attr = Attr(key: string, value: string)

  datatype Node =
    | TextNode(text: string, parent: Option<nat>)
    | ElemNode(name: string, attrs: seq<Attr>, parent: Option<nat>, children: seq<nat>)

  type Doc = seq<Node>

  /** Tag names the page markup uses. */
  const MarkerName: string := "ac:inline-comment-marker"
  const RefAttr: string := "ac:ref"
  const MacroName: string := "ac:structured-macro"
  const ParameterName: string := "ac:parameter"

  function Kids(n: Node): seq<nat>
  {
    if n.ElemNode? then n.children else []
  }

  /** The node without its parent link: what a walk down the tree sees of it. */
  function Shape(n: Node): Node
  {
    n.(parent := None)
  }

  predicate Distinct(s: seq<nat>)
  {
    forall a, b :: 0 <= a < b < |s| ==> s[a] != s[b]
  }

  /** Children lie inside the arena, after their parent. */
  ghost predicate Ordered(d: Doc)
  {
    forall i, k :: 0 <= i < |d| && 0 <= k < |Kids(d[i])| ==> i < Kids(d[i])[k] < |d|
  }

  /** A well-formed arena: a root element at 0, parent links pointing backwards, and each listed child naming its lister as parent exactly once. */
  ghost predicate WellFormed(d: Doc)
  {
    && |d| > 0 && d[0].ElemNode? && d[0].parent.None?
    && (forall i :: 0 < i < |d| ==> d[i].parent.Some? && d[i].parent.value < i)
    && Ordered(d)
    && (forall i, k :: 0 <= i < |d| && 0 <= k < |Kids(d[i])| ==> d[Kids(d[i])[k]].parent == Some(i))
    && (forall i {:trigger Kids(d[i])} :: 0 <= i < |d| ==> Distinct(Kids(d[i])))
  }

  /** Node j is listed among the children of the node its parent link names. */
  ghost predicate Linked(d: Doc, j: nat)
  {
    && 0 < j < |d| && d[j].parent.Some? && d[j].parent.value < |d|
    && j in Kids(d[d[j].parent.value])
  }

  /** The nodes of the subtree under i in document order (i first). */
  function Nodes(d: Doc, i: nat): (r: seq<nat>)
    requires Ordered(d) && i < |d|
    ensures |r| > 0 && r[0] == i
    ensures forall k :: 0 <= k < |r| ==> i <= r[k] < |d|
    decreases |d| - i, 1
  {
    [i] + NodesOf(d, Kids(d[i]), i)
  }

  function NodesOf(d: Doc, kids: seq<nat>, lb: nat): (r: seq<nat>)
    requires Ordered(d) && lb < |d| && forall k :: 0 <= k < |kids| ==> lb < kids[k] < |d|
    ensures forall k :: 0 <= k < |r| ==> lb < r[k] < |d|
    decreases |d| - lb, 0, |kids|
  {
    if kids == [] then [] else Nodes(d, kids[0]) + NodesOf(d, kids[1..], lb)
  }

  /** The text runs among `xs`, in order. */
  function TextsAmong(d: Doc, xs: seq<nat>): (r: seq<nat>)
    requires forall k :: 0 <= k < |xs| ==> xs[k] < |d|
    ensures forall j :: j in r ==> j in xs && d[j].TextNode?
    ensures forall j :: j in xs && d[j].TextNode? ==> j in r
  {
    if xs == [] then []
    else (if d[xs[0]].TextNode? then [xs[0]] else []) + TextsAmong(d, xs[1..])
  }

  /** The elements among `xs`, in order. */
  function ElemsAmong(d: Doc, xs: seq<nat>): (r: seq<nat>)
    requires forall k :: 0 <= k < |xs| ==> xs[k] < |d|
    ensures forall j :: j in r ==> j in xs && d[j].ElemNode?
    ensures forall j :: j in xs && d[j].ElemNode? ==> j in r
  {
    if xs == [] then []
    else (if d[xs[0]].ElemNode? then [xs[0]] else []) + ElemsAmong(d, xs[1..])
  }

  /** BeautifulSoup's `.strings` of the whole document. */
  function Runs(d: Doc): (r: seq<nat>)
    requires Ordered(d) && |d| > 0
    ensures forall j :: j in r ==> j < |d| && d[j].TextNode?
    ensures forall k :: 0 <= k < |r| ==> r[k] < |d| && d[r[k]].TextNode?
  {
    var r := TextsAmong(d, Nodes(d, 0));
    assert forall k :: 0 <= k < |r| ==> r[k] in r;
    r
  }

  /** BeautifulSoup's `find_all` from the root: the elements below it in document order. */
  function Descendants(d: Doc): (r: seq<nat>)
    requires Ordered(d) && |d| > 0
    ensures forall j :: j in r ==> 0 < j < |d| && d[j].ElemNode?
  {
    ElemsAmong(d, Nodes(d, 0)[1..])
  }

  /** The texts of the runs `rs`. */
  function RunTexts(d: Doc, rs: seq<nat>): (r: seq<string>)
    requires forall k :: 0 <= k < |rs| ==> rs[k] < |d| && d[rs[k]].TextNode?
    ensures |r| == |rs|
    ensures forall k :: 0 <= k < |rs| ==> r[k] == d[rs[k]].text
  {
    if rs == [] then [] else [d[rs[0]].text] + RunTexts(d, rs[1..])
  }

  /** BeautifulSoup's `.text` of node i: all strings below it, concatenated. */
  function TextOf(d: Doc, i: nat): (r: string)
    requires Ordered(d) && i < |d|
    decreases |d| - i, 1
  {
    match d[i]
    case TextNode(t, _) => t
    case ElemNode(_, _, _, _) => KidsText(d, Kids(d[i]), i)
  }

  function KidsText(d: Doc, kids: seq<nat>, lb: nat): (r: string)
    requires Ordered(d) && lb < |d| && forall k :: 0 <= k < |kids| ==> lb < kids[k] < |d|
    decreases |d| - lb, 0, |kids|
  {
    if kids == [] then [] else TextOf(d, kids[0]) + KidsText(d, kids[1..], lb)
  }

  /** The markup of an attribute list. */
  function AttrsMarkup(attrs: seq<Attr>): string
  {
    if attrs == [] then []
    else " " + attrs[0].key + "=\"" + attrs[0].value + "\"" + AttrsMarkup(attrs[1..])
  }

  /** A stand-in for BeautifulSoup's str() of node i. */
  function Render(d: Doc, i: nat): (r: string)
    requires Ordered(d) && i < |d|
    decreases |d| - i, 1
  {
    match d[i]
    case TextNode(t, _) => t
    case ElemNode(name, attrs, _, _) =>
      "<" + name + AttrsMarkup(attrs) + ">" + RenderKids(d, Kids(d[i]), i) + "</" + name + ">"
  }

  function RenderKids(d: Doc, kids: seq<nat>, lb: nat): (r: string)
    requires Ordered(d) && lb < |d| && forall k :: 0 <= k < |kids| ==> lb < kids[k] < |d|
    decreases |d| - lb, 0, |kids|
  {
    if kids == [] then [] else Render(d, kids[0]) + RenderKids(d, kids[1..], lb)
  }

  /** str() of the whole document: the root itself adds no markup. */
  function RenderDoc(d: Doc): string
    requires Ordered(d) && |d| > 0
  {
    RenderKids(d, Kids(d[0]), 0)
  }

  /** The value of attribute `key` (the first one so named). */
  function AttrValue(attrs: seq<Attr>, key: string): (r: Option<string>)
    ensures r.Some? ==> exists k :: 0 <= k < |attrs| && attrs[k] == Attr(key, r.value)
    ensures r.None? ==> forall k :: 0 <= k < |attrs| ==> attrs[k].key != key
  {
    if attrs == [] then None
    else if attrs[0].key == key then Some(attrs[0].value)
    else AttrValue(attrs[1..], key)
  }

  /** Everything below the k-th child is below the list of children. */
  lemma {:induction false} NodesOfIncludes(d: Doc, kids: seq<nat>, lb: nat, k: nat, j: nat)
    requires Ordered(d) && lb < |d| && forall m :: 0 <= m < |kids| ==> lb < kids[m] < |d|
    requires k < |kids| && j in Nodes(d, kids[k])
    ensures j in NodesOf(d, kids, lb)
    decreases k
  {
    if k > 0 {
      NodesOfIncludes(d, kids[1..], lb, k - 1, j);
    }
  }

  /** Whatever lies below a list of children lies below one of them. */
  lemma {:induction false} NodesOfMember(d: Doc, kids: seq<nat>, lb: nat, j: nat) returns (k: nat)
    requires Ordered(d) && lb < |d| && forall m :: 0 <= m < |kids| ==> lb < kids[m] < |d|
    requires j in NodesOf(d, kids, lb)
    ensures k < |kids| && j in Nodes(d, kids[k])
    decreases |kids|
  {
    if j in Nodes(d, kids[0]) {
      k := 0;
    } else {
      k := NodesOfMember(d, kids[1..], lb, j);
      k := k + 1;
    }
  }

  /** A node strictly below i is linked to its parent, which is also below i (or is i). */
  lemma {:induction false} NodesParent(d: Doc, i: nat, j: nat)
    requires WellFormed(d) && i < |d| && j in Nodes(d, i) && j != i
    ensures Linked(d, j) && d[j].parent.value in Nodes(d, i)
    decreases |d| - i
  {
    var kids := Kids(d[i]);
    var k := NodesOfMember(d, kids, i, j);
    if j == kids[k] {
      assert d[kids[k]].parent == Some(i);
    } else {
      NodesParent(d, kids[k], j);
      var q := d[j].parent.value;
      NodesOfIncludes(d, kids, i, k, q);
    }
  }

  /** The nodes of the subtree under i look the same in d and e. */
  ghost predicate SameSubtree(d: Doc, e: Doc, i: nat)
    requires Ordered(d) && i < |d|
  {
    |d| <= |e| && forall j :: j in Nodes(d, i) ==> Shape(e[j]) == Shape(d[j])
  }

  /** The text under i depends only on the subtree under i. */
  lemma {:induction false} TextOfFrame(d: Doc, e: Doc, i: nat)
    requires Ordered(d) && Ordered(e) && i < |d| && SameSubtree(d, e, i)
    ensures TextOf(e, i) == TextOf(d, i)
    decreases |d| - i, 1
  {
    assert Shape(e[i]) == Shape(d[i]);
    if d[i].ElemNode? {
      forall k | 0 <= k < |Kids(d[i])| ensures SameSubtree(d, e, Kids(d[i])[k]) {
        forall j | j in Nodes(d, Kids(d[i])[k]) ensures Shape(e[j]) == Shape(d[j]) {
          NodesOfIncludes(d, Kids(d[i]), i, k, j);
        }
      }
      KidsTextFrame(d, e, Kids(d[i]), i);
    }
  }

  lemma {:induction false} KidsTextFrame(d: Doc, e: Doc, kids: seq<nat>, lb: nat)
    requires Ordered(d) && Ordered(e) && lb < |d| && |d| <= |e|
    requires forall m :: 0 <= m < |kids| ==> lb < kids[m] < |d|
    requires forall m :: 0 <= m < |kids| ==> SameSubtree(d, e, kids[m])
    ensures KidsText(e, kids, lb) == KidsText(d, kids, lb)
    decreases |d| - lb, 0, |kids|
  {
    if kids != [] {
      TextOfFrame(d, e, kids[0]);
      KidsTextFrame(d, e, kids[1..], lb);
    }
  }

  /** The text of a list of children is the text of its parts, in order. */
  lemma {:induction false} KidsTextAppend(d: Doc, a: seq<nat>, b: seq<nat>, lb: nat)
    requires Ordered(d) && lb < |d|
    requires forall m :: 0 <= m < |a| ==> lb < a[m] < |d|
    requires forall m :: 0 <= m < |b| ==> lb < b[m] < |d|
    ensures KidsText(d, a + b, lb) == KidsText(d, a, lb) + KidsText(d, b, lb)
    decreases |a|
  {
    if a == [] {
      assert a + b == b;
    } else {
      assert (a + b)[1..] == a[1..] + b;
      KidsTextAppend(d, a[1..], b, lb);
    }
  }

  /** The markup of a list of children is the markup of its parts, in order. */
  lemma {:induction false} RenderKidsAppend(d: Doc, a: seq<nat>, b: seq<nat>, lb: nat)
    requires Ordered(d) && lb < |d|
    requires forall m :: 0 <= m < |a| ==> lb < a[m] < |d|
    requires forall m :: 0 <= m < |b| ==> lb < b[m] < |d|
    ensures RenderKids(d, a + b, lb) == RenderKids(d, a, lb) + RenderKids(d, b, lb)
    decreases |a|
  {
    if a == [] {
      assert a + b == b;
    } else {
      assert (a + b)[1..] == a[1..] + b;
      RenderKidsAppend(d, a[1..], b, lb);
    }
  }

  /** A larger lower bound does not change the text of a list of children. */
  lemma {:induction false} KidsTextBound(d: Doc, kids: seq<nat>, lb: nat, lb2: nat)
    requires Ordered(d) && lb < |d| && lb2 < |d|
    requires forall m :: 0 <= m < |kids| ==> lb < kids[m] < |d| && lb2 < kids[m]
    ensures KidsText(d, kids, lb) == KidsText(d, kids, lb2)
    decreases |kids|
  {
    if kids != [] {
      KidsTextBound(d, kids[1..], lb, lb2);
    }
  }

  /** The text of every node of d, when the text of p is kept and only p and new nodes differ. */
  lemma {:induction false} TextKept(d: Doc, r: Doc, p: nat, a: nat)
    requires Ordered(d) && Ordered(r) && p < |d| <= |r| && a < |d|
    requires forall j :: 0 <= j < |d| && j != p ==> r[j] == d[j]
    requires TextOf(r, p) == TextOf(d, p)
    ensures TextOf(r, a) == TextOf(d, a)
    decreases |d| - a, 1
  {
    if a != p && d[a].ElemNode? {
      KidsTextKept(d, r, p, Kids(d[a]), a);
    }
  }

  lemma {:induction false} KidsTextKept(d: Doc, r: Doc, p: nat, kids: seq<nat>, lb: nat)
    requires Ordered(d) && Ordered(r) && p < |d| <= |r| && lb < |d|
    requires forall m :: 0 <= m < |kids| ==> lb < kids[m] < |d|
    requires forall j :: 0 <= j < |d| && j != p ==> r[j] == d[j]
    requires TextOf(r, p) == TextOf(d, p)
    ensures KidsText(r, kids, lb) == KidsText(d, kids, lb)
    decreases |d| - lb, 0, |kids|
  {
    if kids != [] {
      TextKept(d, r, p, kids[0]);
      KidsTextKept(d, r, p, kids[1..], lb);
    }
  }

  /**
   * The text of every node of d other than x, when the text of p is kept,
   * x is a child of p, and only p and x change shape.
   */
  lemma {:induction false} TextKeptBut(d: Doc, r: Doc, p: nat, x: nat, a: nat)
    requires WellFormed(d) && Ordered(r) && p < |d| <= |r| && x < |d| && a < |d| && a != x
    requires d[x].parent == Some(p)
    requires forall j :: 0 <= j < |d| && j != p && j != x ==> Shape(r[j]) == Shape(d[j])
    requires TextOf(r, p) == TextOf(d, p)
    ensures TextOf(r, a) == TextOf(d, a)
    decreases |d| - a, 1
  {
    if a != p {
      assert Shape(r[a]) == Shape(d[a]);
      if d[a].ElemNode? {
        KidsTextKeptBut(d, r, p, x, Kids(d[a]), a);
      }
    }
  }

  lemma {:induction false} KidsTextKeptBut(d: Doc, r: Doc, p: nat, x: nat, kids: seq<nat>, lb: nat)
    requires WellFormed(d) && Ordered(r) && p < |d| <= |r| && x < |d| && lb < |d| && lb != p
    requires forall m :: 0 <= m < |kids| ==> lb < kids[m] < |d| && d[kids[m]].parent == Some(lb)
    requires d[x].parent == Some(p)
    requires forall j :: 0 <= j < |d| && j != p && j != x ==> Shape(r[j]) == Shape(d[j])
    requires TextOf(r, p) == TextOf(d, p)
    ensures KidsText(r, kids, lb) == KidsText(d, kids, lb)
    decreases |d| - lb, 0, |kids|
  {
    if kids != [] {
      TextKeptBut(d, r, p, x, kids[0]);
      KidsTextKeptBut(d, r, p, x, kids[1..], lb);
    }
  }

  /** In document order a node comes after its parent. */
  lemma {:induction false} ParentFirst(d: Doc, i: nat, b: nat) returns (a: nat)
    requires WellFormed(d) && i < |d| && 0 < b < |Nodes(d, i)|
    ensures a < b && d[Nodes(d, i)[b]].parent == Some(Nodes(d, i)[a])
    decreases |d| - i, 1
  {
    var kids := Kids(d[i]);
    assert Nodes(d, i)[b] == NodesOf(d, kids, i)[b - 1];
    var a' := ParentFirstOf(d, kids, i, b - 1);
    a := if a' < 0 then 0 else a' + 1;
  }

  /** In a walk below a list of siblings, a node comes after its parent, or its parent is lb itself (-1). */
  lemma {:induction false} ParentFirstOf(d: Doc, kids: seq<nat>, lb: nat, b: nat) returns (a: int)
    requires WellFormed(d) && lb < |d| && forall m :: 0 <= m < |kids| ==> lb < kids[m] < |d| && d[kids[m]].parent == Some(lb)
    requires b < |NodesOf(d, kids, lb)|
    ensures -1 <= a < b
    ensures a < 0 ==> d[NodesOf(d, kids, lb)[b]].parent == Some(lb)
    ensures 0 <= a ==> d[NodesOf(d, kids, lb)[b]].parent == Some(NodesOf(d, kids, lb)[a])
    decreases |d| - lb, 0, |kids|
  {
    assert kids != [];
    var ns, first, rest := NodesOf(d, kids, lb), Nodes(d, kids[0]), NodesOf(d, kids[1..], lb);
    assert ns == first + rest;
    if b == 0 {
      assert ns[0] == first[0] == kids[0];
      a := -1;
    } else if b < |first| {
      a := ParentFirst(d, kids[0], b);
      assert ns[b] == first[b] && ns[a] == first[a];
    } else {
      var a' := ParentFirstOf(d, kids[1..], lb, b - |first|);
      assert ns[b] == rest[b - |first|];
      if a' < 0 {
        a := -1;
      } else {
        a := a' + |first|;
        assert ns[a] == rest[a'];
      }
    }
  }

  /** Where the b-th of xs stands among the elements of xs. */
  lemma {:induction false} ElemsAt(d: Doc, xs: seq<nat>, b: nat) returns (b': nat)
    requires (forall k :: 0 <= k < |xs| ==> xs[k] < |d|) && b < |xs| && d[xs[b]].ElemNode?
    ensures b' < |ElemsAmong(d, xs)| && ElemsAmong(d, xs)[b'] == xs[b]
    decreases |xs|
  {
    if b == 0 {
      b' := 0;
    } else {
      var tail := ElemsAmong(d, xs[1..]);
      var c := ElemsAt(d, xs[1..], b - 1);
      if d[xs[0]].ElemNode? {
        assert ElemsAmong(d, xs) == [xs[0]] + tail;
        b' := c + 1;
      } else {
        assert ElemsAmong(d, xs) == tail;
        b' := c;
      }
    }
  }

  /** Picking out the elements keeps them in order. */
  lemma {:induction false} ElemsOrder(d: Doc, xs: seq<nat>, a: nat, b: nat) returns (a': nat, b': nat)
    requires (forall k :: 0 <= k < |xs| ==> xs[k] < |d|) && a < b < |xs|
    requires d[xs[a]].ElemNode? && d[xs[b]].ElemNode?
    ensures a' < b' < |ElemsAmong(d, xs)| && ElemsAmong(d, xs)[a'] == xs[a] && ElemsAmong(d, xs)[b'] == xs[b]
    decreases |xs|
  {
    var tail := ElemsAmong(d, xs[1..]);
    if a == 0 {
      var c := ElemsAt(d, xs[1..], b - 1);
      assert ElemsAmong(d, xs) == [xs[0]] + tail;
      a', b' := 0, c + 1;
    } else {
      var c, c' := ElemsOrder(d, xs[1..], a - 1, b - 1);
      if d[xs[0]].ElemNode? {
        assert ElemsAmong(d, xs) == [xs[0]] + tail;
        a', b' := c + 1, c' + 1;
      } else {
        assert ElemsAmong(d, xs) == tail;
        a', b' := c, c';
      }
    }
  }

  /** No two text runs stand next to each other in `ks`. */
  predicate NoAdjacentRuns(d: Doc, ks: seq<nat>)
    requires forall m :: 0 <= m < |ks| ==> ks[m] < |d|
  {
    forall m :: 0 <= m < |ks| - 1 ==> !(d[ks[m]].TextNode? && d[ks[m + 1]].TextNode?)
  }

  /** The elements that have children: a quantity that unwrapping an element lowers. */
  ghost function Parents(d: Doc): set<nat>
  {
    set j | 0 <= j < |d| && Kids(d[j]) != []
  }

  /** The text below a list of children does not see changes at or above `lb`. */
  lemma KidsTextUnchangedAbove(d: Doc, e: Doc, kids: seq<nat>, lb: nat)
    requires Ordered(d) && Ordered(e) && lb < |d| <= |e|
    requires forall j :: lb < j < |d| ==> Shape(e[j]) == Shape(d[j])
    requires forall m :: 0 <= m < |kids| ==> lb < kids[m] < |d|
    ensures KidsText(e, kids, lb) == KidsText(d, kids, lb)
  {
    forall m | 0 <= m < |kids| ensures SameSubtree(d, e, kids[m]) {
    }
    KidsTextFrame(d, e, kids, lb);
  }

  /** Giving element p a new list of children keeps the arena well formed when each new child names p as parent. */
  lemma SetKidsWellFormed(d: Doc, p: nat, ks: seq<nat>)
    requires WellFormed(d) && p < |d| && d[p].ElemNode?
    requires forall m :: 0 <= m < |ks| ==> p < ks[m] < |d| && d[ks[m]].parent == Some(p)
    requires Distinct(ks)
    ensures WellFormed(d[p := d[p].(children := ks)])
  {
    var e := d[p := d[p].(children := ks)];
    forall i, k | 0 <= i < |e| && 0 <= k < |Kids(e[i])| ensures i < Kids(e[i])[k] < |e| && e[Kids(e[i])[k]].parent == Some(i) {
      if i != p {
        assert Kids(e[i]) == Kids(d[i]);
      }
    }
  }

  /** Appending a childless node whose parent link points backwards keeps the arena well formed. */
  lemma AppendWellFormed(d: Doc, n: Node)
    requires WellFormed(d) && Kids(n) == [] && n.parent.Some? && n.parent.value < |d|
    ensures WellFormed(d + [n])
  {
    var e := d + [n];
    forall i, k | 0 <= i < |e| && 0 <= k < |Kids(e[i])| ensures i < Kids(e[i])[k] < |e| && e[Kids(e[i])[k]].parent == Some(i) {
      assert i < |d|;
    }
  }

  /** A parsed page: BeautifulSoup's object, whose tree the ref_diff.py functions rewrite in place. */
  class Soup {
    var nodes: Doc

    ghost predicate Valid()
      reads this
    {
      WellFormed(nodes)
    }

    constructor (d: Doc)
      requires WellFormed(d)
      ensures Valid() && nodes == d
    {
      nodes := d;
    }
  }

  /** Every node reached from the root, other than the root itself, is listed by its parent. */
  lemma DescendantLinked(d: Doc, j: nat)
    requires WellFormed(d) && j in Descendants(d)
    ensures Linked(d, j)
  {
    var all := Nodes(d, 0);
    var xs := all[1..];
    assert j in ElemsAmong(d, xs);
    assert j in all;
    NodesParent(d, 0, j);
  }

  /** a is j or an ancestor of j along the parent links. */
  ghost predicate Above(d: Doc, a: nat, j: nat)
    requires WellFormed(d) && j < |d|
    decreases j
  {
    j == a || (a < j && Above(d, a, d[j].parent.value))
  }

  lemma {:induction false} AboveTrans(d: Doc, a: nat, b: nat, x: nat)
    requires WellFormed(d) && b < |d| && x < |d| && Above(d, a, b) && Above(d, b, x)
    ensures Above(d, a, x)
    decreases x
  {
    if x != b {
      AboveTrans(d, a, b, d[x].parent.value);
    }
  }

  /** The nodes below i all have i among their ancestors. */
  lemma {:induction false} NodesAbove(d: Doc, i: nat, x: nat)
    requires WellFormed(d) && i < |d| && x in Nodes(d, i)
    ensures Above(d, i, x)
    decreases x
  {
    if x != i {
      NodesParent(d, i, x);
      NodesAbove(d, i, d[x].parent.value);
    }
  }

  /** The ancestors of a node form a chain. */
  lemma {:induction false} AboveLinear(d: Doc, a: nat, b: nat, x: nat)
    requires WellFormed(d) && a < |d| && b < |d| && x < |d| && Above(d, a, x) && Above(d, b, x)
    ensures Above(d, a, b) || Above(d, b, a)
    decreases x
  {
    if x != a && x != b {
      AboveLinear(d, a, b, d[x].parent.value);
    }
  }

  /** Two different children of one node have no descendant in common. */
  lemma SiblingsApart(d: Doc, i: nat, a: nat, b: nat, x: nat)
    requires WellFormed(d) && a < |d| && b < |d| && x < |d| && a != b
    requires d[a].parent == Some(i) && d[b].parent == Some(i)
    requires Above(d, a, x)
    ensures !Above(d, b, x)
  {
    if Above(d, b, x) {
      AboveLinear(d, a, b, x);
      assert false;
    }
  }

  lemma DistinctAppend(a: seq<nat>, b: seq<nat>)
    requires Distinct(a) && Distinct(b) && forall x :: x in a ==> x !in b
    ensures Distinct(a + b)
  {
    var s := a + b;
    forall i, j | 0 <= i < j < |s| ensures s[i] != s[j] {
      if i < |a| && j >= |a| {
        assert s[i] in a && s[j] in b;
      }
    }
  }

  /** No node is reached twice in a walk down a well-formed tree. */
  lemma {:induction false} NodesDistinct(d: Doc, i: nat)
    requires WellFormed(d) && i < |d|
    ensures Distinct(Nodes(d, i))
    decreases |d| - i, 1
  {
    var kids := Kids(d[i]);
    NodesOfDistinct(d, kids, i);
    DistinctAppend([i], NodesOf(d, kids, i));
  }

  lemma {:induction false} NodesOfDistinct(d: Doc, kids: seq<nat>, lb: nat)
    requires WellFormed(d) && lb < |d| && forall k :: 0 <= k < |kids| ==> lb < kids[k] < |d|
    requires Distinct(kids) && forall k :: 0 <= k < |kids| ==> d[kids[k]].parent == Some(lb)
    ensures Distinct(NodesOf(d, kids, lb))
    decreases |d| - lb, 0, |kids|
  {
    if kids != [] {
      var rest := kids[1..];
      NodesDistinct(d, kids[0]);
      NodesOfDistinct(d, rest, lb);
      forall x | x in Nodes(d, kids[0]) ensures x !in NodesOf(d, rest, lb) {
        HeadApart(d, kids, lb, x);
      }
      DistinctAppend(Nodes(d, kids[0]), NodesOf(d, rest, lb));
    }
  }

  /** What lies below the first of a list of siblings lies below none of the others. */
  lemma HeadApart(d: Doc, kids: seq<nat>, lb: nat, x: nat)
    requires WellFormed(d) && lb < |d| && |kids| > 0 && forall k :: 0 <= k < |kids| ==> lb < kids[k] < |d|
    requires Distinct(kids) && forall k :: 0 <= k < |kids| ==> d[kids[k]].parent == Some(lb)
    requires x in Nodes(d, kids[0])
    ensures x !in NodesOf(d, kids[1..], lb)
  {
    var rest := kids[1..];
    if x in NodesOf(d, rest, lb) {
      var m := NodesOfMember(d, rest, lb, x);
      NodesAbove(d, kids[0], x);
      NodesAbove(d, rest[m], x);
      assert rest[m] == kids[m + 1];
      SiblingsApart(d, lb, rest[m], kids[0], x);
    }
  }

  lemma {:induction false} ElemsAmongDistinct(d: Doc, xs: seq<nat>)
    requires Distinct(xs) && forall k :: 0 <= k < |xs| ==> xs[k] < |d|
    ensures Distinct(ElemsAmong(d, xs))
    decreases |xs|
  {
    if xs != [] {
      ElemsAmongDistinct(d, xs[1..]);
      var head: seq<nat> := if d[xs[0]].ElemNode? then [xs[0]] else [];
      forall x | x in head ensures x !in ElemsAmong(d, xs[1..]) {
      }
      DistinctAppend(head, ElemsAmong(d, xs[1..]));
    }
  }

  lemma {:induction false} ElemsAmongAppend(d: Doc, a: seq<nat>, b: seq<nat>)
    requires forall k :: 0 <= k < |a| ==> a[k] < |d|
    requires forall k :: 0 <= k < |b| ==> b[k] < |d|
    ensures ElemsAmong(d, a + b) == ElemsAmong(d, a) + ElemsAmong(d, b)
    decreases |a|
  {
    if a == [] {
      assert a + b == b;
    } else {
      assert (a + b)[1..] == a[1..] + b;
      ElemsAmongAppend(d, a[1..], b);
    }
  }

  /** The elements among xs depend only on which of them are elements. */
  lemma {:induction false} ElemsAmongFrame(d: Doc, d': Doc, xs: seq<nat>)
    requires forall k :: 0 <= k < |xs| ==> xs[k] < |d| && xs[k] < |d'| && (d[xs[k]].ElemNode? <==> d'[xs[k]].ElemNode?)
    ensures ElemsAmong(d, xs) == ElemsAmong(d', xs)
    decreases |xs|
  {
    if xs != [] {
      ElemsAmongFrame(d, d', xs[1..]);
    }
  }

  /** find_all reports each element once. */
  lemma DescendantsDistinct(d: Doc)
    requires WellFormed(d)
    ensures Distinct(Descendants(d))
  {
    NodesDistinct(d, 0);
    var all := Nodes(d, 0);
    assert forall a, b :: 0 <= a < b < |all| - 1 ==> all[1..][a] == all[a + 1] && all[1..][b] == all[b + 1];
    ElemsAmongDistinct(d, all[1..]);
  }
}
