/**
 * The old page's tree as ref_diff.py rewrites it in place before matching:
 * comment markers that wrap other markers are dissolved (basic_unwrap,
 * remove_outline_resolved), and every remaining marker is merged with the
 * strings beside it into one run (unwrap, generate_ref_dict).
 */
module RefTree {
  import opened Wrappers
  import opened Text
  import opened Markup
  import opened Merging

  function IndexOf(s: seq<nat>, x: nat): (k: nat)
    requires x in s
    ensures k < |s| && s[k] == x
  {
    if s[0] == x then 0 else 1 + IndexOf(s[1..], x)
  }

  /** d with the parent link of each node in xs set to p. */
  function Reparent(d: Doc, xs: seq<nat>, p: nat): (r: Doc)
    ensures |r| == |d|
    ensures forall j :: 0 <= j < |d| ==> r[j] == if j in xs then d[j].(parent := Some(p)) else d[j]
  {
    seq(|d|, j requires 0 <= j < |d| => if j in xs then d[j].(parent := Some(p)) else d[j])
  }

  /** The parent of a linked node, which lists it among its children. */
  function ParentOf(d: Doc, e: nat): (p: nat)
    requires WellFormed(d) && Linked(d, e)
    ensures p < e && d[p].ElemNode? && e in Kids(d[p])
  {
    d[e].parent.value
  }

  /** The children of e's parent once e is replaced by its own children. */
  function SplicedKids(d: Doc, e: nat): (r: seq<nat>)
    requires WellFormed(d) && Linked(d, e)
  {
    var p := ParentOf(d, e);
    var k := IndexOf(Kids(d[p]), e);
    Kids(d[p])[..k] + Kids(d[e]) + Kids(d[p])[k + 1..]
  }

  /**
   * The first half of basic_unwrap (bs4's Tag.unwrap): e's children take its
   * place among its parent's children, and e is left detached and empty. A
   * detached node stays in the arena, unreachable from the root.
   */
  function Dissolve(d: Doc, e: nat): (r: Doc)
    requires WellFormed(d) && Linked(d, e) && d[e].ElemNode?
    ensures |r| == |d|
  {
    var p := ParentOf(d, e);
    Reparent(d, Kids(d[e]), p)[p := d[p].(children := SplicedKids(d, e))][e := d[e].(children := [])]
  }

  lemma DissolveAt(d: Doc, e: nat)
    requires WellFormed(d) && Linked(d, e) && d[e].ElemNode?
    ensures var r, p := Dissolve(d, e), ParentOf(d, e);
      && r[e] == d[e].(children := [])
      && r[p] == d[p].(children := SplicedKids(d, e))
      && forall j :: 0 <= j < |d| && j != p && j != e ==> r[j] == if j in Kids(d[e]) then d[j].(parent := Some(p)) else d[j]
  {
  }

  /**
   * Where r has the same elements as d, the elements among three lists
   * joined are the elements among each of them, in order.
   */
  lemma ElemsOfParts(d: Doc, r: Doc, pre: seq<nat>, mid: seq<nat>, post: seq<nat>)
    requires forall k :: 0 <= k < |pre| ==> pre[k] < |d|
    requires forall k :: 0 <= k < |mid| ==> mid[k] < |d|
    requires forall k :: 0 <= k < |post| ==> post[k] < |d|
    requires |r| == |d| && forall j :: 0 <= j < |d| ==> (r[j].ElemNode? <==> d[j].ElemNode?)
    ensures ElemsAmong(r, pre + mid + post) == ElemsAmong(d, pre) + ElemsAmong(d, mid) + ElemsAmong(d, post)
  {
    ElemsAmongFrame(r, d, pre + mid + post);
    ElemsAmongAppend(d, pre + mid, post);
    ElemsAmongAppend(d, pre, mid);
  }

  /** Dissolving e turns no element into a string and no string into an element. */
  lemma DissolveKinds(d: Doc, e: nat)
    requires WellFormed(d) && Linked(d, e) && d[e].ElemNode?
    ensures forall j :: 0 <= j < |d| ==> (Dissolve(d, e)[j].ElemNode? <==> d[j].ElemNode?)
  {
    var r, p := Dissolve(d, e), ParentOf(d, e);
    DissolveAt(d, e);
    forall j | 0 <= j < |d| ensures r[j].ElemNode? <==> d[j].ElemNode? {
      if j != p && j != e {
        DissolveKids(d, e, j);
      }
    }
  }

  /** Replacing one entry of a duplicate-free list by a duplicate-free list of new values keeps it duplicate-free. */
  lemma SpliceDistinct(ks: seq<nat>, k: nat, ek: seq<nat>)
    requires k < |ks| && Distinct(ks) && Distinct(ek)
    requires forall a, b :: 0 <= a < |ks| && 0 <= b < |ek| ==> ks[a] != ek[b]
    ensures Distinct(ks[..k] + ek + ks[k + 1..])
  {
    var r := ks[..k] + ek + ks[k + 1..];
    forall a, b | 0 <= a < b < |r| ensures r[a] != r[b] {
      var ia := if a < k then a else a - |ek| + 1;
      var ib := if b < k then b else b - |ek| + 1;
      if a < k || a >= k + |ek| {
        assert r[a] == ks[ia];
      } else {
        assert r[a] == ek[a - k];
      }
      if b < k || b >= k + |ek| {
        assert r[b] == ks[ib];
      } else {
        assert r[b] == ek[b - k];
      }
    }
  }

  /** Each entry of a spliced list comes from one of the two lists. */
  lemma SpliceFrom(ks: seq<nat>, k: nat, ek: seq<nat>, m: nat)
    requires k < |ks| && m < |ks[..k] + ek + ks[k + 1..]|
    ensures var r := ks[..k] + ek + ks[k + 1..];
      (m < k && r[m] == ks[m]) || (k <= m < k + |ek| && r[m] == ek[m - k]) || (m >= k + |ek| && r[m] == ks[m - |ek| + 1])
  {
  }

  /** The spliced list: the nodes before e, e's children, the nodes after e; all distinct and all after e's parent. */
  lemma SplicedFacts(d: Doc, e: nat)
    requires WellFormed(d) && Linked(d, e)
    ensures var p, ks := ParentOf(d, e), Kids(d[ParentOf(d, e)]);
      var k := IndexOf(ks, e);
      && SplicedKids(d, e) == ks[..k] + Kids(d[e]) + ks[k + 1..]
      && (forall m :: 0 <= m < |SplicedKids(d, e)| ==> SplicedKids(d, e)[m] != e && p < SplicedKids(d, e)[m] < |d|)
      && Distinct(SplicedKids(d, e))
  {
    var p, ks := ParentOf(d, e), Kids(d[ParentOf(d, e)]);
    var k := IndexOf(ks, e);
    var ek := Kids(d[e]);
    assert Distinct(ks) && Distinct(ek);
    forall a, b | 0 <= a < |ks| && 0 <= b < |ek| ensures ks[a] != ek[b] {
      assert d[ks[a]].parent == Some(p) && d[ek[b]].parent == Some(e);
    }
    SpliceDistinct(ks, k, ek);
    var r := ks[..k] + ek + ks[k + 1..];
    forall m | 0 <= m < |r| ensures r[m] != e && p < r[m] < |d| {
      SpliceFrom(ks, k, ek, m);
    }
  }

  /** Only p, e and e's former children change, and the kids lists of all but p and e stay as they were. */
  lemma DissolveKids(d: Doc, e: nat, i: nat)
    requires WellFormed(d) && Linked(d, e) && d[e].ElemNode? && i < |d|
    ensures var r, p := Dissolve(d, e), ParentOf(d, e);
      && (i == e ==> Kids(r[i]) == [])
      && (i == p ==> Kids(r[i]) == SplicedKids(d, e))
      && (i != p && i != e ==> Kids(r[i]) == Kids(d[i]) && Shape(r[i]) == Shape(d[i]))
  {
    DissolveAt(d, e);
  }

  lemma DissolveParentLinks(d: Doc, e: nat)
    requires WellFormed(d) && Linked(d, e) && d[e].ElemNode?
    ensures var r := Dissolve(d, e);
      forall i :: 0 < i < |r| ==> r[i].parent.Some? && r[i].parent.value < i
  {
    var r, p := Dissolve(d, e), ParentOf(d, e);
    DissolveAt(d, e);
    forall i | 0 < i < |r| ensures r[i].parent.Some? && r[i].parent.value < i {
      if i != p && i != e && i in Kids(d[e]) {
        var k :| 0 <= k < |Kids(d[e])| && Kids(d[e])[k] == i;
        assert e < i;
      }
    }
  }

  lemma DissolveChildLinks(d: Doc, e: nat)
    requires WellFormed(d) && Linked(d, e) && d[e].ElemNode?
    ensures var r := Dissolve(d, e);
      forall i, k :: 0 <= i < |r| && 0 <= k < |Kids(r[i])| ==> i < Kids(r[i])[k] < |r| && r[Kids(r[i])[k]].parent == Some(i)
  {
    var r, p := Dissolve(d, e), ParentOf(d, e);
    var ks, ek := Kids(d[p]), Kids(d[e]);
    var idx := IndexOf(ks, e);
    DissolveAt(d, e);
    SplicedFacts(d, e);
    forall i, k | 0 <= i < |r| && 0 <= k < |Kids(r[i])| ensures i < Kids(r[i])[k] < |r| && r[Kids(r[i])[k]].parent == Some(i) {
      DissolveKids(d, e, i);
      var c := Kids(r[i])[k];
      if i == p {
        SpliceFrom(ks, idx, ek, k);
        if idx <= k < idx + |ek| {
          assert c == ek[k - idx] && d[c].parent == Some(e) && e < c;
        } else {
          var j := if k < idx then k else k - |ek| + 1;
          assert c == ks[j] && d[c].parent == Some(p);
          assert c !in ek;
        }
      } else {
        assert i != e;
        assert d[c].parent == Some(i);
        assert c != e;
        assert c !in ek;
      }
    }
  }

  /** Dissolving a linked element keeps the arena well formed. */
  lemma DissolveWellFormed(d: Doc, e: nat)
    requires WellFormed(d) && Linked(d, e) && d[e].ElemNode?
    ensures WellFormed(Dissolve(d, e))
  {
    var r, p := Dissolve(d, e), ParentOf(d, e);
    DissolveAt(d, e);
    SplicedFacts(d, e);
    DissolveParentLinks(d, e);
    DissolveChildLinks(d, e);
    assert 0 !in Kids(d[e]);
    forall i | 0 <= i < |r| ensures Distinct(Kids(r[i])) {
      DissolveKids(d, e, i);
    }
  }

  /** The subtree under a node x after p other than e contains neither p nor e, so dissolving e leaves it as it was. */
  lemma SubtreeAvoids(d: Doc, r: Doc, e: nat, x: nat)
    requires WellFormed(d) && Linked(d, e) && |r| == |d|
    requires ParentOf(d, e) < x < |d| && x != e
    requires forall j :: 0 <= j < |d| && j != ParentOf(d, e) && j != e ==> Shape(r[j]) == Shape(d[j])
    ensures SameSubtree(d, r, x)
  {
    var p := ParentOf(d, e);
    forall j | j in Nodes(d, x) ensures Shape(r[j]) == Shape(d[j]) {
      if j == e {
        NodesParent(d, x, e);
      }
    }
  }

  lemma KidsTextAvoids(d: Doc, r: Doc, e: nat, xs: seq<nat>)
    requires WellFormed(d) && Linked(d, e) && |r| == |d| && Ordered(r)
    requires forall m :: 0 <= m < |xs| ==> ParentOf(d, e) < xs[m] < |d| && xs[m] != e
    requires forall j :: 0 <= j < |d| && j != ParentOf(d, e) && j != e ==> Shape(r[j]) == Shape(d[j])
    ensures KidsText(r, xs, ParentOf(d, e)) == KidsText(d, xs, ParentOf(d, e))
  {
    forall m | 0 <= m < |xs| ensures SameSubtree(d, r, xs[m]) {
      SubtreeAvoids(d, r, e, xs[m]);
    }
    KidsTextFrame(d, r, xs, ParentOf(d, e));
  }

  /** The text of a list made of three parts. */
  lemma KidsText3(d: Doc, a: seq<nat>, b: seq<nat>, c: seq<nat>, lb: nat)
    requires Ordered(d) && lb < |d|
    requires forall m :: 0 <= m < |a| ==> lb < a[m] < |d|
    requires forall m :: 0 <= m < |b| ==> lb < b[m] < |d|
    requires forall m :: 0 <= m < |c| ==> lb < c[m] < |d|
    ensures KidsText(d, a + b + c, lb) == KidsText(d, a, lb) + KidsText(d, b, lb) + KidsText(d, c, lb)
  {
    KidsTextAppend(d, a + b, c, lb);
    KidsTextAppend(d, a, b, lb);
  }

  lemma TextOfElem(d: Doc, i: nat)
    requires Ordered(d) && i < |d| && d[i].ElemNode?
    ensures TextOf(d, i) == KidsText(d, Kids(d[i]), i)
  {
  }

  lemma KidsTextSingle(d: Doc, x: nat, lb: nat)
    requires Ordered(d) && lb < x < |d|
    ensures KidsText(d, [x], lb) == TextOf(d, x)
  {
    assert [x][1..] == [];
  }

  /** An element's text is the text before its k-th child, that child's text, and the text after it. */
  lemma TextAroundChild(d: Doc, p: nat, k: nat)
    requires Ordered(d) && p < |d| && d[p].ElemNode? && k < |Kids(d[p])|
    ensures var ks := Kids(d[p]);
      TextOf(d, p) == KidsText(d, ks[..k], p) + TextOf(d, ks[k]) + KidsText(d, ks[k + 1..], p)
  {
    var ks := Kids(d[p]);
    var pre, post := ks[..k], ks[k + 1..];
    assert ks == pre + [ks[k]] + post;
    assert forall m :: 0 <= m < |ks| ==> p < ks[m] < |d|;
    assert forall m :: 0 <= m < |pre| ==> pre[m] == ks[m];
    assert forall m :: 0 <= m < |post| ==> post[m] == ks[k + 1 + m];
    TextOfElem(d, p);
    KidsText3(d, pre, [ks[k]], post, p);
    KidsTextSingle(d, ks[k], p);
  }

  /** The three parts of the spliced list: before e, e's children, after e. */
  function Pre(d: Doc, e: nat): (r: seq<nat>)
    requires Ordered(d) && Linked(d, e)
    ensures forall m :: 0 <= m < |r| ==> d[e].parent.value < r[m] < |d|
  {
    var p := d[e].parent.value;
    var ks := Kids(d[p]);
    var i := IndexOf(ks, e);
    assert forall m :: 0 <= m < i ==> ks[..i][m] == ks[m] && p < ks[m] < |d|;
    ks[..i]
  }

  function Post(d: Doc, e: nat): (r: seq<nat>)
    requires Ordered(d) && Linked(d, e)
    ensures forall m :: 0 <= m < |r| ==> d[e].parent.value < r[m] < |d|
  {
    var p := d[e].parent.value;
    var ks := Kids(d[p]);
    var i := IndexOf(ks, e) + 1;
    assert forall m :: 0 <= m < |ks| - i ==> ks[i..][m] == ks[i + m] && p < ks[i + m] < |d|;
    ks[i..]
  }

  lemma PartsBounds(d: Doc, e: nat)
    requires WellFormed(d) && Linked(d, e)
    ensures var p := ParentOf(d, e);
      && SplicedKids(d, e) == Pre(d, e) + Kids(d[e]) + Post(d, e)
      && (forall m :: 0 <= m < |Pre(d, e)| ==> p < Pre(d, e)[m] < |d| && Pre(d, e)[m] != e)
      && (forall m :: 0 <= m < |Kids(d[e])| ==> p < Kids(d[e])[m] < |d| && Kids(d[e])[m] != e)
      && (forall m :: 0 <= m < |Post(d, e)| ==> p < Post(d, e)[m] < |d| && Post(d, e)[m] != e)
  {
    var p, ks := ParentOf(d, e), Kids(d[ParentOf(d, e)]);
    var k := IndexOf(ks, e);
    var pre, ek, post := Pre(d, e), Kids(d[e]), Post(d, e);
    assert pre == ks[..k] && post == ks[k + 1..];
    assert Distinct(ks) && ks[k] == e;
    SlicesAvoid(ks, k, pre, post);
    forall m | 0 <= m < |ek| ensures p < ek[m] < |d| && ek[m] != e {
      assert e < ek[m];
    }
  }

  /** In a list without repeats, the entries before and after position k differ from the one at k. */
  lemma SlicesAvoid(ks: seq<nat>, k: nat, pre: seq<nat>, post: seq<nat>)
    requires Distinct(ks) && k < |ks| && pre == ks[..k] && post == ks[k + 1..]
    ensures forall m :: 0 <= m < |pre| ==> pre[m] != ks[k]
    ensures forall m :: 0 <= m < |post| ==> post[m] != ks[k]
  {
    forall m | 0 <= m < |post| ensures post[m] != ks[k] {
      assert post[m] == ks[k + 1 + m];
    }
  }

  lemma OldSideText(d: Doc, e: nat)
    requires WellFormed(d) && Linked(d, e) && d[e].ElemNode?
    ensures var p := ParentOf(d, e);
      TextOf(d, p) == KidsText(d, Pre(d, e), p) + KidsText(d, Kids(d[e]), p) + KidsText(d, Post(d, e), p)
  {
    var p := ParentOf(d, e);
    PartsBounds(d, e);
    TextAroundChild(d, p, IndexOf(Kids(d[p]), e));
    TextOfElem(d, e);
    KidsTextBound(d, Kids(d[e]), e, p);
  }

  lemma NewSideText(d: Doc, e: nat)
    requires WellFormed(d) && Linked(d, e) && d[e].ElemNode?
    ensures Ordered(Dissolve(d, e))
    ensures var p := ParentOf(d, e);
      TextOf(Dissolve(d, e), p) == KidsText(d, Pre(d, e), p) + KidsText(d, Kids(d[e]), p) + KidsText(d, Post(d, e), p)
  {
    var r, p := Dissolve(d, e), ParentOf(d, e);
    DissolveWellFormed(d, e);
    PartsBounds(d, e);
    DissolveAt(d, e);
    forall j | 0 <= j < |d| && j != p && j != e ensures Shape(r[j]) == Shape(d[j]) {
      DissolveKids(d, e, j);
    }
    TextOfElem(r, p);
    KidsText3(r, Pre(d, e), Kids(d[e]), Post(d, e), p);
    KidsTextAvoids(d, r, e, Pre(d, e));
    KidsTextAvoids(d, r, e, Kids(d[e]));
    KidsTextAvoids(d, r, e, Post(d, e));
  }

  /** Dissolving e keeps the text of its parent. */
  lemma DissolveText(d: Doc, e: nat)
    requires WellFormed(d) && Linked(d, e) && d[e].ElemNode?
    ensures WellFormed(Dissolve(d, e))
    ensures TextOf(Dissolve(d, e), ParentOf(d, e)) == TextOf(d, ParentOf(d, e))
  {
    DissolveWellFormed(d, e);
    OldSideText(d, e);
    NewSideText(d, e);
  }

  /** Merging strings neither empties nor fills any element. */
  lemma MergedParents(d: Doc, p: nat, e: Doc)
    requires WellFormed(d) && p < |d| && MergedFrom(d, p, e)
    ensures Parents(e) == Parents(d)
  {
    forall j | j in Parents(e) ensures j in Parents(d) {
      if j >= |d| {
        assert false;
      }
    }
  }

  /** Dissolving e empties e and fills no element that was empty. */
  lemma DissolveParents(d: Doc, e: nat)
    requires WellFormed(d) && Linked(d, e) && d[e].ElemNode?
    ensures Parents(Dissolve(d, e)) <= Parents(d) - {e}
  {
    var p := ParentOf(d, e);
    forall j | j in Parents(Dissolve(d, e)) ensures j in Parents(d) && j != e {
      DissolveKids(d, e, j);
    }
  }

  /** The names find_all(re.compile('ac:inline-comment-marker')) matches: any tag whose name contains the pattern. */
  predicate IsMarker(n: Node)
  {
    n.ElemNode? && Contains(n.name, MarkerName)
  }

  /** The comment markers of the page, in document order. */
  function Markers(d: Doc): (r: seq<nat>)
    requires Ordered(d) && |d| > 0
    ensures forall k :: 0 <= k < |r| ==> r[k] < |d|
    ensures forall j :: j in r <==> j in Descendants(d) && IsMarker(d[j])
  {
    var ds := Descendants(d);
    assert forall k :: 0 <= k < |ds| ==> ds[k] in ds;
    MarkersAmong(d, ds)
  }

  function MarkersAmong(d: Doc, xs: seq<nat>): (r: seq<nat>)
    requires forall k :: 0 <= k < |xs| ==> xs[k] < |d|
    ensures forall k :: 0 <= k < |r| ==> r[k] < |d|
    ensures forall j :: j in r <==> j in xs && IsMarker(d[j])
  {
    if xs == [] then []
    else (if IsMarker(d[xs[0]]) then [xs[0]] else []) + MarkersAmong(d, xs[1..])
  }

  lemma {:induction false} MarkersAmongDistinct(d: Doc, xs: seq<nat>)
    requires Distinct(xs) && forall k :: 0 <= k < |xs| ==> xs[k] < |d|
    ensures Distinct(MarkersAmong(d, xs))
    decreases |xs|
  {
    if xs != [] {
      MarkersAmongDistinct(d, xs[1..]);
      var head: seq<nat> := if IsMarker(d[xs[0]]) then [xs[0]] else [];
      DistinctAppend(head, MarkersAmong(d, xs[1..]));
    }
  }

  /** Where the b-th of xs stands among the markers of xs. */
  lemma {:induction false} MarkersAt(d: Doc, xs: seq<nat>, b: nat) returns (b': nat)
    requires (forall k :: 0 <= k < |xs| ==> xs[k] < |d|) && b < |xs| && IsMarker(d[xs[b]])
    ensures b' < |MarkersAmong(d, xs)| && MarkersAmong(d, xs)[b'] == xs[b]
    decreases |xs|
  {
    if b == 0 {
      b' := 0;
    } else {
      var tail := MarkersAmong(d, xs[1..]);
      var c := MarkersAt(d, xs[1..], b - 1);
      if IsMarker(d[xs[0]]) {
        assert MarkersAmong(d, xs) == [xs[0]] + tail;
        b' := c + 1;
      } else {
        assert MarkersAmong(d, xs) == tail;
        b' := c;
      }
    }
  }

  /** Picking out the markers keeps them in order. */
  lemma {:induction false} MarkersOrder(d: Doc, xs: seq<nat>, a: nat, b: nat) returns (a': nat, b': nat)
    requires (forall k :: 0 <= k < |xs| ==> xs[k] < |d|) && a < b < |xs|
    requires IsMarker(d[xs[a]]) && IsMarker(d[xs[b]])
    ensures a' < b' < |MarkersAmong(d, xs)| && MarkersAmong(d, xs)[a'] == xs[a] && MarkersAmong(d, xs)[b'] == xs[b]
    decreases |xs|
  {
    var tail := MarkersAmong(d, xs[1..]);
    if a == 0 {
      var c := MarkersAt(d, xs[1..], b - 1);
      assert MarkersAmong(d, xs) == [xs[0]] + tail;
      a', b' := 0, c + 1;
    } else {
      var c, c' := MarkersOrder(d, xs[1..], a - 1, b - 1);
      if IsMarker(d[xs[0]]) {
        assert MarkersAmong(d, xs) == [xs[0]] + tail;
        a', b' := c + 1, c' + 1;
      } else {
        assert MarkersAmong(d, xs) == tail;
        a', b' := c, c';
      }
    }
  }

  /** A marker inside another marker comes after it in find_all's order. */
  lemma ParentMarkerFirst(d: Doc, i: nat, j: nat)
    requires WellFormed(d) && Distinct(Markers(d)) && i < |Markers(d)| && j < |Markers(d)|
    requires d[Markers(d)[i]].parent == Some(Markers(d)[j])
    ensures j < i
  {
    var ms, ds := Markers(d), Descendants(d);
    var e, p := ms[i], ms[j];
    assert e in ms && p in ms;
    var a, b := ParentInWalk(d, e, p);
    var a1, b1 := ElemsOrder(d, Nodes(d, 0)[1..], a, b);
    assert forall k :: 0 <= k < |ds| ==> ds[k] in ds;
    var a2, b2 := MarkersOrder(d, ds, a1, b1);
    assert ms[a2] == p && ms[b2] == e;
  }

  /** Two elements found by find_all, one the other's parent, stand in that order in the walk below the root. */
  lemma ParentInWalk(d: Doc, e: nat, p: nat) returns (a: nat, b: nat)
    requires WellFormed(d) && e in Descendants(d) && p in Descendants(d) && d[e].parent == Some(p)
    ensures a < b < |Nodes(d, 0)| - 1 && Nodes(d, 0)[1..][a] == p && Nodes(d, 0)[1..][b] == e
  {
    var ns := Nodes(d, 0);
    var xs := ns[1..];
    assert e in xs;
    b := IndexOf(xs, e);
    assert ns[b + 1] == xs[b];
    var a' := ParentFirst(d, 0, b + 1);
    assert ns[a'] == p;
    assert ns[0] == 0 < p;
    a := a' - 1;
    assert xs[a] == ns[a'];
  }

  /** Each marker is found once, and each is attached to the tree. */
  lemma MarkersFacts(d: Doc)
    requires WellFormed(d)
    ensures Distinct(Markers(d))
    ensures forall j :: j in Markers(d) ==> Linked(d, j) && d[j].ElemNode?
  {
    var ds := Descendants(d);
    DescendantsDistinct(d);
    assert forall k :: 0 <= k < |ds| ==> ds[k] in ds;
    MarkersAmongDistinct(d, ds);
    forall j | j in Markers(d) ensures Linked(d, j) {
      DescendantLinked(d, j);
    }
  }

  /** A child whose name is exactly the marker's: the outline test of remove_outline_resolved. */
  predicate HasMarkerChild(d: Doc, c: nat)
    requires Ordered(d) && c < |d|
  {
    exists k :: 0 <= k < |Kids(d[c])| && d[Kids(d[c])[k]].ElemNode? && d[Kids(d[c])[k]].name == MarkerName
  }

  /**
   * One pass of remove_outline_resolved's scan: the first marker, in
   * document order, that has a marker among its children.
   */
  method FindOutline(d: Doc, comments: seq<nat>) returns (r: Option<nat>)
    requires Ordered(d) && forall k :: 0 <= k < |comments| ==> comments[k] < |d|
    ensures r.None? ==> forall c :: c in comments ==> !HasMarkerChild(d, c)
    ensures r.Some? ==> exists i :: (0 <= i < |comments| && comments[i] == r.value && HasMarkerChild(d, r.value)
      && forall i' :: 0 <= i' < i ==> !HasMarkerChild(d, comments[i']))
  {
    for i := 0 to |comments|
      invariant forall i' :: 0 <= i' < i ==> !HasMarkerChild(d, comments[i'])
    {
      var c := comments[i];
      var kids := Kids(d[c]);
      for k := 0 to |kids|
        invariant forall k' :: 0 <= k' < k ==> !(d[kids[k']].ElemNode? && d[kids[k']].name == MarkerName)
      {
        if d[kids[k]].ElemNode? && d[kids[k]].name == MarkerName {
          assert HasMarkerChild(d, c);
          assert comments[i] == c;
          return Some(c);
        }
      }
    }
    forall c | c in comments
      ensures !HasMarkerChild(d, c)
    {
      var i :| 0 <= i < |comments| && comments[i] == c;
    }
    return None;
  }

  /**
   * basic_unwrap: e's children take its place under its parent p, and then
   * the strings that have come to stand side by side under p are joined.
   */
  method BasicUnwrap(bs: Soup, e: nat) returns (ghost added: seq<string>, ghost cut: seq<nat>)
    requires bs.Valid() && Linked(bs.nodes, e) && bs.nodes[e].ElemNode?
    modifies bs
    ensures bs.Valid() && WellFormed(Dissolve(old(bs.nodes), e))
    ensures MergedFrom(Dissolve(old(bs.nodes), e), ParentOf(old(bs.nodes), e), bs.nodes)
    ensures var d, p := Dissolve(old(bs.nodes), e), ParentOf(old(bs.nodes), e);
      var es, out := EntriesOf(d, Kids(d[p]), p), EntriesOf(bs.nodes, Kids(bs.nodes[p]), p);
      Segments(es, out, added, |d|, cut) && cut[|out|] == |es| && NoAdjacent(out)
    ensures var p := ParentOf(old(bs.nodes), e);
      && TextOf(bs.nodes, p) == TextOf(old(bs.nodes), p)
      && NoAdjacentRuns(bs.nodes, Kids(bs.nodes[p]))
    ensures var d, p := old(bs.nodes), ParentOf(old(bs.nodes), e);
      ElemsAmong(bs.nodes, Kids(bs.nodes[p])) == ElemsAmong(d, Pre(d, e)) + ElemsAmong(d, Kids(d[e])) + ElemsAmong(d, Post(d, e))
    ensures Parents(bs.nodes) <= Parents(old(bs.nodes)) - {e}
    ensures TextOf(bs.nodes, 0) == TextOf(old(bs.nodes), 0)
  {
    var d := bs.nodes;
    var p := d[e].parent.value;
    PartsBounds(d, e);
    DissolveKinds(d, e);
    ElemsOfParts(d, Dissolve(d, e), Pre(d, e), Kids(d[e]), Post(d, e));
    DissolveAt(d, e);
    DissolveText(d, e);
    DissolveParents(d, e);
    DissolveRootText(d, e);
    var r;
    r, added, cut := MergeRuns(Dissolve(d, e), p);
    MergedParents(Dissolve(d, e), p, r);
    TextKept(Dissolve(d, e), r, p, 0);
    bs.nodes := r;
  }

  /** Dissolving e keeps the text of the whole page. */
  lemma DissolveRootText(d: Doc, e: nat)
    requires WellFormed(d) && Linked(d, e) && d[e].ElemNode?
    ensures Ordered(Dissolve(d, e)) && TextOf(Dissolve(d, e), 0) == TextOf(d, 0)
  {
    var r, p := Dissolve(d, e), ParentOf(d, e);
    DissolveText(d, e);
    forall j | 0 <= j < |d| && j != p && j != e ensures Shape(r[j]) == Shape(d[j]) {
      DissolveKids(d, e, j);
    }
    TextKeptBut(d, r, p, e, 0);
  }

  /** c is the first of d's markers, in document order, with a marker among its children. */
  ghost predicate FirstOutline(d: Doc, c: nat)
    requires WellFormed(d)
  {
    exists i :: 0 <= i < |Markers(d)| && Markers(d)[i] == c && HasMarkerChild(d, c)
      && forall i' :: 0 <= i' < i ==> !HasMarkerChild(d, Markers(d)[i'])
  }

  /** One round of remove_outline_resolved: e is d after basic_unwrap of its first outline marker c. */
  ghost predicate OutlineStep(d: Doc, c: nat, e: Doc)
    requires WellFormed(d)
  {
    && FirstOutline(d, c) && Linked(d, c) && d[c].ElemNode?
    && WellFormed(Dissolve(d, c)) && MergedFrom(Dissolve(d, c), ParentOf(d, c), e)
  }

  /**
   * The pages a run of remove_outline_resolved passes through, and the
   * marker dissolved at each round: each page is the one before it after one
   * round.
   */
  ghost predicate OutlineTrace(trace: seq<Doc>, dissolved: seq<nat>)
    decreases |dissolved|
  {
    && |trace| == |dissolved| + 1 && WellFormed(trace[|dissolved|])
    && (|dissolved| > 0 ==>
      && OutlineTrace(trace[..|dissolved|], dissolved[..|dissolved| - 1])
      && WellFormed(trace[|dissolved| - 1])
      && OutlineStep(trace[|dissolved| - 1], dissolved[|dissolved| - 1], trace[|dissolved|]))
  }

  /** trace and dissolved describe a run of remove_outline_resolved from d0 to d. */
  ghost predicate OutlineRun(d0: Doc, trace: seq<Doc>, dissolved: seq<nat>, d: Doc)
  {
    OutlineTrace(trace, dissolved) && trace[0] == d0 && trace[|dissolved|] == d
  }

  lemma RunExtend(d0: Doc, trace: seq<Doc>, dissolved: seq<nat>, d: Doc, c: nat, e: Doc)
    requires OutlineRun(d0, trace, dissolved, d) && WellFormed(d) && WellFormed(e) && OutlineStep(d, c, e)
    ensures OutlineRun(d0, trace + [e], dissolved + [c], e)
  {
    assert (trace + [e])[..|dissolved| + 1] == trace;
    assert (dissolved + [c])[..|dissolved|] == dissolved;
  }

  /**
   * One round of remove_outline_resolved's loop: find the first marker with
   * a marker child and unwrap it, or report that there is none.
   */
  method OutlineRound(bs: Soup) returns (found: Option<nat>)
    requires bs.Valid()
    modifies bs
    ensures bs.Valid()
    ensures found.None? ==> bs.nodes == old(bs.nodes) && forall c :: c in Markers(bs.nodes) ==> !HasMarkerChild(bs.nodes, c)
    ensures found.Some? ==>
      && OutlineStep(old(bs.nodes), found.value, bs.nodes)
      && Parents(bs.nodes) < Parents(old(bs.nodes))
      && TextOf(bs.nodes, 0) == TextOf(old(bs.nodes), 0)
  {
    found := FindOutline(bs.nodes, Markers(bs.nodes));
    if found.None? {
      return;
    }
    var c := found.value;
    ghost var d := bs.nodes;
    assert c in Markers(d);
    DescendantLinked(d, c);
    assert c in Parents(d);
    assert FirstOutline(d, c);
    ghost var added, cut := BasicUnwrap(bs, c);
  }

  /**
   * remove_outline_resolved: while some marker has a marker child, unwrap
   * the first such marker and scan again. Each unwrap empties an element
   * and fills none, which bounds the number of rounds.
   */
  method RemoveOutlineResolved(bs: Soup) returns (ghost trace: seq<Doc>, ghost dissolved: seq<nat>)
    requires bs.Valid()
    modifies bs
    ensures bs.Valid()
    ensures forall c :: c in Markers(bs.nodes) ==> !HasMarkerChild(bs.nodes, c)
    ensures OutlineRun(old(bs.nodes), trace, dissolved, bs.nodes)
    ensures TextOf(bs.nodes, 0) == TextOf(old(bs.nodes), 0)
  {
    trace, dissolved := [bs.nodes], [];
    while true
      invariant bs.Valid() && OutlineRun(old(bs.nodes), trace, dissolved, bs.nodes)
      invariant TextOf(bs.nodes, 0) == TextOf(old(bs.nodes), 0)
      decreases Parents(bs.nodes)
    {
      ghost var d := bs.nodes;
      var found := OutlineRound(bs);
      if found.None? {
        return;
      }
      RunExtend(old(bs.nodes), trace, dissolved, d, found.value, bs.nodes);
      trace, dissolved := trace + [bs.nodes], dissolved + [found.value];
    }
  }
}
