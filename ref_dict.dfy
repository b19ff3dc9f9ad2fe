/**
 * unwrap and generate_ref_dict of ref_diff.py: each comment marker of the old
 * page is replaced by one string made of the string before it, its own text
 * and the string after it, and the pieces are recorded so that the marker can
 * later be put back around the same text.
 */
module RefDict {
  import opened Wrappers
  import opened Text
  import opened Markup
  import opened RefTree

  /** A marker that unwrap accepts: at most one child, and that child a string. */
  predicate Wraps(d: Doc, e: nat)
    requires Ordered(d) && e < |d|
  {
    |Kids(d[e])| <= 1 && (Kids(d[e]) != [] ==> d[Kids(d[e])[0]].TextNode?)
  }

  /** The text of a marker unwrap accepts: its one string, or nothing. */
  function CommentText(d: Doc, c: nat): string
    requires Ordered(d) && c < |d| && Wraps(d, c)
  {
    if Kids(d[c]) == [] then "" else d[Kids(d[c])[0]].text
  }

  /** The position of a linked node among its parent's children. */
  function Place(d: Doc, e: nat): (k: nat)
    requires WellFormed(d) && Linked(d, e)
    ensures k < |Kids(d[ParentOf(d, e)])| && Kids(d[ParentOf(d, e)])[k] == e
  {
    IndexOf(Kids(d[ParentOf(d, e)]), e)
  }

  /** The k-th of the children ks when it is a string. */
  function RunAt(d: Doc, ks: seq<nat>, k: int): (r: Option<nat>)
    requires forall m :: 0 <= m < |ks| ==> ks[m] < |d|
    ensures r.Some? <==> 0 <= k < |ks| && d[ks[k]].TextNode?
    ensures r.Some? ==> r.value == ks[k]
  {
    if 0 <= k < |ks| && d[ks[k]].TextNode? then Some(ks[k]) else None
  }

  /** The text of an optional string: '' when there is none. */
  function RunText(d: Doc, o: Option<nat>): string
    requires o.Some? ==> o.value < |d| && d[o.value].TextNode?
  {
    if o.Some? then d[o.value].text else ""
  }

  /** The slice [Lo, Hi) of the children that unwrap of the k-th child replaces: the child and the strings on either side of it. */
  function Lo(d: Doc, ks: seq<nat>, k: nat): (lo: nat)
    requires k < |ks| && forall m :: 0 <= m < |ks| ==> ks[m] < |d|
    ensures lo <= k
  {
    if RunAt(d, ks, k - 1).Some? then k - 1 else k
  }

  function Hi(d: Doc, ks: seq<nat>, k: nat): (hi: nat)
    requires k < |ks| && forall m :: 0 <= m < |ks| ==> ks[m] < |d|
    ensures k < hi <= |ks|
  {
    if RunAt(d, ks, k + 1).Some? then k + 2 else k + 1
  }

  /** The text the new string gets when the k-th child of p is unwrapped. */
  function MergedText(d: Doc, p: nat, k: nat): string
    requires Ordered(d) && p < |d| && k < |Kids(d[p])| && Wraps(d, Kids(d[p])[k])
  {
    var ks := Kids(d[p]);
    RunText(d, RunAt(d, ks, k - 1)) + CommentText(d, ks[k]) + RunText(d, RunAt(d, ks, k + 1))
  }

  /**
   * The page after unwrap of the k-th child of p: that child and the strings
   * on either side of it give way to one new string holding their text. The
   * replaced nodes stay in the arena, detached.
   */
  function Unwrapped(d: Doc, p: nat, k: nat): (r: Doc)
    requires Ordered(d) && p < |d| && k < |Kids(d[p])| && Wraps(d, Kids(d[p])[k])
    ensures |r| == |d| + 1
  {
    var ks := Kids(d[p]);
    assert forall m :: 0 <= m < |ks| ==> ks[m] < |d|;
    (d + [TextNode(MergedText(d, p, k), Some(p))])[p := d[p].(children := ks[..Lo(d, ks, k)] + [|d|] + ks[Hi(d, ks, k)..])]
  }

  /** previous_sibling and next_sibling of a linked e when they are strings. */
  function PrevRun(d: Doc, e: nat): (r: Option<nat>)
    requires WellFormed(d) && Linked(d, e)
  {
    var ks := Kids(d[ParentOf(d, e)]);
    assert forall m :: 0 <= m < |ks| ==> ks[m] < |d|;
    RunAt(d, ks, Place(d, e) - 1)
  }

  function NextRun(d: Doc, e: nat): (r: Option<nat>)
    requires WellFormed(d) && Linked(d, e)
  {
    var ks := Kids(d[ParentOf(d, e)]);
    assert forall m :: 0 <= m < |ks| ==> ks[m] < |d|;
    RunAt(d, ks, Place(d, e) + 1)
  }

  /** The page after unwrap(e). */
  function UnwrapDoc(d: Doc, e: nat): (r: Doc)
    requires WellFormed(d) && Linked(d, e) && d[e].ElemNode? && Wraps(d, e)
    ensures |r| == |d| + 1
  {
    Unwrapped(d, ParentOf(d, e), Place(d, e))
  }

  lemma UnwrapAt(d: Doc, p: nat, k: nat)
    requires Ordered(d) && p < |d| && d[p].ElemNode? && k < |Kids(d[p])| && Wraps(d, Kids(d[p])[k])
    ensures var r, ks := Unwrapped(d, p, k), Kids(d[p]);
      && r[p] == d[p].(children := ks[..Lo(d, ks, k)] + [|d|] + ks[Hi(d, ks, k)..])
      && r[|d|] == TextNode(MergedText(d, p, k), Some(p))
      && forall j :: 0 <= j < |d| && j != p ==> r[j] == d[j]
  {
  }

  /** Cutting the slice [lo, hi) out of a duplicate-free list and putting a new value n in its place. */
  lemma SpliceOut(ks: seq<nat>, lo: nat, hi: nat, n: nat)
    requires lo <= hi <= |ks| && Distinct(ks) && n !in ks
    ensures var nk := ks[..lo] + [n] + ks[hi..];
      && Distinct(nk)
      && (forall m :: 0 <= m < |nk| ==> nk[m] == n || (nk[m] in ks && nk[m] !in ks[lo..hi]))
  {
    var nk := ks[..lo] + [n] + ks[hi..];
    forall m | 0 <= m < |nk| ensures nk[m] == n || (nk[m] in ks && nk[m] !in ks[lo..hi]) {
      if m != lo {
        var i := if m < lo then m else hi + m - lo - 1;
        assert nk[m] == ks[i];
      }
    }
    forall a, b | 0 <= a < b < |nk| ensures nk[a] != nk[b] {
      var ia := if a < lo then a else hi + a - lo - 1;
      var ib := if b < lo then b else hi + b - lo - 1;
      if a != lo && b != lo {
        assert nk[a] == ks[ia] && nk[b] == ks[ib];
      }
    }
  }

  /**
   * Giving p a new duplicate-free list of children drawn from its old ones
   * and from one new string appended under p keeps the arena well formed.
   */
  lemma GrowWellFormed(d: Doc, r: Doc, p: nat, nk: seq<nat>)
    requires WellFormed(d) && p < |d| && d[p].ElemNode? && |r| == |d| + 1
    requires r[p] == d[p].(children := nk) && r[|d|].TextNode? && r[|d|].parent == Some(p)
    requires forall j :: 0 <= j < |d| && j != p ==> r[j] == d[j]
    requires Distinct(nk) && forall m :: 0 <= m < |nk| ==> nk[m] == |d| || nk[m] in Kids(d[p])
    ensures WellFormed(r)
  {
    forall i, k | 0 <= i < |r| && 0 <= k < |Kids(r[i])| ensures i < Kids(r[i])[k] < |r| && r[Kids(r[i])[k]].parent == Some(i) {
      var c := Kids(r[i])[k];
      if i == p {
        if c != |d| {
          var b :| 0 <= b < |Kids(d[p])| && Kids(d[p])[b] == c;
        }
      } else {
        assert i < |d| && Kids(r[i]) == Kids(d[i]);
      }
    }
    forall i | 0 <= i < |r| ensures Distinct(Kids(r[i])) {
      if i != p && i < |d| {
        assert Kids(r[i]) == Kids(d[i]);
      }
    }
  }

  /** What lies outside the cut slice stays in the list. */
  lemma SpliceKeeps(ks: seq<nat>, lo: nat, hi: nat, n: nat, m: nat)
    requires lo <= hi <= |ks| && m < |ks| && !(lo <= m < hi)
    ensures ks[m] in ks[..lo] + [n] + ks[hi..]
  {
    var nk := ks[..lo] + [n] + ks[hi..];
    if m < lo {
      assert nk[m] == ks[m];
    } else {
      assert nk[m - hi + lo + 1] == ks[m];
    }
  }

  /** unwrap keeps the arena well formed. */
  lemma UnwrappedWellFormed(d: Doc, p: nat, k: nat)
    requires WellFormed(d) && p < |d| && d[p].ElemNode? && k < |Kids(d[p])| && Wraps(d, Kids(d[p])[k])
    ensures WellFormed(Unwrapped(d, p, k))
  {
    var ks := Kids(d[p]);
    assert |d| !in ks by {
      assert forall m :: 0 <= m < |ks| ==> ks[m] < |d|;
    }
    UnwrapAt(d, p, k);
    SpliceOut(ks, Lo(d, ks, k), Hi(d, ks, k), |d|);
    GrowWellFormed(d, Unwrapped(d, p, k), p, ks[..Lo(d, ks, k)] + [|d|] + ks[Hi(d, ks, k)..]);
  }

  /** The text of a list of children is the text of its three slices. */
  lemma KidsTextSplit(d: Doc, ks: seq<nat>, lo: nat, hi: nat, lb: nat)
    requires Ordered(d) && lb < |d| && lo <= hi <= |ks|
    requires forall m :: 0 <= m < |ks| ==> lb < ks[m] < |d|
    ensures KidsText(d, ks, lb) == KidsText(d, ks[..lo], lb) + KidsText(d, ks[lo..hi], lb) + KidsText(d, ks[hi..], lb)
  {
    var a, b, c := ks[..lo], ks[lo..hi], ks[hi..];
    assert ks == a + b + c;
    assert forall m :: 0 <= m < |a| ==> a[m] == ks[m];
    assert forall m :: 0 <= m < |b| ==> b[m] == ks[lo + m];
    assert forall m :: 0 <= m < |c| ==> c[m] == ks[hi + m];
    KidsText3(d, a, b, c, lb);
  }

  /** The text a marker unwrap accepts holds is its one string. */
  lemma CommentTextIsText(d: Doc, c: nat)
    requires Ordered(d) && c < |d| && d[c].ElemNode? && Wraps(d, c)
    ensures TextOf(d, c) == CommentText(d, c)
  {
    TextOfElem(d, c);
    if Kids(d[c]) != [] {
      KidsTextSingle(d, Kids(d[c])[0], c);
      assert Kids(d[c]) == [Kids(d[c])[0]];
    }
  }

  /** An optional node as a list of at most one. */
  function OptSeq(o: Option<nat>): (r: seq<nat>)
    ensures |r| <= 1 && (o.Some? ==> r == [o.value]) && (o.None? ==> r == [])
  {
    if o.Some? then [o.value] else []
  }

  /** The replaced slice is the child and the strings on either side of it. */
  lemma SliceAround(d: Doc, ks: seq<nat>, k: nat)
    requires k < |ks| && forall m :: 0 <= m < |ks| ==> ks[m] < |d|
    ensures ks[Lo(d, ks, k)..Hi(d, ks, k)] == OptSeq(RunAt(d, ks, k - 1)) + [ks[k]] + OptSeq(RunAt(d, ks, k + 1))
  {
    var lo, hi := Lo(d, ks, k), Hi(d, ks, k);
    var s := ks[lo..hi];
    var t := OptSeq(RunAt(d, ks, k - 1)) + [ks[k]] + OptSeq(RunAt(d, ks, k + 1));
    assert |s| == |t|;
    forall m | 0 <= m < |s| ensures s[m] == t[m] {
      assert s[m] == ks[lo + m];
    }
  }

  lemma OptText(d: Doc, o: Option<nat>, lb: nat)
    requires Ordered(d) && lb < |d| && (o.Some? ==> lb < o.value < |d| && d[o.value].TextNode?)
    ensures KidsText(d, OptSeq(o), lb) == RunText(d, o)
  {
    if o.Some? {
      KidsTextSingle(d, o.value, lb);
    }
  }

  /** The text of a node with an optional string on either side. */
  lemma AroundText(d: Doc, s: seq<nat>, a: Option<nat>, x: nat, c: Option<nat>, lb: nat, mid: string)
    requires Ordered(d) && lb < x < |d| && TextOf(d, x) == mid && s == OptSeq(a) + [x] + OptSeq(c)
    requires a.Some? ==> lb < a.value < |d| && d[a.value].TextNode?
    requires c.Some? ==> lb < c.value < |d| && d[c.value].TextNode?
    ensures forall m :: 0 <= m < |s| ==> lb < s[m] < |d|
    ensures KidsText(d, s, lb) == RunText(d, a) + mid + RunText(d, c)
  {
    KidsText3(d, OptSeq(a), [x], OptSeq(c), lb);
    OptText(d, a, lb);
    OptText(d, c, lb);
    KidsTextSingle(d, x, lb);
  }

  /** The replaced slice of a list of children holds the text of the new string. */
  lemma SliceText(d: Doc, ks: seq<nat>, k: nat, p: nat)
    requires Ordered(d) && p < |d| && k < |ks| && forall m :: 0 <= m < |ks| ==> p < ks[m] < |d|
    requires Wraps(d, ks[k]) && d[ks[k]].ElemNode?
    ensures KidsText(d, ks[Lo(d, ks, k)..Hi(d, ks, k)], p)
      == RunText(d, RunAt(d, ks, k - 1)) + CommentText(d, ks[k]) + RunText(d, RunAt(d, ks, k + 1))
  {
    var s := ks[Lo(d, ks, k)..Hi(d, ks, k)];
    var a, c, x := RunAt(d, ks, k - 1), RunAt(d, ks, k + 1), ks[k];
    SliceAround(d, ks, k);
    CommentTextIsText(d, x);
    AroundText(d, s, a, x, c, p, CommentText(d, x));
  }

  /** The replaced slice of p's children holds the text of the new string. */
  lemma ReplacedText(d: Doc, p: nat, k: nat)
    requires Ordered(d) && p < |d| && d[p].ElemNode? && k < |Kids(d[p])| && Wraps(d, Kids(d[p])[k])
    requires d[Kids(d[p])[k]].ElemNode?
    ensures var ks := Kids(d[p]);
      (forall m :: 0 <= m < |ks| ==> p < ks[m] < |d|)
      && KidsText(d, ks[Lo(d, ks, k)..Hi(d, ks, k)], p) == MergedText(d, p, k)
  {
    var ks := Kids(d[p]);
    assert forall m :: 0 <= m < |ks| ==> p < ks[m] < |d|;
    SliceText(d, ks, k, p);
  }

  /** Replacing a slice of children by one node with the slice's text keeps the text of the list. */
  lemma ReplaceSliceText(d: Doc, r: Doc, ks: seq<nat>, nk: seq<nat>, lo: nat, hi: nat, n: nat, lb: nat)
    requires Ordered(d) && Ordered(r) && lb < |d| <= |r| && lo <= hi <= |ks| && lb < n < |r|
    requires forall m :: 0 <= m < |ks| ==> lb < ks[m] < |d|
    requires forall j :: lb < j < |d| ==> Shape(r[j]) == Shape(d[j])
    requires nk == ks[..lo] + [n] + ks[hi..]
    requires TextOf(r, n) == KidsText(d, ks[lo..hi], lb)
    ensures forall m :: 0 <= m < |nk| ==> lb < nk[m] < |r|
    ensures KidsText(r, nk, lb) == KidsText(d, ks, lb)
  {
    var pre, post := ks[..lo], ks[hi..];
    assert forall m :: 0 <= m < |pre| ==> pre[m] == ks[m];
    assert forall m :: 0 <= m < |post| ==> post[m] == ks[hi + m];
    KidsTextSplit(d, ks, lo, hi, lb);
    KidsText3(r, pre, [n], post, lb);
    KidsTextSingle(r, n, lb);
    KidsTextUnchangedAbove(d, r, pre, lb);
    KidsTextUnchangedAbove(d, r, post, lb);
  }

  /** unwrap of the k-th child keeps the text of p. */
  lemma UnwrappedText(d: Doc, p: nat, k: nat)
    requires WellFormed(d) && p < |d| && d[p].ElemNode? && k < |Kids(d[p])| && Wraps(d, Kids(d[p])[k])
    requires d[Kids(d[p])[k]].ElemNode?
    ensures WellFormed(Unwrapped(d, p, k))
    ensures TextOf(Unwrapped(d, p, k), p) == TextOf(d, p)
  {
    UnwrappedWellFormed(d, p, k);
    UnwrappedKeepsText(d, p, k);
  }

  /** The text part of UnwrappedText, where only the order of the arena matters. */
  lemma UnwrappedKeepsText(d: Doc, p: nat, k: nat)
    requires Ordered(d) && p < |d| && d[p].ElemNode? && k < |Kids(d[p])| && Wraps(d, Kids(d[p])[k])
    requires d[Kids(d[p])[k]].ElemNode? && Ordered(Unwrapped(d, p, k))
    ensures TextOf(Unwrapped(d, p, k), p) == TextOf(d, p)
  {
    var r, ks := Unwrapped(d, p, k), Kids(d[p]);
    UnwrapAt(d, p, k);
    ReplacedText(d, p, k);
    ChildrenReplacedText(d, r, p, ks, Lo(d, ks, k), Hi(d, ks, k), MergedText(d, p, k));
  }

  /** Replacing a slice of p's children by a new last string holding the slice's text keeps the text of p. */
  lemma ChildrenReplacedText(d: Doc, r: Doc, p: nat, ks: seq<nat>, lo: nat, hi: nat, t: string)
    requires Ordered(d) && Ordered(r) && p < |d| && |r| == |d| + 1 && d[p].ElemNode? && ks == Kids(d[p])
    requires lo <= hi <= |ks| && forall m :: 0 <= m < |ks| ==> p < ks[m] < |d|
    requires r[p] == d[p].(children := ks[..lo] + [|d|] + ks[hi..]) && r[|d|] == TextNode(t, Some(p))
    requires forall j :: 0 <= j < |d| && j != p ==> r[j] == d[j]
    requires KidsText(d, ks[lo..hi], p) == t
    ensures TextOf(r, p) == TextOf(d, p)
  {
    TextOfElem(d, p);
    TextOfElem(r, p);
    ReplaceSliceText(d, r, ks, Kids(r[p]), lo, hi, |d|, p);
  }

  /**
   * unwrap(e) keeps the text of e's parent, and the new string's text is the
   * string before e, e's own text and the string after e.
   */
  lemma UnwrapText(d: Doc, e: nat)
    requires WellFormed(d) && Linked(d, e) && d[e].ElemNode? && Wraps(d, e)
    ensures WellFormed(UnwrapDoc(d, e))
    ensures TextOf(UnwrapDoc(d, e), ParentOf(d, e)) == TextOf(d, ParentOf(d, e))
    ensures UnwrapDoc(d, e)[|d|].TextNode?
      && UnwrapDoc(d, e)[|d|].text == RunText(d, PrevRun(d, e)) + TextOf(d, e) + RunText(d, NextRun(d, e))
  {
    var p, k := ParentOf(d, e), Place(d, e);
    UnwrappedText(d, p, k);
    UnwrapAt(d, p, k);
    CommentTextIsText(d, e);
  }

  /** A node stays attached when only p's children change and, if p is its parent, it is among them. */
  lemma KeptLinked(d: Doc, r: Doc, p: nat, nk: seq<nat>, x: nat)
    requires Linked(d, x) && d[x].ElemNode? && p < |d| <= |r| && d[p].ElemNode?
    requires r[p] == d[p].(children := nk) && forall j :: 0 <= j < |d| && j != p ==> r[j] == d[j]
    requires d[x].parent == Some(p) ==> x in nk
    ensures Linked(r, x) && r[x].ElemNode? && r[x] == d[x].(children := r[x].children)
  {
  }

  /** unwrap leaves every other element attached, with its name and attributes. */
  lemma UnwrappedLinked(d: Doc, p: nat, k: nat, x: nat)
    requires Ordered(d) && p < |d| && d[p].ElemNode? && k < |Kids(d[p])| && Wraps(d, Kids(d[p])[k])
    requires Linked(d, x) && d[x].ElemNode? && x != Kids(d[p])[k]
    ensures Linked(Unwrapped(d, p, k), x) && Unwrapped(d, p, k)[x] == d[x].(children := Unwrapped(d, p, k)[x].children)
  {
    var ks := Kids(d[p]);
    assert forall m :: 0 <= m < |ks| ==> ks[m] < |d|;
    UnwrapAt(d, p, k);
    if d[x].parent == Some(p) {
      ElemKept(d, ks, k, x);
    }
    KeptLinked(d, Unwrapped(d, p, k), p, ks[..Lo(d, ks, k)] + [|d|] + ks[Hi(d, ks, k)..], x);
  }

  /** An element other than the marker survives the splice of the marker's slice. */
  lemma ElemKept(d: Doc, ks: seq<nat>, k: nat, x: nat)
    requires k < |ks| && forall m :: 0 <= m < |ks| ==> ks[m] < |d|
    requires x in ks && x != ks[k] && d[x].ElemNode?
    ensures x in ks[..Lo(d, ks, k)] + [|d|] + ks[Hi(d, ks, k)..]
  {
    var i :| 0 <= i < |ks| && ks[i] == x;
    SpliceKeeps(ks, Lo(d, ks, k), Hi(d, ks, k), |d|, i);
  }

  lemma SliceBounds(d: Doc, ks: seq<nat>, k: nat, before: Option<nat>, after: Option<nat>, lo: nat, hi: nat)
    requires k < |ks| && forall m :: 0 <= m < |ks| ==> ks[m] < |d|
    requires before == RunAt(d, ks, k - 1) && after == RunAt(d, ks, k + 1)
    requires lo == (if before.Some? then k - 1 else k) && hi == (if after.Some? then k + 2 else k + 1)
    ensures lo == Lo(d, ks, k) && hi == Hi(d, ks, k)
  {
  }

  lemma MergedIs(d: Doc, p: nat, k: nat, before: Option<nat>, after: Option<nat>, content: string)
    requires Ordered(d) && p < |d| && k < |Kids(d[p])| && Wraps(d, Kids(d[p])[k])
    requires forall m :: 0 <= m < |Kids(d[p])| ==> Kids(d[p])[m] < |d|
    requires before == RunAt(d, Kids(d[p]), k - 1) && after == RunAt(d, Kids(d[p]), k + 1)
    requires content == RunText(d, before) + CommentText(d, Kids(d[p])[k]) + RunText(d, after)
    ensures content == MergedText(d, p, k)
  {
  }

  /** The page unwrap builds from the pieces it computes is Unwrapped(d, p, k). */
  lemma BuiltIs(d: Doc, p: nat, k: nat, before: Option<nat>, after: Option<nat>, content: string, lo: nat, hi: nat)
    requires Ordered(d) && p < |d| && d[p].ElemNode? && k < |Kids(d[p])| && Wraps(d, Kids(d[p])[k])
    requires before == RunAt(d, Kids(d[p]), k - 1) && after == RunAt(d, Kids(d[p]), k + 1)
    requires content == RunText(d, before) + CommentText(d, Kids(d[p])[k]) + RunText(d, after)
    requires lo == (if before.Some? then k - 1 else k) && hi == (if after.Some? then k + 2 else k + 1)
    ensures Unwrapped(d, p, k) == (d + [TextNode(content, Some(p))])[p := d[p].(children := Kids(d[p])[..lo] + [|d|] + Kids(d[p])[hi..])]
  {
    var ks := Kids(d[p]);
    assert forall m :: 0 <= m < |ks| ==> ks[m] < |d|;
    SliceBounds(d, ks, k, before, after, lo, hi);
    MergedIs(d, p, k, before, after, content);
    UnwrappedIs(d, p, k, content, lo, hi);
  }

  lemma RunsAt(d: Doc, e: nat, p: nat, k: nat)
    requires WellFormed(d) && Linked(d, e) && p == ParentOf(d, e) && k == Place(d, e)
    requires forall m :: 0 <= m < |Kids(d[p])| ==> Kids(d[p])[m] < |d|
    ensures PrevRun(d, e) == RunAt(d, Kids(d[p]), k - 1) && NextRun(d, e) == RunAt(d, Kids(d[p]), k + 1)
  {
  }

  /** The steps unwrap takes on the marker e build UnwrapDoc(d, e), a well-formed page. */
  lemma UnwrapBuilt(d: Doc, e: nat, p: nat, k: nat, before: Option<nat>, after: Option<nat>, content: string, lo: nat, hi: nat)
    requires WellFormed(d) && Linked(d, e) && d[e].ElemNode? && Wraps(d, e)
    requires p == ParentOf(d, e) && k == Place(d, e)
    requires before == RunAt(d, Kids(d[p]), k - 1) && after == RunAt(d, Kids(d[p]), k + 1)
    requires content == RunText(d, before) + CommentText(d, e) + RunText(d, after)
    requires lo == (if before.Some? then k - 1 else k) && hi == (if after.Some? then k + 2 else k + 1)
    ensures before == PrevRun(d, e) && after == NextRun(d, e)
    ensures WellFormed(UnwrapDoc(d, e)) && TextOf(UnwrapDoc(d, e), p) == TextOf(d, p)
    ensures UnwrapDoc(d, e) == (d + [TextNode(content, Some(p))])[p := d[p].(children := Kids(d[p])[..lo] + [|d|] + Kids(d[p])[hi..])]
  {
    assert forall m :: 0 <= m < |Kids(d[p])| ==> Kids(d[p])[m] < |d|;
    RunsAt(d, e, p, k);
    assert UnwrapDoc(d, e) == Unwrapped(d, p, k);
    BuiltIs(d, p, k, before, after, content, lo, hi);
    UnwrappedText(d, p, k);
  }

  lemma UnwrappedIs(d: Doc, p: nat, k: nat, content: string, lo: nat, hi: nat)
    requires Ordered(d) && p < |d| && d[p].ElemNode? && k < |Kids(d[p])| && Wraps(d, Kids(d[p])[k])
    requires content == MergedText(d, p, k) && lo == Lo(d, Kids(d[p]), k) && hi == Hi(d, Kids(d[p]), k)
    ensures Unwrapped(d, p, k) == (d + [TextNode(content, Some(p))])[p := d[p].(children := Kids(d[p])[..lo] + [|d|] + Kids(d[p])[hi..])]
  {
  }

  /** The pieces unwrap returns: the new string, the string before the marker, the marker, the string after it. */
  datatype Unwrapping = Unwrapping(full: nat, before: Option<nat>, comment: nat, after: Option<nat>)

  /**
   * unwrap(element): refused, leaving the page as it was, when the marker
   * holds more than one node or a node that is not a string; otherwise the
   * marker and the strings on either side of it are replaced by one new
   * string made of their text.
   */
  method Unwrap(bs: Soup, e: nat) returns (r: Result<Unwrapping, string>)
    requires bs.Valid() && Linked(bs.nodes, e) && bs.nodes[e].ElemNode?
    modifies bs
    ensures bs.Valid()
    ensures r.Err? <==> !Wraps(old(bs.nodes), e)
    ensures r.Err? ==> bs.nodes == old(bs.nodes)
    ensures r.Ok? ==> (Wraps(old(bs.nodes), e) && bs.nodes == UnwrapDoc(old(bs.nodes), e)
      && r.value == Unwrapping(|old(bs.nodes)|, PrevRun(old(bs.nodes), e), e, NextRun(old(bs.nodes), e)))
  {
    var d := bs.nodes;
    var children := Kids(d[e]);
    if |children| > 1 {
      return Err("Tag should wrap just one string");
    }
    if |children| == 1 && !d[children[0]].TextNode? {
      return Err("Tag should include only string");
    }
    var p := d[e].parent.value;
    var ks := Kids(d[p]);
    var k := IndexOf(ks, e);
    assert forall m :: 0 <= m < |ks| ==> ks[m] < |d|;
    var before, after := None, None;
    var beforeText, afterText := "", "";
    if k > 0 && d[ks[k - 1]].TextNode? {
      before := Some(ks[k - 1]);
      beforeText := d[ks[k - 1]].text;
    }
    if k + 1 < |ks| && d[ks[k + 1]].TextNode? {
      after := Some(ks[k + 1]);
      afterText := d[ks[k + 1]].text;
    }
    var content := beforeText + CommentText(d, e) + afterText;
    var lo := if before.Some? then k - 1 else k;
    var hi := if after.Some? then k + 2 else k + 1;
    assert before == RunAt(d, ks, k - 1) && after == RunAt(d, ks, k + 1);
    UnwrapBuilt(d, e, p, k, before, after, content, lo, hi);
    bs.nodes := (d + [TextNode(content, Some(p))])[p := d[p].(children := ks[..lo] + [|d|] + ks[hi..])];
    r := Ok(Unwrapping(|d|, before, e, after));
  }

  /** What a comment's 'before' holds: nothing, the string before it, or the record of the previous comment in the same string. */
  datatype Before = NoBefore | BeforeRun(run: nat) | Absorbed(info: RefInfo)

  /** One entry of generate_ref_dict's dictionary, whose key is the string `full`. */
  datatype RefInfo = RefInfo(full: nat, refId: string, before: Before, comment: nat, after: Option<nat>)

  /**
   * A record that describes d: `full` is a string of d whose text is the
   * text of `before`, then the marker's text, then the text of `after`; the
   * marker still holds its one string and carries its id.
   */
  ghost predicate Holds(d: Doc, info: RefInfo)
    requires Ordered(d)
  {
    && info.full < |d| && d[info.full].TextNode?
    && info.comment < |d| && IsMarker(d[info.comment]) && Wraps(d, info.comment)
    && AttrValue(d[info.comment].attrs, RefAttr) == Some(info.refId)
    && (info.after.Some? ==> info.after.value < |d| && d[info.after.value].TextNode?)
    && (match info.before
        case NoBefore => true
        case BeforeRun(run) => run < |d| && d[run].TextNode?
        case Absorbed(i) => Holds(d, i))
    && d[info.full].text == BeforeText(d, info.before) + CommentText(d, info.comment) + RunText(d, info.after)
  }

  /** The text a comment's 'before' stands for. */
  function BeforeText(d: Doc, b: Before): string
    requires b.BeforeRun? ==> b.run < |d| && d[b.run].TextNode?
    requires b.Absorbed? ==> b.info.full < |d| && d[b.info.full].TextNode?
  {
    match b
    case NoBefore => ""
    case BeforeRun(run) => d[run].text
    case Absorbed(info) => d[info.full].text
  }

  /**
   * A record stays true when only the children of p change and nodes are
   * appended, if p has an element child: no node a record names can be p,
   * since a recorded marker holds at most one string.
   */
  lemma {:induction false} HoldsFrame(d: Doc, r: Doc, p: nat, k: nat, info: RefInfo)
    requires Ordered(d) && Ordered(r) && p < |d| <= |r| && d[p].ElemNode?
    requires k < |Kids(d[p])| && d[Kids(d[p])[k]].ElemNode?
    requires forall j :: 0 <= j < |d| && j != p ==> r[j] == d[j]
    requires Holds(d, info)
    ensures Holds(r, info)
    decreases info
  {
    CommentFrame(d, r, p, k, info.comment);
    match info.before
    case NoBefore =>
    case BeforeRun(run) =>
    case Absorbed(i) =>
      HoldsFrame(d, r, p, k, i);
  }

  /** A marker unwrap accepts is not p, and keeps its text when only p changes. */
  lemma CommentFrame(d: Doc, r: Doc, p: nat, k: nat, c: nat)
    requires Ordered(d) && Ordered(r) && p < |d| <= |r| && d[p].ElemNode?
    requires k < |Kids(d[p])| && d[Kids(d[p])[k]].ElemNode?
    requires forall j :: 0 <= j < |d| && j != p ==> r[j] == d[j]
    requires c < |d| && Wraps(d, c)
    ensures c != p && r[c] == d[c] && Wraps(r, c) && CommentText(r, c) == CommentText(d, c)
  {
    assert c != p by {
      if c == p {
        assert false;
      }
    }
    if Kids(d[c]) != [] {
      assert r[Kids(d[c])[0]] == d[Kids(d[c])[0]];
    }
  }

  /** Unwrapping a marker keeps every record true. */
  lemma HoldsKept(d: Doc, p: nat, k: nat, info: RefInfo)
    requires WellFormed(d) && p < |d| && d[p].ElemNode? && k < |Kids(d[p])| && Wraps(d, Kids(d[p])[k])
    requires d[Kids(d[p])[k]].ElemNode? && Holds(d, info)
    ensures WellFormed(Unwrapped(d, p, k)) && Holds(Unwrapped(d, p, k), info)
  {
    UnwrappedWellFormed(d, p, k);
    UnwrapAt(d, p, k);
    HoldsFrame(d, Unwrapped(d, p, k), p, k, info);
  }

  /** How the 'before' of a new record relates to the string before its marker. */
  predicate BeforeFits(b: Before, prev: Option<nat>)
  {
    match b
    case NoBefore => prev.None?
    case BeforeRun(run) => prev == Some(run)
    case Absorbed(i) => prev == Some(i.full)
  }

  /** The record generate_ref_dict makes for a marker it unwraps describes the page after the unwrap. */
  lemma NewHolds(d: Doc, e: nat, id: string, b: Before, after: Option<nat>)
    requires WellFormed(d) && Linked(d, e) && IsMarker(d[e]) && Wraps(d, e)
    requires AttrValue(d[e].attrs, RefAttr) == Some(id)
    requires BeforeFits(b, PrevRun(d, e)) && after == NextRun(d, e)
    requires b.Absorbed? ==> Holds(d, b.info)
    ensures WellFormed(UnwrapDoc(d, e)) && Holds(UnwrapDoc(d, e), RefInfo(|d|, id, b, e, after))
  {
    var p, k := ParentOf(d, e), Place(d, e);
    var r := UnwrapDoc(d, e);
    assert forall m :: 0 <= m < |Kids(d[p])| ==> Kids(d[p])[m] < |d|;
    RunsAt(d, e, p, k);
    assert r == Unwrapped(d, p, k);
    UnwrappedWellFormed(d, p, k);
    UnwrapAt(d, p, k);
    CommentFrame(d, r, p, k, e);
    if b.Absorbed? {
      HoldsFrame(d, r, p, k, b.info);
    }
    assert BeforeText(r, b) == RunText(d, PrevRun(d, e));
    assert RunText(r, after) == RunText(d, after);
  }

  /** Unwrapping a marker keeps every record of a list true. */
  lemma AllHoldKept(d: Doc, e: nat, rs: seq<RefInfo>)
    requires WellFormed(d) && Linked(d, e) && d[e].ElemNode? && Wraps(d, e)
    requires forall x :: x in rs ==> Holds(d, x)
    ensures WellFormed(UnwrapDoc(d, e)) && forall x :: x in rs ==> Holds(UnwrapDoc(d, e), x)
  {
    var p, k := ParentOf(d, e), Place(d, e);
    assert UnwrapDoc(d, e) == Unwrapped(d, p, k);
    UnwrappedWellFormed(d, p, k);
    forall x | x in rs
      ensures Holds(UnwrapDoc(d, e), x)
    {
      HoldsKept(d, p, k, x);
    }
  }

  /** Two elements with the same name and attributes. */
  predicate SameTag(a: Node, b: Node)
  {
    a.ElemNode? && b.ElemNode? && a.name == b.name && a.attrs == b.attrs
  }

  /** Unwrapping a marker leaves every other listed element from position lo on attached, with its name and attributes. */
  lemma AllLinkedKept(d: Doc, e: nat, xs: seq<nat>, lo: nat)
    requires WellFormed(d) && Linked(d, e) && d[e].ElemNode? && Wraps(d, e)
    requires forall j :: lo <= j < |xs| ==> Linked(d, xs[j]) && d[xs[j]].ElemNode? && xs[j] != e
    ensures forall j :: lo <= j < |xs| ==> xs[j] < |d| && Linked(UnwrapDoc(d, e), xs[j]) && SameTag(d[xs[j]], UnwrapDoc(d, e)[xs[j]])
  {
    var p, k := ParentOf(d, e), Place(d, e);
    assert UnwrapDoc(d, e) == Unwrapped(d, p, k);
    forall j | lo <= j < |xs|
      ensures xs[j] < |d| && Linked(UnwrapDoc(d, e), xs[j]) && SameTag(d[xs[j]], UnwrapDoc(d, e)[xs[j]])
    {
      UnwrappedLinked(d, p, k, xs[j]);
    }
  }

  /** The dictionary's keys, the new strings, in the order they were added. */
  predicate KeysAscend(rs: seq<RefInfo>)
  {
    forall a, b :: 0 <= a < b < |rs| ==> rs[a].full < rs[b].full
  }

  /** The position of the record whose key is the string f, if there is one. */
  function KeyIndex(rs: seq<RefInfo>, f: nat): (r: Option<nat>)
    ensures r.Some? ==> r.value < |rs| && rs[r.value].full == f
    ensures r.None? ==> forall m :: 0 <= m < |rs| ==> rs[m].full != f
  {
    if rs == [] then None
    else if rs[0].full == f then Some(0)
    else match KeyIndex(rs[1..], f)
      case None => None
      case Some(m) => Some(m + 1)
  }

  /** Popping a key keeps the other records, in order. */
  lemma PopKeeps(rs: seq<RefInfo>, at: nat)
    requires at < |rs|
    ensures forall m :: 0 <= m < |rs| && m != at ==> rs[m] in rs[..at] + rs[at + 1..]
    ensures forall x :: x in rs[..at] + rs[at + 1..] ==> x in rs
    ensures KeysAscend(rs) ==> KeysAscend(rs[..at] + rs[at + 1..])
  {
    var t := rs[..at] + rs[at + 1..];
    assert forall m :: 0 <= m < |t| ==> t[m] == (if m < at then rs[m] else rs[m + 1]);
    forall m | 0 <= m < |rs| && m != at
      ensures rs[m] in t
    {
      if m < at {
        assert t[m] == rs[m];
      } else {
        assert t[m - 1] == rs[m];
      }
    }
  }

  /**
   * The dictionary after a marker is recorded: when the string before the
   * marker is not empty and is the key of an earlier record, that record is
   * popped and becomes the new record's 'before'; the new record goes in
   * last, under the new string.
   */
  function AddRecord(rs: seq<RefInfo>, d: Doc, id: string, u: Unwrapping): (r: seq<RefInfo>)
    requires u.before.Some? ==> u.before.value < |d| && d[u.before.value].TextNode?
    ensures |r| > 0 && r[|r| - 1] == RefInfo(u.full, id, r[|r| - 1].before, u.comment, u.after)
    ensures BeforeFits(r[|r| - 1].before, u.before)
    ensures r[|r| - 1].before.Absorbed? <==>
      (u.before.Some? && d[u.before.value].text != "" && exists m :: 0 <= m < |rs| && rs[m].full == u.before.value)
    ensures r[|r| - 1].before.Absorbed? ==> r[|r| - 1].before.info in rs
    ensures forall x :: x in r[..|r| - 1] ==> x in rs
    ensures forall x :: x in rs ==> x in r[..|r| - 1] || r[|r| - 1].before == Absorbed(x)
    ensures KeysAscend(rs) ==> KeysAscend(r[..|r| - 1])
  {
    var at := AbsorbedAt(rs, d, u);
    var b := if at.Some? then Absorbed(rs[at.value]) else if u.before.Some? then BeforeRun(u.before.value) else NoBefore;
    var rest := if at.Some? then rs[..at.value] + rs[at.value + 1..] else rs;
    if at.Some? then PopKeeps(rs, at.value); rest + [RefInfo(u.full, id, b, u.comment, u.after)]
    else rest + [RefInfo(u.full, id, b, u.comment, u.after)]
  }

  /** The record a new one absorbs: the one whose key is the non-empty string before the marker. */
  function AbsorbedAt(rs: seq<RefInfo>, d: Doc, u: Unwrapping): (r: Option<nat>)
    requires u.before.Some? ==> u.before.value < |d| && d[u.before.value].TextNode?
    ensures r.Some? <==> u.before.Some? && d[u.before.value].text != "" && exists m :: 0 <= m < |rs| && rs[m].full == u.before.value
    ensures r.Some? ==> r.value < |rs| && rs[r.value].full == u.before.value
  {
    if u.before.Some? && d[u.before.value].text != "" then KeyIndex(rs, u.before.value) else None
  }

  /** A record added under a key above all earlier keys keeps the keys ascending. */
  lemma AddRecordAscends(rs: seq<RefInfo>, d: Doc, id: string, u: Unwrapping)
    requires u.before.Some? ==> u.before.value < |d| && d[u.before.value].TextNode?
    requires KeysAscend(rs) && forall x :: x in rs ==> x.full < u.full
    ensures KeysAscend(AddRecord(rs, d, id, u))
  {
    var t := AddRecord(rs, d, id, u);
    var rest := t[..|t| - 1];
    assert t == rest + [t[|t| - 1]];
    AscendsAppend(rest, t[|t| - 1]);
  }

  /** Appending a record above every key keeps the keys ascending. */
  lemma AscendsAppend(rs: seq<RefInfo>, x: RefInfo)
    requires KeysAscend(rs) && forall y :: y in rs ==> y.full < x.full
    ensures KeysAscend(rs + [x])
  {
    assert forall m :: 0 <= m < |rs| ==> rs[m] in rs;
  }

  /** Recording an unwrapped marker keeps the dictionary's records true and its keys new strings, in ascending order. */
  lemma AddRecordKeeps(n0: nat, d: Doc, e: nat, id: string, rs: seq<RefInfo>)
    requires WellFormed(d) && Linked(d, e) && IsMarker(d[e]) && Wraps(d, e)
    requires AttrValue(d[e].attrs, RefAttr) == Some(id) && n0 <= |d|
    requires KeysAscend(rs) && forall x :: x in rs ==> n0 <= x.full < |d| && Holds(d, x)
    ensures var u := Unwrapping(|d|, PrevRun(d, e), e, NextRun(d, e));
      var r, t := UnwrapDoc(d, e), AddRecord(rs, d, id, u);
      && WellFormed(r) && KeysAscend(t)
      && forall x :: x in t ==> n0 <= x.full < |r| && Holds(r, x)
  {
    var u := Unwrapping(|d|, PrevRun(d, e), e, NextRun(d, e));
    var r, t := UnwrapDoc(d, e), AddRecord(rs, d, id, u);
    AllHoldKept(d, e, rs);
    AddRecordAscends(rs, d, id, u);
    var last := t[|t| - 1];
    NewHolds(d, e, id, last.before, u.after);
    FrontFrom(rs, t);
  }

  /** Every member of t is drawn from rs, except perhaps the last. */
  lemma FrontFrom<T>(rs: seq<T>, t: seq<T>)
    requires |t| > 0 && forall x :: x in t[..|t| - 1] ==> x in rs
    ensures forall x :: x in t ==> x in rs || x == t[|t| - 1]
  {
    forall x | x in t ensures x in rs || x == t[|t| - 1] {
      var m :| 0 <= m < |t| && t[m] == x;
      if m < |t| - 1 {
        assert t[..|t| - 1][m] == x;
      }
    }
  }

  /** The markers a record stands for: its own and those of the record it absorbed, down the chain. */
  function Chain(x: RefInfo): multiset<nat>
    decreases x
  {
    (if x.before.Absorbed? then Chain(x.before.info) else multiset{}) + multiset{x.comment}
  }

  /** The bags f gives the members of rs, added up. */
  function Bags<T>(rs: seq<T>, f: T -> multiset<nat>): multiset<nat>
  {
    if rs == [] then multiset{} else Bags(rs[..|rs| - 1], f) + f(rs[|rs| - 1])
  }

  /** The markers a dictionary stands for, counted with repetition. */
  function Recorded(rs: seq<RefInfo>): multiset<nat>
  {
    Bags(rs, Chain)
  }

  lemma Shuffle(a: multiset<nat>, m: multiset<nat>, b: multiset<nat>)
    ensures a + m + b == (a + b) + m
  {
  }

  /** Taking out the a-th member takes out its bag. */
  lemma {:induction false} PopBags<T>(rs: seq<T>, a: nat, f: T -> multiset<nat>)
    requires a < |rs|
    ensures Bags(rs, f) == Bags(rs[..a] + rs[a + 1..], f) + f(rs[a])
    decreases |rs|
  {
    var n := |rs| - 1;
    var front := rs[..n];
    if a == n {
      assert rs[..a] + rs[a + 1..] == front;
    } else {
      PopBags(front, a, f);
      var popped := rs[..a] + rs[a + 1..];
      assert popped[..|popped| - 1] == front[..a] + front[a + 1..] && popped[|popped| - 1] == rs[n];
      Shuffle(Bags(front[..a] + front[a + 1..], f), f(rs[a]), f(rs[n]));
    }
  }

  /** Recording a marker adds that marker, and only it, to what the dictionary stands for: an absorbed record moves into the new one's chain. */
  lemma AddRecordRecorded(rs: seq<RefInfo>, d: Doc, id: string, u: Unwrapping)
    requires u.before.Some? ==> u.before.value < |d| && d[u.before.value].TextNode?
    ensures Recorded(AddRecord(rs, d, id, u)) == Recorded(rs) + multiset{u.comment}
  {
    var t := AddRecord(rs, d, id, u);
    var last := t[|t| - 1];
    assert Recorded(t) == Recorded(t[..|t| - 1]) + Chain(last);
    match AbsorbedAt(rs, d, u)
    case Some(a) =>
      assert t[..|t| - 1] == rs[..a] + rs[a + 1..] && last.before == Absorbed(rs[a]);
      PopBags(rs, a, Chain);
    case None =>
      assert t[..|t| - 1] == rs && !last.before.Absorbed?;
  }

  /** The markers among xs that unwrap accepts on d, in order. */
  function WrapsAmong(d: Doc, xs: seq<nat>): seq<nat>
    requires Ordered(d) && forall k :: 0 <= k < |xs| ==> xs[k] < |d|
    decreases |xs|
  {
    if xs == [] then []
    else WrapsAmong(d, xs[..|xs| - 1]) + (if Wraps(d, xs[|xs| - 1]) then [xs[|xs| - 1]] else [])
  }

  /** Each marker of a list without repeats that unwrap accepts is picked out once, and nothing else is. */
  lemma {:induction false} WrapsAmongCount(d: Doc, xs: seq<nat>, c: nat)
    requires Ordered(d) && Distinct(xs) && forall k :: 0 <= k < |xs| ==> xs[k] < |d|
    ensures multiset(WrapsAmong(d, xs))[c] == if c in xs && c < |d| && Wraps(d, c) then 1 else 0
    decreases |xs|
  {
    if xs != [] {
      var front, last := xs[..|xs| - 1], xs[|xs| - 1];
      WrapsAmongCount(d, front, c);
      assert xs == front + [last];
      assert last !in front;
    }
  }

  /**
   * The rule generate_ref_dict follows for 'before', down a record's chain:
   * the string before a marker was absorbed exactly when it is not empty and
   * is one the walk itself made (at index n0 or beyond), since every such
   * string still in the page is a key of the dictionary.
   */
  ghost predicate Absorbs(d: Doc, n0: nat, x: RefInfo)
    decreases x
  {
    match x.before
    case NoBefore => true
    case BeforeRun(run) => run < |d| && d[run].TextNode? && (run < n0 || d[run].text == "")
    case Absorbed(i) => n0 <= i.full < |d| && d[i.full].TextNode? && d[i.full].text != "" && Absorbs(d, n0, i)
  }

  /** The rule stays true when strings are left as they are and nodes are appended. */
  lemma {:induction false} AbsorbsFrame(d: Doc, r: Doc, n0: nat, x: RefInfo)
    requires |d| <= |r| && forall j :: 0 <= j < |d| && d[j].TextNode? ==> r[j] == d[j]
    requires Absorbs(d, n0, x)
    ensures Absorbs(r, n0, x)
    decreases x
  {
    if x.before.Absorbed? {
      AbsorbsFrame(d, r, n0, x.before.info);
    }
  }

  /** Every string the walk made that is still in the page is a key of the dictionary. */
  ghost predicate KeysLive(n0: nat, d: Doc, rs: seq<RefInfo>)
  {
    forall j :: n0 <= j < |d| && Linked(d, j) ==> exists m :: 0 <= m < |rs| && rs[m].full == j
  }

  /** The markers still to walk are attached and untouched. */
  ghost predicate Pending(d0: Doc, refs: seq<nat>, i: nat, d: Doc)
    requires forall j :: 0 <= j < |refs| ==> refs[j] < |d0|
  {
    |d0| <= |d| && forall j :: i <= j < |refs| ==> Linked(d, refs[j]) && d[refs[j]] == d0[refs[j]]
  }

  /** Nodes of d0 keep their kind, and the nodes after them are strings. */
  ghost predicate KindsKept(d0: Doc, d: Doc)
  {
    |d0| <= |d| && forall j :: 0 <= j < |d| ==> (d[j].TextNode? <==> |d0| <= j || d0[j].TextNode?)
  }

  /**
   * What generate_ref_dict knows after the first i markers of refs, the
   * markers of the page d0, on the page d with the dictionary rs: the
   * markers still to do are as they were, the ones done carried an id, the
   * text of the page is unchanged, and the records describe d, follow the
   * absorption rule and stand for exactly the markers done that unwrap
   * accepted.
   */
  ghost predicate Walked(d0: Doc, refs: seq<nat>, i: nat, d: Doc, rs: seq<RefInfo>)
  {
    && WellFormed(d0) && refs == Markers(d0) && Distinct(refs)
    && WellFormed(d) && i <= |refs|
    && (forall j :: 0 <= j < |refs| ==> refs[j] < |d0| && IsMarker(d0[refs[j]]))
    && Pending(d0, refs, i, d) && KindsKept(d0, d)
    && (forall j :: 0 <= j < i ==> AttrValue(d0[refs[j]].attrs, RefAttr).Some?)
    && TextOf(d, 0) == TextOf(d0, 0)
    && KeysAscend(rs) && KeysLive(|d0|, d, rs)
    && (forall x :: x in rs ==> |d0| <= x.full < |d| && Holds(d, x) && Absorbs(d, |d0|, x))
    && Recorded(rs) == multiset(WrapsAmong(d0, refs[..i]))
  }

  /** At the start of the walk nothing is done. */
  lemma WalkStarts(d0: Doc)
    requires WellFormed(d0)
    ensures Walked(d0, Markers(d0), 0, d0, [])
  {
    var refs := Markers(d0);
    MarkersFacts(d0);
    forall j | 0 <= j < |refs|
      ensures refs[j] < |d0| && IsMarker(d0[refs[j]]) && Linked(d0, refs[j])
    {
      var x := refs[j];
      assert x in refs;
    }
  }

  /** The marker the walk is at, and whether unwrap accepts it now as it would have on d0. */
  lemma WalkAt(d0: Doc, refs: seq<nat>, i: nat, d: Doc, rs: seq<RefInfo>)
    requires Walked(d0, refs, i, d, rs) && i < |refs|
    ensures Linked(d, refs[i]) && IsMarker(d[refs[i]]) && d[refs[i]] == d0[refs[i]]
    ensures Wraps(d, refs[i]) == Wraps(d0, refs[i])
  {
    var e := refs[i];
    assert Kids(d[e]) == Kids(d0[e]);
    if Kids(d[e]) != [] {
      var c := Kids(d[e])[0];
      assert c < |d0| && (d[c].TextNode? <==> d0[c].TextNode?);
    }
  }

  /** A marker unwrap refuses is passed over. */
  lemma WalkSkips(d0: Doc, refs: seq<nat>, i: nat, d: Doc, rs: seq<RefInfo>)
    requires Walked(d0, refs, i, d, rs) && i < |refs|
    requires AttrValue(d0[refs[i]].attrs, RefAttr).Some? && !Wraps(d0, refs[i])
    ensures Walked(d0, refs, i + 1, d, rs)
  {
    WrapsAmongStep(d0, refs, i);
  }

  lemma WrapsAmongStep(d0: Doc, refs: seq<nat>, i: nat)
    requires Ordered(d0) && i < |refs| && forall k :: 0 <= k < |refs| ==> refs[k] < |d0|
    ensures WrapsAmong(d0, refs[..i + 1]) == WrapsAmong(d0, refs[..i]) + if Wraps(d0, refs[i]) then [refs[i]] else []
  {
    assert refs[..i + 1][..i] == refs[..i];
  }

  /** A marker unwrap accepts is recorded. */
  lemma WalkRecords(d0: Doc, refs: seq<nat>, i: nat, d: Doc, rs: seq<RefInfo>, id: string)
    requires Walked(d0, refs, i, d, rs) && i < |refs|
    requires Wraps(d, refs[i]) && AttrValue(d[refs[i]].attrs, RefAttr) == Some(id)
    ensures var e := refs[i];
      Walked(d0, refs, i + 1, UnwrapDoc(d, e), AddRecord(rs, d, id, Unwrapping(|d|, PrevRun(d, e), e, NextRun(d, e))))
  {
    var e := refs[i];
    var u := Unwrapping(|d|, PrevRun(d, e), e, NextRun(d, e));
    var r, t := UnwrapDoc(d, e), AddRecord(rs, d, id, u);
    WalkAt(d0, refs, i, d, rs);
    WalkPending(d0, refs, i, d, rs);
    WalkKinds(d0, d, e);
    AddRecordKeeps(|d0|, d, e, id, rs);
    WalkText(d0, d, e);
    WalkKeys(|d0|, d, e, id, rs);
    WalkAbsorbs(|d0|, d, e, id, rs);
    AddRecordRecorded(rs, d, id, u);
    WrapsAmongStep(d0, refs, i);
  }

  /** Unwrapping the i-th marker touches none of the markers after it: its parent, if a marker, comes before it. */
  lemma WalkPending(d0: Doc, refs: seq<nat>, i: nat, d: Doc, rs: seq<RefInfo>)
    requires Walked(d0, refs, i, d, rs) && i < |refs| && Wraps(d, refs[i])
    ensures Linked(d, refs[i]) && d[refs[i]].ElemNode?
    ensures Pending(d0, refs, i + 1, UnwrapDoc(d, refs[i]))
  {
    var e := refs[i];
    WalkAt(d0, refs, i, d, rs);
    var p, k := ParentOf(d, e), Place(d, e);
    var r := UnwrapDoc(d, e);
    assert r == Unwrapped(d, p, k);
    UnwrapAt(d, p, k);
    AllLinkedKept(d, e, refs, i + 1);
    forall j | i + 1 <= j < |refs|
      ensures r[refs[j]] == d0[refs[j]]
    {
      if refs[j] == p {
        ParentMarkerFirst(d0, i, j);
      }
    }
  }

  /** Unwrapping changes no node's kind and appends a string. */
  lemma WalkKinds(d0: Doc, d: Doc, e: nat)
    requires WellFormed(d) && Linked(d, e) && d[e].ElemNode? && Wraps(d, e) && KindsKept(d0, d)
    ensures KindsKept(d0, UnwrapDoc(d, e))
  {
    var p, k := ParentOf(d, e), Place(d, e);
    assert UnwrapDoc(d, e) == Unwrapped(d, p, k);
    UnwrapAt(d, p, k);
  }

  /** Unwrapping keeps the text of the whole page. */
  lemma WalkText(d0: Doc, d: Doc, e: nat)
    requires WellFormed(d0) && WellFormed(d) && Linked(d, e) && d[e].ElemNode? && Wraps(d, e)
    requires TextOf(d, 0) == TextOf(d0, 0)
    ensures WellFormed(UnwrapDoc(d, e)) && TextOf(UnwrapDoc(d, e), 0) == TextOf(d0, 0)
  {
    var p, k := ParentOf(d, e), Place(d, e);
    var r := UnwrapDoc(d, e);
    assert r == Unwrapped(d, p, k);
    UnwrapAt(d, p, k);
    UnwrapText(d, e);
    TextKept(d, r, p, 0);
  }

  /** Unwrapping and recording a marker keeps every string the walk made in the page a key. */
  lemma WalkKeys(n0: nat, d: Doc, e: nat, id: string, rs: seq<RefInfo>)
    requires WellFormed(d) && Linked(d, e) && d[e].ElemNode? && Wraps(d, e) && n0 <= |d|
    requires forall j :: n0 <= j < |d| ==> d[j].TextNode?
    requires KeysLive(n0, d, rs)
    ensures var u := Unwrapping(|d|, PrevRun(d, e), e, NextRun(d, e));
      KeysLive(n0, UnwrapDoc(d, e), AddRecord(rs, d, id, u))
  {
    var u := Unwrapping(|d|, PrevRun(d, e), e, NextRun(d, e));
    var r, t := UnwrapDoc(d, e), AddRecord(rs, d, id, u);
    forall j | n0 <= j < |r| && Linked(r, j)
      ensures exists m :: 0 <= m < |t| && t[m].full == j
    {
      if j < |d| {
        StillLinked(d, e, j);
        AddRecordKeys(rs, d, id, u, j);
      } else {
        assert t[|t| - 1].full == j;
      }
    }
  }

  /** A string of d still attached after unwrap(e) was attached before, and is not the string before e. */
  lemma StillLinked(d: Doc, e: nat, j: nat)
    requires WellFormed(d) && Linked(d, e) && d[e].ElemNode? && Wraps(d, e)
    requires j < |d| && d[j].TextNode? && Linked(UnwrapDoc(d, e), j)
    ensures Linked(d, j) && PrevRun(d, e) != Some(j)
  {
    var p, k := ParentOf(d, e), Place(d, e);
    var r := UnwrapDoc(d, e);
    var ks := Kids(d[p]);
    assert forall m :: 0 <= m < |ks| ==> ks[m] < |d|;
    assert r == Unwrapped(d, p, k);
    UnwrapAt(d, p, k);
    RunsAt(d, e, p, k);
    var lo, hi := Lo(d, ks, k), Hi(d, ks, k);
    if r[j].parent.value == p {
      assert j in ks[..lo] + [|d|] + ks[hi..] && j != |d|;
      SpliceOutside(ks, lo, hi, |d|, j);
    }
  }

  /** Every key but the string before the marker stays a key when the marker is recorded. */
  lemma AddRecordKeys(rs: seq<RefInfo>, d: Doc, id: string, u: Unwrapping, f: nat)
    requires u.before.Some? ==> u.before.value < |d| && d[u.before.value].TextNode?
    requires (exists m :: 0 <= m < |rs| && rs[m].full == f) && u.before != Some(f)
    ensures var t := AddRecord(rs, d, id, u); exists m :: 0 <= m < |t| && t[m].full == f
  {
    var t := AddRecord(rs, d, id, u);
    var m :| 0 <= m < |rs| && rs[m].full == f;
    assert rs[m] in rs;
    var a :| 0 <= a < |t| - 1 && t[..|t| - 1][a] == rs[m];
    assert t[a] == rs[m];
  }

  /** A child kept around a spliced slice is a child from outside the slice. */
  lemma SpliceOutside(ks: seq<nat>, lo: nat, hi: nat, n: nat, j: nat)
    requires Distinct(ks) && lo <= hi <= |ks| && j in ks[..lo] + [n] + ks[hi..] && j != n
    ensures j in ks && forall m :: lo <= m < hi ==> ks[m] != j
  {
    if j in ks[..lo] {
      var a :| 0 <= a < lo && ks[a] == j;
    } else {
      assert j in ks[hi..];
      var a :| hi <= a < |ks| && ks[a] == j;
    }
  }

  /** The record made for a marker, and every earlier one, follow the absorption rule on the page after the unwrap. */
  lemma WalkAbsorbs(n0: nat, d: Doc, e: nat, id: string, rs: seq<RefInfo>)
    requires WellFormed(d) && Linked(d, e) && d[e].ElemNode? && Wraps(d, e) && n0 <= |d|
    requires forall j :: n0 <= j < |d| ==> d[j].TextNode?
    requires KeysLive(n0, d, rs)
    requires forall x :: x in rs ==> n0 <= x.full && Absorbs(d, n0, x)
    ensures var u := Unwrapping(|d|, PrevRun(d, e), e, NextRun(d, e));
      forall x :: x in AddRecord(rs, d, id, u) ==> Absorbs(UnwrapDoc(d, e), n0, x)
  {
    var u := Unwrapping(|d|, PrevRun(d, e), e, NextRun(d, e));
    var r, t := UnwrapDoc(d, e), AddRecord(rs, d, id, u);
    var last := t[|t| - 1];
    UnwrapKeepsStrings(d, e);
    NewAbsorbs(n0, d, e, id, rs);
    assert t == t[..|t| - 1] + [last];
    forall x | x in t
      ensures Absorbs(r, n0, x)
    {
      AbsorbsFrame(d, r, n0, x);
    }
  }

  /** Unwrap leaves every string of the page as it was and only appends nodes. */
  lemma UnwrapKeepsStrings(d: Doc, e: nat)
    requires WellFormed(d) && Linked(d, e) && d[e].ElemNode? && Wraps(d, e)
    ensures var r := UnwrapDoc(d, e);
      |d| <= |r| && forall j :: 0 <= j < |d| && d[j].TextNode? ==> r[j] == d[j]
  {
    var p, k := ParentOf(d, e), Place(d, e);
    var ks := Kids(d[p]);
    assert forall m :: 0 <= m < |ks| ==> ks[m] < |d|;
    assert UnwrapDoc(d, e) == Unwrapped(d, p, k);
    UnwrapAt(d, p, k);
  }

  /** The record made for a marker follows the absorption rule on the page before the unwrap. */
  lemma NewAbsorbs(n0: nat, d: Doc, e: nat, id: string, rs: seq<RefInfo>)
    requires WellFormed(d) && Linked(d, e) && d[e].ElemNode? && Wraps(d, e) && n0 <= |d|
    requires KeysLive(n0, d, rs)
    requires forall x :: x in rs ==> n0 <= x.full && Absorbs(d, n0, x)
    ensures var t := AddRecord(rs, d, id, Unwrapping(|d|, PrevRun(d, e), e, NextRun(d, e)));
      Absorbs(d, n0, t[|t| - 1])
  {
    var u := Unwrapping(|d|, PrevRun(d, e), e, NextRun(d, e));
    var t := AddRecord(rs, d, id, u);
    var last := t[|t| - 1];
    if last.before.BeforeRun? {
      var p, k := ParentOf(d, e), Place(d, e);
      var ks := Kids(d[p]);
      assert forall m :: 0 <= m < |ks| ==> ks[m] < |d|;
      RunsAt(d, e, p, k);
      var run := last.before.run;
      assert u.before == Some(run) && run == ks[k - 1];
      assert Linked(d, run);
      assert run < n0 || d[run].text == "";
    }
  }

  /**
   * What generate_ref_dict promises of the dictionary rs it builds while
   * turning the page d0 into d: keys in the order they were made, each
   * record holding on d and following the absorption rule, and each marker
   * of d0 that unwrap accepts standing in exactly one record's chain, with
   * no other node in any.
   */
  ghost predicate RefDictOf(d0: Doc, d: Doc, rs: seq<RefInfo>)
    requires WellFormed(d0) && Ordered(d)
  {
    && KeysAscend(rs)
    && (forall x :: x in rs ==> |d0| <= x.full && Holds(d, x) && Absorbs(d, |d0|, x))
    && (forall c :: (Recorded(rs)[c] == if c in Markers(d0) && c < |d0| && Wraps(d0, c) then 1 else 0))
  }

  /** Some comment marker of the page has no `ac:ref`: generate_ref_dict stops there with a KeyError. */
  predicate MissingRef(d: Doc)
    requires Ordered(d) && |d| > 0
  {
    exists j :: 0 <= j < |Markers(d)| && AttrValue(d[Markers(d)[j]].attrs, RefAttr).None?
  }

  /**
   * generate_ref_dict: every comment marker of the page, in document order,
   * is unwrapped and recorded under the new string; a marker unwrap refuses
   * is skipped; a marker without an id stops the walk with a KeyError.
   * Unwrapping keeps the text of the page; the records stand for each
   * accepted marker exactly once and for no other node.
   */
  method GenerateRefDict(bs: Soup) returns (r: Result<seq<RefInfo>, string>)
    requires bs.Valid()
    modifies bs
    ensures bs.Valid() && |bs.nodes| >= |old(bs.nodes)|
    ensures TextOf(bs.nodes, 0) == TextOf(old(bs.nodes), 0)
    ensures r.Err? <==> MissingRef(old(bs.nodes))
    ensures r.Ok? ==> RefDictOf(old(bs.nodes), bs.nodes, r.value)
  {
    var d0 := bs.nodes;
    var refs := Markers(d0);
    WalkStarts(d0);
    ghost var i, rs;
    r, i, rs := UnwrapMarkers(bs, d0, refs);
    if r.Err? {
      WalkStopped(d0, refs, i, bs.nodes, rs);
    } else {
      WalkDone(d0, refs, bs.nodes, rs);
    }
  }

  /**
   * The loop of generate_ref_dict: the walk over refs up to the first
   * marker without an id (index i), or to the end with the records rs.
   */
  method UnwrapMarkers(bs: Soup, ghost d0: Doc, refs: seq<nat>)
    returns (r: Result<seq<RefInfo>, string>, ghost i: nat, ghost rs: seq<RefInfo>)
    requires bs.Valid() && Walked(d0, refs, 0, bs.nodes, [])
    modifies bs
    ensures bs.Valid() && Walked(d0, refs, i, bs.nodes, rs)
    ensures r.Ok? ==> i == |refs| && r.value == rs
    ensures r.Err? ==> i < |refs| && AttrValue(d0[refs[i]].attrs, RefAttr).None?
  {
    var result: seq<RefInfo> := [];
    rs, i := [], 0;
    for k := 0 to |refs|
      invariant i == k && rs == result && bs.Valid() && Walked(d0, refs, k, bs.nodes, result)
    {
      var stop;
      stop, result := UnwrapOne(bs, d0, refs, k, result);
      if stop {
        return Err("KeyError: " + RefAttr), k, result;
      }
      rs, i := result, k + 1;
    }
    r := Ok(result);
  }

  /**
   * One pass of generate_ref_dict's loop: stop at a marker without an id;
   * otherwise unwrap the marker and, when it wrapped a string, record it.
   */
  method UnwrapOne(bs: Soup, ghost d0: Doc, refs: seq<nat>, k: nat, result: seq<RefInfo>)
    returns (stop: bool, result': seq<RefInfo>)
    requires bs.Valid() && Walked(d0, refs, k, bs.nodes, result) && k < |refs|
    modifies bs
    ensures bs.Valid()
    ensures stop ==> bs.nodes == old(bs.nodes) && result' == result && AttrValue(d0[refs[k]].attrs, RefAttr).None?
    ensures !stop ==> Walked(d0, refs, k + 1, bs.nodes, result')
  {
    var e := refs[k];
    var d := bs.nodes;
    WalkAt(d0, refs, k, d, result);
    var id := AttrValue(d[e].attrs, RefAttr);
    if id.None? {
      return true, result;
    }
    stop := false;
    var u := Unwrap(bs, e);
    if u.Err? {
      WalkSkips(d0, refs, k, d, result);
      result' := result;
    } else {
      WalkRecords(d0, refs, k, d, result, id.value);
      result' := AddRecord(result, d, id.value, u.value);
    }
  }

  /** A walk stopped at a marker without an id: the page keeps its text and an earlier-or-equal marker lacks its id. */
  lemma WalkStopped(d0: Doc, refs: seq<nat>, i: nat, d: Doc, rs: seq<RefInfo>)
    requires Walked(d0, refs, i, d, rs) && i < |refs| && AttrValue(d0[refs[i]].attrs, RefAttr).None?
    ensures |d| >= |d0| && TextOf(d, 0) == TextOf(d0, 0)
    ensures exists j :: 0 <= j < |Markers(d0)| && AttrValue(d0[Markers(d0)[j]].attrs, RefAttr).None?
  {
  }

  /** At the end of the walk the page keeps its text, every marker has an id, and the records stand for each marker unwrap accepted exactly once. */
  lemma WalkDone(d0: Doc, refs: seq<nat>, d: Doc, rs: seq<RefInfo>)
    requires Walked(d0, refs, |refs|, d, rs)
    ensures |d| >= |d0| && TextOf(d, 0) == TextOf(d0, 0)
    ensures !exists j :: 0 <= j < |Markers(d0)| && AttrValue(d0[Markers(d0)[j]].attrs, RefAttr).None?
    ensures RefDictOf(d0, d, rs)
  {
    assert refs[..|refs|] == refs;
    WrapsCounted(d0, refs, Recorded(rs));
  }

  /** A bag equal to the accepted markers of a list without repeats counts each accepted marker once. */
  lemma WrapsCounted(d: Doc, xs: seq<nat>, m: multiset<nat>)
    requires Ordered(d) && Distinct(xs) && (forall k :: 0 <= k < |xs| ==> xs[k] < |d|)
    requires m == multiset(WrapsAmong(d, xs))
    ensures forall c :: (m[c] == if c in xs && c < |d| && Wraps(d, c) then 1 else 0)
  {
    forall c: nat
      ensures m[c] == if c in xs && c < |d| && Wraps(d, c) then 1 else 0
    {
      WrapsAmongCount(d, xs, c);
    }
  }
}
