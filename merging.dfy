/**
 * The second half of basic_unwrap in ref_diff.py: after an element has been
 * dissolved into its parent, adjacent strings among the parent's children are
 * joined into one string each.
 */
module Merging {
  import opened Wrappers
  import opened Text
  import opened Markup

  /** New strings with the given texts, all children of p. */
  function RunNodes(texts: seq<string>, p: nat): (r: seq<Node>)
    ensures |r| == |texts|
    ensures forall f :: 0 <= f < |texts| ==> r[f] == TextNode(texts[f], Some(p))
  {
    if texts == [] then [] else [TextNode(texts[0], Some(p))] + RunNodes(texts[1..], p)
  }

  /** One entry of a children list: the node, whether it is a string, and its text. */
  datatype Entry = Entry(node: nat, run: bool, text: string)

  /** The text of a list of entries. */
  function Joined(es: seq<Entry>): string
  {
    if es == [] then [] else es[0].text + Joined(es[1..])
  }

  lemma {:induction false} JoinedAppend(a: seq<Entry>, b: seq<Entry>)
    ensures Joined(a + b) == Joined(a) + Joined(b)
    decreases |a|
  {
    if a == [] {
      assert a + b == b;
    } else {
      assert (a + b)[1..] == a[1..] + b;
      JoinedAppend(a[1..], b);
    }
  }

  lemma JoinedStep(j: string, es: seq<Entry>, gs: nat, i: nat)
    requires gs <= i < |es| && j + JoinedRange(es, gs, i) == JoinedRange(es, 0, i)
    ensures j + JoinedRange(es, gs, i + 1) == JoinedRange(es, 0, i + 1)
  {
    assert (j + JoinedRange(es, gs, i)) + es[i].text == j + (JoinedRange(es, gs, i) + es[i].text);
  }

  /** The text of the entries es[lo..hi]. */
  function JoinedRange(es: seq<Entry>, lo: nat, hi: nat): string
    requires lo <= hi <= |es|
    decreases hi - lo
  {
    if lo == hi then [] else JoinedRange(es, lo, hi - 1) + es[hi - 1].text
  }

  lemma {:induction false} JoinedRangeAll(es: seq<Entry>, hi: nat)
    requires hi <= |es|
    ensures JoinedRange(es, 0, hi) == Joined(es[..hi])
    decreases hi
  {
    if hi > 0 {
      JoinedRangeAll(es, hi - 1);
      assert es[..hi] == es[..hi - 1] + [es[hi - 1]];
      JoinedAppend(es[..hi - 1], [es[hi - 1]]);
    }
  }

  lemma JoinedWhole(es: seq<Entry>)
    ensures JoinedRange(es, 0, |es|) == Joined(es)
  {
    JoinedRangeAll(es, |es|);
    assert es[..|es|] == es;
  }

  /** The entries of es that are elements, in order. */
  function ElemEntries(es: seq<Entry>): (r: seq<Entry>)
    ensures |r| <= |es|
  {
    if es == [] then [] else (if es[0].run then [] else [es[0]]) + ElemEntries(es[1..])
  }

  lemma {:induction false} ElemEntriesAppend(a: seq<Entry>, b: seq<Entry>)
    ensures ElemEntries(a + b) == ElemEntries(a) + ElemEntries(b)
    decreases |a|
  {
    if a == [] {
      assert a + b == b;
    } else {
      assert (a + b)[1..] == a[1..] + b;
      ElemEntriesAppend(a[1..], b);
    }
  }

  lemma ElemEntriesSnoc(a: seq<Entry>, x: Entry)
    ensures ElemEntries(a + [x]) == ElemEntries(a) + (if x.run then [] else [x])
  {
    ElemEntriesAppend(a, [x]);
    assert [x][1..] == [];
  }

  /** The element entries among es[..hi]. */
  function ElemPrefix(es: seq<Entry>, hi: nat): seq<Entry>
    requires hi <= |es|
  {
    if hi == 0 then [] else ElemPrefix(es, hi - 1) + (if es[hi - 1].run then [] else [es[hi - 1]])
  }

  lemma {:induction false} ElemPrefixAll(es: seq<Entry>, hi: nat)
    requires hi <= |es|
    ensures ElemPrefix(es, hi) == ElemEntries(es[..hi])
    decreases hi
  {
    if hi > 0 {
      ElemPrefixAll(es, hi - 1);
      assert es[..hi] == es[..hi - 1] + [es[hi - 1]];
      ElemEntriesSnoc(es[..hi - 1], es[hi - 1]);
    }
  }

  /** When each entry's flag says whether its node is a string, its elements are the nodes of its element entries. */
  lemma {:induction false} ElemsOfEntries(d: Doc, es: seq<Entry>)
    requires forall m :: 0 <= m < |es| ==> es[m].node < |d| && (es[m].run <==> d[es[m].node].TextNode?)
    ensures ElemsAmong(d, NodesOfEntries(es)) == NodesOfEntries(ElemEntries(es))
    decreases |es|
  {
    if es != [] {
      ElemsOfEntries(d, es[1..]);
      assert NodesOfEntries(es)[1..] == NodesOfEntries(es[1..]);
      if es[0].run {
        assert ElemEntries(es) == ElemEntries(es[1..]);
      } else {
        assert NodesOfEntries(ElemEntries(es)) == [es[0].node] + NodesOfEntries(ElemEntries(es[1..]));
      }
    }
  }

  ghost predicate DistinctNodes(es: seq<Entry>)
  {
    forall a, b :: 0 <= a < b < |es| ==> es[a].node != es[b].node
  }

  predicate NoAdjacent(es: seq<Entry>)
  {
    forall m :: 0 <= m < |es| - 1 ==> !(es[m].run && es[m + 1].run)
  }

  /**
   * Where each entry of a list under construction comes from: an entry below
   * base is es[pos[m]] for some pos[m] < bound, any other is the new string
   * numbered out[m].node, whose text is recorded in added.
   */
  ghost predicate Traced(es: seq<Entry>, out: seq<Entry>, pos: seq<nat>, added: seq<string>, base: nat, bound: nat)
  {
    |pos| == |out| && bound <= |es| &&
    forall m :: 0 <= m < |out| ==> TracedAt(es, out[m], pos[m], added, base, bound)
  }

  ghost predicate TracedAt(es: seq<Entry>, x: Entry, p: nat, added: seq<string>, base: nat, bound: nat)
  {
    if x.node < base then p < bound <= |es| && x == es[p]
    else x.node < base + |added| && x == Entry(x.node, true, added[x.node - base])
  }

  /** The nodes of es are distinct and all below base. */
  ghost predicate Numbered(es: seq<Entry>, base: nat)
  {
    DistinctNodes(es) && forall m :: 0 <= m < |es| ==> es[m].node < base
  }

  /** Each entry of out is one of es or a new string numbered from base on, whose text added records. */
  ghost predicate Origin(es: seq<Entry>, out: seq<Entry>, added: seq<string>, base: nat)
  {
    forall m :: 0 <= m < |out| ==> out[m] in es || (base <= out[m].node < base + |added| && out[m] == Entry(out[m].node, true, added[out[m].node - base]))
  }

  /** What holds of the list under construction: traced, distinct, no two strings adjacent. */
  ghost predicate Sound(es: seq<Entry>, out: seq<Entry>, pos: seq<nat>, added: seq<string>, base: nat, bound: nat)
  {
    Traced(es, out, pos, added, base, bound) && DistinctNodes(out) && NoAdjacent(out)
  }

  predicate EndsInElement(out: seq<Entry>)
  {
    out == [] || !out[|out| - 1].run
  }

  ghost predicate FreshNode(out: seq<Entry>, n: nat)
  {
    forall m :: 0 <= m < |out| ==> out[m].node != n
  }

  lemma Extend(es: seq<Entry>, out: seq<Entry>, pos: seq<nat>, added: seq<string>, base: nat, bound: nat, x: Entry, p: nat, bound': nat)
    requires Sound(es, out, pos, added, base, bound) && bound <= bound' <= |es|
    requires TracedAt(es, x, p, added, base, bound') && FreshNode(out, x.node)
    requires EndsInElement(out) || !x.run
    ensures Sound(es, out + [x], pos + [p], added, base, bound')
  {
    var out', pos' := out + [x], pos + [p];
    forall m | 0 <= m < |out'| ensures TracedAt(es, out'[m], pos'[m], added, base, bound') {
      if m < |out| {
        assert out'[m] == out[m] && pos'[m] == pos[m];
        assert TracedAt(es, out[m], pos[m], added, base, bound);
      }
    }
    forall a, b | 0 <= a < b < |out'| ensures out'[a].node != out'[b].node {
      assert out'[a] == out[a];
      if b < |out| {
        assert out'[b] == out[b];
      }
    }
    forall m | 0 <= m < |out'| - 1 ensures !(out'[m].run && out'[m + 1].run) {
      assert out'[m] == out[m];
      if m + 1 < |out| {
        assert out'[m + 1] == out[m + 1];
      }
    }
  }

  lemma SoundMore(es: seq<Entry>, out: seq<Entry>, pos: seq<nat>, added: seq<string>, base: nat, bound: nat, t: string)
    requires Sound(es, out, pos, added, base, bound)
    ensures Sound(es, out, pos, added + [t], base, bound)
  {
    forall m | 0 <= m < |out| ensures TracedAt(es, out[m], pos[m], added + [t], base, bound) {
      assert TracedAt(es, out[m], pos[m], added, base, bound);
    }
  }

  lemma SoundWiden(es: seq<Entry>, out: seq<Entry>, pos: seq<nat>, added: seq<string>, base: nat, bound: nat, bound': nat)
    requires Sound(es, out, pos, added, base, bound) && bound <= bound' <= |es|
    ensures Sound(es, out, pos, added, base, bound')
  {
    forall m | 0 <= m < |out| ensures TracedAt(es, out[m], pos[m], added, base, bound') {
      assert TracedAt(es, out[m], pos[m], added, base, bound);
    }
  }

  /** Every entry traced to es[..bound] or numbered from base differs in node from es[bound]. */
  lemma FreshOld(es: seq<Entry>, out: seq<Entry>, pos: seq<nat>, added: seq<string>, base: nat, bound: nat)
    requires Numbered(es, base) && Traced(es, out, pos, added, base, bound) && bound < |es|
    ensures FreshNode(out, es[bound].node)
  {
    forall m | 0 <= m < |out| ensures out[m].node != es[bound].node {
      assert TracedAt(es, out[m], pos[m], added, base, bound);
    }
  }

  /** The next new string's number is not used yet. */
  lemma FreshNew(es: seq<Entry>, out: seq<Entry>, pos: seq<nat>, added: seq<string>, base: nat, bound: nat)
    requires Traced(es, out, pos, added, base, bound)
    ensures FreshNode(out, base + |added|)
  {
    forall m | 0 <= m < |out| ensures out[m].node != base + |added| {
      assert TracedAt(es, out[m], pos[m], added, base, bound);
    }
  }

  /**
   * x stands for the block es[lo..hi]: the entry itself when the block has
   * one entry, otherwise a new string numbered from base on that holds the
   * joined text of two or more strings.
   */
  ghost predicate Block(es: seq<Entry>, x: Entry, lo: nat, hi: nat, added: seq<string>, base: nat)
    requires lo < hi <= |es|
  {
    if hi == lo + 1 then x == es[lo]
    else
      && (forall k :: lo <= k < hi ==> es[k].run)
      && base <= x.node < base + |added|
      && x == Entry(x.node, true, JoinedRange(es, lo, hi))
      && added[x.node - base] == x.text
  }

  /** out splits es[..cut[|out|]] into consecutive blocks: out[m] stands for es[cut[m]..cut[m + 1]]. */
  ghost predicate Segments(es: seq<Entry>, out: seq<Entry>, added: seq<string>, base: nat, cut: seq<nat>)
  {
    && |cut| == |out| + 1 && cut[0] == 0 && cut[|out|] <= |es|
    && (forall m :: 0 <= m < |out| ==> BlockAt(es, out, added, base, cut, m))
  }

  /** out[m] stands for the block es[cut[m]..cut[m + 1]]. */
  ghost predicate BlockAt(es: seq<Entry>, out: seq<Entry>, added: seq<string>, base: nat, cut: seq<nat>, m: nat)
    requires |cut| == |out| + 1 && m < |out|
  {
    cut[m] < cut[m + 1] <= |es| && Block(es, out[m], cut[m], cut[m + 1], added, base)
  }

  lemma SegmentsMore(es: seq<Entry>, out: seq<Entry>, added: seq<string>, base: nat, cut: seq<nat>, t: string)
    requires Segments(es, out, added, base, cut)
    ensures Segments(es, out, added + [t], base, cut)
  {
    forall m | 0 <= m < |out| ensures BlockAt(es, out, added + [t], base, cut, m) {
      assert BlockAt(es, out, added, base, cut, m);
    }
  }

  lemma SegmentsExtend(es: seq<Entry>, out: seq<Entry>, added: seq<string>, base: nat, cut: seq<nat>, x: Entry, hi: nat)
    requires Segments(es, out, added, base, cut) && cut[|out|] < hi <= |es|
    requires Block(es, x, cut[|out|], hi, added, base)
    ensures Segments(es, out + [x], added, base, cut + [hi])
  {
    forall m | 0 <= m < |out| ensures BlockAt(es, out + [x], added, base, cut + [hi], m) {
      assert BlockAt(es, out, added, base, cut, m);
      assert (out + [x])[m] == out[m] && (cut + [hi])[m] == cut[m] && (cut + [hi])[m + 1] == cut[m + 1];
    }
    assert BlockAt(es, out + [x], added, base, cut + [hi], |out|);
  }

  /** Appending the element es[i] as a block of its own. */
  lemma SegmentsElement(es: seq<Entry>, out: seq<Entry>, added: seq<string>, base: nat, cut: seq<nat>, i: nat)
    requires Segments(es, out, added, base, cut) && cut[|out|] == i < |es|
    ensures Segments(es, out + [es[i]], added, base, cut + [i + 1])
  {
    SegmentsExtend(es, out, added, base, cut, es[i], i + 1);
  }

  /**
   * Without adjacent strings in out, every string of a segmentation of all
   * of es stands for a maximal run of strings of es: its block holds only
   * strings, the entries just before and after the block are elements (or
   * the ends of the list), and its text is the joined text of the block.
   */
  lemma GroupsMaximal(es: seq<Entry>, out: seq<Entry>, added: seq<string>, base: nat, cut: seq<nat>)
    requires Segments(es, out, added, base, cut) && cut[|out|] == |es| && NoAdjacent(out)
    ensures forall m :: 0 <= m < |out| && out[m].run ==>
      && cut[m] < cut[m + 1] <= |es|
      && (forall k :: cut[m] <= k < cut[m + 1] ==> es[k].run)
      && (cut[m] > 0 ==> !es[cut[m] - 1].run)
      && (cut[m + 1] < |es| ==> !es[cut[m + 1]].run)
      && out[m].text == JoinedRange(es, cut[m], cut[m + 1])
  {
    forall m | 0 <= m < |out| && out[m].run
      ensures cut[m] < cut[m + 1] <= |es|
      ensures forall k :: cut[m] <= k < cut[m + 1] ==> es[k].run
      ensures cut[m] > 0 ==> !es[cut[m] - 1].run
      ensures cut[m + 1] < |es| ==> !es[cut[m + 1]].run
      ensures out[m].text == JoinedRange(es, cut[m], cut[m + 1])
    {
      GroupMaximal(es, out, added, base, cut, m);
    }
  }

  lemma GroupMaximal(es: seq<Entry>, out: seq<Entry>, added: seq<string>, base: nat, cut: seq<nat>, m: nat)
    requires Segments(es, out, added, base, cut) && cut[|out|] == |es| && NoAdjacent(out)
    requires m < |out| && out[m].run
    ensures cut[m] < cut[m + 1] <= |es|
    ensures forall k :: cut[m] <= k < cut[m + 1] ==> es[k].run
    ensures cut[m] > 0 ==> !es[cut[m] - 1].run
    ensures cut[m + 1] < |es| ==> !es[cut[m + 1]].run
    ensures out[m].text == JoinedRange(es, cut[m], cut[m + 1])
  {
    var lo, hi := cut[m], cut[m + 1];
    assert BlockAt(es, out, added, base, cut, m);
    if hi == lo + 1 {
      assert JoinedRange(es, lo, lo + 1) == JoinedRange(es, lo, lo) + es[lo].text;
    }
    if lo > 0 {
      assert m > 0;
      assert BlockAt(es, out, added, base, cut, m - 1);
    }
    if hi < |es| {
      assert m + 1 < |out|;
      assert BlockAt(es, out, added, base, cut, m + 1);
    }
  }

  /**
   * The second half of basic_unwrap on one children list: every group of two
   * or more adjacent strings is replaced by one new string holding their
   * joined text. The new strings are numbered base, base + 1, ... and their
   * texts are returned in that order.
   */
  method GroupRuns(es: seq<Entry>, base: nat) returns (out: seq<Entry>, added: seq<string>, ghost cut: seq<nat>)
    requires Numbered(es, base)
    ensures Segments(es, out, added, base, cut) && cut[|out|] == |es|
    ensures Joined(out) == Joined(es)
    ensures NoAdjacent(out)
    ensures DistinctNodes(out)
    ensures Origin(es, out, added, base)
    ensures ElemEntries(out) == ElemEntries(es)
    ensures es != [] <==> out != []
  {
    out, added, cut := [], [], [0];
    if es == [] {
      return;
    }
    ghost var pos: seq<nat> := [];
    var gs, i := 0, 0;
    while i < |es|
      invariant Grouping(es, base, gs, i, out, pos, added, cut)
    {
      gs, out, added, pos, cut := GroupStep(es, base, gs, i, out, pos, added, cut);
      i := i + 1;
    }
    ElemPrefixAll(es, i);
    assert es[..i] == es;
    out, added, cut := CloseLast(es, gs, out, added, pos, base, cut);
  }

  /**
   * The state of GroupRuns after es[..i]: the strings es[gs..i] wait to be
   * grouped, and out holds everything before them.
   */
  ghost predicate Grouping(es: seq<Entry>, base: nat, gs: nat, i: nat, out: seq<Entry>, pos: seq<nat>, added: seq<string>,
                           cut: seq<nat>)
  {
    && 0 <= gs <= i <= |es|
    && Segments(es, out, added, base, cut) && cut[|out|] == gs
    && (forall k :: gs <= k < i ==> es[k].run)
    && Sound(es, out, pos, added, base, gs) && EndsInElement(out)
    && Joined(out) + JoinedRange(es, gs, i) == JoinedRange(es, 0, i)
    && (i > 0 ==> out != [] || gs < i)
    && ElemEntries(out) == ElemPrefix(es, i)
  }

  /** One step of GroupRuns: an element ends the waiting group, a string joins it. */
  method GroupStep(es: seq<Entry>, base: nat, gs: nat, i: nat, out: seq<Entry>, ghost pos: seq<nat>, added: seq<string>,
                   ghost cut: seq<nat>)
    returns (gs': nat, out': seq<Entry>, added': seq<string>, ghost pos': seq<nat>, ghost cut': seq<nat>)
    requires Numbered(es, base) && i < |es|
    requires Grouping(es, base, gs, i, out, pos, added, cut)
    ensures Grouping(es, base, gs', i + 1, out', pos', added', cut')
  {
    if !es[i].run {
      JoinedStep(Joined(out), es, gs, i);
      out', added', pos', cut' := CloseBefore(es, gs, i, out, added, pos, base, cut);
      gs' := i + 1;
    } else {
      GroupingRun(es, base, gs, i, out, pos, added, cut);
      gs', out', added', pos', cut' := gs, out, added, pos, cut;
    }
  }

  /** A string joins the waiting group. */
  lemma GroupingRun(es: seq<Entry>, base: nat, gs: nat, i: nat, out: seq<Entry>, pos: seq<nat>, added: seq<string>, cut: seq<nat>)
    requires i < |es| && es[i].run
    requires Grouping(es, base, gs, i, out, pos, added, cut)
    ensures Grouping(es, base, gs, i + 1, out, pos, added, cut)
  {
    JoinedStep(Joined(out), es, gs, i);
  }

  /** Ends the last group of strings, after the last element of the list. */
  method CloseLast(es: seq<Entry>, gs: nat, out: seq<Entry>, added: seq<string>, ghost pos: seq<nat>, base: nat,
                   ghost cut: seq<nat>)
    returns (out': seq<Entry>, added': seq<string>, ghost cut': seq<nat>)
    requires Numbered(es, base)
    requires Segments(es, out, added, base, cut) && cut[|out|] == gs
    requires gs <= |es| && forall k :: gs <= k < |es| ==> es[k].run
    requires Sound(es, out, pos, added, base, gs) && EndsInElement(out)
    requires Joined(out) + JoinedRange(es, gs, |es|) == JoinedRange(es, 0, |es|)
    requires es != [] && (out != [] || gs < |es|)
    ensures Joined(out') == Joined(es)
    ensures NoAdjacent(out')
    ensures DistinctNodes(out')
    ensures Origin(es, out', added', base)
    ensures ElemEntries(out') == ElemEntries(out)
    ensures es != [] <==> out' != []
    ensures Segments(es, out', added', base, cut') && cut'[|out'|] == |es|
  {
    ghost var pos';
    out', added', pos', cut' := CloseGroup(es, gs, |es|, out, added, pos, base, cut);
    JoinedWhole(es);
    forall m | 0 <= m < |out'|
      ensures out'[m] in es || (base <= out'[m].node < base + |added'| && out'[m] == Entry(out'[m].node, true, added'[out'[m].node - base]))
    {
      assert TracedAt(es, out'[m], pos'[m], added', base, |es|);
      if out'[m].node < base {
        assert out'[m] == es[pos'[m]];
      }
    }
  }

  /** Ends the group es[gs..i] of strings and appends the element es[i] that follows it. */
  method CloseBefore(es: seq<Entry>, gs: nat, i: nat, out: seq<Entry>, added: seq<string>, ghost pos: seq<nat>, base: nat,
                     ghost cut: seq<nat>)
    returns (out': seq<Entry>, added': seq<string>, ghost pos': seq<nat>, ghost cut': seq<nat>)
    requires Numbered(es, base)
    requires Segments(es, out, added, base, cut) && cut[|out|] == gs
    requires gs <= i < |es| && forall k :: gs <= k < i ==> es[k].run
    requires !es[i].run
    requires Sound(es, out, pos, added, base, gs) && EndsInElement(out)
    requires Joined(out) + JoinedRange(es, gs, i) == JoinedRange(es, 0, i)
    ensures Sound(es, out', pos', added', base, i + 1) && EndsInElement(out') && out' != []
    ensures Joined(out') + JoinedRange(es, i + 1, i + 1) == JoinedRange(es, 0, i + 1)
    ensures ElemEntries(out') == ElemEntries(out) + [es[i]]
    ensures Segments(es, out', added', base, cut') && cut'[|out'|] == i + 1
  {
    out', added', pos', cut' := CloseGroup(es, gs, i, out, added, pos, base, cut);
    ElemEntriesSnoc(out', es[i]);
    JoinedAppend(out', [es[i]]);
    assert Joined([es[i]]) == es[i].text;
    JoinedStep(Joined(out), es, gs, i);
    FreshOld(es, out', pos', added', base, i);
    assert TracedAt(es, es[i], i, added', base, i + 1);
    Extend(es, out', pos', added', base, i, es[i], i, i + 1);
    SegmentsElement(es, out', added', base, cut', i);
    out', pos', cut' := out' + [es[i]], pos' + [i], cut' + [i + 1];
  }

  /** Ends the group es[gs..i] of adjacent strings: a group of two or more becomes one new string. */
  method CloseGroup(es: seq<Entry>, gs: nat, i: nat, out: seq<Entry>, added: seq<string>, ghost pos: seq<nat>, base: nat,
                    ghost cut: seq<nat>)
    returns (out': seq<Entry>, added': seq<string>, ghost pos': seq<nat>, ghost cut': seq<nat>)
    requires Numbered(es, base)
    requires Segments(es, out, added, base, cut) && cut[|out|] == gs
    requires gs <= i <= |es| && forall k :: gs <= k < i ==> es[k].run
    requires Sound(es, out, pos, added, base, gs) && EndsInElement(out)
    ensures i == gs ==> out' == out && added' == added
    ensures i == gs + 1 ==> out' == out + [es[gs]] && added' == added
    ensures i > gs + 1 ==> out' == out + [Entry(base + |added|, true, JoinedRange(es, gs, i))] && added' == added + [JoinedRange(es, gs, i)]
    ensures Sound(es, out', pos', added', base, i)
    ensures Joined(out') == Joined(out) + JoinedRange(es, gs, i)
    ensures out != [] || gs < i ==> out' != []
    ensures ElemEntries(out') == ElemEntries(out)
    ensures Segments(es, out', added', base, cut') && cut'[|out'|] == i
  {
    if i > gs + 1 {
      var n := Entry(base + |added|, true, JoinedRange(es, gs, i));
      CloseNew(es, gs, i, out, added, pos, base);
      SegmentsMore(es, out, added, base, cut, n.text);
      assert Block(es, n, gs, i, added + [n.text], base);
      SegmentsExtend(es, out, added + [n.text], base, cut, n, i);
      out', added', pos', cut' := out + [n], added + [n.text], pos + [0], cut + [i];
    } else if i == gs {
      out', added', pos', cut' := out, added, pos, cut;
    } else {
      CloseOne(es, gs, i, out, added, pos, base);
      SegmentsExtend(es, out, added, base, cut, es[gs], i);
      out', added', pos', cut' := out + [es[gs]], added, pos + [gs], cut + [i];
    }
  }

  /** A group of two or more strings becomes one new string entry numbered after the earlier new ones. */
  lemma CloseNew(es: seq<Entry>, gs: nat, i: nat, out: seq<Entry>, added: seq<string>, pos: seq<nat>, base: nat)
    requires Numbered(es, base)
    requires gs + 1 < i <= |es| && forall k :: gs <= k < i ==> es[k].run
    requires Sound(es, out, pos, added, base, gs) && EndsInElement(out)
    ensures var n := Entry(base + |added|, true, JoinedRange(es, gs, i));
      && Sound(es, out + [n], pos + [0], added + [n.text], base, i)
      && Joined(out + [n]) == Joined(out) + JoinedRange(es, gs, i)
      && ElemEntries(out + [n]) == ElemEntries(out)
  {
    SoundWiden(es, out, pos, added, base, gs, i);
    var n := Entry(base + |added|, true, JoinedRange(es, gs, i));
    ElemEntriesSnoc(out, n);
    JoinedAppend(out, [n]);
    assert Joined([n]) == n.text;
    FreshNew(es, out, pos, added, base, i);
    SoundMore(es, out, pos, added, base, i, n.text);
    assert TracedAt(es, n, 0, added + [n.text], base, i);
    Extend(es, out, pos, added + [n.text], base, i, n, 0, i);
  }

  /** A group of one string keeps that string's own entry. */
  lemma CloseOne(es: seq<Entry>, gs: nat, i: nat, out: seq<Entry>, added: seq<string>, pos: seq<nat>, base: nat)
    requires Numbered(es, base)
    requires i == gs + 1 <= |es| && es[gs].run
    requires Sound(es, out, pos, added, base, gs) && EndsInElement(out)
    ensures Sound(es, out + [es[gs]], pos + [gs], added, base, i)
    ensures Joined(out + [es[gs]]) == Joined(out) + JoinedRange(es, gs, i)
    ensures ElemEntries(out + [es[gs]]) == ElemEntries(out)
  {
    SoundWiden(es, out, pos, added, base, gs, i);
    ElemEntriesSnoc(out, es[gs]);
    JoinedAppend(out, [es[gs]]);
    assert Joined([es[gs]]) == es[gs].text;
    FreshOld(es, out, pos, added, base, gs);
    assert TracedAt(es, es[gs], gs, added, base, i);
    Extend(es, out, pos, added, base, i, es[gs], gs, i);
  }

  /** The entries of a children list of d. */
  function EntriesOf(d: Doc, kids: seq<nat>, lb: nat): (r: seq<Entry>)
    requires Ordered(d) && lb < |d| && forall m :: 0 <= m < |kids| ==> lb < kids[m] < |d|
    ensures |r| == |kids|
    ensures forall m :: 0 <= m < |kids| ==> r[m] == Entry(kids[m], d[kids[m]].TextNode?, TextOf(d, kids[m]))
  {
    if kids == [] then [] else [Entry(kids[0], d[kids[0]].TextNode?, TextOf(d, kids[0]))] + EntriesOf(d, kids[1..], lb)
  }

  lemma {:induction false} JoinedEntries(d: Doc, kids: seq<nat>, lb: nat)
    requires Ordered(d) && lb < |d| && forall m :: 0 <= m < |kids| ==> lb < kids[m] < |d|
    ensures Joined(EntriesOf(d, kids, lb)) == KidsText(d, kids, lb)
    decreases |kids|
  {
    if kids != [] {
      JoinedEntries(d, kids[1..], lb);
      assert EntriesOf(d, kids, lb)[1..] == EntriesOf(d, kids[1..], lb);
    }
  }

  function NodesOfEntries(es: seq<Entry>): (r: seq<nat>)
    ensures |r| == |es| && forall m :: 0 <= m < |es| ==> r[m] == es[m].node
  {
    if es == [] then [] else [es[0].node] + NodesOfEntries(es[1..])
  }

  /** When every entry carries the text of its node in e, the entries' text is the text of their nodes. */
  lemma {:induction false} KidsTextOfEntries(e: Doc, es: seq<Entry>, lb: nat)
    requires Ordered(e) && lb < |e|
    requires forall m :: 0 <= m < |es| ==> lb < es[m].node < |e| && TextOf(e, es[m].node) == es[m].text
    ensures KidsText(e, NodesOfEntries(es), lb) == Joined(es)
    decreases |es|
  {
    if es != [] {
      KidsTextOfEntries(e, es[1..], lb);
      assert NodesOfEntries(es)[1..] == NodesOfEntries(es[1..]);
    }
  }

  /** Appending childless strings under p keeps the arena well formed. */
  lemma {:induction false} AppendRunsWellFormed(d: Doc, texts: seq<string>, p: nat)
    requires WellFormed(d) && p < |d|
    ensures WellFormed(d + RunNodes(texts, p))
    decreases |texts|
  {
    if texts != [] {
      var e := d + [TextNode(texts[0], Some(p))];
      AppendWellFormed(d, TextNode(texts[0], Some(p)));
      AppendRunsWellFormed(e, texts[1..], p);
      RunNodesCons(d, texts, p);
    }
  }

  /** Appending the first string, then the rest, appends them all. */
  lemma RunNodesCons(d: Doc, texts: seq<string>, p: nat)
    requires texts != []
    ensures d + [TextNode(texts[0], Some(p))] + RunNodes(texts[1..], p) == d + RunNodes(texts, p)
  {
    assert RunNodes(texts, p) == [TextNode(texts[0], Some(p))] + RunNodes(texts[1..], p);
  }

  /** p with the children ks, and the new strings appended under p. */
  function Rebuild(d: Doc, p: nat, ks: seq<nat>, added: seq<string>): (e: Doc)
    requires p < |d| && d[p].ElemNode?
    ensures |e| == |d| + |added| && e[p] == d[p].(children := ks)
    ensures forall j :: 0 <= j < |d| && j != p ==> e[j] == d[j]
    ensures forall f :: 0 <= f < |added| ==> e[|d| + f] == TextNode(added[f], Some(p))
  {
    (d + RunNodes(added, p))[p := d[p].(children := ks)]
  }

  lemma MergedWellFormed(d: Doc, p: nat, es: seq<Entry>, out: seq<Entry>, added: seq<string>)
    requires WellFormed(d) && p < |d| && d[p].ElemNode?
    requires es == EntriesOf(d, Kids(d[p]), p)
    requires DistinctNodes(out) && Origin(es, out, added, |d|)
    ensures WellFormed(Rebuild(d, p, NodesOfEntries(out), added))
  {
    var ks := NodesOfEntries(out);
    var grown := d + RunNodes(added, p);
    AppendRunsWellFormed(d, added, p);
    forall m | 0 <= m < |ks| ensures p < ks[m] < |grown| && grown[ks[m]].parent == Some(p) {
      KidParent(d, p, es, out, added, m);
    }
    SetKidsWellFormed(grown, p, ks);
  }

  lemma KidParent(d: Doc, p: nat, es: seq<Entry>, out: seq<Entry>, added: seq<string>, m: nat)
    requires WellFormed(d) && p < |d| && d[p].ElemNode?
    requires es == EntriesOf(d, Kids(d[p]), p)
    requires Origin(es, out, added, |d|) && m < |out|
    ensures var grown := d + RunNodes(added, p); p < out[m].node < |grown| && grown[out[m].node].parent == Some(p)
  {
    var grown := d + RunNodes(added, p);
    if out[m] in es {
      var k :| 0 <= k < |es| && es[k] == out[m];
      var x := Kids(d[p])[k];
      assert out[m].node == x && p < x < |d|;
      assert d[x].parent == Some(p);
      assert grown[x] == d[x];
    } else {
      assert grown[out[m].node] == RunNodes(added, p)[out[m].node - |d|];
    }
  }

  lemma MergedText(d: Doc, p: nat, es: seq<Entry>, out: seq<Entry>, added: seq<string>)
    requires WellFormed(d) && p < |d| && d[p].ElemNode?
    requires es == EntriesOf(d, Kids(d[p]), p)
    requires Origin(es, out, added, |d|) && Joined(out) == Joined(es)
    requires WellFormed(Rebuild(d, p, NodesOfEntries(out), added))
    ensures TextOf(Rebuild(d, p, NodesOfEntries(out), added), p) == TextOf(d, p)
  {
    var e := Rebuild(d, p, NodesOfEntries(out), added);
    forall m | 0 <= m < |out| ensures p < out[m].node < |e| && TextOf(e, out[m].node) == out[m].text {
      EntryText(d, p, es, out, added, e, m);
    }
    KidsTextOfEntries(e, out, p);
    JoinedEntries(d, Kids(d[p]), p);
  }

  lemma EntryText(d: Doc, p: nat, es: seq<Entry>, out: seq<Entry>, added: seq<string>, e: Doc, m: nat)
    requires Ordered(d) && p < |d| && d[p].ElemNode?
    requires es == EntriesOf(d, Kids(d[p]), p)
    requires Origin(es, out, added, |d|) && m < |out|
    requires e == Rebuild(d, p, NodesOfEntries(out), added) && Ordered(e)
    ensures p < out[m].node < |e| && TextOf(e, out[m].node) == out[m].text
  {
    if out[m] in es {
      var k :| 0 <= k < |es| && es[k] == out[m];
      var x := Kids(d[p])[k];
      assert out[m] == Entry(x, d[x].TextNode?, TextOf(d, x));
      assert p < x < |d|;
      TextAbove(d, e, x, p);
    } else {
      var f := out[m].node - |d|;
      assert e[|d| + f] == TextNode(added[f], Some(p));
    }
  }

  lemma MergedNoAdjacent(d: Doc, p: nat, es: seq<Entry>, out: seq<Entry>, added: seq<string>)
    requires WellFormed(d) && p < |d| && d[p].ElemNode?
    requires es == EntriesOf(d, Kids(d[p]), p)
    requires Origin(es, out, added, |d|) && NoAdjacent(out)
    ensures NoAdjacentRuns(Rebuild(d, p, NodesOfEntries(out), added), NodesOfEntries(out))
  {
    var e := Rebuild(d, p, NodesOfEntries(out), added);
    forall m | 0 <= m < |out| ensures out[m].node < |e| && (out[m].run <==> e[out[m].node].TextNode?) {
    }
  }

  /**
   * e is d after the second half of basic_unwrap on p: p has a new list of
   * children with the same text and no two strings side by side, the other
   * element children in the same order, the other nodes of d are as they
   * were, and the nodes after them are new strings under p.
   */
  ghost predicate MergedFrom(d: Doc, p: nat, e: Doc)
    requires WellFormed(d) && p < |d|
  {
    && WellFormed(e) && |d| <= |e|
    && e[p].ElemNode? && d[p].ElemNode? && e[p] == d[p].(children := e[p].children)
    && (forall j :: 0 <= j < |d| && j != p ==> e[j] == d[j])
    && (forall j :: |d| <= j < |e| ==> e[j].TextNode? && e[j].parent == Some(p))
    && TextOf(e, p) == TextOf(d, p)
    && NoAdjacentRuns(e, Kids(e[p]))
    && ElemsAmong(e, Kids(e[p])) == ElemsAmong(d, Kids(d[p]))
    && (Kids(e[p]) == [] <==> Kids(d[p]) == [])
  }

  lemma MergedFacts(d: Doc, p: nat, es: seq<Entry>, out: seq<Entry>, added: seq<string>)
    requires WellFormed(d) && p < |d| && d[p].ElemNode?
    requires es == EntriesOf(d, Kids(d[p]), p)
    requires DistinctNodes(out) && Origin(es, out, added, |d|) && NoAdjacent(out)
    requires Joined(out) == Joined(es) && (es != [] <==> out != [])
    requires ElemEntries(out) == ElemEntries(es)
    ensures MergedFrom(d, p, Rebuild(d, p, NodesOfEntries(out), added))
  {
    var ks := NodesOfEntries(out);
    var e := Rebuild(d, p, ks, added);
    MergedWellFormed(d, p, es, out, added);
    MergedText(d, p, es, out, added);
    MergedNoAdjacent(d, p, es, out, added);
    MergedElems(d, p, es, out, added, e);
    assert Kids(e[p]) == ks && |ks| == |out| && |es| == |Kids(d[p])|;
    forall j | |d| <= j < |e| ensures e[j].TextNode? && e[j].parent == Some(p) {
      assert e[|d| + (j - |d|)] == TextNode(added[j - |d|], Some(p));
    }
  }

  lemma MergedElems(d: Doc, p: nat, es: seq<Entry>, out: seq<Entry>, added: seq<string>, e: Doc)
    requires WellFormed(d) && p < |d| && d[p].ElemNode?
    requires es == EntriesOf(d, Kids(d[p]), p)
    requires Origin(es, out, added, |d|) && ElemEntries(out) == ElemEntries(es)
    requires e == Rebuild(d, p, NodesOfEntries(out), added) && WellFormed(e)
    ensures ElemsAmong(e, Kids(e[p])) == ElemsAmong(d, Kids(d[p]))
  {
    forall m | 0 <= m < |out| ensures out[m].node < |e| && (out[m].run <==> e[out[m].node].TextNode?) {
      EntryKind(d, p, es, out, added, e, m);
    }
    ElemsOfEntries(e, out);
    assert NodesOfEntries(es) == Kids(d[p]);
    ElemsOfEntries(d, es);
  }

  lemma EntryKind(d: Doc, p: nat, es: seq<Entry>, out: seq<Entry>, added: seq<string>, e: Doc, m: nat)
    requires WellFormed(d) && p < |d| && d[p].ElemNode?
    requires es == EntriesOf(d, Kids(d[p]), p)
    requires Origin(es, out, added, |d|) && m < |out|
    requires e == Rebuild(d, p, NodesOfEntries(out), added)
    ensures out[m].node < |e| && (out[m].run <==> e[out[m].node].TextNode?)
  {
    if out[m] in es {
      var k :| 0 <= k < |es| && es[k] == out[m];
      var x := Kids(d[p])[k];
      assert out[m] == Entry(x, d[x].TextNode?, TextOf(d, x));
      assert p < x < |d|;
      assert e[x] == d[x];
    } else {
      var f := out[m].node - |d|;
      assert e[|d| + f] == TextNode(added[f], Some(p));
    }
  }

  lemma EntriesNumbered(d: Doc, p: nat)
    requires WellFormed(d) && p < |d|
    ensures Numbered(EntriesOf(d, Kids(d[p]), p), |d|)
  {
    var es := EntriesOf(d, Kids(d[p]), p);
    assert Distinct(Kids(d[p]));
    forall a, b | 0 <= a < b < |es| ensures es[a].node != es[b].node {
      assert es[a].node == Kids(d[p])[a] && es[b].node == Kids(d[p])[b];
    }
  }

  /** The second half of basic_unwrap: adjacent strings among p's children are joined into one new string each. */
  method MergeRuns(d: Doc, p: nat) returns (e: Doc, ghost added: seq<string>, ghost cut: seq<nat>)
    requires WellFormed(d) && p < |d| && d[p].ElemNode?
    ensures MergedFrom(d, p, e)
    ensures var es, out := EntriesOf(d, Kids(d[p]), p), EntriesOf(e, Kids(e[p]), p);
      Segments(es, out, added, |d|, cut) && cut[|out|] == |es| && NoAdjacent(out)
  {
    var es := EntriesOf(d, Kids(d[p]), p);
    EntriesNumbered(d, p);
    var out, strings;
    out, strings, cut := GroupRuns(es, |d|);
    MergedFacts(d, p, es, out, strings);
    e := Rebuild(d, p, NodesOfEntries(out), strings);
    MergedEntries(d, p, es, out, strings, e);
    added := strings;
  }

  /** The entries of p's new children list are the grouped entries. */
  lemma MergedEntries(d: Doc, p: nat, es: seq<Entry>, out: seq<Entry>, added: seq<string>, e: Doc)
    requires WellFormed(d) && p < |d| && d[p].ElemNode?
    requires es == EntriesOf(d, Kids(d[p]), p)
    requires Origin(es, out, added, |d|)
    requires e == Rebuild(d, p, NodesOfEntries(out), added) && Ordered(e)
    ensures EntriesOf(e, Kids(e[p]), p) == out
  {
    forall m | 0 <= m < |out|
      ensures p < out[m].node < |e| && out[m] == Entry(out[m].node, e[out[m].node].TextNode?, TextOf(e, out[m].node))
    {
      MergedEntry(d, p, es, out, added, e, m);
    }
    assert Kids(e[p]) == NodesOfEntries(out);
    EntriesOfNodes(e, out, p);
  }

  /** Entries that each carry the kind and text of their node in e are the entries of their nodes. */
  lemma EntriesOfNodes(e: Doc, out: seq<Entry>, p: nat)
    requires Ordered(e) && p < |e|
    requires forall m :: 0 <= m < |out| ==>
      p < out[m].node < |e| && out[m] == Entry(out[m].node, e[out[m].node].TextNode?, TextOf(e, out[m].node))
    ensures EntriesOf(e, NodesOfEntries(out), p) == out
  {
    var r := EntriesOf(e, NodesOfEntries(out), p);
    assert forall m :: 0 <= m < |out| ==> r[m] == out[m];
  }

  lemma MergedEntry(d: Doc, p: nat, es: seq<Entry>, out: seq<Entry>, added: seq<string>, e: Doc, m: nat)
    requires WellFormed(d) && p < |d| && d[p].ElemNode?
    requires es == EntriesOf(d, Kids(d[p]), p)
    requires Origin(es, out, added, |d|) && m < |out|
    requires e == Rebuild(d, p, NodesOfEntries(out), added) && Ordered(e)
    ensures p < out[m].node < |e| && out[m] == Entry(out[m].node, e[out[m].node].TextNode?, TextOf(e, out[m].node))
  {
    EntryText(d, p, es, out, added, e, m);
    EntryKind(d, p, es, out, added, e, m);
  }

  /** Text of a node below p is the same in an arena that changes only p and appends. */
  lemma TextAbove(d: Doc, e: Doc, x: nat, p: nat)
    requires Ordered(d) && Ordered(e) && p < x < |d| <= |e|
    requires forall j :: 0 <= j < |d| && j != p ==> e[j] == d[j]
    ensures TextOf(e, x) == TextOf(d, x)
  {
    assert SameSubtree(d, e, x);
    TextOfFrame(d, e, x);
  }
}
