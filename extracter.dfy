/**
 * extracter.py: finding the anchor macros that delimit the part of a
 * Confluence page the program manages, and cutting the page's top-level
 * markup into the part before, the managed part and the part after them.
 */
module Extracter {
  import opened Wrappers
  import opened Text
  import opened Markup
  import opened RefTree

  /** Anchor names that open and close the managed part. */
  const OpenTags: seq<string> := ["foliant", "foliant_start"]
  const CloseTags: seq<string> := ["foliant_end", "foliant_finish", "foliant_close"]

  /** A name present and listed in tags (Python: `name in TAGS`, where None is never listed). */
  predicate Named(name: Option<string>, tags: seq<string>)
  {
    name.Some? && name.value in tags
  }

  predicate IsParam(n: Node)
  {
    n.ElemNode? && n.name == ParameterName
  }

  /** The position of the first ac:parameter element among kids. */
  function FirstParam(d: Doc, kids: seq<nat>): (r: Option<nat>)
    requires forall k :: 0 <= k < |kids| ==> kids[k] < |d|
    ensures r.Some? ==> r.value < |kids| && IsParam(d[kids[r.value]])
    ensures r.Some? ==> forall j :: 0 <= j < r.value ==> !IsParam(d[kids[j]])
    ensures r.None? ==> forall j :: 0 <= j < |kids| ==> !IsParam(d[kids[j]])
  {
    if kids == [] then None
    else if IsParam(d[kids[0]]) then Some(0)
    else
      match FirstParam(d, kids[1..])
      case None => None
      case Some(k) => Some(k + 1)
  }

  /** get_anchor_name: the lower-cased text of the macro's first ac:parameter child. */
  function AnchorName(d: Doc, m: nat): Option<string>
    requires Ordered(d) && m < |d|
  {
    var ks := Kids(d[m]);
    match FirstParam(d, ks)
    case None => None
    case Some(k) => Some(Lower(TextOf(d, ks[k])))
  }

  method GetAnchorName(d: Doc, m: nat) returns (r: Option<string>)
    requires Ordered(d) && m < |d|
    ensures r == AnchorName(d, m)
  {
    var ks := Kids(d[m]);
    for k := 0 to |ks|
      invariant forall j :: 0 <= j < k ==> !IsParam(d[ks[j]])
    {
      if IsParam(d[ks[k]]) {
        return Some(Lower(TextOf(d, ks[k])));
      }
    }
    return None;
  }

  /** A tag that find_all(re.compile(pat)) reports: its name contains pat. */
  predicate Matches(n: Node, pat: string)
  {
    n.ElemNode? && Contains(n.name, pat)
  }

  /** Which of the nodes xs have a tag name containing pat. */
  function MatchFlags(d: Doc, xs: seq<nat>, pat: string): (r: seq<bool>)
    requires forall k :: 0 <= k < |xs| ==> xs[k] < |d|
    ensures |r| == |xs| && forall k :: 0 <= k < |xs| ==> r[k] == Matches(d[xs[k]], pat)
  {
    if xs == [] then [] else [Matches(d[xs[0]], pat)] + MatchFlags(d, xs[1..], pat)
  }

  /** The elements of xs whose flag is set, in order. */
  function Filter(xs: seq<nat>, keep: seq<bool>): (r: seq<nat>)
    requires |keep| == |xs|
    ensures forall k :: 0 <= k < |r| ==> r[k] in xs
  {
    if xs == [] then []
    else (if keep[0] then [xs[0]] else []) + Filter(xs[1..], keep[1..])
  }

  /** The macros of the page in document order. */
  function Macros(d: Doc): (r: seq<nat>)
    requires Ordered(d) && |d| > 0
    ensures forall k :: 0 <= k < |r| ==> r[k] in NodesOf(d, Kids(d[0]), 0)
  {
    assert Nodes(d, 0)[1..] == NodesOf(d, Kids(d[0]), 0);
    var xs := Nodes(d, 0)[1..];
    Filter(xs, MatchFlags(d, xs, MacroName))
  }

  /** The anchor names of the macros ms, in order. */
  function AnchorNames(d: Doc, ms: seq<nat>): (r: seq<Option<string>>)
    requires Ordered(d) && forall k :: 0 <= k < |ms| ==> ms[k] < |d|
    ensures |r| == |ms| && forall k :: 0 <= k < |ms| ==> r[k] == AnchorName(d, ms[k])
  {
    seq(|ms|, k requires 0 <= k < |ms| => AnchorName(d, ms[k]))
  }

  /**
   * The loop of detect_foliant_blocks from position i on, with the open
   * anchor found so far: the first open-named macro is kept, and the scan
   * stops at the first close-named one. names[k] is the anchor name of ms[k].
   */
  function Scan(ms: seq<nat>, names: seq<Option<string>>, i: nat, open: Option<nat>): (r: (Option<nat>, Option<nat>))
    requires i <= |ms| == |names|
    decreases |ms| - i
  {
    if i == |ms| then (open, None)
    else if open.None? && Named(names[i], OpenTags) then Scan(ms, names, i + 1, Some(ms[i]))
    else if Named(names[i], CloseTags) then (open, Some(ms[i]))
    else Scan(ms, names, i + 1, open)
  }

  /** The position of the first name listed in tags, or |names|. */
  function FirstNamed(names: seq<Option<string>>, tags: seq<string>): (r: nat)
    ensures r <= |names|
    ensures forall j :: 0 <= j < r ==> !Named(names[j], tags)
    ensures r < |names| ==> Named(names[r], tags)
  {
    if names == [] then 0
    else if Named(names[0], tags) then 0
    else 1 + FirstNamed(names[1..], tags)
  }

  /**
   * What the scan finds, stated directly: the first close-named macro, and
   * the first open-named macro before it.
   */
  function Expected(ms: seq<nat>, names: seq<Option<string>>): (Option<nat>, Option<nat>)
    requires |ms| == |names|
  {
    var fc := FirstNamed(names, CloseTags);
    var fo := FirstNamed(names[..fc], OpenTags);
    (if fo < fc then Some(ms[fo]) else None, if fc < |ms| then Some(ms[fc]) else None)
  }

  /** Once the open anchor is found, the scan runs to the first close-named macro. */
  lemma {:induction false} ScanOpened(ms: seq<nat>, names: seq<Option<string>>, i: nat, o: nat)
    requires i <= |ms| == |names|
    requires forall j :: 0 <= j < i ==> !Named(names[j], CloseTags)
    ensures Scan(ms, names, i, Some(o)) == (Some(o), Expected(ms, names).1)
    decreases |ms| - i
  {
    var fc := FirstNamed(names, CloseTags);
    if i < |ms| {
      if Named(names[i], CloseTags) {
        assert fc == i;
      } else {
        ScanOpened(ms, names, i + 1, o);
      }
    } else {
      assert fc == |ms|;
    }
  }

  /** Before the open anchor is found, the scan finds what Expected states. */
  lemma {:induction false} ScanFresh(ms: seq<nat>, names: seq<Option<string>>, i: nat)
    requires i <= |ms| == |names|
    requires forall j :: 0 <= j < i ==> !Named(names[j], OpenTags) && !Named(names[j], CloseTags)
    ensures Scan(ms, names, i, None) == Expected(ms, names)
    decreases |ms| - i
  {
    var fc := FirstNamed(names, CloseTags);
    if i < |ms| {
      if Named(names[i], OpenTags) {
        assert !Named(names[i], CloseTags);
        ScanOpened(ms, names, i + 1, ms[i]);
        FirstIn(names, fc, i);
      } else if Named(names[i], CloseTags) {
        assert fc == i;
        FirstIn(names, fc, i);
      } else {
        ScanFresh(ms, names, i + 1);
      }
    } else {
      assert fc == |ms|;
      FirstIn(names, fc, i);
    }
  }

  /** With no open name before i, the first one among names[..fc] sits at i, or there is none when i == fc. */
  lemma FirstIn(names: seq<Option<string>>, fc: nat, i: nat)
    requires i <= fc <= |names|
    requires forall j :: 0 <= j < i ==> !Named(names[j], OpenTags)
    requires i < fc ==> Named(names[i], OpenTags)
    ensures FirstNamed(names[..fc], OpenTags) == i
  {
  }

  /** detect_foliant_blocks' scan finds the first open anchor before the first close anchor, and that close anchor. */
  lemma ScanFinds(ms: seq<nat>, names: seq<Option<string>>)
    requires |ms| == |names|
    ensures Scan(ms, names, 0, None) == Expected(ms, names)
  {
    ScanFresh(ms, names, 0);
  }

  /** The child of the root above node j (get_top_parent), or None for the root itself. */
  function TopAncestor(d: Doc, j: nat): (r: Option<nat>)
    requires WellFormed(d) && j < |d|
    ensures r.None? <==> j == 0
    ensures r.Some? ==> r.value < |d| && d[r.value].parent == Some(0) && Above(d, r.value, j)
    decreases j
  {
    match d[j].parent
    case None => None
    case Some(p) => if p == 0 then Some(j) else TopAncestor(d, p)
  }

  /** get_top_parent: climbs the parent links until the next one is the root. */
  method GetTopParent(d: Doc, j: nat) returns (r: Option<nat>)
    requires WellFormed(d) && j < |d|
    ensures r == TopAncestor(d, j)
  {
    var p: nat := j;
    while d[p].parent != Some(0)
      invariant p < |d| && TopAncestor(d, p) == TopAncestor(d, j)
      decreases p
    {
      var next := d[p].parent;
      if next.None? {
        return None;
      }
      p := next.value;
    }
    return Some(p);
  }

  /** A node below the root lies in the subtree of one child of the root, and that child is its top ancestor. */
  lemma TopInRoot(d: Doc, j: nat) returns (k: nat)
    requires WellFormed(d) && j in NodesOf(d, Kids(d[0]), 0)
    ensures k < |Kids(d[0])| && j in Nodes(d, Kids(d[0])[k])
    ensures TopAncestor(d, j) == Some(Kids(d[0])[k])
  {
    var ks := Kids(d[0]);
    k := NodesOfMember(d, ks, 0, j);
    var c := ks[k];
    NodesAbove(d, c, j);
    assert d[c].parent == Some(0);
    SameTop(d, TopAncestor(d, j).value, c, j);
  }

  /** Two children of the root above one node are the same node. */
  lemma SameTop(d: Doc, t: nat, c: nat, j: nat)
    requires WellFormed(d) && t < |d| && c < |d| && j < |d|
    requires d[t].parent == Some(0) && d[c].parent == Some(0) && Above(d, t, j) && Above(d, c, j)
    ensures t == c
  {
    AboveLinear(d, t, c, j);
  }

  /** The result of detect_foliant_blocks: the top ancestors of both anchors, the close one dropped when they coincide. */
  function Detected(d: Doc): (r: (Option<nat>, Option<nat>))
    requires WellFormed(d)
  {
    var ms := Macros(d);
    var names := AnchorNames(d, ms);
    ScanFinds(ms, names);
    var (o, c) := Scan(ms, names, 0, None);
    Tops(d, o, c)
  }

  /** The top ancestors of the anchors o and c, the second dropped when they coincide. */
  function Tops(d: Doc, o: Option<nat>, c: Option<nat>): (r: (Option<nat>, Option<nat>))
    requires WellFormed(d) && (o.Some? ==> o.value < |d|) && (c.Some? ==> c.value < |d|)
  {
    var top := if o.Some? then TopAncestor(d, o.value) else None;
    var bottom := if c.Some? then TopAncestor(d, c.value) else None;
    if top == bottom then (top, None) else (top, bottom)
  }

  /** detect_foliant_blocks. */
  method DetectFoliantBlocks(d: Doc) returns (top: Option<nat>, bottom: Option<nat>)
    requires WellFormed(d)
    ensures (top, bottom) == Detected(d)
  {
    var ms := Macros(d);
    var open, close := ScanMacros(d, ms);
    top, bottom := None, None;
    if open.Some? {
      top := GetTopParent(d, open.value);
    }
    if close.Some? {
      bottom := GetTopParent(d, close.value);
    }
    if top == bottom {
      bottom := None;
    }
  }

  /** The loop of detect_foliant_blocks over the macros ms, with its early break. */
  method ScanMacros(d: Doc, ms: seq<nat>) returns (open: Option<nat>, close: Option<nat>)
    requires Ordered(d) && forall k :: 0 <= k < |ms| ==> ms[k] < |d|
    ensures (open, close) == Scan(ms, AnchorNames(d, ms), 0, None)
    ensures open.Some? ==> open.value in ms
    ensures close.Some? ==> close.value in ms
  {
    ghost var names := AnchorNames(d, ms);
    ghost var goal := Scan(ms, names, 0, None);
    open, close := None, None;
    var i := 0;
    while i < |ms|
      invariant i <= |ms| && close.None? && Scan(ms, names, i, open) == goal
      invariant open.Some? ==> open.value in ms
    {
      open, close := ScanOne(d, ms, names, i, open);
      if close.Some? {
        break;
      }
      i := i + 1;
    }
  }

  /** One round of the scan: the macro at i may open the block or close it. */
  method ScanOne(d: Doc, ms: seq<nat>, ghost names: seq<Option<string>>, i: nat, open: Option<nat>)
    returns (open': Option<nat>, close: Option<nat>)
    requires Ordered(d) && (forall k :: 0 <= k < |ms| ==> ms[k] < |d|) && names == AnchorNames(d, ms) && i < |ms|
    ensures open' == open || open' == Some(ms[i])
    ensures close.Some? ==> close == Some(ms[i]) && Scan(ms, names, i, open) == (open', close)
    ensures close.None? ==> Scan(ms, names, i + 1, open') == Scan(ms, names, i, open)
  {
    var name := GetAnchorName(d, ms[i]);
    assert name == names[i];
    var opens, closes := open.None? && Named(name, OpenTags), Named(name, CloseTags);
    ScanStep(ms, names, i, open, opens, closes);
    open', close := open, None;
    if opens {
      open' := Some(ms[i]);
    } else if closes {
      close := Some(ms[i]);
    }
  }

  /** One round of the scan, given the anchor name of the macro at i. */
  lemma ScanStep(ms: seq<nat>, names: seq<Option<string>>, i: nat, open: Option<nat>, opens: bool, closes: bool)
    requires i < |ms| == |names|
    requires opens == (open.None? && Named(names[i], OpenTags)) && closes == Named(names[i], CloseTags)
    ensures Scan(ms, names, i, open) ==
      if opens then Scan(ms, names, i + 1, Some(ms[i]))
      else if closes then (open, Some(ms[i]))
      else Scan(ms, names, i + 1, open)
  {
  }

  /** Where the scan's results sit among the macros: the open anchor before the close anchor. */
  lemma ScanPositions(ms: seq<nat>, names: seq<Option<string>>) returns (i: nat, j: nat)
    requires |ms| == |names|
    ensures var r := Scan(ms, names, 0, None);
      && (r.0.Some? ==> i < |ms| && r.0.value == ms[i])
      && (r.1.Some? ==> j < |ms| && r.1.value == ms[j])
      && (r.0.Some? && r.1.Some? ==> i < j)
  {
    ScanFinds(ms, names);
    j := FirstNamed(names, CloseTags);
    i := FirstNamed(names[..j], OpenTags);
  }

  /** Both anchors found by detect_foliant_blocks are children of the root. */
  lemma DetectedInRoot(d: Doc)
    requires WellFormed(d)
    ensures Detected(d).0.Some? ==> Detected(d).0.value in Kids(d[0]) && Linked(d, Detected(d).0.value)
    ensures Detected(d).1.Some? ==> Detected(d).1.value in Kids(d[0]) && Linked(d, Detected(d).1.value)
  {
    var ms := Macros(d);
    var names := AnchorNames(d, ms);
    var r := Scan(ms, names, 0, None);
    var i, j := ScanPositions(ms, names);
    TopsInRoot(d, r.0, r.1);
  }

  lemma TopsInRoot(d: Doc, o: Option<nat>, c: Option<nat>)
    requires WellFormed(d)
    requires o.Some? ==> o.value in NodesOf(d, Kids(d[0]), 0)
    requires c.Some? ==> c.value in NodesOf(d, Kids(d[0]), 0)
    ensures Tops(d, o, c).0.Some? ==> Tops(d, o, c).0.value in Kids(d[0]) && Linked(d, Tops(d, o, c).0.value)
    ensures Tops(d, o, c).1.Some? ==> Tops(d, o, c).1.value in Kids(d[0]) && Linked(d, Tops(d, o, c).1.value)
  {
    if o.Some? {
      RootChildLinked(d, o.value);
    }
    if c.Some? {
      RootChildLinked(d, c.value);
    }
  }

  /** The top ancestor of a node below the root is a child of the root, linked to it. */
  lemma RootChildLinked(d: Doc, j: nat)
    requires WellFormed(d) && j in NodesOf(d, Kids(d[0]), 0)
    ensures TopAncestor(d, j).Some? && TopAncestor(d, j).value in Kids(d[0]) && Linked(d, TopAncestor(d, j).value)
  {
    var ks := Kids(d[0]);
    var a := TopInRoot(d, j);
    assert ks[a] in ks;
  }

  /** The filter keeps the order of the sequence it is taken from. */
  lemma {:induction false} FilterPosition(xs: seq<nat>, keep: seq<bool>, i: nat) returns (p: nat)
    requires |keep| == |xs| && i < |Filter(xs, keep)|
    ensures p < |xs| && xs[p] == Filter(xs, keep)[i]
    decreases |xs|
  {
    var head: seq<nat> := if keep[0] then [xs[0]] else [];
    if i < |head| {
      p := 0;
    } else {
      p := FilterPosition(xs[1..], keep[1..], i - |head|);
      p := p + 1;
    }
  }

  lemma {:induction false} FilterPositions(xs: seq<nat>, keep: seq<bool>, i: nat, j: nat) returns (p: nat, q: nat)
    requires |keep| == |xs| && i < j < |Filter(xs, keep)|
    ensures p < q < |xs| && xs[p] == Filter(xs, keep)[i] && xs[q] == Filter(xs, keep)[j]
    decreases |xs|
  {
    var head: seq<nat> := if keep[0] then [xs[0]] else [];
    var rest := Filter(xs[1..], keep[1..]);
    assert Filter(xs, keep) == head + rest;
    if i < |head| {
      q := FilterPosition(xs[1..], keep[1..], j - 1);
      p, q := 0, q + 1;
    } else {
      p, q := FilterPositions(xs[1..], keep[1..], i - |head|, j - |head|);
      p, q := p + 1, q + 1;
    }
  }

  function Flatten(bs: seq<seq<nat>>): (r: seq<nat>)
  {
    if bs == [] then [] else bs[0] + Flatten(bs[1..])
  }

  /** No element of a block occurs in a later block. */
  ghost predicate Apart(bs: seq<seq<nat>>)
  {
    forall i, x :: 0 <= i < |bs| && x in bs[i] ==> x !in Flatten(bs[i + 1..])
  }

  lemma {:induction false} FlattenIncludes(bs: seq<seq<nat>>, k: nat, x: nat)
    requires k < |bs| && x in bs[k]
    ensures x in Flatten(bs)
    decreases k
  {
    if k > 0 {
      FlattenIncludes(bs[1..], k - 1, x);
    }
  }

  lemma ApartHead(bs: seq<seq<nat>>, x: nat)
    requires Apart(bs) && |bs| > 0 && x in bs[0]
    ensures x !in Flatten(bs[1..])
  {
    assert bs[1..] == bs[0 + 1..];
  }

  /** In a concatenation of blocks that share nothing, an earlier element lies in the same block or an earlier one. */
  lemma {:induction false} FlatOrder(bs: seq<seq<nat>>, po: nat, pc: nat, a: nat, b: nat)
    requires Apart(bs) && po < pc < |Flatten(bs)| && a < |bs| && b < |bs|
    requires Flatten(bs)[po] in bs[a] && Flatten(bs)[pc] in bs[b]
    ensures a <= b
    decreases |bs|
  {
    if a > 0 {
      var h := bs[0];
      var rest := bs[1..];
      var t := Flatten(bs);
      assert t == h + Flatten(rest);
      assert bs[1..] == bs[0 + 1..];
      var x := t[po];
      assert x in rest[a - 1];
      FlattenIncludes(rest, a - 1, x);
      if po < |h| {
        ApartHead(bs, x);
      }
      var y := t[pc];
      assert y == Flatten(rest)[pc - |h|];
      if b == 0 {
        ApartHead(bs, y);
      }
      forall i, z | 0 <= i < |rest| && z in rest[i] ensures z !in Flatten(rest[i + 1..]) {
        assert rest[i] == bs[i + 1] && rest[i + 1..] == bs[i + 2..];
      }
      FlatOrder(rest, po - |h|, pc - |h|, a - 1, b - 1);
    }
  }

  /** The subtrees under a list of siblings, one block each. */
  function Blocks(d: Doc, ks: seq<nat>, lb: nat): (r: seq<seq<nat>>)
    requires Ordered(d) && lb < |d| && forall k :: 0 <= k < |ks| ==> lb < ks[k] < |d|
    ensures |r| == |ks| && forall k :: 0 <= k < |ks| ==> r[k] == Nodes(d, ks[k])
  {
    if ks == [] then [] else [Nodes(d, ks[0])] + Blocks(d, ks[1..], lb)
  }

  lemma {:induction false} FlattenBlocks(d: Doc, ks: seq<nat>, lb: nat)
    requires Ordered(d) && lb < |d| && forall k :: 0 <= k < |ks| ==> lb < ks[k] < |d|
    ensures Flatten(Blocks(d, ks, lb)) == NodesOf(d, ks, lb)
    decreases |ks|
  {
    if ks != [] {
      FlattenBlocks(d, ks[1..], lb);
      assert Blocks(d, ks, lb)[1..] == Blocks(d, ks[1..], lb);
    }
  }

  /** The subtrees of the root's children share no node. */
  lemma RootBlocksApart(d: Doc)
    requires WellFormed(d)
    ensures Apart(Blocks(d, Kids(d[0]), 0))
  {
    var ks := Kids(d[0]);
    var bs := Blocks(d, ks, 0);
    forall i, x | 0 <= i < |bs| && x in bs[i] ensures x !in Flatten(bs[i + 1..]) {
      SuffixApart(d, ks, 0, i, x);
    }
  }

  /** A node below the i-th sibling lies below none of the later ones. */
  lemma SuffixApart(d: Doc, ks: seq<nat>, lb: nat, i: nat, x: nat)
    requires WellFormed(d) && lb < |d| && i < |ks| && forall k :: 0 <= k < |ks| ==> lb < ks[k] < |d|
    requires Distinct(ks) && forall k :: 0 <= k < |ks| ==> d[ks[k]].parent == Some(lb)
    requires x in Nodes(d, ks[i])
    ensures x !in Flatten(Blocks(d, ks, lb)[i + 1..])
  {
    var tail := ks[i..];
    assert tail[0] == ks[i] && tail[1..] == ks[i + 1..];
    HeadApart(d, tail, lb, x);
    BlocksSuffix(d, ks, lb, i);
  }

  lemma BlocksSuffix(d: Doc, ks: seq<nat>, lb: nat, i: nat)
    requires Ordered(d) && lb < |d| && i < |ks| && forall k :: 0 <= k < |ks| ==> lb < ks[k] < |d|
    ensures Flatten(Blocks(d, ks, lb)[i + 1..]) == NodesOf(d, ks[i + 1..], lb)
  {
    assert Blocks(d, ks, lb)[i + 1..] == Blocks(d, ks[i + 1..], lb);
    FlattenBlocks(d, ks[i + 1..], lb);
  }

  /** When both anchors are found, the close anchor's top ancestor comes after the open anchor's among the root's children. */
  lemma DetectedOrder(d: Doc)
    requires WellFormed(d)
    ensures Detected(d).0.Some? && Detected(d).1.Some? ==>
      && Detected(d).0.value in Kids(d[0]) && Detected(d).1.value in Kids(d[0])
      && IndexOf(Kids(d[0]), Detected(d).0.value) < IndexOf(Kids(d[0]), Detected(d).1.value)
  {
    var ms := Macros(d);
    var names := AnchorNames(d, ms);
    var r := Scan(ms, names, 0, None);
    var i, j := ScanPositions(ms, names);
    ScanFinds(ms, names);
    assert Detected(d) == Tops(d, r.0, r.1);
    if r.0.Some? && r.1.Some? {
      assert r == (Some(ms[i]), Some(ms[j]));
      TopsOrder(d, ms, i, j);
    }
  }

  lemma TopsOrder(d: Doc, ms: seq<nat>, i: nat, j: nat)
    requires WellFormed(d) && ms == Macros(d) && i < j < |ms|
    ensures var r := Tops(d, Some(ms[i]), Some(ms[j]));
      r.1.Some? ==>
        && r.0.Some? && r.0.value in Kids(d[0]) && r.1.value in Kids(d[0])
        && IndexOf(Kids(d[0]), r.0.value) < IndexOf(Kids(d[0]), r.1.value)
  {
    var a, b := TopsOrdered(d, ms, i, j);
    if Kids(d[0])[a] != Kids(d[0])[b] {
      TopsIndexed(Kids(d[0]), a, b);
    }
  }

  /** Distinct children are found at their own positions. */
  lemma TopsIndexed(ks: seq<nat>, a: nat, b: nat)
    requires Distinct(ks) && a <= b < |ks| && ks[a] != ks[b]
    ensures ks[a] in ks && ks[b] in ks && IndexOf(ks, ks[a]) < IndexOf(ks, ks[b])
  {
    var ia := IndexOf(ks, ks[a]);
    var ib := IndexOf(ks, ks[b]);
    assert ia == a && ib == b;
  }

  /** Of two macros, the earlier one's top ancestor is the same child of the root as the later one's, or an earlier one. */
  lemma TopsOrdered(d: Doc, ms: seq<nat>, i: nat, j: nat) returns (a: nat, b: nat)
    requires WellFormed(d) && ms == Macros(d) && i < j < |ms|
    ensures a <= b < |Kids(d[0])|
    ensures TopAncestor(d, ms[i]) == Some(Kids(d[0])[a]) && TopAncestor(d, ms[j]) == Some(Kids(d[0])[b])
  {
    var ks := Kids(d[0]);
    var xs := Nodes(d, 0)[1..];
    assert xs == NodesOf(d, ks, 0);
    var p, q := FilterPositions(xs, MatchFlags(d, xs, MacroName), i, j);
    a := TopInRoot(d, ms[i]);
    b := TopInRoot(d, ms[j]);
    BlocksOrder(d, ks, p, q, a, b);
  }

  /** A node of the walk below the root that comes before another lies below the same child of the root or an earlier one. */
  lemma BlocksOrder(d: Doc, ks: seq<nat>, p: nat, q: nat, a: nat, b: nat)
    requires WellFormed(d) && ks == Kids(d[0]) && p < q < |NodesOf(d, ks, 0)| && a < |ks| && b < |ks|
    requires NodesOf(d, ks, 0)[p] in Nodes(d, ks[a]) && NodesOf(d, ks, 0)[q] in Nodes(d, ks[b])
    ensures a <= b
  {
    var bs := Blocks(d, ks, 0);
    FlattenBlocks(d, ks, 0);
    RootBlocksApart(d);
    FlatOrder(bs, p, q, a, b);
  }

  /** The children of the parent of a listed node t: t and its siblings, in order. */
  function SiblingsOf(d: Doc, t: nat): (r: seq<nat>)
    requires Ordered(d) && Linked(d, t)
    ensures t in r
  {
    Kids(d[d[t].parent.value])
  }

  /** The siblings of t lie after their parent and inside the arena. */
  lemma SiblingsBounded(d: Doc, t: nat)
    requires Ordered(d) && Linked(d, t)
    ensures forall k :: 0 <= k < |SiblingsOf(d, t)| ==> d[t].parent.value < SiblingsOf(d, t)[k] < |d|
  {
  }

  /** get_content_before_tag without the tag: the markup of the siblings before t. */
  function Before(d: Doc, t: nat): string
    requires Ordered(d) && Linked(d, t)
  {
    var ks := SiblingsOf(d, t);
    RenderKids(d, ks[..IndexOf(ks, t)], d[t].parent.value)
  }

  /** get_content_after_tag without the tag: the markup of the siblings after t. */
  function After(d: Doc, t: nat): string
    requires Ordered(d) && Linked(d, t)
  {
    var ks := SiblingsOf(d, t);
    RenderKids(d, ks[IndexOf(ks, t) + 1..], d[t].parent.value)
  }

  /** The position of the first t2 in ks at or after from, or |ks| when there is none. */
  function Stop(ks: seq<nat>, from: nat, t2: nat): (e: nat)
    requires from <= |ks|
    ensures from <= e <= |ks|
    ensures forall j :: from <= j < e ==> ks[j] != t2
    ensures e < |ks| ==> ks[e] == t2
    decreases |ks| - from
  {
    if from == |ks| || ks[from] == t2 then from else Stop(ks, from + 1, t2)
  }

  /** get_content_between_two_tags: the markup of the siblings after t1 up to t2, or to the end when t2 does not follow. */
  function Between(d: Doc, t1: nat, t2: nat): string
    requires Ordered(d) && Linked(d, t1)
  {
    var ks := SiblingsOf(d, t1);
    var k := IndexOf(ks, t1);
    RenderKids(d, ks[k + 1..Stop(ks, k + 1, t2)], d[t1].parent.value)
  }

  /** get_content_before_tag: prepends the markup of each earlier sibling, nearest first. */
  method GetContentBeforeTag(d: Doc, t: nat, includeTag: bool) returns (r: string)
    requires WellFormed(d) && Linked(d, t)
    ensures r == if includeTag then Render(d, t) + Before(d, t) else Before(d, t)
  {
    var p := d[t].parent.value;
    var ks := SiblingsOf(d, t);
    SiblingsBounded(d, t);
    var k := IndexOf(ks, t);
    r := "";
    var i: nat := k;
    while i > 0
      invariant i <= k && r == RenderKids(d, ks[i..k], p)
    {
      i := i - 1;
      assert ks[i..k][1..] == ks[i + 1..k];
      r := Render(d, ks[i]) + r;
    }
    assert ks[i..k] == ks[..k];
    if includeTag {
      r := Render(d, t) + r;
    }
  }

  /** get_content_after_tag: appends the markup of each later sibling. */
  method GetContentAfterTag(d: Doc, t: nat, includeTag: bool) returns (r: string)
    requires WellFormed(d) && Linked(d, t)
    ensures r == if includeTag then After(d, t) + Render(d, t) else After(d, t)
  {
    var p := d[t].parent.value;
    var ks := SiblingsOf(d, t);
    SiblingsBounded(d, t);
    var k := IndexOf(ks, t);
    r := AppendSiblings(d, ks, p, k + 1);
    if includeTag {
      r := r + Render(d, t);
    }
  }

  /** The loop of get_content_after_tag: the markup of ks[lo..], one sibling at a time. */
  method AppendSiblings(d: Doc, ks: seq<nat>, p: nat, lo: nat) returns (r: string)
    requires Ordered(d) && p < |d| && lo <= |ks| && forall m :: 0 <= m < |ks| ==> p < ks[m] < |d|
    ensures r == RenderKids(d, ks[lo..], p)
  {
    r := "";
    var i := lo;
    while i < |ks|
      invariant lo <= i <= |ks| && r == RenderKids(d, ks[lo..i], p)
    {
      AppendSibling(d, ks, p, lo, i);
      r := r + Render(d, ks[i]);
      i := i + 1;
    }
    assert ks[lo..i] == ks[lo..];
  }

  /** get_content_between_two_tags: appends the markup of each sibling after t1 until t2 or the end. */
  method GetContentBetweenTwoTags(d: Doc, t1: nat, t2: nat) returns (r: string)
    requires WellFormed(d) && Linked(d, t1)
    ensures r == Between(d, t1, t2)
  {
    var p := d[t1].parent.value;
    var ks := SiblingsOf(d, t1);
    SiblingsBounded(d, t1);
    var k := IndexOf(ks, t1);
    r := AppendSiblingsUntil(d, ks, p, k + 1, t2);
  }

  /** The loop of get_content_between_two_tags: the markup of ks[lo..], one sibling at a time, up to t2. */
  method AppendSiblingsUntil(d: Doc, ks: seq<nat>, p: nat, lo: nat, t2: nat) returns (r: string)
    requires Ordered(d) && p < |d| && lo <= |ks| && forall m :: 0 <= m < |ks| ==> p < ks[m] < |d|
    ensures r == RenderKids(d, ks[lo..Stop(ks, lo, t2)], p)
  {
    ghost var e := Stop(ks, lo, t2);
    r := "";
    var i := lo;
    while i < |ks| && ks[i] != t2
      invariant lo <= i <= e && r == RenderKids(d, ks[lo..i], p)
    {
      assert i < e;
      AppendSibling(d, ks, p, lo, i);
      r := r + Render(d, ks[i]);
      i := i + 1;
    }
  }

  /** Appending one sibling's markup extends the markup of a run of siblings by one. */
  lemma AppendSibling(d: Doc, ks: seq<nat>, p: nat, lo: nat, i: nat)
    requires Ordered(d) && p < |d| && lo <= i < |ks| && forall k :: 0 <= k < |ks| ==> p < ks[k] < |d|
    ensures RenderKids(d, ks[lo..i + 1], p) == RenderKids(d, ks[lo..i], p) + Render(d, ks[i])
  {
    assert ks[lo..i + 1] == ks[lo..i] + [ks[i]];
    RenderKidsAppend(d, ks[lo..i], [ks[i]], p);
  }

  /** A list of children is its part before position k, the child at k, and its part after k. */
  lemma Rejoin3(d: Doc, ks: seq<nat>, p: nat, k: nat)
    requires Ordered(d) && p < |d| && k < |ks| && forall m :: 0 <= m < |ks| ==> p < ks[m] < |d|
    ensures RenderKids(d, ks[..k], p) + Render(d, ks[k]) + RenderKids(d, ks[k + 1..], p) == RenderKids(d, ks, p)
  {
    assert ks == ks[..k] + [ks[k]] + ks[k + 1..];
    RenderKidsAppend(d, ks[..k] + [ks[k]], ks[k + 1..], p);
    RenderKidsAppend(d, ks[..k], [ks[k]], p);
  }

  /** A list of children cut at two positions a < b into five consecutive pieces. */
  lemma Rejoin5(d: Doc, ks: seq<nat>, p: nat, a: nat, b: nat)
    requires Ordered(d) && p < |d| && a < b < |ks| && forall m :: 0 <= m < |ks| ==> p < ks[m] < |d|
    ensures RenderKids(d, ks[..a], p) + Render(d, ks[a]) + RenderKids(d, ks[a + 1..b], p) + Render(d, ks[b])
      + RenderKids(d, ks[b + 1..], p) == RenderKids(d, ks, p)
  {
    Rejoin3(d, ks, p, b);
    var h := ks[..b];
    assert h[..a] == ks[..a] && h[a + 1..] == ks[a + 1..b];
    Rejoin3(d, h, p, a);
  }

  /** The siblings before t, t itself and the siblings after it make up the parent's markup. */
  lemma SiblingsRejoin(d: Doc, t: nat)
    requires Ordered(d) && Linked(d, t)
    ensures Before(d, t) + Render(d, t) + After(d, t) == RenderKids(d, SiblingsOf(d, t), d[t].parent.value)
  {
    SiblingsBounded(d, t);
    var ks := SiblingsOf(d, t);
    Rejoin3(d, ks, d[t].parent.value, IndexOf(ks, t));
  }

  /** For two siblings t1 before t2, the parent's markup is cut into five consecutive pieces. */
  lemma BetweenRejoin(d: Doc, t1: nat, t2: nat)
    requires Ordered(d) && Linked(d, t1) && Linked(d, t2) && d[t1].parent == d[t2].parent
    requires Distinct(SiblingsOf(d, t1))
    requires IndexOf(SiblingsOf(d, t1), t1) < IndexOf(SiblingsOf(d, t1), t2)
    ensures Before(d, t1) + Render(d, t1) + Between(d, t1, t2) + Render(d, t2) + After(d, t2)
      == RenderKids(d, SiblingsOf(d, t1), d[t1].parent.value)
  {
    SiblingsBounded(d, t1);
    var ks, p := SiblingsOf(d, t1), d[t1].parent.value;
    SameSiblings(d, t1, t2);
    var a, b := IndexOf(ks, t1), IndexOf(ks, t2);
    assert ks[a] == t1 && ks[b] == t2;
    FivePieces(d, ks, p, a, b);
    PiecesAt(d, t1, t2);
  }

  /** Before, Between and After, as slices of the siblings of t1. */
  lemma PiecesAt(d: Doc, t1: nat, t2: nat)
    requires Ordered(d) && Linked(d, t1) && Linked(d, t2) && d[t1].parent == d[t2].parent
    ensures var ks, p := SiblingsOf(d, t1), d[t1].parent.value; var a, b := IndexOf(ks, t1), IndexOf(ks, t2);
      && Before(d, t1) == RenderKids(d, ks[..a], p)
      && Between(d, t1, t2) == RenderKids(d, ks[a + 1..Stop(ks, a + 1, ks[b])], p)
      && After(d, t2) == RenderKids(d, ks[b + 1..], p)
  {
    BetweenAt(d, t1, t2);
    SameSiblings(d, t1, t2);
    AfterIn(d, t2, SiblingsOf(d, t1), d[t1].parent.value);
  }

  /** Between, as a slice of the siblings of t1 ending at the first t2. */
  lemma BetweenAt(d: Doc, t1: nat, t2: nat)
    requires Ordered(d) && Linked(d, t1) && Linked(d, t2) && d[t1].parent == d[t2].parent
    ensures var ks, p := SiblingsOf(d, t1), d[t1].parent.value; var a, b := IndexOf(ks, t1), IndexOf(ks, t2);
      Between(d, t1, t2) == RenderKids(d, ks[a + 1..Stop(ks, a + 1, ks[b])], p)
  {
    var ks := SiblingsOf(d, t1);
    assert ks == SiblingsOf(d, t2);
    assert ks[IndexOf(ks, t2)] == t2;
  }

  /** Two nodes with one parent have the same siblings. */
  lemma SameSiblings(d: Doc, t1: nat, t2: nat)
    requires Ordered(d) && Linked(d, t1) && Linked(d, t2) && d[t1].parent == d[t2].parent
    ensures SiblingsOf(d, t1) == SiblingsOf(d, t2) && t2 in SiblingsOf(d, t1)
  {
  }

  /** After t, given t's siblings ks and parent p. */
  lemma AfterIn(d: Doc, t: nat, ks: seq<nat>, p: nat)
    requires Ordered(d) && Linked(d, t) && ks == SiblingsOf(d, t) && p == d[t].parent.value
    ensures After(d, t) == RenderKids(d, ks[IndexOf(ks, t) + 1..], p)
  {
  }

  /** Rejoin5 with the middle piece found by the search for the second cut. */
  lemma FivePieces(d: Doc, ks: seq<nat>, p: nat, a: nat, b: nat)
    requires Ordered(d) && p < |d| && a < b < |ks| && Distinct(ks) && forall m :: 0 <= m < |ks| ==> p < ks[m] < |d|
    ensures RenderKids(d, ks[..a], p) + Render(d, ks[a]) + RenderKids(d, ks[a + 1..Stop(ks, a + 1, ks[b])], p) + Render(d, ks[b])
      + RenderKids(d, ks[b + 1..], p) == RenderKids(d, ks, p)
  {
    StopAt(ks, a + 1, b);
    Rejoin5(d, ks, p, a, b);
  }

  /** In a list without repeats, the search for the element at e stops at e. */
  lemma StopAt(ks: seq<nat>, from: nat, e: nat)
    requires Distinct(ks) && from <= e < |ks|
    ensures Stop(ks, from, ks[e]) == e
  {
  }

  /** The anchors' top-level elements, when present, are listed among their parent's children. */
  ghost predicate AnchorsLinked(d: Doc, tb: (Option<nat>, Option<nat>))
  {
    (tb.0.Some? ==> Linked(d, tb.0.value)) && (tb.1.Some? ==> Linked(d, tb.1.value))
  }

  lemma DetectedLinked(d: Doc)
    requires WellFormed(d)
    ensures AnchorsLinked(d, Detected(d))
  {
    DetectedInRoot(d);
  }

  /** extract's three parts of the page for the top-level anchors tb, as the branches of extract choose them. */
  function Cut(d: Doc, tb: (Option<nat>, Option<nat>)): (string, string, string)
    requires WellFormed(d) && AnchorsLinked(d, tb)
  {
    var (top, bottom) := tb;
    if top.Some? && bottom.Some? then (Before(d, top.value), Between(d, top.value, bottom.value), After(d, bottom.value))
    else if top.Some? then (Before(d, top.value), "", After(d, top.value))
    else ("", RenderDoc(d), "")
  }

  /** extract, on the page already parsed. */
  method Extract(d: Doc) returns (before: string, foliant: string, after: string)
    requires WellFormed(d)
    ensures AnchorsLinked(d, Detected(d)) && (before, foliant, after) == Cut(d, Detected(d))
  {
    DetectedLinked(d);
    var top, bottom := DetectFoliantBlocks(d);
    if top.Some? && bottom.Some? {
      before := GetContentBeforeTag(d, top.value, false);
      foliant := GetContentBetweenTwoTags(d, top.value, bottom.value);
      after := GetContentAfterTag(d, bottom.value, false);
    } else if top.Some? {
      before := GetContentBeforeTag(d, top.value, false);
      foliant := "";
      after := GetContentAfterTag(d, top.value, false);
      return before, "", after;
    } else {
      before, after := "", "";
      foliant := RenderDoc(d);
    }
  }

  /**
   * The three parts of extract put back together with the anchors' top-level
   * elements give the whole page, in order: nothing is lost or repeated.
   */
  lemma ExtractRejoins(d: Doc)
    requires WellFormed(d)
    ensures AnchorsLinked(d, Detected(d))
    ensures var (before, foliant, after) := Cut(d, Detected(d));
      var (top, bottom) := Detected(d);
      && (top.Some? && bottom.Some? ==>
            before + Render(d, top.value) + foliant + Render(d, bottom.value) + after == RenderDoc(d))
      && (top.Some? && bottom.None? ==> foliant == "" && before + Render(d, top.value) + after == RenderDoc(d))
      && (top.None? ==> before == "" && after == "" && foliant == RenderDoc(d))
  {
    DetectedInRoot(d);
    DetectedOrder(d);
    var (top, bottom) := Detected(d);
    if top.Some? {
      var t := top.value;
      assert d[t].parent == Some(0);
      if bottom.Some? {
        assert d[bottom.value].parent == Some(0);
        assert Distinct(Kids(d[0]));
        BetweenRejoin(d, t, bottom.value);
      } else {
        SiblingsRejoin(d, t);
      }
    }
  }
}
