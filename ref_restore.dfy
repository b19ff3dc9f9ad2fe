/**
 * restore_equal_refs and insert_unequal_refs of ref_diff.py: the comments
 * found for the new page are spliced into its tree, either as a copy of the
 * old string's pieces or as markers around equal chunks of the new string.
 */
module RefRestore {
  import opened Wrappers
  import opened Text
  import opened Markup
  import opened RefTree
  import opened RefDict
  import opened RefPlaces

  /** What is put into the new page in place of a string: a string, or a marker holding at most one string. */
  datatype Piece = Str(text: string) | Mark(name: string, attrs: seq<Attr>, inner: Option<string>)

  function PieceText(pc: Piece): string
  {
    match pc
    case Str(t) => t
    case Mark(_, _, inner) => if inner.Some? then inner.value else ""
  }

  /** The text a list of pieces reads as, once in the page. */
  function PiecesText(ps: seq<Piece>): string
  {
    if ps == [] then "" else PiecesText(ps[..|ps| - 1]) + PieceText(ps[|ps| - 1])
  }

  lemma {:induction false} PiecesTextAppend(a: seq<Piece>, b: seq<Piece>)
    ensures PiecesText(a + b) == PiecesText(a) + PiecesText(b)
    decreases |b|
  {
    if b == [] {
      assert a + b == a;
    } else {
      var n := |b| - 1;
      assert (a + b)[..|a + b| - 1] == a + b[..n];
      PiecesTextAppend(a, b[..n]);
    }
  }

  /** The ids of the markers among the pieces, in order. */
  function MarkIds(ps: seq<Piece>): seq<string>
  {
    if ps == [] then []
    else
      var last := ps[|ps| - 1];
      MarkIds(ps[..|ps| - 1])
      + (if last.Mark? && AttrValue(last.attrs, RefAttr).Some? then [AttrValue(last.attrs, RefAttr).value] else [])
  }

  lemma {:induction false} MarkIdsAppend(a: seq<Piece>, b: seq<Piece>)
    ensures MarkIds(a + b) == MarkIds(a) + MarkIds(b)
    decreases |b|
  {
    if b == [] {
      assert a + b == a;
    } else {
      var n := |b| - 1;
      assert (a + b)[..|a + b| - 1] == a + b[..n];
      MarkIdsAppend(a, b[..n]);
    }
  }

  /** A record's 'before' is a string of d, or a record that describes d. */
  ghost predicate BeforeHolds(d: Doc, b: Before)
    requires Ordered(d)
  {
    match b
    case NoBefore => true
    case BeforeRun(run) => run < |d| && d[run].TextNode?
    case Absorbed(i) => Holds(d, i)
  }

  /**
   * get_content_list: the pieces of the old string a record describes, in
   * order: the pieces of the record it absorbed or the string before its
   * marker, a copy of the marker, and the string after it.
   */
  function ContentList(d: Doc, info: RefInfo): (r: seq<Piece>)
    requires Ordered(d) && Holds(d, info)
    ensures |r| > 0
    decreases info, 1
  {
    assert BeforeHolds(d, info.before);
    BeforePieces(d, info.before) + [MarkPiece(d, info.comment)] + AfterPieces(d, info.after)
  }

  function BeforePieces(d: Doc, b: Before): (r: seq<Piece>)
    requires Ordered(d) && BeforeHolds(d, b)
    decreases b, 0
  {
    match b
    case NoBefore => []
    case BeforeRun(run) => [Str(d[run].text)]
    case Absorbed(prev) => ContentList(d, prev)
  }

  /** A copy of a marker that holds at most one string. */
  function MarkPiece(d: Doc, c: nat): (r: Piece)
    requires Ordered(d) && c < |d| && d[c].ElemNode? && Wraps(d, c)
    ensures r.Mark? && r.name == d[c].name && r.attrs == d[c].attrs && PieceText(r) == CommentText(d, c)
  {
    Mark(d[c].name, d[c].attrs, if Kids(d[c]) == [] then None else Some(CommentText(d, c)))
  }

  function AfterPieces(d: Doc, after: Option<nat>): (r: seq<Piece>)
    requires after.Some? ==> after.value < |d| && d[after.value].TextNode?
  {
    if after.Some? then [Str(d[after.value].text)] else []
  }

  /** The pieces read as the old string they were taken from. */
  lemma {:induction false} ContentText(d: Doc, info: RefInfo)
    requires Ordered(d) && Holds(d, info)
    ensures PiecesText(ContentList(d, info)) == d[info.full].text
    decreases info, 1
  {
    assert BeforeHolds(d, info.before);
    var head, mark, tail := BeforePieces(d, info.before), [MarkPiece(d, info.comment)], AfterPieces(d, info.after);
    BeforeText1(d, info.before);
    assert PiecesText(mark) == CommentText(d, info.comment) by {
      assert mark[..0] == [];
    }
    assert PiecesText(tail) == RunText(d, info.after) by {
      if tail != [] {
        assert tail[..0] == [];
      }
    }
    JoinText(head, mark, tail);
  }

  lemma {:induction false} BeforeText1(d: Doc, b: Before)
    requires Ordered(d) && BeforeHolds(d, b)
    ensures PiecesText(BeforePieces(d, b)) == BeforeText(d, b)
    decreases b, 0
  {
    match b {
      case NoBefore =>
      case BeforeRun(run) =>
        assert [Str(d[run].text)][..0] == [];
      case Absorbed(prev) =>
        ContentText(d, prev);
    }
  }

  lemma JoinText(a: seq<Piece>, b: seq<Piece>, c: seq<Piece>)
    ensures PiecesText(a + b + c) == PiecesText(a) + PiecesText(b) + PiecesText(c)
  {
    PiecesTextAppend(a + b, c);
    PiecesTextAppend(a, b);
  }

  /** The markers among the pieces carry the ids of the record's chain, the earliest first. */
  lemma {:induction false} ContentIds(d: Doc, info: RefInfo)
    requires Ordered(d) && Holds(d, info)
    ensures MarkIds(ContentList(d, info)) == ChainIds(info)
    decreases info, 1
  {
    assert BeforeHolds(d, info.before);
    var head, mark, tail := BeforePieces(d, info.before), [MarkPiece(d, info.comment)], AfterPieces(d, info.after);
    MarkIdsAppend(head + mark, tail);
    MarkIdsAppend(head, mark);
    assert MarkIds(mark) == [info.refId] by {
      assert mark[..0] == [];
    }
    assert MarkIds(tail) == [] by {
      if tail != [] {
        assert tail[..0] == [];
      }
    }
    BeforeIds(d, info.before);
  }

  lemma {:induction false} BeforeIds(d: Doc, b: Before)
    requires Ordered(d) && BeforeHolds(d, b)
    ensures MarkIds(BeforePieces(d, b)) == if b.Absorbed? then ChainIds(b.info) else []
    decreases b, 0
  {
    match b {
      case NoBefore =>
      case BeforeRun(run) =>
        assert [Str(d[run].text)][..0] == [];
      case Absorbed(prev) =>
        ContentIds(d, prev);
    }
  }

  /** The nodes a piece becomes when its first node goes to index n of the arena, under p. */
  function PieceNodes(n: nat, p: nat, pc: Piece): (r: seq<Node>)
    ensures 0 < |r| <= 2
  {
    match pc
    case Str(t) => [TextNode(t, Some(p))]
    case Mark(name, attrs, inner) =>
      if inner.None? then [ElemNode(name, attrs, Some(p), [])]
      else [ElemNode(name, attrs, Some(p), [n + 1]), TextNode(inner.value, Some(n))]
  }

  /** The arena with a piece appended and nk as the new children of p. */
  function Put(d: Doc, p: nat, nk: seq<nat>, pc: Piece): (r: Doc)
    requires p < |d| && d[p].ElemNode?
  {
    (d + PieceNodes(|d|, p, pc))[p := d[p].(children := nk)]
  }

  /** target.replace_with(piece), for the target at position k among the children of p; the target stays in the arena, detached. */
  function ReplacedBy(d: Doc, p: nat, k: nat, pc: Piece): (r: Doc)
    requires p < |d| && d[p].ElemNode? && k < |Kids(d[p])|
  {
    var ks := Kids(d[p]);
    Put(d, p, ks[..k] + [|d|] + ks[k + 1..], pc)
  }

  /** insert_after of a piece behind the child at position at - 1 of p. */
  function InsertedAt(d: Doc, p: nat, at: nat, pc: Piece): (r: Doc)
    requires p < |d| && d[p].ElemNode? && at <= |Kids(d[p])|
  {
    var ks := Kids(d[p]);
    Put(d, p, ks[..at] + [|d|] + ks[at..], pc)
  }

  /**
   * The first piece replaces the k-th child of p, and each further piece is
   * inserted after the one before it.
   */
  function Spliced(d: Doc, p: nat, k: nat, ps: seq<Piece>): (r: Doc)
    requires p < |d| && d[p].ElemNode? && k < |Kids(d[p])| && ps != []
    ensures p < |r| && r[p].ElemNode? && |Kids(r[p])| == |Kids(d[p])| + |ps| - 1
    decreases |ps|
  {
    if |ps| == 1 then ReplacedBy(d, p, k, ps[0])
    else
      var n := |ps| - 1;
      InsertedAt(Spliced(d, p, k, ps[..n]), p, k + n, ps[n])
  }

  lemma DistinctInsert(a: seq<nat>, b: seq<nat>, n: nat)
    requires Distinct(a + b) && n !in a + b
    ensures Distinct(a + [n] + b)
  {
    var s := a + [n] + b;
    var t := a + b;
    forall i, j | 0 <= i < j < |s| ensures s[i] != s[j] {
      if i < |a| && j < |a| {
        assert s[i] == t[i] && s[j] == t[j];
      } else if i < |a| && j > |a| {
        assert s[i] == t[i] && s[j] == t[j - 1];
      } else if i > |a| {
        assert s[i] == t[i - 1] && s[j] == t[j - 1];
      } else if i == |a| {
        assert s[j] == t[j - 1];
      } else {
        assert s[i] == t[i];
      }
    }
  }

  lemma DistinctDrop(ks: seq<nat>, k: nat)
    requires Distinct(ks) && k < |ks|
    ensures Distinct(ks[..k] + ks[k + 1..]) && ks[k] !in ks[..k] + ks[k + 1..]
  {
    var t := ks[..k] + ks[k + 1..];
    forall i, j | 0 <= i < j < |t| ensures t[i] != t[j] {
      var i' := if i < k then i else i + 1;
      var j' := if j < k then j else j + 1;
      assert t[i] == ks[i'] && t[j] == ks[j'];
    }
    forall i | 0 <= i < |t| ensures t[i] != ks[k] {
      var i' := if i < k then i else i + 1;
      assert t[i] == ks[i'];
    }
  }

  /** r is d with p given the children nk, drawn from its old ones and from one or two new nodes under it. */
  ghost predicate PutShape(d: Doc, r: Doc, p: nat, nk: seq<nat>)
  {
    && WellFormed(d) && p < |d| && d[p].ElemNode? && |d| < |r| <= |d| + 2
    && r[p] == d[p].(children := nk) && (forall j :: 0 <= j < |d| && j != p ==> r[j] == d[j])
    && r[|d|].parent == Some(p)
    && (|r| == |d| + 1 ==> Kids(r[|d|]) == [])
    && (|r| == |d| + 2 ==> Kids(r[|d|]) == [|d| + 1] && r[|d| + 1].TextNode? && r[|d| + 1].parent == Some(|d|))
    && (forall m :: 0 <= m < |nk| ==> nk[m] == |d| || (p < nk[m] < |d| && d[nk[m]].parent == Some(p)))
    && Distinct(nk)
  }

  lemma PutLinks(d: Doc, r: Doc, p: nat, nk: seq<nat>)
    requires PutShape(d, r, p, nk)
    ensures forall i, k :: 0 <= i < |r| && 0 <= k < |Kids(r[i])| ==> i < Kids(r[i])[k] < |r| && r[Kids(r[i])[k]].parent == Some(i)
  {
    forall i, k | 0 <= i < |r| && 0 <= k < |Kids(r[i])| ensures i < Kids(r[i])[k] < |r| && r[Kids(r[i])[k]].parent == Some(i) {
      PutLinkAt(d, r, p, nk, i, k);
    }
  }

  lemma PutLinkAt(d: Doc, r: Doc, p: nat, nk: seq<nat>, i: nat, k: nat)
    requires PutShape(d, r, p, nk) && i < |r| && k < |Kids(r[i])|
    ensures i < Kids(r[i])[k] < |r| && r[Kids(r[i])[k]].parent == Some(i)
  {
    if i == p {
      NewKidLink(d, r, p, nk, k);
    } else if i < |d| {
      OldKidLink(d, r, p, i, k);
    }
  }

  /** A child p was given points back to p. */
  lemma NewKidLink(d: Doc, r: Doc, p: nat, nk: seq<nat>, k: nat)
    requires p < |d| < |r| && k < |nk| && r[p].ElemNode? && r[p].children == nk && r[|d|].parent == Some(p)
    requires nk[k] == |d| || (p < nk[k] < |d| && d[nk[k]].parent == Some(p))
    requires forall j :: 0 <= j < |d| && j != p ==> r[j] == d[j]
    ensures p < nk[k] < |r| && r[nk[k]].parent == Some(p)
  {
    var c := nk[k];
    if c != |d| {
      assert r[c] == d[c];
    }
  }

  /** A node other than p keeps its children, and they keep their parent link. */
  lemma OldKidLink(d: Doc, r: Doc, p: nat, i: nat, k: nat)
    requires WellFormed(d) && p < |d| <= |r| && i < |d| && i != p && k < |Kids(d[i])|
    requires r[p].parent == d[p].parent
    requires forall j :: 0 <= j < |d| && j != p ==> r[j] == d[j]
    ensures Kids(r[i]) == Kids(d[i]) && i < Kids(d[i])[k] < |r| && r[Kids(d[i])[k]].parent == Some(i)
  {
    assert r[i] == d[i];
    var c := Kids(d[i])[k];
    assert i < c < |d| && d[c].parent == Some(i);
    assert r[c].parent == d[c].parent;
  }

  lemma PutDistinct(d: Doc, r: Doc, p: nat, nk: seq<nat>)
    requires PutShape(d, r, p, nk)
    ensures forall i {:trigger Kids(r[i])} :: 0 <= i < |r| ==> Distinct(Kids(r[i]))
  {
    forall i | 0 <= i < |r| ensures Distinct(Kids(r[i])) {
      if i != p && i < |d| {
        assert Kids(r[i]) == Kids(d[i]);
      }
    }
  }

  /** The arena stays well formed when p gets children drawn from its old ones and from one or two new nodes under it. */
  lemma PutWellFormed(d: Doc, r: Doc, p: nat, nk: seq<nat>)
    requires PutShape(d, r, p, nk)
    ensures WellFormed(r)
  {
    PutLinks(d, r, p, nk);
    PutDistinct(d, r, p, nk);
    forall i | 0 < i < |r| ensures r[i].parent.Some? && r[i].parent.value < i {
      if i < |d| && i != p {
        assert r[i] == d[i];
      }
    }
  }

  /** What one step of a splice does: p gets the children nk, the piece is appended, every other node stays. */
  lemma PutFacts(d: Doc, p: nat, nk: seq<nat>, pc: Piece)
    requires WellFormed(d) && p < |d| && d[p].ElemNode?
    requires forall m :: 0 <= m < |nk| ==> nk[m] == |d| || (p < nk[m] < |d| && d[nk[m]].parent == Some(p))
    requires Distinct(nk)
    ensures var r := Put(d, p, nk, pc);
      && WellFormed(r) && |r| == |d| + |PieceNodes(|d|, p, pc)|
      && r[p] == d[p].(children := nk)
      && (forall j :: 0 <= j < |d| && j != p ==> r[j] == d[j])
      && TextOf(r, |d|) == PieceText(pc)
  {
    var r := Put(d, p, nk, pc);
    var n := |d|;
    PutAt(d, p, nk, pc);
    PutShaped(d, p, nk, pc);
    PutWellFormed(d, r, p, nk);
    if pc.Mark? && pc.inner.Some? {
      assert Kids(r[n]) == [n + 1];
      assert [n + 1][1..] == [];
      assert TextOf(r, n) == TextOf(r, n + 1) + KidsText(r, [], n);
    }
  }

  /** Where everything sits after Put. */
  lemma PutAt(d: Doc, p: nat, nk: seq<nat>, pc: Piece)
    requires p < |d| && d[p].ElemNode?
    ensures var r, pn := Put(d, p, nk, pc), PieceNodes(|d|, p, pc);
      && |r| == |d| + |pn| && r[p] == d[p].(children := nk)
      && (forall j :: 0 <= j < |d| && j != p ==> r[j] == d[j])
      && (forall j :: |d| <= j < |r| ==> r[j] == pn[j - |d|])
  {
  }

  lemma PutShaped(d: Doc, p: nat, nk: seq<nat>, pc: Piece)
    requires WellFormed(d) && p < |d| && d[p].ElemNode?
    requires forall m :: 0 <= m < |nk| ==> nk[m] == |d| || (p < nk[m] < |d| && d[nk[m]].parent == Some(p))
    requires Distinct(nk)
    ensures PutShape(d, Put(d, p, nk, pc), p, nk)
  {
    var r, n := Put(d, p, nk, pc), |d|;
    PutAt(d, p, nk, pc);
    match pc
    case Str(t) =>
      assert r[n] == TextNode(t, Some(p));
    case Mark(name, attrs, inner) =>
      if inner.None? {
        assert r[n] == ElemNode(name, attrs, Some(p), []);
      } else {
        assert r[n] == ElemNode(name, attrs, Some(p), [n + 1]);
        assert r[n + 1] == TextNode(inner.value, Some(n));
      }
  }

  /** replace_with on the k-th child of p, as one step of a splice. */
  lemma ReplaceStep(d: Doc, p: nat, k: nat, pc: Piece)
    requires WellFormed(d) && p < |d| && d[p].ElemNode? && k < |Kids(d[p])|
    ensures var r, ks := ReplacedBy(d, p, k, pc), Kids(d[p]);
      && WellFormed(r) && |d| < |r|
      && r[p] == d[p].(children := ks[..k] + [|d|] + ks[k + 1..])
      && (forall j :: 0 <= j < |d| && j != p ==> r[j] == d[j])
      && TextOf(r, |d|) == PieceText(pc)
  {
    var ks := Kids(d[p]);
    var nk := ks[..k] + [|d|] + ks[k + 1..];
    assert forall m :: 0 <= m < |ks| ==> p < ks[m] < |d| && d[ks[m]].parent == Some(p);
    DistinctDrop(ks, k);
    DistinctInsert(ks[..k], ks[k + 1..], |d|);
    PutFacts(d, p, nk, pc);
  }

  /** insert_after at position at among the children of p, as one step of a splice. */
  lemma InsertStep(d: Doc, p: nat, at: nat, pc: Piece)
    requires WellFormed(d) && p < |d| && d[p].ElemNode? && at <= |Kids(d[p])|
    ensures var r, ks := InsertedAt(d, p, at, pc), Kids(d[p]);
      && WellFormed(r) && |d| < |r|
      && r[p] == d[p].(children := ks[..at] + [|d|] + ks[at..])
      && (forall j :: 0 <= j < |d| && j != p ==> r[j] == d[j])
      && TextOf(r, |d|) == PieceText(pc)
  {
    var ks := Kids(d[p]);
    var nk := ks[..at] + [|d|] + ks[at..];
    assert forall m :: 0 <= m < |ks| ==> p < ks[m] < |d| && d[ks[m]].parent == Some(p);
    assert ks[..at] + ks[at..] == ks;
    DistinctInsert(ks[..at], ks[at..], |d|);
    PutFacts(d, p, nk, pc);
  }

  /** The text of the new children grows by the text of the newest one. */
  lemma TopsText(e: Doc, r: Doc, p: nat, prev: seq<nat>, x: nat)
    requires Ordered(e) && Ordered(r) && p < |e| <= x < |r|
    requires forall m :: 0 <= m < |prev| ==> p < prev[m] < |e|
    requires forall j :: 0 <= j < |e| && j != p ==> r[j] == e[j]
    ensures KidsText(r, prev + [x], p) == KidsText(e, prev, p) + TextOf(r, x)
  {
    KidsTextUnchangedAbove(e, r, prev, p);
    KidsTextAppend(r, prev, [x], p);
    assert KidsText(r, [x], p) == TextOf(r, x) + KidsText(r, [], p);
  }

  /**
   * What a splice of the pieces ps into the k-th child of p leaves: the
   * pieces' top nodes tops stand in the target's place and read as the
   * pieces' text, and nothing else of the arena changes.
   */
  ghost predicate SpliceHolds(d: Doc, r: Doc, p: nat, k: nat, ps: seq<Piece>, tops: seq<nat>)
    requires WellFormed(d) && p < |d| && k < |Kids(d[p])|
  {
    var ks := Kids(d[p]);
    && WellFormed(r) && |d| <= |r|
    && r[p] == d[p].(children := ks[..k] + tops + ks[k + 1..])
    && |tops| == |ps| && (forall m :: 0 <= m < |tops| ==> |d| <= tops[m] < |r|)
    && KidsText(r, tops, p) == PiecesText(ps)
    && (forall j :: 0 <= j < |d| && j != p ==> r[j] == d[j])
  }

  lemma {:induction false} SplicedFacts(d: Doc, p: nat, k: nat, ps: seq<Piece>) returns (tops: seq<nat>)
    requires WellFormed(d) && p < |d| && d[p].ElemNode? && k < |Kids(d[p])| && ps != []
    ensures SpliceHolds(d, Spliced(d, p, k, ps), p, k, ps, tops)
    decreases |ps|
  {
    if |ps| == 1 {
      ReplaceStep(d, p, k, ps[0]);
      tops := [|d|];
      TopsText(d, Spliced(d, p, k, ps), p, [], |d|);
      assert ps == ps[..0] + [ps[0]];
    } else {
      var n := |ps| - 1;
      var prev := SplicedFacts(d, p, k, ps[..n]);
      var e := Spliced(d, p, k, ps[..n]);
      assert k + n <= |Kids(e[p])|;
      tops := SpliceMore(d, e, Spliced(d, p, k, ps), p, k, ps, prev);
    }
  }

  /** One more piece inserted after the ones already spliced in. */
  lemma SpliceMore(d: Doc, e: Doc, r: Doc, p: nat, k: nat, ps: seq<Piece>, prev: seq<nat>) returns (tops: seq<nat>)
    requires WellFormed(d) && p < |d| && d[p].ElemNode? && k < |Kids(d[p])| && |ps| > 1
    requires SpliceHolds(d, e, p, k, ps[..|ps| - 1], prev)
    requires k + |ps| - 1 <= |Kids(e[p])| && r == InsertedAt(e, p, k + |ps| - 1, ps[|ps| - 1])
    ensures SpliceHolds(d, r, p, k, ps, tops)
  {
    var ks := Kids(d[p]);
    var n := |ps| - 1;
    InsertStep(e, p, k + n, ps[n]);
    tops := prev + [|e|];
    KidsAfterInsert(ks, k, prev, Kids(e[p]), |e|);
    TopsText(e, r, p, prev, |e|);
    assert ps[..n] == ps[..|ps| - 1];
  }

  /** Inserting x right after the spliced-in children prev extends prev by x. */
  lemma KidsAfterInsert(ks: seq<nat>, k: nat, prev: seq<nat>, ek: seq<nat>, x: nat)
    requires k < |ks| && ek == ks[..k] + prev + ks[k + 1..]
    ensures ek[..k + |prev|] + [x] + ek[k + |prev|..] == ks[..k] + (prev + [x]) + ks[k + 1..]
  {
    assert ek[..k + |prev|] == ks[..k] + prev;
    assert ek[k + |prev|..] == ks[k + 1..];
  }

  /** Splicing pieces that read as the target's text keeps the text of every node of the page. */
  lemma SplicedText(d: Doc, p: nat, k: nat, ps: seq<Piece>, a: nat)
    requires WellFormed(d) && p < |d| && d[p].ElemNode? && k < |Kids(d[p])| && ps != []
    requires PiecesText(ps) == TextOf(d, Kids(d[p])[k]) && a < |d|
    ensures var r := Spliced(d, p, k, ps); Ordered(r) && a < |r| && TextOf(r, a) == TextOf(d, a)
  {
    var r := Spliced(d, p, k, ps);
    var ks := Kids(d[p]);
    var tops := SplicedFacts(d, p, k, ps);
    assert SpliceHolds(d, r, p, k, ps, tops);
    var pre, post := ks[..k], ks[k + 1..];
    assert forall m :: 0 <= m < |ks| ==> p < ks[m] < |d|;
    assert forall m :: 0 <= m < |pre| ==> pre[m] == ks[m];
    assert forall m :: 0 <= m < |post| ==> post[m] == ks[k + 1 + m];
    KidsTextUnchangedAbove(d, r, pre, p);
    KidsTextUnchangedAbove(d, r, post, p);
    TextOfElem(r, p);
    KidsText3(r, pre, tops, post, p);
    TextAroundChild(d, p, k);
    TextKept(d, r, p, a);
  }

  /** Spliced, with the facts callers need and without the top nodes. */
  lemma SplicedKeeps(d: Doc, p: nat, k: nat, ps: seq<Piece>)
    requires WellFormed(d) && p < |d| && d[p].ElemNode? && k < |Kids(d[p])| && ps != []
    ensures var r := Spliced(d, p, k, ps);
      && WellFormed(r) && |d| <= |r|
      && forall j :: 0 <= j < |d| && d[j].TextNode? ==> r[j] == d[j]
  {
    var tops := SplicedFacts(d, p, k, ps);
  }

  /** The error bs4 raises when the node to replace is not in a tree. */
  const NotInTree: string := "ValueError: Cannot replace one element with another when the element to be replaced is not part of a tree."

  /**
   * The pieces ps spliced in place of node t, as replace_with and a chain of
   * insert_after do; a ValueError when t is not among its parent's children.
   */
  function SpliceDoc(d: Doc, t: nat, ps: seq<Piece>): (r: Result<Doc, string>)
    requires WellFormed(d) && t < |d| && ps != []
    ensures r.Ok? <==> Linked(d, t)
    ensures r.Err? ==> r.error == NotInTree
    ensures r.Ok? ==> WellFormed(r.value) && |d| <= |r.value|
    ensures r.Ok? ==> forall j :: 0 <= j < |d| && d[j].TextNode? ==> r.value[j] == d[j]
  {
    if d[t].parent.Some? && t in Kids(d[d[t].parent.value]) then
      var p := d[t].parent.value;
      SplicedKeeps(d, p, IndexOf(Kids(d[p]), t), ps);
      Ok(Spliced(d, p, IndexOf(Kids(d[p]), t), ps))
    else Err(NotInTree)
  }

  /** Splicing in pieces that read as the replaced node's text keeps the text of every node of the page. */
  lemma SpliceDocText(d: Doc, t: nat, ps: seq<Piece>)
    requires WellFormed(d) && t < |d| && ps != [] && SpliceDoc(d, t, ps).Ok?
    requires PiecesText(ps) == TextOf(d, t)
    ensures forall a :: 0 <= a < |d| ==> TextOf(SpliceDoc(d, t, ps).value, a) == TextOf(d, a)
  {
    var p := d[t].parent.value;
    var k := IndexOf(Kids(d[p]), t);
    forall a | 0 <= a < |d| ensures TextOf(SpliceDoc(d, t, ps).value, a) == TextOf(d, a) {
      SplicedText(d, p, k, ps, a);
    }
  }

  /**
   * target.replace_with(first piece), then each further piece inserted after
   * the one before it.
   */
  method SpliceIn(bs: Soup, target: nat, ps: seq<Piece>) returns (r: Result<(), string>)
    requires bs.Valid() && target < |bs.nodes| && ps != []
    modifies bs
    ensures bs.Valid()
    ensures r.Ok? <==> SpliceDoc(old(bs.nodes), target, ps).Ok?
    ensures r.Ok? ==> bs.nodes == SpliceDoc(old(bs.nodes), target, ps).value
    ensures r.Err? ==> r.error == SpliceDoc(old(bs.nodes), target, ps).error && bs.nodes == old(bs.nodes)
  {
    var d := bs.nodes;
    var parent := d[target].parent;
    if parent.None? || target !in Kids(d[parent.value]) {
      return Err(NotInTree);
    }
    var p := parent.value;
    var k := IndexOf(Kids(d[p]), target);
    SpliceAt(bs, p, k, ps);
    r := Ok(());
  }

  /** The replace_with and insert_after chain, once the target is known to be child k of p. */
  method SpliceAt(bs: Soup, p: nat, k: nat, ps: seq<Piece>)
    requires bs.Valid() && p < |bs.nodes| && bs.nodes[p].ElemNode? && k < |Kids(bs.nodes[p])| && ps != []
    modifies bs
    ensures bs.Valid() && bs.nodes == Spliced(old(bs.nodes), p, k, ps)
  {
    var d := bs.nodes;
    bs.nodes := ReplacedBy(d, p, k, ps[0]);
    assert ps[..1] == [ps[0]];
    var i := 1;
    while i < |ps|
      invariant 1 <= i <= |ps| && bs.nodes == Spliced(d, p, k, ps[..i])
    {
      bs.nodes := InsertedAt(bs.nodes, p, k + i, ps[i]);
      assert ps[..i + 1][..i] == ps[..i];
      i := i + 1;
    }
    assert ps[..i] == ps;
    SplicedKeeps(d, p, k, ps);
  }

  const IndexError: string := "IndexError: list index out of range"

  /** Python's subscript of a list of length n: a negative index counts from the end. */
  function PyIndex(n: nat, i: int): (r: Option<nat>)
    ensures r.Some? <==> -(n as int) <= i < n
    ensures r.Some? ==> r.value < n && (r.value == i || r.value == n + i)
  {
    if 0 <= i < n then Some(i) else if -(n as int) <= i < 0 then Some(n + i) else None
  }

  /** One pass of restore_equal_refs: the record's pieces replace the string its first index names. */
  function RestoreOne(d: Doc, d0: Doc, pl: Place, strings: seq<nat>): (r: Result<Doc, string>)
    requires WellFormed(d) && Ordered(d0) && Holds(d0, pl.info)
    requires forall k :: 0 <= k < |strings| ==> strings[k] < |d|
    ensures r.Ok? ==> WellFormed(r.value) && |d| <= |r.value|
    ensures r.Ok? ==> forall j :: 0 <= j < |d| && d[j].TextNode? ==> r.value[j] == d[j]
  {
    if pl.indices == [] then Err(IndexError)
    else match PyIndex(|strings|, pl.indices[0])
      case None => Err(IndexError)
      case Some(i) => SpliceDoc(d, strings[i], ContentList(d0, pl.info))
  }

  /** The new page after restore_equal_refs, or the first error it meets. */
  function EqualRestored(d: Doc, d0: Doc, equal: seq<Place>, strings: seq<nat>): (r: Result<Doc, string>)
    requires WellFormed(d) && Ordered(d0) && forall pl :: pl in equal ==> Holds(d0, pl.info)
    requires forall k :: 0 <= k < |strings| ==> strings[k] < |d|
    ensures r.Ok? ==> WellFormed(r.value) && |d| <= |r.value|
    ensures r.Ok? ==> forall j :: 0 <= j < |d| && d[j].TextNode? ==> r.value[j] == d[j]
    ensures r.Err? ==> r.error == IndexError || r.error == NotInTree
    decreases |equal|
  {
    if equal == [] then Ok(d)
    else
      assert equal[0] in equal;
      match RestoreOne(d, d0, equal[0], strings)
      case Err(e) => Err(e)
      case Ok(m) => EqualRestored(m, d0, equal[1..], strings)
  }

  /**
   * restore_equal_refs: for each unchanged placement, in order, the pieces of
   * the old string replace the new string its first index names.
   */
  method RestoreEqualRefs(bs: Soup, d0: Doc, equal: seq<Place>, strings: seq<nat>) returns (r: Result<(), string>)
    requires bs.Valid() && Ordered(d0) && forall pl :: pl in equal ==> Holds(d0, pl.info)
    requires forall k :: 0 <= k < |strings| ==> strings[k] < |bs.nodes|
    modifies bs
    ensures bs.Valid()
    ensures r.Ok? <==> EqualRestored(old(bs.nodes), d0, equal, strings).Ok?
    ensures r.Ok? ==> bs.nodes == EqualRestored(old(bs.nodes), d0, equal, strings).value
    ensures r.Err? ==> r.error == EqualRestored(old(bs.nodes), d0, equal, strings).error
  {
    var d := bs.nodes;
    for j := 0 to |equal|
      invariant bs.Valid() && forall k :: 0 <= k < |strings| ==> strings[k] < |bs.nodes|
      invariant EqualRestored(d, d0, equal, strings) == EqualRestored(bs.nodes, d0, equal[j..], strings)
    {
      var pl := equal[j];
      assert pl in equal;
      assert equal[j..][1..] == equal[j + 1..];
      var content := ContentList(d0, pl.info);
      if pl.indices == [] {
        return Err(IndexError);
      }
      var i := PyIndex(|strings|, pl.indices[0]);
      if i.None? {
        return Err(IndexError);
      }
      var done := SpliceIn(bs, strings[i.value], content);
      if done.Err? {
        return Err(done.error);
      }
    }
    r := Ok(());
  }

  /** The pieces of a placement read as the new string its first index names. */
  ghost predicate PiecesMatch(d: Doc, d0: Doc, pl: Place, strings: seq<nat>)
    requires Ordered(d) && Ordered(d0) && Holds(d0, pl.info)
    requires forall k :: 0 <= k < |strings| ==> strings[k] < |d|
  {
    pl.indices != [] && PyIndex(|strings|, pl.indices[0]).Some? ==>
      PiecesText(ContentList(d0, pl.info)) == TextOf(d, strings[PyIndex(|strings|, pl.indices[0]).value])
  }

  /** A pass whose pieces read as the string they replace keeps the text of every node. */
  lemma RestoreOneText(d: Doc, d0: Doc, pl: Place, strings: seq<nat>)
    requires WellFormed(d) && Ordered(d0) && Holds(d0, pl.info)
    requires forall k :: 0 <= k < |strings| ==> strings[k] < |d|
    requires PiecesMatch(d, d0, pl, strings) && RestoreOne(d, d0, pl, strings).Ok?
    ensures forall a :: 0 <= a < |d| ==> TextOf(RestoreOne(d, d0, pl, strings).value, a) == TextOf(d, a)
  {
    var i := PyIndex(|strings|, pl.indices[0]).value;
    SpliceDocText(d, strings[i], ContentList(d0, pl.info));
  }

  /**
   * restore_equal_refs keeps the text of the page when each placement's
   * pieces read as the string they replace.
   */
  lemma {:induction false} EqualRestoredText(d: Doc, d0: Doc, equal: seq<Place>, strings: seq<nat>)
    requires WellFormed(d) && Ordered(d0) && forall pl :: pl in equal ==> Holds(d0, pl.info)
    requires forall k :: 0 <= k < |strings| ==> strings[k] < |d|
    requires forall pl :: pl in equal ==> PiecesMatch(d, d0, pl, strings)
    requires EqualRestored(d, d0, equal, strings).Ok?
    ensures forall a :: 0 <= a < |d| ==> TextOf(EqualRestored(d, d0, equal, strings).value, a) == TextOf(d, a)
    decreases |equal|
  {
    if equal != [] {
      var pl := equal[0];
      assert pl in equal;
      var m := RestoreOne(d, d0, pl, strings).value;
      RestoreOneText(d, d0, pl, strings);
      var rest := equal[1..];
      forall q | q in rest ensures PiecesMatch(m, d0, q, strings) {
        assert q in equal;
      }
      EqualRestoredText(m, d0, rest, strings);
    }
  }

  /** i * size by repeated addition, so that the chunk positions can be reasoned about one at a time. */
  function Times(i: nat, size: nat): nat
  {
    if i == 0 then 0 else Times(i - 1, size) + size
  }

  lemma {:induction false} TimesIsProduct(i: nat, size: nat)
    ensures Times(i, size) == i * size
  {
    if i > 0 {
      TimesIsProduct(i - 1, size);
      assert i * size == (i - 1) * size + size;
    }
  }

  lemma {:induction false} TimesMono(i: nat, j: nat, size: nat)
    requires i <= j
    ensures Times(i, size) <= Times(j, size)
    decreases j
  {
    if i < j {
      TimesMono(i, j - 1, size);
    }
  }

  /**
   * Facts about the chunk size len // n that insert_unequal_refs uses:
   * n chunks of it fit in len characters, and it is positive when there are
   * at least n characters.
   */
  lemma DivFacts(len: nat, n: nat)
    requires 0 < n
    ensures 0 <= len / n && Times(n, len / n) <= len
    ensures n <= len ==> len / n > 0
  {
    TimesIsProduct(n, len / n);
  }

  /** Every chunk but the last lies inside the string. */
  lemma ChunkBounds(len: nat, size: nat, n: nat, i: nat)
    requires Times(n, size) <= len && i < n
    ensures Times(i, size) + size <= len
  {
    TimesMono(i + 1, n, size);
  }

  /**
   * The i-th of the n chunks of size characters: the characters from
   * i * size on, the last chunk taking everything that is left.
   */
  function Chunk(s: string, size: nat, n: nat, i: nat): string
    requires Times(n, size) <= |s| && i < n
  {
    var start := Times(i, size);
    ChunkBounds(|s|, size, n, i);
    if i != n - 1 then s[start..start + size] else s[start..]
  }

  /** The marker for the i-th chunk, with the i-th id. */
  function ChunkMark(s: string, refs: seq<string>, size: nat, n: nat, i: nat): Piece
    requires Times(n, size) <= |s| && n <= |refs| && i < n
  {
    Mark(MarkerName, [Attr(RefAttr, refs[i])], Some(Chunk(s, size, n, i)))
  }

  /** The first m of the n chunk markers. */
  function ChunkPieces(s: string, refs: seq<string>, size: nat, n: nat, m: nat): (r: seq<Piece>)
    requires Times(n, size) <= |s| && n <= |refs| && m <= n
    ensures |r| == m
  {
    if m == 0 then [] else ChunkPieces(s, refs, size, n, m - 1) + [ChunkMark(s, refs, size, n, m - 1)]
  }

  /** The text of the first m chunk markers, from the text of the first m - 1. */
  lemma ChunksStep(s: string, refs: seq<string>, size: nat, n: nat, m: nat)
    requires Times(n, size) <= |s| && n <= |refs| && 0 < m <= n
    ensures PiecesText(ChunkPieces(s, refs, size, n, m))
         == PiecesText(ChunkPieces(s, refs, size, n, m - 1)) + Chunk(s, size, n, m - 1)
  {
    var ps := ChunkPieces(s, refs, size, n, m);
    assert ps[..m - 1] == ChunkPieces(s, refs, size, n, m - 1);
  }

  /** Where the i-th chunk lies in the string. */
  lemma ChunkAt(s: string, size: nat, n: nat, i: nat)
    requires Times(n, size) <= |s| && i < n
    ensures Times(i, size) + size <= |s|
    ensures i < n - 1 ==> Chunk(s, size, n, i) == s[Times(i, size)..Times(i, size) + size]
    ensures i == n - 1 ==> Chunk(s, size, n, i) == s[Times(i, size)..]
  {
    ChunkBounds(|s|, size, n, i);
  }

  /** The chunks before the last one cover the string up to m chunk sizes. */
  lemma {:induction false} ChunksPrefix(s: string, refs: seq<string>, size: nat, n: nat, m: nat)
    requires Times(n, size) <= |s| && n <= |refs| && m < n
    ensures Times(m, size) <= |s| && PiecesText(ChunkPieces(s, refs, size, n, m)) == s[..Times(m, size)]
    decreases m
  {
    if m == 0 {
      assert ChunkPieces(s, refs, size, n, 0) == [];
    } else {
      ChunksPrefix(s, refs, size, n, m - 1);
      ChunksPrefixStep(s, refs, size, n, m);
    }
  }

  lemma ChunksPrefixStep(s: string, refs: seq<string>, size: nat, n: nat, m: nat)
    requires Times(n, size) <= |s| && n <= |refs| && 0 < m < n
    requires Times(m - 1, size) <= |s|
    requires PiecesText(ChunkPieces(s, refs, size, n, m - 1)) == s[..Times(m - 1, size)]
    ensures Times(m, size) <= |s| && PiecesText(ChunkPieces(s, refs, size, n, m)) == s[..Times(m, size)]
  {
    ChunksStep(s, refs, size, n, m);
    ChunkAt(s, size, n, m - 1);
    PrefixGrows(s, PiecesText(ChunkPieces(s, refs, size, n, m - 1)), Chunk(s, size, n, m - 1),
                Times(m - 1, size), size);
  }

  lemma PrefixGrows(s: string, t: string, c: string, lo: nat, size: nat)
    requires lo + size <= |s| && t == s[..lo] && c == s[lo..lo + size]
    ensures t + c == s[..lo + size]
  {
  }

  /** The chunks put together give the string back. */
  lemma ChunksText(s: string, refs: seq<string>, size: nat, n: nat)
    requires Times(n, size) <= |s| && n <= |refs| && 0 < n
    ensures PiecesText(ChunkPieces(s, refs, size, n, n)) == s
  {
    ChunksPrefix(s, refs, size, n, n - 1);
    ChunksStep(s, refs, size, n, n);
    ChunkAt(s, size, n, n - 1);
    PrefixRest(s, PiecesText(ChunkPieces(s, refs, size, n, n - 1)), Chunk(s, size, n, n - 1), Times(n - 1, size));
  }

  lemma PrefixRest(s: string, t: string, c: string, lo: nat)
    requires lo <= |s| && t == s[..lo] && c == s[lo..]
    ensures t + c == s
  {
  }

  /** Every chunk but the last has size characters; the last has at least that many. */
  lemma ChunkSizes(s: string, size: nat, n: nat, i: nat)
    requires Times(n, size) <= |s| && i < n
    ensures i < n - 1 ==> |Chunk(s, size, n, i)| == size
    ensures i == n - 1 ==> |Chunk(s, size, n, i)| >= size
  {
    ChunkBounds(|s|, size, n, i);
  }

  /** The chunk markers carry the first m ids, in order. */
  lemma {:induction false} ChunkIds(s: string, refs: seq<string>, size: nat, n: nat, m: nat)
    requires Times(n, size) <= |s| && n <= |refs| && m <= n
    ensures MarkIds(ChunkPieces(s, refs, size, n, m)) == refs[..m]
    decreases m
  {
    if m > 0 {
      ChunkIds(s, refs, size, n, m - 1);
      ChunkIdsStep(s, refs, size, n, m);
    }
  }

  lemma ChunkIdsStep(s: string, refs: seq<string>, size: nat, n: nat, m: nat)
    requires Times(n, size) <= |s| && n <= |refs| && 0 < m <= n
    requires MarkIds(ChunkPieces(s, refs, size, n, m - 1)) == refs[..m - 1]
    ensures MarkIds(ChunkPieces(s, refs, size, n, m)) == refs[..m]
  {
    var ps := ChunkPieces(s, refs, size, n, m);
    assert ps[..m - 1] == ChunkPieces(s, refs, size, n, m - 1);
    assert AttrValue([Attr(RefAttr, refs[m - 1])], RefAttr) == Some(refs[m - 1]);
    assert refs[..m] == refs[..m - 1] + [refs[m - 1]];
  }

  /** The chunk size of insert_unequal_refs, then its loop that builds one marker per chunk. */
  method MakeChunks(s: string, refs: seq<string>, n: nat) returns (contents: seq<Piece>)
    requires 0 < n <= |s| && n <= |refs|
    ensures (DivFacts(|s|, n); contents == ChunkPieces(s, refs, |s| / n, n, n))
  {
    var size := |s| / n;
    DivFacts(|s|, n);
    contents := CutChunks(s, refs, size, n);
  }

  /** One marker per chunk of size characters, the last one taking the rest. */
  method CutChunks(s: string, refs: seq<string>, size: nat, n: nat) returns (contents: seq<Piece>)
    requires Times(n, size) <= |s| && n <= |refs|
    ensures contents == ChunkPieces(s, refs, size, n, n)
  {
    contents := [];
    for i := 0 to n
      invariant contents == ChunkPieces(s, refs, size, n, i)
    {
      var start := i * size;
      TimesIsProduct(i, size);
      ChunkAt(s, size, n, i);
      var chunk := if i != n - 1 then s[start..start + size] else s[start..];
      assert chunk == Chunk(s, size, n, i);
      contents := contents + [Mark(MarkerName, [Attr(RefAttr, refs[i])], Some(chunk))];
    }
  }

  const ZeroDivisionError: string := "ZeroDivisionError: integer division or modulo by zero"

  /** The ids of refs that are not among the resolved ones, in order. */
  function Unresolved(refs: seq<string>, resolved: seq<string>): (r: seq<string>)
    ensures |r| <= |refs|
    ensures forall x :: x in r <==> x in refs && x !in resolved
  {
    if refs == [] then []
    else
      var rest := Unresolved(refs[..|refs| - 1], resolved);
      var x := refs[|refs| - 1];
      assert refs == refs[..|refs| - 1] + [x];
      if x in resolved then rest else rest + [x]
  }

  /** The ids insert_unequal_refs wraps a claimed string with: resolved ones drop out when there are several. */
  function ClaimRefs(c: Claim, resolved: seq<string>): seq<string>
  {
    if |c.refs| > 1 then Unresolved(c.refs, resolved) else c.refs
  }

  /** The smaller of two numbers, as Python's min. */
  function Min(a: nat, b: nat): (r: nat)
    ensures r <= a && r <= b && (r == a || r == b)
  {
    if a <= b then a else b
  }

  /**
   * The markers one claim puts in place of its string: None when every
   * claimed id was resolved, else the chunks of the string, one per id, or
   * the error Python raises on the way.
   */
  function ClaimPieces(d: Doc, c: Claim, strings: seq<nat>, resolved: seq<string>): (r: Result<Option<seq<Piece>>, string>)
    requires Ordered(d) && forall k :: 0 <= k < |strings| ==> strings[k] < |d|
    ensures r.Err? ==> r.error == IndexError || r.error == ZeroDivisionError
    ensures r.Ok? && r.value.Some? ==> r.value.value != []
  {
    var refs := ClaimRefs(c, resolved);
    if |c.refs| > 1 && refs == [] then Ok(None)
    else match PyIndex(|strings|, c.pos)
      case None => Err(IndexError)
      case Some(i) =>
        var ns := TextOf(d, strings[i]);
        var n := Min(|refs|, |ns|);
        if n == 0 then Err(ZeroDivisionError)
        else
          DivFacts(|ns|, n);
          Ok(Some(ChunkPieces(ns, refs, |ns| / n, n, n)))
  }

  /**
   * The markers of a claim read as the string they replace and carry, in
   * order, the first ids of the claim that are left once resolved ones are
   * dropped; there is one marker per id unless the string has fewer characters.
   */
  lemma ClaimPiecesMeaning(d: Doc, c: Claim, strings: seq<nat>, resolved: seq<string>)
    requires Ordered(d) && forall k :: 0 <= k < |strings| ==> strings[k] < |d|
    requires ClaimPieces(d, c, strings, resolved).Ok? && ClaimPieces(d, c, strings, resolved).value.Some?
    ensures var i := PyIndex(|strings|, c.pos);
            var ps := ClaimPieces(d, c, strings, resolved).value.value;
            var refs := ClaimRefs(c, resolved);
            i.Some? && PiecesText(ps) == TextOf(d, strings[i.value])
            && MarkIds(ps) == refs[..Min(|refs|, |TextOf(d, strings[i.value])|)]
  {
    var i := PyIndex(|strings|, c.pos).value;
    var ns := TextOf(d, strings[i]);
    var refs := ClaimRefs(c, resolved);
    var n := Min(|refs|, |ns|);
    DivFacts(|ns|, n);
    ChunksText(ns, refs, |ns| / n, n);
    ChunkIds(ns, refs, |ns| / n, n, n);
  }

  /** When a claim has several ids, no marker it makes carries a resolved id. */
  lemma ClaimPiecesUnresolved(d: Doc, c: Claim, strings: seq<nat>, resolved: seq<string>)
    requires Ordered(d) && forall k :: 0 <= k < |strings| ==> strings[k] < |d|
    requires ClaimPieces(d, c, strings, resolved).Ok? && ClaimPieces(d, c, strings, resolved).value.Some?
    ensures forall x :: x in MarkIds(ClaimPieces(d, c, strings, resolved).value.value) ==>
              x in c.refs && (|c.refs| > 1 ==> x !in resolved)
  {
    ClaimPiecesMeaning(d, c, strings, resolved);
    var refs := ClaimRefs(c, resolved);
    forall x | x in MarkIds(ClaimPieces(d, c, strings, resolved).value.value)
      ensures x in c.refs && (|c.refs| > 1 ==> x !in resolved)
    {
      var i := PyIndex(|strings|, c.pos).value;
      var m := Min(|refs|, |TextOf(d, strings[i])|);
      assert x in refs[..m];
      assert x in refs;
    }
  }

  /** One pass of insert_unequal_refs. */
  function InsertOne(d: Doc, c: Claim, strings: seq<nat>, resolved: seq<string>): (r: Result<Doc, string>)
    requires WellFormed(d) && forall k :: 0 <= k < |strings| ==> strings[k] < |d|
    ensures r.Ok? ==> WellFormed(r.value) && |d| <= |r.value|
    ensures r.Ok? ==> forall j :: 0 <= j < |d| && d[j].TextNode? ==> r.value[j] == d[j]
    ensures r.Err? ==> r.error == IndexError || r.error == ZeroDivisionError || r.error == NotInTree
  {
    match ClaimPieces(d, c, strings, resolved)
    case Err(e) => Err(e)
    case Ok(None) => Ok(d)
    case Ok(Some(ps)) => SpliceDoc(d, strings[PyIndex(|strings|, c.pos).value], ps)
  }

  /** The new page after insert_unequal_refs, or the first error it meets. */
  function UnequalInserted(d: Doc, claims: seq<Claim>, strings: seq<nat>, resolved: seq<string>): (r: Result<Doc, string>)
    requires WellFormed(d) && forall k :: 0 <= k < |strings| ==> strings[k] < |d|
    ensures r.Ok? ==> WellFormed(r.value) && |d| <= |r.value|
    ensures r.Ok? ==> forall j :: 0 <= j < |d| && d[j].TextNode? ==> r.value[j] == d[j]
    ensures r.Err? ==> r.error == IndexError || r.error == ZeroDivisionError || r.error == NotInTree
    decreases |claims|
  {
    if claims == [] then Ok(d)
    else match InsertOne(d, claims[0], strings, resolved)
      case Err(e) => Err(e)
      case Ok(m) => UnequalInserted(m, claims[1..], strings, resolved)
  }

  /**
   * insert_unequal_refs: each claimed string, in the order of the claims, is
   * cut into equal chunks, one per unresolved id, and replaced by markers
   * around the chunks.
   */
  method InsertUnequalRefs(bs: Soup, unequal: seq<Claim>, strings: seq<nat>, resolved: seq<string>) returns (r: Result<(), string>)
    requires bs.Valid() && forall k :: 0 <= k < |strings| ==> strings[k] < |bs.nodes|
    modifies bs
    ensures bs.Valid()
    ensures r.Ok? <==> UnequalInserted(old(bs.nodes), unequal, strings, resolved).Ok?
    ensures r.Ok? ==> bs.nodes == UnequalInserted(old(bs.nodes), unequal, strings, resolved).value
    ensures r.Err? ==> r.error == UnequalInserted(old(bs.nodes), unequal, strings, resolved).error
  {
    var d := bs.nodes;
    for j := 0 to |unequal|
      invariant bs.Valid() && forall k :: 0 <= k < |strings| ==> strings[k] < |bs.nodes|
      invariant UnequalInserted(d, unequal, strings, resolved) == UnequalInserted(bs.nodes, unequal[j..], strings, resolved)
    {
      var c := unequal[j];
      assert unequal[j..][1..] == unequal[j + 1..];
      var refs := c.refs;
      if |refs| > 1 {
        refs := Unresolved(refs, resolved);
        if refs == [] {
          continue;
        }
      }
      var i := PyIndex(|strings|, c.pos);
      if i.None? {
        return Err(IndexError);
      }
      var ns := TextOf(bs.nodes, strings[i.value]);
      var n := Min(|refs|, |ns|);
      if n == 0 {
        return Err(ZeroDivisionError);
      }
      var contents := MakeChunks(ns, refs, n);
      var done := SpliceIn(bs, strings[i.value], contents);
      if done.Err? {
        return Err(done.error);
      }
    }
    r := Ok(());
  }

  /** insert_unequal_refs never changes the text of the page: the chunks put together are the string they replace. */
  lemma {:induction false} UnequalInsertedText(d: Doc, claims: seq<Claim>, strings: seq<nat>, resolved: seq<string>)
    requires WellFormed(d) && forall k :: 0 <= k < |strings| ==> strings[k] < |d|
    requires UnequalInserted(d, claims, strings, resolved).Ok?
    ensures forall a :: 0 <= a < |d| ==> TextOf(UnequalInserted(d, claims, strings, resolved).value, a) == TextOf(d, a)
    decreases |claims|
  {
    if claims != [] {
      var m := InsertOne(d, claims[0], strings, resolved).value;
      InsertOneText(d, claims[0], strings, resolved);
      UnequalInsertedText(m, claims[1..], strings, resolved);
    }
  }

  lemma InsertOneText(d: Doc, c: Claim, strings: seq<nat>, resolved: seq<string>)
    requires WellFormed(d) && forall k :: 0 <= k < |strings| ==> strings[k] < |d|
    requires InsertOne(d, c, strings, resolved).Ok?
    ensures forall a :: 0 <= a < |d| ==> TextOf(InsertOne(d, c, strings, resolved).value, a) == TextOf(d, a)
  {
    var cp := ClaimPieces(d, c, strings, resolved);
    if cp.value.Some? {
      ClaimPiecesMeaning(d, c, strings, resolved);
      var t := strings[PyIndex(|strings|, c.pos).value];
      SpliceTextKept(d, t, cp.value.value, InsertOne(d, c, strings, resolved));
    }
  }

  lemma SpliceTextKept(d: Doc, t: nat, ps: seq<Piece>, r: Result<Doc, string>)
    requires WellFormed(d) && t < |d| && ps != [] && r == SpliceDoc(d, t, ps) && r.Ok?
    requires PiecesText(ps) == TextOf(d, t)
    ensures WellFormed(r.value) && |d| <= |r.value|
    ensures forall a :: 0 <= a < |d| ==> TextOf(r.value, a) == TextOf(d, a)
  {
    SpliceDocText(d, t, ps);
  }
}
