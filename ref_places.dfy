/**
 * find_place2, correct_places, add_unique and divide_places of ref_diff.py:
 * each recorded comment of the old page is mapped through the diff opcodes
 * onto indices of the new page's non-blank strings, indices of strings that
 * sit inside an 'ac:' element are dropped, and the placements are split into
 * unchanged ones and a map from string index to the ids that claim it.
 */
module RefPlaces {
  import opened Wrappers
  import opened Text
  import opened Markup
  import opened RefTree
  import opened RefDict

  datatype Tag = Equal | Replace | Delete | Insert

  /** One difflib opcode: old runs [aStart, aEnd) become new runs [bStart, bEnd). */
  datatype Opcode = Opcode(tag: Tag, aStart: nat, aEnd: nat, bStart: nat, bEnd: nat)

  /** The shape each kind of opcode has in difflib's output. */
  predicate Shaped(op: Opcode)
  {
    && op.aStart <= op.aEnd && op.bStart <= op.bEnd
    && match op.tag
       case Equal => op.aEnd - op.aStart == op.bEnd - op.bStart
       case Replace => op.aStart < op.aEnd && op.bStart < op.bEnd
       case Delete => op.aStart < op.aEnd && op.bStart == op.bEnd
       case Insert => op.aStart == op.aEnd && op.bStart < op.bEnd
  }

  /** The opcodes cut [0, na) and [0, nb) into consecutive blocks, as get_opcodes does. */
  predicate Aligned(ops: seq<Opcode>, na: nat, nb: nat)
  {
    && (forall i :: 0 <= i < |ops| ==> Shaped(ops[i]))
    && (forall i :: 0 < i < |ops| ==> ops[i].aStart == ops[i - 1].aEnd && ops[i].bStart == ops[i - 1].bEnd)
    && (|ops| == 0 ==> na == 0 && nb == 0)
    && (|ops| > 0 ==> ops[0].aStart == 0 && ops[0].bStart == 0 && ops[|ops| - 1].aEnd == na && ops[|ops| - 1].bEnd == nb)
  }

  predicate Covers(op: Opcode, ind: nat)
  {
    op.aStart <= ind < op.aEnd
  }

  /** A placement: a comment record, the new strings it goes to, and whether its string is unchanged. */
  datatype Place = Place(info: RefInfo, indices: seq<int>, equal: bool)

  /** The integers lo, lo + 1, ..., hi - 1: Python's range(lo, hi). */
  function Range(lo: int, hi: int): (r: seq<int>)
    ensures |r| == if lo <= hi then hi - lo else 0
    ensures forall m :: 0 <= m < |r| ==> r[m] == lo + m
    decreases hi - lo
  {
    if lo >= hi then [] else [lo] + Range(lo + 1, hi)
  }

  /** The first opcode whose old block holds the run ind. */
  function FirstCovering(ops: seq<Opcode>, ind: nat): (r: Option<nat>)
    ensures r.Some? ==> r.value < |ops| && Covers(ops[r.value], ind)
    ensures r.Some? ==> forall j :: 0 <= j < r.value ==> !Covers(ops[j], ind)
    ensures r.None? ==> forall j :: 0 <= j < |ops| ==> !Covers(ops[j], ind)
  {
    if ops == [] then None
    else if Covers(ops[0], ind) then Some(0)
    else match FirstCovering(ops[1..], ind)
      case None => None
      case Some(j) => Some(j + 1)
  }

  /**
   * The new strings find_place2 gives a comment on the old run ind, which
   * opcode i covers: the matching string of an equal block, the whole new
   * block of a replace, and for a delete the strings an insert on either
   * side brings, or else the strings just before and just after the gap.
   */
  function Targets(ops: seq<Opcode>, i: nat, ind: nat, nb: nat): seq<int>
    requires i < |ops| && ops[i].tag != Insert
  {
    var op := ops[i];
    match op.tag
    case Equal => [op.bStart + (ind - op.aStart)]
    case Replace => Range(op.bStart, op.bEnd)
    case Delete =>
      var around :=
        (if i > 0 && ops[i - 1].tag == Insert then Range(ops[i - 1].bStart, ops[i - 1].bEnd) else [])
        + (if i + 2 <= |ops| && ops[i + 1].tag == Insert then Range(ops[i + 1].bStart, ops[i + 1].bEnd) else []);
      if around != [] then around
      else [if op.bStart != 0 then op.bStart - 1 else 0, if op.bEnd + 1 <= nb then op.bEnd else op.bEnd - 1]
  }

  /** The placement find_place2 makes for one record, or None when no opcode covers its run. */
  function PlaceOf(oldRuns: seq<nat>, nb: nat, ops: seq<Opcode>, info: RefInfo): Option<Place>
    requires Aligned(ops, |oldRuns|, nb) && info.full in oldRuns
  {
    var ind := IndexOf(oldRuns, info.full);
    match FirstCovering(ops, ind)
    case None => None
    case Some(i) => Some(Place(info, Targets(ops, i, ind, nb), ops[i].tag == Equal))
  }

  /** The placements of find_place2 for the records rs, in dictionary order. */
  function PlacesOf(oldRuns: seq<nat>, nb: nat, ops: seq<Opcode>, rs: seq<RefInfo>): seq<Place>
    requires Aligned(ops, |oldRuns|, nb) && forall x :: x in rs ==> x.full in oldRuns
  {
    if rs == [] then []
    else
      var rest := PlacesOf(oldRuns, nb, ops, rs[..|rs| - 1]);
      match PlaceOf(oldRuns, nb, ops, rs[|rs| - 1])
      case None => rest
      case Some(pl) => rest + [pl]
  }

  /**
   * find_place2: a record whose string is not among the old page's non-blank
   * strings makes list.index raise ValueError; otherwise each record gets the
   * placement of the first opcode whose old block holds its string.
   */
  method FindPlace2(oldRuns: seq<nat>, nb: nat, rs: seq<RefInfo>, ops: seq<Opcode>) returns (r: Result<seq<Place>, string>)
    requires Aligned(ops, |oldRuns|, nb)
    ensures r.Err? <==> exists x :: x in rs && x.full !in oldRuns
    ensures r.Ok? ==> r.value == PlacesOf(oldRuns, nb, ops, rs)
  {
    var result: seq<Place> := [];
    for k := 0 to |rs|
      invariant forall x :: x in rs[..k] ==> x.full in oldRuns
      invariant result == PlacesOf(oldRuns, nb, ops, rs[..k])
    {
      var info := rs[k];
      if info.full !in oldRuns {
        assert rs[k] in rs;
        return Err("ValueError: string is not in list");
      }
      var ind := IndexOf(oldRuns, info.full);
      var found: Option<nat> := None;
      for i := 0 to |ops|
        invariant forall j :: 0 <= j < i ==> !Covers(ops[j], ind)
      {
        if Covers(ops[i], ind) {
          found := Some(i);
          break;
        }
      }
      assert found == FirstCovering(ops, ind);
      assert rs[..k + 1][..k] == rs[..k];
      if found.Some? {
        var i := found.value;
        result := result + [Place(info, Targets(ops, i, ind, nb), ops[i].tag == Equal)];
      }
    }
    assert rs[..|rs|] == rs;
    r := Ok(result);
  }

  /** Every block of aligned opcodes lies inside [0, na) and [0, nb). */
  lemma {:induction false} BlockWithin(ops: seq<Opcode>, na: nat, nb: nat, i: nat)
    requires Aligned(ops, na, nb) && i < |ops|
    ensures ops[i].aEnd <= na && ops[i].bEnd <= nb
    decreases |ops| - i
  {
    if i + 1 < |ops| {
      BlockWithin(ops, na, nb, i + 1);
      assert Shaped(ops[i + 1]);
    }
  }

  /** Aligned opcodes leave no old run below the end of block j uncovered. */
  lemma {:induction false} CoveredBelow(ops: seq<Opcode>, na: nat, nb: nat, ind: nat, j: nat)
    requires Aligned(ops, na, nb) && j < |ops| && ind < ops[j].aEnd
    ensures FirstCovering(ops, ind).Some?
    decreases j
  {
    if !Covers(ops[j], ind) {
      assert j > 0;
      CoveredBelow(ops, na, nb, ind, j - 1);
    }
  }

  /** Aligned opcodes cover every old run. */
  lemma Covered(ops: seq<Opcode>, na: nat, nb: nat, ind: nat)
    requires Aligned(ops, na, nb) && ind < na
    ensures FirstCovering(ops, ind).Some?
  {
    CoveredBelow(ops, na, nb, ind, |ops| - 1);
  }

  /** With a non-empty new page, the strings an aligned opcode gives a run it covers are strings of the new page. */
  lemma TargetsInRange(ops: seq<Opcode>, na: nat, nb: nat, i: nat, ind: nat)
    requires Aligned(ops, na, nb) && nb > 0 && i < |ops| && Covers(ops[i], ind)
    ensures ops[i].tag != Insert
    ensures forall x :: x in Targets(ops, i, ind, nb) ==> 0 <= x < nb
  {
    assert Shaped(ops[i]);
    BlockWithin(ops, na, nb, i);
    if ops[i].tag == Delete {
      if i > 0 {
        BlockWithin(ops, na, nb, i - 1);
        assert Shaped(ops[i - 1]);
      }
      if i + 1 < |ops| {
        BlockWithin(ops, na, nb, i + 1);
        assert Shaped(ops[i + 1]);
      }
      DeleteTargetsInRange(ops, nb, i, ind);
    } else if ops[i].tag == Replace {
      RangeWithin(ops[i].bStart, ops[i].bEnd, nb);
    }
  }

  /** Range(lo, hi) stays inside [0, nb) when lo >= 0 and hi <= nb. */
  lemma RangeWithin(lo: int, hi: int, nb: int)
    requires 0 <= lo && hi <= nb
    ensures forall x :: x in Range(lo, hi) ==> 0 <= x < nb
  {
    forall x | x in Range(lo, hi) ensures 0 <= x < nb {
      var m :| 0 <= m < |Range(lo, hi)| && Range(lo, hi)[m] == x;
    }
  }

  /** A deleted run goes to the inserted strings beside it, or to the strings on either side of the gap. */
  lemma DeleteTargetsInRange(ops: seq<Opcode>, nb: nat, i: nat, ind: nat)
    requires nb > 0 && i < |ops| && ops[i].tag == Delete && ops[i].bStart == ops[i].bEnd <= nb
    requires i > 0 ==> ops[i - 1].bEnd <= nb
    requires i + 1 < |ops| ==> ops[i + 1].bEnd <= nb
    ensures forall x :: x in Targets(ops, i, ind, nb) ==> 0 <= x < nb
  {
    var op := ops[i];
    var before: seq<int> := [];
    if i > 0 && ops[i - 1].tag == Insert {
      before := Range(ops[i - 1].bStart, ops[i - 1].bEnd);
      RangeWithin(ops[i - 1].bStart, ops[i - 1].bEnd, nb);
    }
    var after: seq<int> := [];
    if i + 2 <= |ops| && ops[i + 1].tag == Insert {
      after := Range(ops[i + 1].bStart, ops[i + 1].bEnd);
      RangeWithin(ops[i + 1].bStart, ops[i + 1].bEnd, nb);
    }
    assert forall x :: x in before + after ==> x in before || x in after;
    if before + after == [] {
      var edges := [if op.bStart != 0 then op.bStart - 1 else 0, if op.bEnd + 1 <= nb then op.bEnd else op.bEnd - 1];
      assert Targets(ops, i, ind, nb) == edges;
    } else {
      assert Targets(ops, i, ind, nb) == before + after;
    }
  }

  /** find_place2 never points outside the new page's strings when that page has some. */
  lemma {:induction false} PlacesInRange(oldRuns: seq<nat>, nb: nat, ops: seq<Opcode>, rs: seq<RefInfo>)
    requires Aligned(ops, |oldRuns|, nb) && nb > 0 && forall x :: x in rs ==> x.full in oldRuns
    ensures forall pl, x :: pl in PlacesOf(oldRuns, nb, ops, rs) && x in pl.indices ==> 0 <= x < nb
  {
    if rs != [] {
      var front := rs[..|rs| - 1];
      assert forall x :: x in front ==> x in rs;
      PlacesInRange(oldRuns, nb, ops, front);
      var info := rs[|rs| - 1];
      var ind := IndexOf(oldRuns, info.full);
      match FirstCovering(ops, ind)
      case None =>
      case Some(i) =>
        TargetsInRange(ops, |oldRuns|, nb, i, ind);
    }
  }

  /** Under aligned opcodes find_place2 places every record, in order. */
  lemma {:induction false} NoneSkipped(oldRuns: seq<nat>, nb: nat, ops: seq<Opcode>, rs: seq<RefInfo>)
    requires Aligned(ops, |oldRuns|, nb) && forall x :: x in rs ==> x.full in oldRuns
    ensures |PlacesOf(oldRuns, nb, ops, rs)| == |rs|
    ensures forall m :: 0 <= m < |rs| ==> PlacesOf(oldRuns, nb, ops, rs)[m].info == rs[m]
  {
    if rs != [] {
      var front := rs[..|rs| - 1];
      assert forall x :: x in front ==> x in rs;
      NoneSkipped(oldRuns, nb, ops, front);
      var info := rs[|rs| - 1];
      Covered(ops, |oldRuns|, nb, IndexOf(oldRuns, info.full));
    }
  }

  /** Every parent link points to an earlier node, as in a well-formed page. */
  ghost predicate ParentsBefore(d: Doc)
  {
    forall i :: 0 <= i < |d| && d[i].parent.Some? ==> d[i].parent.value < i
  }

  /** Some node from x up to the root is an element whose name starts with 'ac:'. */
  function InMacro(d: Doc, x: nat): bool
    requires ParentsBefore(d) && x < |d|
    decreases x
  {
    (d[x].ElemNode? && StartsWith(d[x].name, "ac:"))
    || (d[x].parent.Some? && InMacro(d, d[x].parent.value))
  }

  /** The walk of correct_places from a string up through its parents. */
  method MacroAbove(d: Doc, x: nat) returns (b: bool)
    requires ParentsBefore(d) && x < |d|
    ensures b == InMacro(d, x)
  {
    var cur: Option<nat> := Some(x);
    while cur.Some?
      invariant cur.Some? ==> cur.value < |d|
      invariant InMacro(d, x) == (cur.Some? && InMacro(d, cur.value))
      decreases if cur.Some? then cur.value + 1 else 0
    {
      var n := d[cur.value];
      if n.ElemNode? && StartsWith(n.name, "ac:") {
        return true;
      }
      cur := n.parent;
    }
    return false;
  }

  /** For each string, whether it is inside an 'ac:' element. */
  function MacroFlags(d: Doc, strings: seq<nat>): (r: seq<bool>)
    requires ParentsBefore(d) && forall k :: 0 <= k < |strings| ==> strings[k] < |d|
    ensures |r| == |strings| && forall k :: 0 <= k < |strings| ==> r[k] == InMacro(d, strings[k])
  {
    if strings == [] then [] else MacroFlags(d, strings[..|strings| - 1]) + [InMacro(d, strings[|strings| - 1])]
  }

  /** Every index points at one of n strings. */
  predicate IndicesIn(n: nat, ix: seq<int>)
  {
    forall m :: 0 <= m < |ix| ==> 0 <= ix[m] < n
  }

  /** The indices of ix whose string is not flagged, in their order. */
  function Keep(flags: seq<bool>, ix: seq<int>): (r: seq<int>)
    requires IndicesIn(|flags|, ix)
  {
    if ix == [] then []
    else
      var n := |ix| - 1;
      Keep(flags, ix[..n]) + (if flags[ix[n]] then [] else [ix[n]])
  }

  /** The positions in ix whose string is flagged, ascending: correct_places' to_remove. */
  function MacroPositions(flags: seq<bool>, ix: seq<int>): (r: seq<nat>)
    requires IndicesIn(|flags|, ix)
    ensures forall m :: 0 <= m < |r| ==> r[m] < |ix|
    ensures forall a, b :: 0 <= a < b < |r| ==> r[a] < r[b]
  {
    if ix == [] then []
    else
      var n := |ix| - 1;
      MacroPositions(flags, ix[..n]) + (if flags[ix[n]] then [n] else [])
  }

  /** s after popping the positions ps, the last first, as `for i in reversed(to_remove): pop(i)` does. */
  function Removed(s: seq<int>, ps: seq<nat>): (r: seq<int>)
    requires forall m :: 0 <= m < |ps| ==> ps[m] < |s|
    requires forall a, b :: 0 <= a < b < |ps| ==> ps[a] < ps[b]
  {
    if ps == [] then s
    else
      var p := ps[|ps| - 1];
      Removed(s[..p] + s[p + 1..], ps[..|ps| - 1])
  }

  /** Popping positions below |s| commutes with appending to s. */
  lemma {:induction false} RemovedAppend(s: seq<int>, x: int, ps: seq<nat>)
    requires forall m :: 0 <= m < |ps| ==> ps[m] < |s|
    requires forall a, b :: 0 <= a < b < |ps| ==> ps[a] < ps[b]
    ensures Removed(s + [x], ps) == Removed(s, ps) + [x]
  {
    if ps != [] {
      var p := ps[|ps| - 1];
      assert (s + [x])[..p] + (s + [x])[p + 1..] == (s[..p] + s[p + 1..]) + [x];
      RemovedAppend(s[..p] + s[p + 1..], x, ps[..|ps| - 1]);
    }
  }

  /** One pop of the reversed loop: the position popped is the largest still to go. */
  lemma PopStep(s: seq<int>, ps: seq<nat>, k: nat)
    requires 0 < k <= |ps| && forall a, b :: 0 <= a < b < |ps| ==> ps[a] < ps[b]
    requires forall m :: 0 <= m < k ==> ps[m] < |s|
    ensures var t := s[..ps[k - 1]] + s[ps[k - 1] + 1..];
      && (forall m :: 0 <= m < k - 1 ==> ps[m] < |t|)
      && Removed(t, ps[..k - 1]) == Removed(s, ps[..k])
  {
    assert ps[..k][..k - 1] == ps[..k - 1];
  }

  /** Popping the flagged positions leaves exactly the kept indices. */
  lemma {:induction false} RemovedIsKeep(flags: seq<bool>, ix: seq<int>)
    requires IndicesIn(|flags|, ix)
    ensures Removed(ix, MacroPositions(flags, ix)) == Keep(flags, ix)
  {
    if ix != [] {
      var n := |ix| - 1;
      var front := ix[..n];
      assert ix == front + [ix[n]];
      RemovedIsKeep(flags, front);
      var ps := MacroPositions(flags, front);
      if flags[ix[n]] {
        assert MacroPositions(flags, ix) == ps + [n];
        assert ix[..n] + ix[n + 1..] == front;
        assert (ps + [n])[..|ps|] == ps;
      } else {
        assert MacroPositions(flags, ix) == ps;
        RemovedAppend(front, ix[n], ps);
      }
    }
  }

  /** correct_places on one index list: collect the positions to drop, then pop them from the last. */
  method CorrectIndices(d: Doc, strings: seq<nat>, ix: seq<int>) returns (kept: seq<int>)
    requires ParentsBefore(d) && (forall k :: 0 <= k < |strings| ==> strings[k] < |d|) && IndicesIn(|strings|, ix)
    ensures kept == Keep(MacroFlags(d, strings), ix)
  {
    var toRemove := MacroPositionsOf(d, strings, ix);
    kept := PopPositions(ix, toRemove);
    RemovedIsKeep(MacroFlags(d, strings), ix);
  }

  /** The first loop of correct_places: the positions of ix whose string sits inside a macro. */
  method MacroPositionsOf(d: Doc, strings: seq<nat>, ix: seq<int>) returns (toRemove: seq<nat>)
    requires ParentsBefore(d) && (forall k :: 0 <= k < |strings| ==> strings[k] < |d|) && IndicesIn(|strings|, ix)
    ensures toRemove == MacroPositions(MacroFlags(d, strings), ix)
  {
    ghost var flags := MacroFlags(d, strings);
    toRemove := [];
    for i := 0 to |ix|
      invariant toRemove == MacroPositions(flags, ix[..i])
    {
      assert ix[..i + 1][..i] == ix[..i];
      var inMacro := MacroAbove(d, strings[ix[i]]);
      if inMacro {
        toRemove := toRemove + [i];
      }
    }
    assert ix[..|ix|] == ix;
  }

  /** The second loop of correct_places: pop the ascending positions ps from s, the last first. */
  method PopPositions(s: seq<int>, ps: seq<nat>) returns (kept: seq<int>)
    requires forall m :: 0 <= m < |ps| ==> ps[m] < |s|
    requires forall a, b :: 0 <= a < b < |ps| ==> ps[a] < ps[b]
    ensures kept == Removed(s, ps)
    ensures |kept| == |s| - |ps|
  {
    kept := s;
    var k := |ps|;
    assert ps[..k] == ps;
    while k > 0
      invariant 0 <= k <= |ps|
      invariant |kept| == |s| - (|ps| - k)
      invariant forall m :: 0 <= m < k ==> ps[m] < |kept|
      invariant Removed(kept, ps[..k]) == Removed(s, ps)
    {
      PopStep(kept, ps, k);
      k := k - 1;
      kept := kept[..ps[k]] + kept[ps[k] + 1..];
    }
  }

  /** Keep drops exactly the flagged indices. */
  lemma {:induction false} KeepExactly(flags: seq<bool>, ix: seq<int>)
    requires IndicesIn(|flags|, ix)
    ensures forall x :: x in Keep(flags, ix) <==> x in ix && !flags[x]
  {
    if ix != [] {
      var n := |ix| - 1;
      assert ix == ix[..n] + [ix[n]];
      KeepExactly(flags, ix[..n]);
    }
  }

  /** Keep keeps the order of the indices: it is a filter, applied piece by piece. */
  lemma {:induction false} KeepSplits(flags: seq<bool>, a: seq<int>, b: seq<int>)
    requires IndicesIn(|flags|, a) && IndicesIn(|flags|, b)
    ensures IndicesIn(|flags|, a + b)
    ensures Keep(flags, a + b) == Keep(flags, a) + Keep(flags, b)
  {
    if b != [] {
      var n := |b| - 1;
      assert (a + b)[..|a + b| - 1] == a + b[..n];
      KeepSplits(flags, a, b[..n]);
    } else {
      assert a + b == a;
    }
  }

  /** The placements with every index list filtered by Keep. */
  function CorrectedPlaces(flags: seq<bool>, places: seq<Place>): (r: seq<Place>)
    requires forall pl :: pl in places ==> IndicesIn(|flags|, pl.indices)
    ensures |r| == |places|
    ensures forall m :: 0 <= m < |places| ==> r[m] == places[m].(indices := Keep(flags, places[m].indices))
    decreases |places|
  {
    if places == [] then []
    else
      var n := |places| - 1;
      CorrectedPlaces(flags, places[..n]) + [places[n].(indices := Keep(flags, places[n].indices))]
  }

  /** correct_places: every placement keeps the indices whose string is not inside an 'ac:' element. */
  method CorrectPlaces(d: Doc, strings: seq<nat>, places: seq<Place>) returns (r: seq<Place>)
    requires ParentsBefore(d) && forall k :: 0 <= k < |strings| ==> strings[k] < |d|
    requires forall pl :: pl in places ==> IndicesIn(|strings|, pl.indices)
    ensures r == CorrectedPlaces(MacroFlags(d, strings), places)
  {
    r := [];
    for j := 0 to |places|
      invariant |r| == j
      invariant forall m :: 0 <= m < j ==> r[m] == places[m].(indices := Keep(MacroFlags(d, strings), places[m].indices))
    {
      assert places[j] in places;
      var kept := CorrectIndices(d, strings, places[j].indices);
      r := r + [places[j].(indices := kept)];
    }
  }

  /** No element occurs twice. */
  predicate NoDups<T(==)>(s: seq<T>)
  {
    forall a, b :: 0 <= a < b < |s| ==> s[a] != s[b]
  }

  /**
   * add_unique(a, b, at_beginning): each element of b that a does not hold
   * yet is inserted at the front of a (at_beginning) or appended to it, in
   * b's order.
   */
  function AddedUnique<T(==)>(a: seq<T>, b: seq<T>, front: bool): seq<T>
    decreases |b|
  {
    if b == [] then a
    else AddedUnique(if b[0] in a then a else if front then [b[0]] + a else a + [b[0]], b[1..], front)
  }

  method AddUnique<T(==)>(a: seq<T>, b: seq<T>, atBeginning: bool) returns (r: seq<T>)
    ensures r == AddedUnique(a, b, atBeginning)
  {
    r := a;
    for i := 0 to |b|
      invariant AddedUnique(r, b[i..], atBeginning) == AddedUnique(a, b, atBeginning)
    {
      assert b[i..][1..] == b[i + 1..];
      if b[i] !in r {
        if atBeginning {
          r := [b[i]] + r;
        } else {
          r := r + [b[i]];
        }
      }
    }
  }

  /** add_unique only adds: its result holds exactly the elements of a and of b. */
  lemma {:induction false} AddedMembers<T>(a: seq<T>, b: seq<T>, front: bool)
    ensures forall x :: x in AddedUnique(a, b, front) <==> x in a || x in b
    decreases |b|
  {
    if b != [] {
      var a' := if b[0] in a then a else if front then [b[0]] + a else a + [b[0]];
      AddedMembers(a', b[1..], front);
      assert b == [b[0]] + b[1..];
    }
  }

  /** add_unique keeps a list free of duplicates. */
  lemma {:induction false} AddedNoDups<T>(a: seq<T>, b: seq<T>, front: bool)
    requires NoDups(a)
    ensures NoDups(AddedUnique(a, b, front))
    decreases |b|
  {
    if b != [] {
      var a' := if b[0] in a then a else if front then [b[0]] + a else a + [b[0]];
      assert NoDups(a') by {
        if b[0] !in a {
          if front {
            assert forall m :: 0 < m < |a'| ==> a'[m] == a[m - 1];
          } else {
            assert forall m :: 0 <= m < |a| ==> a'[m] == a[m];
          }
        }
      }
      AddedNoDups(a', b[1..], front);
    }
  }

  /** add_unique keeps a in place: at the end when it inserts at the front, at the start when it appends. */
  lemma AddedKeeps<T>(a: seq<T>, b: seq<T>, front: bool)
    ensures |a| <= |AddedUnique(a, b, front)|
    ensures var r := AddedUnique(a, b, front);
      if front then r[|r| - |a|..] == a else r[..|a|] == a
  {
    if front {
      AddedKeepsFront(a, b);
    } else {
      AddedKeepsBack(a, b);
    }
  }

  /** a is the tail of r. */
  predicate EndsWith<T(==)>(r: seq<T>, a: seq<T>)
  {
    |a| <= |r| && r[|r| - |a|..] == a
  }

  /** Inserting at the front keeps a as a suffix. */
  lemma {:induction false} AddedKeepsFront<T>(a: seq<T>, b: seq<T>)
    ensures EndsWith(AddedUnique(a, b, true), a)
    decreases |b|
  {
    if b != [] {
      var r := AddedUnique(a, b, true);
      if b[0] in a {
        assert r == AddedUnique(a, b[1..], true);
        AddedKeepsFront(a, b[1..]);
      } else {
        var a' := [b[0]] + a;
        assert r == AddedUnique(a', b[1..], true);
        AddedKeepsFront(a', b[1..]);
        assert EndsWith(a', a) by {
          assert a'[1..] == a;
        }
        SuffixOfSuffix(r, a', a);
      }
    }
  }

  /** Appending keeps a as a prefix. */
  lemma {:induction false} AddedKeepsBack<T>(a: seq<T>, b: seq<T>)
    ensures |a| <= |AddedUnique(a, b, false)| && AddedUnique(a, b, false)[..|a|] == a
    decreases |b|
  {
    if b != [] {
      var r := AddedUnique(a, b, false);
      if b[0] in a {
        assert r == AddedUnique(a, b[1..], false);
        AddedKeepsBack(a, b[1..]);
      } else {
        var a' := a + [b[0]];
        assert r == AddedUnique(a', b[1..], false);
        AddedKeepsBack(a', b[1..]);
        assert a'[..|a|] == a;
        PrefixOfPrefix(r, a', a);
      }
    }
  }

  /** A suffix of a suffix of r is a suffix of r. */
  lemma SuffixOfSuffix<T>(r: seq<T>, m: seq<T>, a: seq<T>)
    requires EndsWith(r, m) && EndsWith(m, a)
    ensures EndsWith(r, a)
  {
    assert r[|r| - |a|..] == r[|r| - |m|..][|m| - |a|..];
  }

  /** A prefix of a prefix of r is a prefix of r. */
  lemma PrefixOfPrefix<T>(r: seq<T>, m: seq<T>, a: seq<T>)
    requires |a| <= |m| <= |r| && r[..|m|] == m && m[..|a|] == a
    ensures r[..|a|] == a
  {
    assert r[..|a|] == r[..|m|][..|a|];
  }

  /**
   * get_refs: the record's own id, with the ids of the records it absorbed
   * each inserted in front of it, one at a time.
   */
  function GetRefs(info: RefInfo): seq<string>
    decreases info
  {
    match info.before
    case Absorbed(prev) => AddedUnique([info.refId], GetRefs(prev), true)
    case _ => [info.refId]
  }

  /** The ids of a record and of every record it absorbed, the earliest first. */
  function ChainIds(info: RefInfo): seq<string>
    decreases info
  {
    match info.before
    case Absorbed(prev) => ChainIds(prev) + [info.refId]
    case _ => [info.refId]
  }

  /** get_refs gives each id of the chain once, and the record's own id last. */
  lemma {:induction false} GetRefsIds(info: RefInfo)
    ensures NoDups(GetRefs(info)) && |GetRefs(info)| > 0
    ensures GetRefs(info)[|GetRefs(info)| - 1] == info.refId
    ensures forall x :: x in GetRefs(info) <==> x in ChainIds(info)
    decreases info
  {
    match info.before
    case Absorbed(prev) =>
      GetRefsIds(prev);
      AddedMembers([info.refId], GetRefs(prev), true);
      AddedNoDups([info.refId], GetRefs(prev), true);
      AddedKeeps([info.refId], GetRefs(prev), true);
    case _ =>
  }

  /**
   * With three comments chained through `before`, get_refs does not give
   * them in the order they appear: inserting each id of the earlier part at
   * the front, one at a time, reverses that part.
   */
  lemma ChainOrderSwapped()
    ensures var first := RefInfo(0, "a", NoBefore, 1, None);
      var second := RefInfo(2, "b", Absorbed(first), 3, None);
      var third := RefInfo(4, "c", Absorbed(second), 5, None);
      ChainIds(third) == ["a", "b", "c"] && GetRefs(third) == ["b", "a", "c"]
  {
    var first := RefInfo(0, "a", NoBefore, 1, None);
    var second := RefInfo(2, "b", Absorbed(first), 3, None);
    var third := RefInfo(4, "c", Absorbed(second), 5, None);
    assert GetRefs(second) == ["a", "b"] by {
      assert AddedUnique(["b"], ["a"], true) == AddedUnique(["a", "b"], [], true);
    }
    assert AddedUnique(["c"], ["a", "b"], true) == AddedUnique(["a", "c"], ["b"], true);
    assert ["a", "b"][1..] == ["b"];
    assert AddedUnique(["a", "c"], ["b"], true) == AddedUnique(["b", "a", "c"], [], true);
  }

  /** get_refs as its documentation intends: the absorbed records' ids in order, then the record's own. */
  function OrderedRefs(info: RefInfo): seq<string>
    decreases info
  {
    match info.before
    case Absorbed(prev) => AddedUnique(OrderedRefs(prev), [info.refId], false)
    case _ => [info.refId]
  }

  /**
   * The corrected get_refs gives each id of the chain once, and, when the
   * ids are distinct, exactly the chain in document order.
   */
  lemma {:induction false} OrderedRefsIds(info: RefInfo)
    ensures NoDups(OrderedRefs(info)) && |OrderedRefs(info)| > 0
    ensures forall x :: x in OrderedRefs(info) <==> x in ChainIds(info)
    ensures NoDups(ChainIds(info)) ==> OrderedRefs(info) == ChainIds(info)
    decreases info
  {
    match info.before
    case Absorbed(prev) =>
      OrderedRefsIds(prev);
      AddedMembers(OrderedRefs(prev), [info.refId], false);
      AddedNoDups(OrderedRefs(prev), [info.refId], false);
      assert [info.refId][1..] == [];
      if NoDups(ChainIds(info)) {
        var c := ChainIds(prev);
        assert ChainIds(info) == c + [info.refId];
        assert NoDups(c) by {
          assert forall m :: 0 <= m < |c| ==> ChainIds(info)[m] == c[m];
        }
        forall m | 0 <= m < |c|
          ensures c[m] != info.refId
        {
          assert ChainIds(info)[m] == c[m] && ChainIds(info)[|c|] == info.refId;
        }
        assert AddedUnique(c, [info.refId], false) == AddedUnique(c + [info.refId], [], false);
      }
    case _ =>
  }

  // divide_places

  /** The string indices a list holds once every index in ts is taken out, all its occurrences. */
  function Without(ix: seq<int>, ts: seq<int>): seq<int>
    decreases |ix|
  {
    if ix == [] then []
    else (if ix[0] in ts then [] else [ix[0]]) + Without(ix[1..], ts)
  }

  /** pop(index(t)): takes out the first occurrence of t, if there is one. */
  function PopFirst(ix: seq<int>, t: int): (r: seq<int>)
    ensures t in ix ==> |r| == |ix| - 1
    ensures t !in ix ==> r == ix
    decreases |ix|
  {
    if ix == [] then []
    else if ix[0] == t then ix[1..]
    else [ix[0]] + PopFirst(ix[1..], t)
  }

  /** Each place with t popped once from its index list. */
  function PopFromAll(ps: seq<Place>, t: int): (r: seq<Place>)
    ensures |r| == |ps|
    ensures forall j :: 0 <= j < |ps| ==> r[j] == ps[j].(indices := PopFirst(ps[j].indices, t))
    decreases |ps|
  {
    if ps == [] then []
    else [ps[0].(indices := PopFirst(ps[0].indices, t))] + PopFromAll(ps[1..], t)
  }

  /**
   * The first loop of divide_places as written: for each equal place, in
   * order, the first of its indices is popped once from every place's list;
   * reading the first index of an empty list is an IndexError.
   */
  function RemoveEqualTargetsAsWritten(equal: seq<Place>, places: seq<Place>): (r: Result<seq<Place>, string>)
    decreases |equal|
  {
    if equal == [] then Ok(places)
    else if places == [] then RemoveEqualTargetsAsWritten(equal[1..], places)
    else if equal[0].indices == [] then Err("IndexError")
    else RemoveEqualTargetsAsWritten(equal[1..], PopFromAll(places, equal[0].indices[0]))
  }

  /**
   * An equal place that correct_places emptied (its string sits inside a
   * macro) makes the loop as written fail.
   */
  lemma EmptiedEqualPlaceFails(info: RefInfo)
    ensures var emptied := Place(info, [], true);
      RemoveEqualTargetsAsWritten([emptied], [emptied]).Err?
  {
  }

  /**
   * A target that an unequal place lists twice survives the loop as
   * written: one copy is popped and the other stays, so the string an equal
   * place took is claimed again as an unequal one. restore_equal_refs has
   * already detached that string by then, so insert_unequal_refs calls
   * replace_with on a node outside the tree and bs4 raises ValueError
   * (ref_diff.py:464); RefRestore.SpliceDoc returns NotInTree for it.
   */
  lemma RepeatedTargetSurvives(a: RefInfo, b: RefInfo)
    ensures var eq := Place(a, [0], true);
      var r := RemoveEqualTargetsAsWritten([eq], [eq, Place(b, [0, 0], false)]);
      r.Ok? && |r.value| == 2 && r.value[1].indices == [0]
  {
    var eq := Place(a, [0], true);
    var ps := [eq, Place(b, [0, 0], false)];
    assert PopFirst([0, 0], 0) == [0];
    assert RemoveEqualTargetsAsWritten([eq], ps) == RemoveEqualTargetsAsWritten([], PopFromAll(ps, 0));
  }

  /**
   * find_place2 produces such a repeated index: a run deleted at the very
   * end of the old page, with nothing inserted next to it, is sent twice to
   * the last new string, which an equal run may also claim. With a single
   * new string the repeated index is 0 ([0, 0]), so the failure needs no
   * more than a one-string page.
   */
  lemma DeletedAtEndRepeats()
    ensures var ops := [Opcode(Equal, 0, 1, 0, 1), Opcode(Delete, 1, 2, 1, 1)];
      Aligned(ops, 2, 1) && Targets(ops, 1, 1, 1) == [0, 0] && Targets(ops, 0, 0, 1) == [0]
  {
  }

  /** The equal places with a string left to them, in order. */
  function EqualPlaces(places: seq<Place>): (r: seq<Place>)
    ensures forall p :: p in r <==> p in places && p.equal && p.indices != []
    decreases |places|
  {
    if places == [] then []
    else
      var p := places[|places| - 1];
      EqualPlaces(places[..|places| - 1]) + (if p.equal && p.indices != [] then [p] else [])
  }

  /** The string each equal place is restored into: the first of its indices. */
  function FirstIndices(equal: seq<Place>): (r: seq<int>)
    requires forall p :: p in equal ==> p.indices != []
    ensures |r| == |equal|
    decreases |equal|
  {
    if equal == [] then [] else FirstIndices(equal[..|equal| - 1]) + [equal[|equal| - 1].indices[0]]
  }

  /** Every place with the indices in ts taken out. */
  function Stripped(places: seq<Place>, ts: seq<int>): (r: seq<Place>)
    ensures |r| == |places|
    ensures forall j :: 0 <= j < |places| ==> r[j] == places[j].(indices := Without(places[j].indices, ts))
    decreases |places|
  {
    if places == [] then []
    else Stripped(places[..|places| - 1], ts) + [places[|places| - 1].(indices := Without(places[|places| - 1].indices, ts))]
  }

  /** The places that still have a string. */
  function NonEmpty(places: seq<Place>): (r: seq<Place>)
    ensures forall p :: p in r <==> p in places && p.indices != []
    decreases |places|
  {
    if places == [] then []
    else
      var p := places[|places| - 1];
      NonEmpty(places[..|places| - 1]) + (if p.indices != [] then [p] else [])
  }

  /** One entry of divide_places' `unequal` dictionary: a new string and the ids that point to it. */
  datatype Claim = Claim(pos: int, refs: seq<string>)

  /** Dictionary lookup: where the key pos sits, if anywhere. */
  function KeyAt(cs: seq<Claim>, pos: int): (r: Option<nat>)
    ensures r.Some? ==> r.value < |cs| && cs[r.value].pos == pos
    ensures r.None? <==> forall c :: c in cs ==> c.pos != pos
    decreases |cs|
  {
    if cs == [] then None
    else if cs[|cs| - 1].pos == pos then Some(|cs| - 1)
    else KeyAt(cs[..|cs| - 1], pos)
  }

  /** The ids the dictionary gives a string; none when it is not a key. */
  function RefsAt(cs: seq<Claim>, pos: int): seq<string>
  {
    match KeyAt(cs, pos)
    case None => []
    case Some(k) => cs[k].refs
  }

  /** add_unique(unequal.setdefault(pos, []), refs, False) */
  function Claim1(cs: seq<Claim>, pos: int, refs: seq<string>): seq<Claim>
  {
    match KeyAt(cs, pos)
    case None => cs + [Claim(pos, AddedUnique([], refs, false))]
    case Some(k) => cs[k := Claim(pos, AddedUnique(cs[k].refs, refs, false))]
  }

  /** The same for every index of one place. */
  function ClaimAll(cs: seq<Claim>, ix: seq<int>, refs: seq<string>): seq<Claim>
    decreases |ix|
  {
    if ix == [] then cs else ClaimAll(Claim1(cs, ix[0], refs), ix[1..], refs)
  }

  /** The dictionary divide_places builds from the remaining places. */
  function Claims(places: seq<Place>): seq<Claim>
    decreases |places|
  {
    if places == [] then []
    else
      var p := places[|places| - 1];
      ClaimAll(Claims(places[..|places| - 1]), p.indices, OrderedRefs(p.info))
  }

  /**
   * divide_places, with the three corrections: an equal place that
   * correct_places emptied is dropped rather than read, every occurrence
   * of an equal place's string is taken out of the other places, and the
   * ids of each place are listed in document order (OrderedRefs, inside
   * Claims) rather than in the order get_refs gives them.
   */
  method DividePlaces(places: seq<Place>) returns (equal: seq<Place>, unequal: seq<Claim>)
    ensures equal == EqualPlaces(places)
    ensures unequal == Claims(NonEmpty(Stripped(places, FirstIndices(equal))))
  {
    equal := EqualPlaces(places);
    var ps := RemoveTargets(places, equal);
    var rest := NonEmpty(ps);
    unequal := ClaimPlaces(rest);
  }

  /** The first loop of divide_places, corrected: every equal place's string is taken out of every place. */
  method RemoveTargets(places: seq<Place>, equal: seq<Place>) returns (ps: seq<Place>)
    requires forall p :: p in equal ==> p.indices != []
    ensures ps == Stripped(places, FirstIndices(equal))
  {
    ps := places;
    forall j | 0 <= j < |places|
      ensures Without(places[j].indices, []) == places[j].indices
    {
      WithoutNothing(places[j].indices);
    }
    assert FirstIndices(equal[..0]) == [];
    for q := 0 to |equal|
      invariant |ps| == |places|
      invariant forall j :: 0 <= j < |ps| ==> ps[j] == places[j].(indices := Without(places[j].indices, FirstIndices(equal[..q])))
    {
      var t := equal[q].indices[0];
      ghost var ts := FirstIndices(equal[..q]);
      assert FirstIndices(equal[..q + 1]) == ts + [t] by {
        assert equal[..q + 1][..q] == equal[..q];
      }
      for j := 0 to |ps|
        invariant |ps| == |places|
        invariant forall k :: 0 <= k < j ==> ps[k] == places[k].(indices := Without(places[k].indices, ts + [t]))
        invariant forall k :: j <= k < |ps| ==> ps[k] == places[k].(indices := Without(places[k].indices, ts))
      {
        WithoutTwice(places[j].indices, ts, [t]);
        ps := ps[j := ps[j].(indices := Without(ps[j].indices, [t]))];
      }
    }
    assert equal[..|equal|] == equal;
  }

  /** The last loop of divide_places: the dictionary of ids for each remaining string. */
  method ClaimPlaces(rest: seq<Place>) returns (unequal: seq<Claim>)
    ensures unequal == Claims(rest)
  {
    unequal := [];
    for j := 0 to |rest|
      invariant unequal == Claims(rest[..j])
    {
      var refs := OrderedRefs(rest[j].info);
      var ix := rest[j].indices;
      assert rest[..j + 1][..j] == rest[..j];
      ghost var goal := Claims(rest[..j + 1]);
      for m := 0 to |ix|
        invariant ClaimAll(unequal, ix[m..], refs) == goal
      {
        assert ix[m..][1..] == ix[m + 1..];
        var pos := ix[m];
        match KeyAt(unequal, pos)
        case None =>
          var added := AddUnique([], refs, false);
          unequal := unequal + [Claim(pos, added)];
        case Some(k) =>
          var added := AddUnique(unequal[k].refs, refs, false);
          unequal := unequal[k := Claim(pos, added)];
      }
    }
    assert rest[..|rest|] == rest;
  }

  /** Taking out ts leaves exactly the elements not in ts. */
  lemma {:induction false} WithoutMembers(ix: seq<int>, ts: seq<int>)
    ensures forall x :: x in Without(ix, ts) <==> x in ix && x !in ts
    decreases |ix|
  {
    if ix != [] {
      WithoutMembers(ix[1..], ts);
      assert ix == [ix[0]] + ix[1..];
    }
  }


  /** Taking out nothing leaves the list as it is. */
  lemma {:induction false} WithoutNothing(ix: seq<int>)
    ensures Without(ix, []) == ix
    decreases |ix|
  {
    if ix != [] {
      WithoutNothing(ix[1..]);
      assert ix == [ix[0]] + ix[1..];
    }
  }


  /** Filtering distributes over concatenation. */
  lemma {:induction false} WithoutAppend(a: seq<int>, b: seq<int>, ts: seq<int>)
    ensures Without(a + b, ts) == Without(a, ts) + Without(b, ts)
    decreases |a|
  {
    if a != [] {
      WithoutAppend(a[1..], b, ts);
      assert (a + b)[0] == a[0] && (a + b)[1..] == a[1..] + b;
    } else {
      assert a + b == b;
    }
  }


  /** A dictionary's keys are distinct. */
  predicate KeysDistinct(cs: seq<Claim>)
  {
    forall a, b :: 0 <= a < b < |cs| ==> cs[a].pos != cs[b].pos
  }

  /** No id is listed twice for one string. */
  predicate RefsNoDups(cs: seq<Claim>)
  {
    forall c :: c in cs ==> NoDups(c.refs)
  }

  /** Lookup only looks at the keys. */
  lemma {:induction false} KeyAtSameKeys(cs: seq<Claim>, ds: seq<Claim>, q: int)
    requires |cs| == |ds| && forall i :: 0 <= i < |cs| ==> cs[i].pos == ds[i].pos
    ensures KeyAt(cs, q) == KeyAt(ds, q)
    decreases |cs|
  {
    if cs != [] {
      var n := |cs| - 1;
      KeyAtSameKeys(cs[..n], ds[..n], q);
    }
  }

  /** One setdefault and add_unique: the string pos gains refs, every other string keeps its ids. */
  lemma Claim1At(cs: seq<Claim>, pos: int, refs: seq<string>, q: int)
    ensures KeyAt(Claim1(cs, pos, refs), q).Some? <==> KeyAt(cs, q).Some? || q == pos
    ensures forall x :: x in RefsAt(Claim1(cs, pos, refs), q) <==> x in RefsAt(cs, q) || (q == pos && x in refs)
  {
    var r := Claim1(cs, pos, refs);
    match KeyAt(cs, pos)
    case None =>
      AddedMembers([], refs, false);
      assert r[..|cs|] == cs;
      if q == pos {
        assert KeyAt(r, q) == Some(|cs|);
      } else {
        assert KeyAt(r, q) == KeyAt(cs, q);
      }
    case Some(k) =>
      AddedMembers(cs[k].refs, refs, false);
      KeyAtSameKeys(cs, r, q);
  }

  /** One setdefault and add_unique keeps the keys distinct and each list free of duplicates. */
  lemma Claim1Shape(cs: seq<Claim>, pos: int, refs: seq<string>)
    requires KeysDistinct(cs) && RefsNoDups(cs)
    ensures KeysDistinct(Claim1(cs, pos, refs)) && RefsNoDups(Claim1(cs, pos, refs))
  {
    var r := Claim1(cs, pos, refs);
    match KeyAt(cs, pos)
    case None =>
      AddedNoDups([], refs, false);
    case Some(k) =>
      AddedNoDups(cs[k].refs, refs, false);
      forall c | c in r
        ensures NoDups(c.refs)
      {
        var i :| 0 <= i < |r| && r[i] == c;
        if i != k {
          assert c in cs;
        }
      }
  }

  /** Claiming every index of one place. */
  lemma {:induction false} ClaimAllAt(cs: seq<Claim>, ix: seq<int>, refs: seq<string>, q: int)
    ensures KeyAt(ClaimAll(cs, ix, refs), q).Some? <==> KeyAt(cs, q).Some? || q in ix
    ensures forall x :: x in RefsAt(ClaimAll(cs, ix, refs), q) <==> x in RefsAt(cs, q) || (q in ix && x in refs)
    decreases |ix|
  {
    if ix != [] {
      Claim1At(cs, ix[0], refs, q);
      ClaimAllAt(Claim1(cs, ix[0], refs), ix[1..], refs, q);
      assert ix == [ix[0]] + ix[1..];
    }
  }

  lemma {:induction false} ClaimAllShape(cs: seq<Claim>, ix: seq<int>, refs: seq<string>)
    requires KeysDistinct(cs) && RefsNoDups(cs)
    ensures KeysDistinct(ClaimAll(cs, ix, refs)) && RefsNoDups(ClaimAll(cs, ix, refs))
    decreases |ix|
  {
    if ix != [] {
      Claim1Shape(cs, ix[0], refs);
      ClaimAllShape(Claim1(cs, ix[0], refs), ix[1..], refs);
    }
  }

  /**
   * The dictionary divide_places builds has a string as a key exactly when
   * a place names it, and lists for it exactly the ids of the comments of
   * the places that name it.
   */
  lemma {:induction false} ClaimsAt(places: seq<Place>, q: int)
    ensures KeyAt(Claims(places), q).Some? <==> exists p :: p in places && q in p.indices
    ensures forall x :: x in RefsAt(Claims(places), q) <==>
      (exists p :: p in places && q in p.indices && x in ChainIds(p.info))
    decreases |places|
  {
    if places != [] {
      var n := |places| - 1;
      var p := places[n];
      ClaimsAt(places[..n], q);
      ClaimAllAt(Claims(places[..n]), p.indices, OrderedRefs(p.info), q);
      OrderedRefsIds(p.info);
      assert places == places[..n] + [p];
    }
  }

  /** Its keys are distinct and no string lists an id twice. */
  lemma {:induction false} ClaimsShape(places: seq<Place>)
    ensures KeysDistinct(Claims(places)) && RefsNoDups(Claims(places))
    decreases |places|
  {
    if places != [] {
      var n := |places| - 1;
      ClaimsShape(places[..n]);
      ClaimAllShape(Claims(places[..n]), places[n].indices, OrderedRefs(places[n].info));
    }
  }

  /** A remaining place is some place with ts taken out. */
  lemma RestFrom(places: seq<Place>, ts: seq<int>, p: Place) returns (j: nat)
    requires p in NonEmpty(Stripped(places, ts))
    ensures j < |places| && p.info == places[j].info
    ensures forall x :: x in p.indices <==> x in places[j].indices && x !in ts
  {
    var st := Stripped(places, ts);
    j :| j < |st| && st[j] == p;
    WithoutMembers(places[j].indices, ts);
  }

  /** A place naming q, with q not in ts, remains with q. */
  lemma RestHas(places: seq<Place>, ts: seq<int>, j: nat, q: int) returns (p: Place)
    requires j < |places| && q in places[j].indices && q !in ts
    ensures p in NonEmpty(Stripped(places, ts)) && q in p.indices && p.info == places[j].info
  {
    p := Stripped(places, ts)[j];
    WithoutMembers(places[j].indices, ts);
    assert q in p.indices;
  }

  /**
   * With the strings ts taken out of every place and the emptied places
   * dropped, the dictionary lists for a string q exactly the ids of the
   * comments whose places name it, unless q is in ts.
   */
  lemma StrippedAt(places: seq<Place>, ts: seq<int>, q: int)
    ensures var unequal := Claims(NonEmpty(Stripped(places, ts)));
      (q in ts ==> KeyAt(unequal, q).None?) &&
      forall x :: x in RefsAt(unequal, q) <==>
        (q !in ts && exists j :: 0 <= j < |places| && q in places[j].indices && x in ChainIds(places[j].info))
  {
    var rest := NonEmpty(Stripped(places, ts));
    ClaimsAt(rest, q);
    if q in ts && KeyAt(Claims(rest), q).Some? {
      var p :| p in rest && q in p.indices;
      var j := RestFrom(places, ts, p);
    }
    forall x
      ensures x in RefsAt(Claims(rest), q) <==>
        (q !in ts && exists j :: 0 <= j < |places| && q in places[j].indices && x in ChainIds(places[j].info))
    {
      if x in RefsAt(Claims(rest), q) {
        var p :| p in rest && q in p.indices && x in ChainIds(p.info);
        var j := RestFrom(places, ts, p);
      }
      if q !in ts && exists j :: 0 <= j < |places| && q in places[j].indices && x in ChainIds(places[j].info) {
        var j :| 0 <= j < |places| && q in places[j].indices && x in ChainIds(places[j].info);
        var p := RestHas(places, ts, j, q);
      }
    }
  }


  /** A list none of whose elements is in ts loses nothing. */
  lemma {:induction false} WithoutAbsent(ix: seq<int>, ts: seq<int>)
    requires forall x :: x in ix ==> x !in ts
    ensures Without(ix, ts) == ix
    decreases |ix|
  {
    if ix != [] {
      var y := ix[0];
      assert y in ix;
      assert y !in ts;
      assert forall x :: x in ix[1..] ==> x in ix;
      WithoutAbsent(ix[1..], ts);
      assert ix == [y] + ix[1..];
    }
  }


  /** On a list without repeats, popping the first occurrence is taking out every occurrence. */
  lemma {:induction false} PopIsWithout(ix: seq<int>, t: int)
    requires NoDups(ix)
    ensures PopFirst(ix, t) == Without(ix, [t]) && NoDups(PopFirst(ix, t))
    decreases |ix|
  {
    if ix != [] {
      var tl := ix[1..];
      assert NoDups(tl) by {
        assert forall m :: 0 <= m < |tl| ==> tl[m] == ix[m + 1];
      }
      assert ix == [ix[0]] + tl;
      if ix[0] == t {
        assert forall m :: 0 <= m < |tl| ==> tl[m] == ix[m + 1] && ix[m + 1] != ix[0];
        WithoutAbsent(tl, [t]);
      } else {
        PopIsWithout(tl, t);
        WithoutMembers(tl, [t]);
        var w := PopFirst(tl, t);
        assert ix[0] !in tl by {
          assert forall m :: 0 <= m < |tl| ==> tl[m] == ix[m + 1] && ix[m + 1] != ix[0];
        }
        var r := [ix[0]] + w;
        assert forall m :: 0 < m < |r| ==> r[m] == w[m - 1] && r[m] in w;
      }
    }
  }

  /** Taking out a and then b is taking out both. */
  lemma {:induction false} WithoutTwice(ix: seq<int>, a: seq<int>, b: seq<int>)
    ensures Without(Without(ix, a), b) == Without(ix, a + b)
    decreases |ix|
  {
    if ix != [] {
      WithoutTwice(ix[1..], a, b);
      var h := if ix[0] in a then [] else [ix[0]];
      WithoutAppend(h, Without(ix[1..], a), b);
      if h != [] {
        assert h[1..] == [];
      }
    }
  }


  /** FirstIndices, read from the front. */
  lemma {:induction false} FirstIndicesCons(equal: seq<Place>)
    requires equal != [] && forall p :: p in equal ==> p.indices != []
    ensures FirstIndices(equal) == [equal[0].indices[0]] + FirstIndices(equal[1..])
    decreases |equal|
  {
    var n := |equal| - 1;
    var init, tl := equal[..n], equal[1..];
    assert forall p :: p in tl ==> p in equal;
    if n > 0 {
      assert forall p :: p in init ==> p in equal;
      FirstIndicesCons(init);
      assert init[0] == equal[0] && init[1..] == tl[..n - 1];
      assert tl[n - 1] == equal[n];
    } else {
      assert tl == [];
    }
  }

  /** Popping t from places whose lists have no repeats is taking t out of every list. */
  lemma PopAllIsStripped(places: seq<Place>, t: int)
    requires forall p :: p in places ==> NoDups(p.indices)
    ensures PopFromAll(places, t) == Stripped(places, [t])
    ensures forall p :: p in PopFromAll(places, t) ==> NoDups(p.indices)
  {
    var popped := PopFromAll(places, t);
    forall j | 0 <= j < |places|
      ensures popped[j].indices == Without(places[j].indices, [t]) && NoDups(popped[j].indices)
    {
      assert places[j] in places;
      PopIsWithout(places[j].indices, t);
    }
  }

  /** Stripping a and then b is stripping both. */
  lemma StrippedTwice(places: seq<Place>, a: seq<int>, b: seq<int>)
    ensures Stripped(Stripped(places, a), b) == Stripped(places, a + b)
  {
    forall j | 0 <= j < |places|
      ensures Without(Without(places[j].indices, a), b) == Without(places[j].indices, a + b)
    {
      WithoutTwice(places[j].indices, a, b);
    }
  }

  /** Stripping nothing leaves the places as they are. */
  lemma StrippedNothing(places: seq<Place>)
    ensures Stripped(places, []) == places
  {
    forall j | 0 <= j < |places|
      ensures Without(places[j].indices, []) == places[j].indices
    {
      WithoutNothing(places[j].indices);
    }
  }

  /**
   * Where neither finding applies (no equal place was emptied, no place
   * lists a string twice), the loop as written and the corrected one agree.
   */
  lemma {:induction false} AsWrittenAgrees(equal: seq<Place>, places: seq<Place>)
    requires forall p :: p in equal ==> p.indices != []
    requires forall p :: p in places ==> NoDups(p.indices)
    ensures RemoveEqualTargetsAsWritten(equal, places) == Ok(Stripped(places, FirstIndices(equal)))
    decreases |equal|
  {
    if equal == [] {
      StrippedNothing(places);
    } else if places == [] {
      AsWrittenAgrees(equal[1..], places);
    } else {
      var t := equal[0].indices[0];
      var rest := Stripped(places, [t]);
      assert RemoveEqualTargetsAsWritten(equal, places) == RemoveEqualTargetsAsWritten(equal[1..], rest)
        && forall p :: p in rest ==> NoDups(p.indices) by {
        PopAllIsStripped(places, t);
      }
      AsWrittenAgrees(equal[1..], rest);
      assert Stripped(rest, FirstIndices(equal[1..])) == Stripped(places, FirstIndices(equal)) by {
        StrippedTwice(places, [t], FirstIndices(equal[1..]));
        FirstIndicesCons(equal);
      }
    }
  }
}
