/**
 * is_empty and restore_refs of ref_diff.py: the pipeline that carries the
 * inline comments of the old version of a page over to its new version.
 */
module RefDiff {
  import opened Wrappers
  import opened Text
  import opened Markup
  import opened RefTree
  import opened RefDict
  import opened RefPlaces
  import opened RefRestore

  /** The strings among rs that are not whitespace only, in order. */
  function NonBlank(d: Doc, rs: seq<nat>): (r: seq<nat>)
    requires forall k :: 0 <= k < |rs| ==> rs[k] < |d| && d[rs[k]].TextNode?
    ensures forall k :: 0 <= k < |r| ==> r[k] < |d| && d[r[k]].TextNode?
  {
    if rs == [] then []
    else
      var last := rs[|rs| - 1];
      assert rs == rs[..|rs| - 1] + [last];
      NonBlank(d, rs[..|rs| - 1]) + (if Blank(d[last].text) then [] else [last])
  }

  /** NonBlank keeps exactly the strings of rs that are not whitespace only. */
  lemma {:induction false} NonBlankMembers(d: Doc, rs: seq<nat>)
    requires forall k :: 0 <= k < |rs| ==> rs[k] < |d| && d[rs[k]].TextNode?
    ensures forall j :: j in NonBlank(d, rs) <==> j in rs && !Blank(d[j].text)
    decreases |rs|
  {
    if rs != [] {
      NonBlankMembers(d, rs[..|rs| - 1]);
      assert rs == rs[..|rs| - 1] + [rs[|rs| - 1]];
    }
  }

  /** No string is left exactly when every string is whitespace only. */
  lemma {:induction false} NonBlankNone(d: Doc, rs: seq<nat>)
    requires forall k :: 0 <= k < |rs| ==> rs[k] < |d| && d[rs[k]].TextNode?
    ensures NonBlank(d, rs) == [] <==> forall k :: 0 <= k < |rs| ==> Blank(d[rs[k]].text)
    decreases |rs|
  {
    if rs != [] {
      NonBlankNone(d, rs[..|rs| - 1]);
    }
  }

  /** The page's strings as restore_refs lists them: `[s for s in bs.strings if s.strip()]`. */
  function NonBlankRuns(d: Doc): (r: seq<nat>)
    requires Ordered(d) && |d| > 0
    ensures forall k :: 0 <= k < |r| ==> r[k] < |d| && d[r[k]].TextNode?
  {
    NonBlank(d, Runs(d))
  }

  /** is_empty: true exactly when every string of the page is whitespace only. */
  method IsEmpty(d: Doc) returns (b: bool)
    requires Ordered(d) && |d| > 0
    ensures b <==> forall k :: 0 <= k < |Runs(d)| ==> Blank(d[Runs(d)[k]].text)
    ensures b <==> NonBlankRuns(d) == []
  {
    var rs := Runs(d);
    for k := 0 to |rs|
      invariant forall m :: 0 <= m < k ==> Blank(d[rs[m]].text)
    {
      StripEmptyIffBlank(d[rs[k]].text);
      if Strip(d[rs[k]].text) != [] {
        NonBlankNone(d, rs);
        return false;
      }
    }
    NonBlankNone(d, rs);
    return true;
  }

  /** Every place find_place2 makes for the records rs carries one of them. */
  lemma PlacesFromRecords(oldRuns: seq<nat>, nb: nat, ops: seq<Opcode>, rs: seq<RefInfo>)
    requires Aligned(ops, |oldRuns|, nb) && forall x :: x in rs ==> x.full in oldRuns
    ensures forall pl :: pl in PlacesOf(oldRuns, nb, ops, rs) ==> pl.info in rs
  {
    NoneSkipped(oldRuns, nb, ops, rs);
    forall pl | pl in PlacesOf(oldRuns, nb, ops, rs) ensures pl.info in rs {
      var m :| 0 <= m < |PlacesOf(oldRuns, nb, ops, rs)| && PlacesOf(oldRuns, nb, ops, rs)[m] == pl;
      assert pl.info == rs[m];
    }
  }

  /** Every index find_place2 gives names one of the new page's nb strings. */
  lemma PlacesIndexed(oldRuns: seq<nat>, nb: nat, ops: seq<Opcode>, rs: seq<RefInfo>)
    requires Aligned(ops, |oldRuns|, nb) && nb > 0 && forall x :: x in rs ==> x.full in oldRuns
    ensures forall pl :: pl in PlacesOf(oldRuns, nb, ops, rs) ==> IndicesIn(nb, pl.indices)
  {
    PlacesInRange(oldRuns, nb, ops, rs);
    forall pl, m | pl in PlacesOf(oldRuns, nb, ops, rs) && 0 <= m < |pl.indices| ensures 0 <= pl.indices[m] < nb {
      assert pl.indices[m] in pl.indices;
    }
  }

  /** Parent links of a well-formed page point backwards. */
  lemma WellFormedParentsBefore(d: Doc)
    requires WellFormed(d)
    ensures ParentsBefore(d)
  {
    forall i | 0 <= i < |d| && d[i].parent.Some? ensures d[i].parent.value < i {
      assert i != 0;
    }
  }

  /** Correcting places keeps their records, so every equal place still carries a record that holds. */
  lemma CorrectedHold(d0: Doc, rs: seq<RefInfo>, places: seq<Place>, corrected: seq<Place>)
    requires Ordered(d0)
    requires |corrected| == |places| && forall m :: 0 <= m < |places| ==> corrected[m].info == places[m].info
    requires forall pl :: pl in places ==> pl.info in rs
    requires forall x :: x in rs ==> Holds(d0, x)
    ensures forall pl :: pl in EqualPlaces(corrected) ==> Holds(d0, pl.info)
  {
    forall pl | pl in EqualPlaces(corrected) ensures Holds(d0, pl.info) {
      var m :| 0 <= m < |corrected| && corrected[m] == pl;
      assert places[m] in places;
    }
  }

  /** The strings' texts with the whitespace around them stripped, as find_place2 compares them. */
  function StrippedTexts(d: Doc, rs: seq<nat>): (r: seq<string>)
    requires forall k :: 0 <= k < |rs| ==> rs[k] < |d| && d[rs[k]].TextNode?
    ensures |r| == |rs|
  {
    seq(|rs|, k requires 0 <= k < |rs| => Strip(d[rs[k]].text))
  }

  /** The opcodes the matcher gives for the stripped non-blank strings of the old page d0 and the new page d1. */
  ghost function Diff(d0: Doc, d1: Doc, matcher: (seq<string>, seq<string>) -> seq<Opcode>): seq<Opcode>
    requires Ordered(d0) && |d0| > 0 && Ordered(d1) && |d1| > 0
  {
    matcher(StrippedTexts(d0, NonBlankRuns(d0)), StrippedTexts(d1, NonBlankRuns(d1)))
  }

  /**
   * The exact placements and the claims restore_refs derives from the
   * records rs of the old page d0 and the opcodes ops: find_place2, then
   * correct_places against the new page d1, then divide_places.
   */
  ghost function Placed(d0: Doc, rs: seq<RefInfo>, d1: Doc, ops: seq<Opcode>): (seq<Place>, seq<Claim>)
    requires WellFormed(d0) && WellFormed(d1) && NonBlankRuns(d1) != []
    requires Aligned(ops, |NonBlankRuns(d0)|, |NonBlankRuns(d1)|)
    requires forall x :: x in rs ==> x.full in NonBlankRuns(d0)
  {
    var oldStrings, newStrings := NonBlankRuns(d0), NonBlankRuns(d1);
    PlacesIndexed(oldStrings, |newStrings|, ops, rs);
    WellFormedParentsBefore(d1);
    var corrected := CorrectedPlaces(MacroFlags(d1, newStrings), PlacesOf(oldStrings, |newStrings|, ops, rs));
    var equal := EqualPlaces(corrected);
    (equal, Claims(NonEmpty(Stripped(corrected, FirstIndices(equal)))))
  }

  /**
   * The placements restore_refs computes: the old page's nested markers are
   * dissolved by remove_outline_resolved (trace and dissolved record its
   * rounds, cleaned is the page then), its comments are recorded by
   * generate_ref_dict, and the records are placed on the new page. It fails
   * exactly when a marker lacks its id or a record's string is not a
   * non-blank string of the old page.
   */
  method PlaceComments(oldBs: Soup, d1: Doc, matcher: (seq<string>, seq<string>) -> seq<Opcode>)
    returns (r: Result<(seq<Place>, seq<Claim>), string>, ghost trace: seq<Doc>, ghost dissolved: seq<nat>,
             ghost cleaned: Doc, ghost records: seq<RefInfo>)
    requires oldBs.Valid() && WellFormed(d1) && NonBlankRuns(d1) != []
    requires forall a, b :: Aligned(matcher(a, b), |a|, |b|)
    modifies oldBs
    ensures oldBs.Valid() && WellFormed(cleaned)
    ensures OutlineRun(old(oldBs.nodes), trace, dissolved, cleaned)
    ensures TextOf(cleaned, 0) == TextOf(old(oldBs.nodes), 0)
    ensures forall c :: c in Markers(cleaned) ==> !HasMarkerChild(cleaned, c)
    ensures !MissingRef(cleaned) ==> RefDictOf(cleaned, oldBs.nodes, records)
    ensures r.Err? <==> MissingRef(cleaned) || exists x :: x in records && x.full !in NonBlankRuns(oldBs.nodes)
    ensures r.Ok? ==> forall pl :: pl in r.value.0 ==> Holds(oldBs.nodes, pl.info)
    ensures r.Ok? ==>
      && (forall x :: x in records ==> x.full in NonBlankRuns(oldBs.nodes))
      && r.value == Placed(oldBs.nodes, records, d1, Diff(oldBs.nodes, d1, matcher))
  {
    trace, dissolved := RemoveOutlineResolved(oldBs);
    cleaned, records := oldBs.nodes, [];
    var dict := GenerateRefDict(oldBs);
    if dict.Err? {
      return Err(dict.error), trace, dissolved, cleaned, records;
    }
    records := dict.value;
    r := PlaceRecords(oldBs.nodes, dict.value, d1, matcher);
  }

  /**
   * The records rs of the old page d0 mapped through the diff the matcher
   * computes onto the new page's non-blank strings, corrected and divided
   * into exact placements and claims.
   */
  method PlaceRecords(d0: Doc, rs: seq<RefInfo>, d1: Doc, matcher: (seq<string>, seq<string>) -> seq<Opcode>)
    returns (r: Result<(seq<Place>, seq<Claim>), string>)
    requires WellFormed(d0) && WellFormed(d1) && NonBlankRuns(d1) != []
    requires forall a, b :: Aligned(matcher(a, b), |a|, |b|)
    requires forall x :: x in rs ==> Holds(d0, x)
    ensures r.Ok? ==> forall pl :: pl in r.value.0 ==> Holds(d0, pl.info)
    ensures r.Err? <==> exists x :: x in rs && x.full !in NonBlankRuns(d0)
    ensures r.Ok? ==> r.value == Placed(d0, rs, d1, Diff(d0, d1, matcher))
  {
    var newStrings := NonBlankRuns(d1);
    var oldStrings := NonBlankRuns(d0);
    var ops := matcher(StrippedTexts(d0, oldStrings), StrippedTexts(d1, newStrings));
    var found := FindPlace2(oldStrings, |newStrings|, rs, ops);
    if found.Err? {
      return Err(found.error);
    }
    var places := found.value;
    PlacesIndexed(oldStrings, |newStrings|, ops, rs);
    PlacesFromRecords(oldStrings, |newStrings|, ops, rs);
    WellFormedParentsBefore(d1);
    var corrected := CorrectPlaces(d1, newStrings, places);
    var equal, unequal := DividePlaces(corrected);
    CorrectedHold(d0, rs, places, corrected);
    r := Ok((equal, unequal));
  }

  /**
   * restore_refs: when the new page has a string that is not whitespace, the
   * comments of the old page are placed on it, exact placements are
   * restored, the others only when resolveChanged is false, and the page is
   * serialised again. It fails exactly when one of these steps fails. When
   * every string of the new page is blank, newContent comes back as it is.
   */
  method RestoreRefs(oldBs: Soup, newBs: Soup, newContent: string,
                     matcher: (seq<string>, seq<string>) -> seq<Opcode>,
                     resolvedIds: seq<string>, resolveChanged: bool)
    returns (r: Result<string, string>, ghost equal: seq<Place>, ghost unequal: seq<Claim>, ghost mid: Doc,
             ghost trace: seq<Doc>, ghost dissolved: seq<nat>, ghost cleaned: Doc, ghost records: seq<RefInfo>)
    requires oldBs != newBs && oldBs.Valid() && newBs.Valid()
    requires forall a, b :: Aligned(matcher(a, b), |a|, |b|)
    modifies oldBs, newBs
    ensures newBs.Valid() && oldBs.Valid() && WellFormed(cleaned)
    ensures OutlineRun(old(oldBs.nodes), trace, dissolved, cleaned)
    ensures forall pl :: pl in equal ==> Holds(oldBs.nodes, pl.info)
    ensures WellFormed(mid) && |old(newBs.nodes)| <= |mid|
    ensures NonBlankRuns(old(newBs.nodes)) == [] ==>
      r == Ok(newContent) && newBs.nodes == old(newBs.nodes) && oldBs.nodes == old(oldBs.nodes)
    ensures NonBlankRuns(old(newBs.nodes)) != [] ==>
      var strings := NonBlankRuns(old(newBs.nodes));
      (r.Err? <==>
        || MissingRef(cleaned)
        || (exists x :: x in records && x.full !in NonBlankRuns(oldBs.nodes))
        || EqualRestored(old(newBs.nodes), oldBs.nodes, equal, strings).Err?
        || (!resolveChanged && UnequalInserted(mid, unequal, strings, resolvedIds).Err?))
    ensures r.Ok? && NonBlankRuns(old(newBs.nodes)) != [] ==>
      var strings := NonBlankRuns(old(newBs.nodes));
      && r.value == RenderDoc(newBs.nodes)
      && EqualRestored(old(newBs.nodes), oldBs.nodes, equal, strings) == Ok(mid)
      && (resolveChanged ==> newBs.nodes == mid)
      && (!resolveChanged ==> UnequalInserted(mid, unequal, strings, resolvedIds) == Ok(newBs.nodes))
      && TextOf(newBs.nodes, 0) == TextOf(mid, 0)
    ensures NonBlankRuns(old(newBs.nodes)) != [] ==>
      && TextOf(cleaned, 0) == TextOf(old(oldBs.nodes), 0)
      && (forall c :: c in Markers(cleaned) ==> !HasMarkerChild(cleaned, c))
      && (!MissingRef(cleaned) ==> RefDictOf(cleaned, oldBs.nodes, records))
    ensures r.Ok? && NonBlankRuns(old(newBs.nodes)) != [] ==>
      && (forall x :: x in records ==> x.full in NonBlankRuns(oldBs.nodes))
      && (equal, unequal) == Placed(oldBs.nodes, records, old(newBs.nodes), Diff(oldBs.nodes, old(newBs.nodes), matcher))
  {
    equal, unequal, mid, cleaned, records := [], [], newBs.nodes, oldBs.nodes, [];
    trace, dissolved := [oldBs.nodes], [];
    var empty := IsEmpty(newBs.nodes);
    if empty {
      return Ok(newContent), equal, unequal, mid, trace, dissolved, cleaned, records;
    }
    var d1 := newBs.nodes;
    var placed;
    placed, trace, dissolved, cleaned, records := PlaceComments(oldBs, d1, matcher);
    if placed.Err? {
      return Err(placed.error), equal, unequal, mid, trace, dissolved, cleaned, records;
    }
    var newStrings := NonBlankRuns(d1);
    var (eq, uneq) := placed.value;
    equal, unequal := eq, uneq;
    var done := RestoreEqualRefs(newBs, oldBs.nodes, eq, newStrings);
    if done.Err? {
      return Err(done.error), equal, unequal, mid, trace, dissolved, cleaned, records;
    }
    mid := newBs.nodes;
    if !resolveChanged {
      done := InsertUnequalRefs(newBs, uneq, newStrings, resolvedIds);
      if done.Err? {
        return Err(done.error), equal, unequal, mid, trace, dissolved, cleaned, records;
      }
      UnequalInsertedText(mid, uneq, newStrings, resolvedIds);
    }
    r := Ok(RenderDoc(newBs.nodes));
  }
}
