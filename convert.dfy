/**
 * Helpers of the Confluence backend that prepare a page's content: dropping
 * the first title, choosing a free file name, adding a table of contents and
 * restoring inline comments only on pages that already exist.
 */
module Convert {
  import opened Wrappers
  import opened Text
  import opened Markup
  import opened RefPlaces
  import opened RefDiff
  import opened RefTree
  import opened RefDict
  import opened RefRestore
  import opened Wrapper

  // ---------------------------------------------------------------------------
  // crop_title
  // ---------------------------------------------------------------------------

  /** Number of '#' characters the text starts with. */
  function HashRun(s: string): (k: nat)
    ensures k <= |s|
    ensures forall i :: 0 <= i < k ==> s[i] == '#'
    ensures k < |s| ==> s[k] != '#'
  {
    if s != [] && s[0] == '#' then 1 + HashRun(s[1..]) else 0
  }

  /** The pattern `^#{1,6} .+` matches at the start of s, as the regular expression engine reads it. */
  ghost predicate TitlePattern(s: string)
  {
    exists j :: 1 <= j <= 6 && HashesSpaceText(s, j)
  }

  /** j '#' characters, a space and a character other than a newline. */
  predicate HashesSpaceText(s: string, j: nat)
  {
    j + 1 < |s| && (forall i :: 0 <= i < j ==> s[i] == '#') && s[j] == ' ' && s[j + 1] != '\n'
  }

  /** The text starts with a Markdown title: one to six '#', a space and a character of the title line. */
  predicate StartsWithTitle(s: string)
  {
    var k := HashRun(s);
    1 <= k <= 6 && k + 1 < |s| && s[k] == ' ' && s[k + 1] != '\n'
  }

  /** Counting the leading '#' decides exactly what the pattern decides. */
  lemma TitleMatches(s: string)
    ensures StartsWithTitle(s) <==> TitlePattern(s)
  {
    var k := HashRun(s);
    if TitlePattern(s) {
      var j :| 1 <= j <= 6 && HashesSpaceText(s, j);
      HashRunCovers(s, j);
      HashRunStops(s, j);
    }
    if StartsWithTitle(s) {
      assert 1 <= k <= 6 && HashesSpaceText(s, k);
    }
  }

  lemma {:induction false} HashRunCovers(s: string, j: nat)
    requires j <= |s| && forall i :: 0 <= i < j ==> s[i] == '#'
    ensures HashRun(s) >= j
  {
    if j > 0 {
      HashRunCovers(s[1..], j - 1);
    }
  }

  lemma {:induction false} HashRunStops(s: string, j: nat)
    requires j < |s| && s[j] != '#'
    ensures HashRun(s) <= j
  {
    if j > 0 && s[0] == '#' {
      HashRunStops(s[1..], j - 1);
    }
  }

  /** The position of the first occurrence of c in s, if any. */
  function Find(s: string, c: char): (r: Option<nat>)
    ensures r.Some? ==> r.value < |s| && s[r.value] == c && c !in s[..r.value]
    ensures r.None? <==> c !in s
  {
    if s == [] then None
    else if s[0] == c then Some(0)
    else
      var r := Find(s[1..], c);
      assert s == [s[0]] + s[1..];
      if r.Some? then
        assert s[..r.value + 1] == [s[0]] + s[1..][..r.value];
        Some(r.value + 1)
      else None
  }

  /** r is what follows the first newline of t, or empty when t has none. */
  predicate AfterFirstLine(t: string, r: string)
  {
    if '\n' in t then
      |r| < |t| && r == t[|t| - |r|..] && t[|t| - |r| - 1] == '\n' && '\n' !in t[..|t| - |r| - 1]
    else r == ""
  }

  lemma CutAfter(t: string, i: nat)
    requires i < |t| && t[i] == '\n' && '\n' !in t[..i]
    ensures AfterFirstLine(t, t[i + 1..])
  {
  }

  /** crop_title: drop the first title line from the source when the (left-stripped) source starts with one. */
  function CropTitle(source: string): (r: string)
    ensures !StartsWithTitle(LStrip(source)) ==> r == source
    ensures StartsWithTitle(LStrip(source)) ==> AfterFirstLine(LStrip(source), r)
  {
    var t := LStrip(source);
    if StartsWithTitle(t) then
      match Find(t, '\n')
      case Some(i) => CutAfter(t, i); t[i + 1..]
      case None => ""
    else source
  }

  // ---------------------------------------------------------------------------
  // unique_name
  // ---------------------------------------------------------------------------

  /** The position of the last occurrence of c in s, or -1. */
  function RFind(s: string, c: char): (r: int)
    ensures -1 <= r < |s|
    ensures r >= 0 ==> s[r] == c
    ensures forall i :: r < i < |s| ==> s[i] != c
  {
    if s == [] then -1
    else if s[|s| - 1] == c then |s| - 1
    else RFind(s[..|s| - 1], c)
  }

  predicate AllDots(s: string)
  {
    s == [] || (s[0] == '.' && AllDots(s[1..]))
  }

  /**
   * os.path.splitext: the extension runs from the last '.' of the last path
   * component, unless everything before that dot in the component is dots.
   */
  function SplitExt(p: string): (r: (string, string))
    ensures r.0 + r.1 == p
    ensures r.1 == [] || ExtensionShape(r.1)
  {
    var sep := RFind(p, '/');
    var dot := RFind(p, '.');
    if dot > sep && !AllDots(p[sep + 1..dot]) then
      ExtShape(p, sep, dot);
      (p[..dot], p[dot..])
    else (p, "")
  }

  /** An extension: a dot, then neither a separator nor another dot. */
  predicate ExtensionShape(e: string)
  {
    e != [] && e[0] == '.' && '/' !in e && '.' !in e[1..]
  }

  lemma ExtShape(p: string, sep: int, dot: int)
    requires -1 <= sep < dot < |p| && p[dot] == '.'
    requires forall i :: sep < i < |p| ==> p[i] != '/'
    requires forall i :: dot < i < |p| ==> p[i] != '.'
    ensures p[..dot] + p[dot..] == p
    ensures ExtensionShape(p[dot..])
  {
    var e := p[dot..];
    forall i | 0 <= i < |e| ensures e[i] != '/' { assert e[i] == p[dot + i]; }
    forall i | 1 <= i < |e| ensures e[i] != '.' { assert e[i] == p[dot + i]; }
    assert forall i :: 0 <= i < |e[1..]| ==> e[1..][i] == e[i + 1];
  }

  /** The n-th candidate name: the stem, '_', n and the extension. */
  function Candidate(oldName: string, n: nat): string
  {
    var parts := SplitExt(oldName);
    parts.0 + "_" + NatToString(n) + parts.1
  }

  lemma CandidateNotOld(oldName: string, n: nat)
    ensures Candidate(oldName, n) != oldName
  {
    var stem, ext := SplitExt(oldName).0, SplitExt(oldName).1;
    assert |Candidate(oldName, n)| == |stem| + 1 + |NatToString(n)| + |ext|;
  }

  /** Different counters give different candidates. */
  lemma CandidateInjective(oldName: string, m: nat, n: nat)
    requires Candidate(oldName, m) == Candidate(oldName, n)
    ensures m == n
  {
    var stem, ext := SplitExt(oldName).0, SplitExt(oldName).1;
    var a, dm, dn := stem + "_", NatToString(m), NatToString(n);
    var x := a + dm + ext;
    assert x == a + dn + ext;
    assert |dm| == |dn|;
    assert x[|a|..|a| + |dm|] == dm;
    assert (a + dn + ext)[|a|..|a| + |dn|] == dn;
    NatToStringInjective(m, n);
  }

  /**
   * unique_name: the old name when no file in the directory has it, otherwise
   * the first candidate (counting from 2) that no file has. The directory's
   * listing is given as the set of names it holds.
   */
  method UniqueName(existing: set<string>, oldName: string) returns (name: string)
    ensures name !in existing
    ensures oldName !in existing ==> name == oldName
    ensures oldName in existing ==>
      exists n :: n >= 2 && name == Candidate(oldName, n) && AllTaken(existing, oldName, n)
  {
    var counter: nat := 1;
    name := oldName;
    ghost var tried: set<string> := {};
    while name in existing
      invariant counter >= 1
      invariant name == if counter == 1 then oldName else Candidate(oldName, counter)
      invariant counter >= 2 ==> oldName in existing
      invariant AllTaken(existing, oldName, counter)
      invariant tried <= existing && name !in tried
      invariant forall x :: x in tried ==> Earlier(x, oldName, counter)
      decreases existing - tried
    {
      tried := tried + {name};
      counter := counter + 1;
      name := Candidate(oldName, counter);
      NextIsFresh(tried, oldName, counter);
    }
  }

  /** Every candidate from 2 up to (not including) n is already taken. */
  predicate AllTaken(existing: set<string>, oldName: string, n: nat)
  {
    forall k :: 2 <= k < n ==> Candidate(oldName, k) in existing
  }

  /** x is the old name or a candidate numbered below n. */
  ghost predicate Earlier(x: string, oldName: string, n: nat)
  {
    x == oldName || exists k :: 2 <= k < n && x == Candidate(oldName, k)
  }

  /** The next candidate is none of the names tried before it. */
  lemma NextIsFresh(tried: set<string>, oldName: string, n: nat)
    requires forall x :: x in tried ==> Earlier(x, oldName, n)
    ensures Candidate(oldName, n) !in tried
  {
    if Candidate(oldName, n) in tried {
      var x := Candidate(oldName, n);
      if x == oldName {
        CandidateNotOld(oldName, n);
      } else {
        var k :| 2 <= k < n && x == Candidate(oldName, k);
        CandidateInjective(oldName, k, n);
      }
    }
  }

  // ---------------------------------------------------------------------------
  // add_toc and add_comments
  // ---------------------------------------------------------------------------

  const TocMacro := "<ac:structured-macro ac:macro-id=\"1\" ac:name=\"toc\" ac:schema-version=\"1\"/>"

  /** add_toc */
  function AddToc(source: string): string
  {
    TocMacro + "\n" + source
  }

  /** The table of contents macro and a newline come first, and the source follows unchanged. */
  lemma AddTocPrepends(source: string)
    ensures var r := AddToc(source);
      && |r| == |TocMacro| + 1 + |source|
      && r[..|TocMacro|] == TocMacro
      && r[|TocMacro|] == '\n'
      && r[|TocMacro| + 1..] == source
  {
    SplitThree(TocMacro, "\n", source);
  }

  lemma SplitThree(a: string, b: string, c: string)
    ensures var r := a + b + c;
      && r[..|a|] == a && r[|a|..|a| + |b|] == b && r[|a| + |b|..] == c
  {
  }

  /**
   * add_comments: on a page that does not exist yet the new content comes
   * back as it is; otherwise the comments of the page's body are restored in
   * it. The two parsed trees and the matcher stand for BeautifulSoup and
   * difflib; the resolved comment ids are what the page reports.
   */
  method AddComments(page: Page, newContent: string, oldBs: Soup, newBs: Soup,
                     matcher: (seq<string>, seq<string>) -> seq<Opcode>,
                     resolved: seq<string>, resolveChanged: bool)
    returns (r: Result<string, string>, ghost equal: seq<Place>, ghost unequal: seq<Claim>, ghost mid: Doc,
             ghost cleaned: Doc, ghost records: seq<RefInfo>)
    requires oldBs != newBs && oldBs.Valid() && newBs.Valid()
    requires forall a, b :: Aligned(matcher(a, b), |a|, |b|)
    modifies oldBs, newBs
    ensures !page.Exists() ==> r == Ok(newContent) && unchanged(oldBs, newBs)
    ensures oldBs.Valid() && newBs.Valid() && WellFormed(cleaned)
    ensures forall pl :: pl in equal ==> Holds(oldBs.nodes, pl.info)
    ensures WellFormed(mid) && |old(newBs.nodes)| <= |mid|
    ensures page.Exists() && NonBlankRuns(old(newBs.nodes)) == [] ==>
      r == Ok(newContent) && newBs.nodes == old(newBs.nodes) && oldBs.nodes == old(oldBs.nodes)
    ensures page.Exists() && NonBlankRuns(old(newBs.nodes)) != [] ==>
      var strings := NonBlankRuns(old(newBs.nodes));
      && TextOf(cleaned, 0) == TextOf(old(oldBs.nodes), 0)
      && (forall c :: c in Markers(cleaned) ==> !HasMarkerChild(cleaned, c))
      && (!MissingRef(cleaned) ==> RefDictOf(cleaned, oldBs.nodes, records))
      && (r.Err? <==>
        || MissingRef(cleaned)
        || (exists x :: x in records && x.full !in NonBlankRuns(oldBs.nodes))
        || EqualRestored(old(newBs.nodes), oldBs.nodes, equal, strings).Err?
        || (!resolveChanged && UnequalInserted(mid, unequal, strings, resolved).Err?))
    ensures page.Exists() && r.Ok? && NonBlankRuns(old(newBs.nodes)) != [] ==>
      var strings := NonBlankRuns(old(newBs.nodes));
      && r.value == RenderDoc(newBs.nodes)
      && (equal, unequal) == Placed(oldBs.nodes, records, old(newBs.nodes), Diff(oldBs.nodes, old(newBs.nodes), matcher))
      && EqualRestored(old(newBs.nodes), oldBs.nodes, equal, strings) == Ok(mid)
      && (resolveChanged ==> newBs.nodes == mid)
      && (!resolveChanged ==> UnequalInserted(mid, unequal, strings, resolved) == Ok(newBs.nodes))
  {
    equal, unequal, mid, cleaned, records := [], [], newBs.nodes, oldBs.nodes, [];
    if !page.Exists() {
      return Ok(newContent), equal, unequal, mid, cleaned, records;
    }
    ghost var trace, dissolved;
    r, equal, unequal, mid, trace, dissolved, cleaned, records := RestoreRefs(oldBs, newBs, newContent, matcher, resolved, resolveChanged);
  }
}
