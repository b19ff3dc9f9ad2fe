/**
 * The legacy upload backend's handling of inline comments: collect_refs
 * strips the comment markers out of a page's storage text, pairing each
 * closing marker with the most recently opened one on a stack, and
 * restore_refs puts markers back around given spans of a text.
 */
module ConfluenceUpload {
  import opened Wrappers
  import opened Text

  // ---------------------------------------------------------------------------
  // The two marker patterns, as the regular expression engine reads them
  // ---------------------------------------------------------------------------

  const OpenHead: string := "<ac:inline-comment-marker"
  const RefAttr: string := "ac:ref=\""
  const OpenTail: string := "\">"
  const Close: string := "</ac:inline-comment-marker>"

  /** Length of the run of whitespace (`\s`) starting at i. */
  function SpaceRun(s: string, i: nat): (n: nat)
    requires i <= |s|
    ensures i + n <= |s|
    ensures forall j :: i <= j < i + n ==> IsSpace(s[j])
    ensures i + n < |s| ==> !IsSpace(s[i + n])
    decreases |s| - i
  {
    if i < |s| && IsSpace(s[i]) then 1 + SpaceRun(s, i + 1) else 0
  }

  /**
   * The lazy group `(.+?)` followed by `">`: the first position from k on
   * where `">` follows, as long as no newline is consumed on the way (s[k - 1]
   * is the group's last character when the group ends at k).
   */
  function LazyEnd(s: string, k: nat): (r: Option<nat>)
    requires 0 < k <= |s|
    ensures r.Some? ==> k <= r.value && OccursAt(s, OpenTail, r.value)
    ensures r.Some? ==> forall j :: k <= j < r.value ==> !OccursAt(s, OpenTail, j)
    ensures r.Some? ==> forall j :: k - 1 <= j < r.value ==> s[j] != '\n'
    decreases |s| - k
  {
    if s[k - 1] == '\n' then None
    else if OccursAt(s, OpenTail, k) then Some(k)
    else if k < |s| then LazyEnd(s, k + 1)
    else None
  }

  /**
   * A match of `<ac:inline-comment-marker\s+ac:ref="(.+?)">` starting at p:
   * the captured ref id and the end of the match.
   */
  function MatchOpenAt(s: string, p: nat): (r: Option<(string, nat)>)
    requires p <= |s|
    ensures r.Some? ==> OccursAt(s, OpenHead, p) && p + |OpenHead| < r.value.1 <= |s|
  {
    if !OccursAt(s, OpenHead, p) then None
    else
      var q := p + |OpenHead|;
      var w := SpaceRun(s, q);
      var a := q + w;
      if w == 0 || !OccursAt(s, RefAttr, a) then None
      else
        var g := a + |RefAttr|;
        if g >= |s| then None
        else
          match LazyEnd(s, g + 1)
          case Some(k) => Some((s[g..k], k + |OpenTail|))
          case None => None
  }

  datatype OpenMatch = OpenMatch(start: nat, end: nat, id: string)

  /** re.search for the opening marker from position p: the leftmost match. */
  function FindOpen(s: string, p: nat): (r: Option<OpenMatch>)
    requires p <= |s|
    ensures r.Some? ==> p <= r.value.start < r.value.end <= |s|
                        && MatchOpenAt(s, r.value.start) == Some((r.value.id, r.value.end))
    ensures r.Some? ==> forall j :: p <= j < r.value.start ==> MatchOpenAt(s, j).None?
    ensures r.None? ==> forall j :: p <= j <= |s| ==> MatchOpenAt(s, j).None?
    decreases |s| - p
  {
    match MatchOpenAt(s, p)
    case Some(m) => Some(OpenMatch(p, m.1, m.0))
    case None => if p < |s| then FindOpen(s, p + 1) else None
  }

  /** re.search for the closing marker from position p: its leftmost occurrence. */
  function FindClose(s: string, p: nat): (r: Option<nat>)
    requires p <= |s|
    ensures r.Some? ==> p <= r.value && OccursAt(s, Close, r.value)
    ensures r.Some? ==> forall j :: p <= j < r.value ==> !OccursAt(s, Close, j)
    ensures r.None? ==> forall j :: p <= j ==> !OccursAt(s, Close, j)
    decreases |s| - p
  {
    if OccursAt(s, Close, p) then Some(p)
    else if p < |s| then FindClose(s, p + 1)
    else None
  }

  // ---------------------------------------------------------------------------
  // collect_refs
  // ---------------------------------------------------------------------------

  /** A comment's ref id and the span [start, end) of text it covers. */
  datatype Ref = Ref(id: string, start: int, end: int)

  /**
   * How collect_refs fails: an opening marker with no closing marker left
   * (the comparison with a missing match raises), or a closing marker with
   * no open one (popping the empty stack raises).
   */
  datatype Crash = MissingClose | PopFromEmpty

  /**
   * The loop of collect_refs from a given state: the text still holding
   * markers, the stack of opened (ref id, position) pairs and the refs
   * collected so far. Each round removes the earlier of the first opening
   * and the first closing marker.
   */
  function CollectFrom(s: string, stack: seq<(string, nat)>, refs: seq<Ref>): Result<(seq<Ref>, string), Crash>
    decreases |s|
  {
    var o := FindOpen(s, 0);
    var c := FindClose(s, 0);
    if o.None? && c.None? then Ok((refs, s))
    else if o.Some? && c.None? then Err(MissingClose)
    else if o.Some? && o.value.start < c.value then
      CollectFrom(s[..o.value.start] + s[o.value.end..], stack + [(o.value.id, o.value.start)], refs)
    else if stack == [] then Err(PopFromEmpty)
    else
      var top := stack[|stack| - 1];
      CollectFrom(s[..c.value] + s[c.value + |Close|..], stack[..|stack| - 1], refs + [Ref(top.0, top.1, c.value)])
  }

  function Collect(source: string): Result<(seq<Ref>, string), Crash>
  {
    CollectFrom(source, [], [])
  }

  /** collect_refs: the refs in the order their closing markers come, and the text without markers. */
  method CollectRefs(source: string) returns (r: Result<(seq<Ref>, string), Crash>)
    ensures r == Collect(source)
  {
    var refs: seq<Ref> := [];
    var openRefs: seq<(string, nat)> := [];
    var s := source;
    while true
      invariant CollectFrom(s, openRefs, refs) == Collect(source)
      decreases |s|
    {
      var refS := FindOpen(s, 0);
      var refE := FindClose(s, 0);
      if refS.None? && refE.None? {
        return Ok((refs, s));
      }
      if refS.Some? && refE.None? {
        return Err(MissingClose);
      }
      if refS.Some? && refS.value.start < refE.value {
        openRefs := openRefs + [(refS.value.id, refS.value.start)];
        s := s[..refS.value.start] + s[refS.value.end..];
      } else {
        if openRefs == [] {
          return Err(PopFromEmpty);
        }
        var top := openRefs[|openRefs| - 1];
        openRefs := openRefs[..|openRefs| - 1];
        refs := refs + [Ref(top.0, top.1, refE.value)];
        s := s[..refE.value] + s[refE.value + |Close|..];
      }
    }
  }

  /** collect_refs stops only once no marker of either kind is left in the text. */
  lemma {:induction false} CollectClean(s: string, stack: seq<(string, nat)>, refs: seq<Ref>)
    requires CollectFrom(s, stack, refs).Ok?
    ensures var t := CollectFrom(s, stack, refs).value.1;
      (forall p :: 0 <= p <= |t| ==> MatchOpenAt(t, p).None?) && !Contains(t, Close)
    decreases |s|
  {
    var o := FindOpen(s, 0);
    var c := FindClose(s, 0);
    if o.None? && c.None? {
    } else if o.Some? && o.value.start < c.value {
      CollectClean(s[..o.value.start] + s[o.value.end..], stack + [(o.value.id, o.value.start)], refs);
    } else {
      var top := stack[|stack| - 1];
      CollectClean(s[..c.value] + s[c.value + |Close|..], stack[..|stack| - 1], refs + [Ref(top.0, top.1, c.value)]);
    }
  }

  // ---------------------------------------------------------------------------
  // Marked-up text: what collect_refs reads on a page whose markers nest
  // ---------------------------------------------------------------------------

  /** A page's text as plain runs and comment markers around nested spans. */
  datatype Span = Plain(text: string) | Marked(id: string, inner: seq<Span>)

  function OpenMarker(id: string): string
  {
    OpenHead + " " + RefAttr + id + OpenTail
  }

  function RenderSpan(x: Span): string
    decreases x
  {
    match x
    case Plain(t) => t
    case Marked(id, inner) => OpenMarker(id) + Render(inner) + Close
  }

  /** The storage text: every marked span between its opening and closing marker. */
  function Render(xs: seq<Span>): string
    decreases xs
  {
    if xs == [] then "" else RenderSpan(xs[0]) + Render(xs[1..])
  }

  function StripSpan(x: Span): string
    decreases x
  {
    match x
    case Plain(t) => t
    case Marked(_, inner) => Strip(inner)
  }

  /** The text with every marker left out. */
  function Strip(xs: seq<Span>): string
    decreases xs
  {
    if xs == [] then "" else StripSpan(xs[0]) + Strip(xs[1..])
  }

  function RefsOfSpan(x: Span, off: nat): seq<Ref>
    decreases x
  {
    match x
    case Plain(_) => []
    case Marked(id, inner) => RefsOf(inner, off) + [Ref(id, off, off + |Strip(inner)|)]
  }

  /**
   * The refs of the marked spans, in the order their closing markers come,
   * with positions in the stripped text (which starts at offset off).
   */
  function RefsOf(xs: seq<Span>, off: nat): seq<Ref>
    decreases xs
  {
    if xs == [] then [] else RefsOfSpan(xs[0], off) + RefsOf(xs[1..], off + |StripSpan(xs[0])|)
  }

  /** A comment id as the server writes it: no newline, quote or '<' in it. */
  predicate ValidId(id: string)
  {
    id != [] && '\n' !in id && '"' !in id && '<' !in id
  }

  /** Text runs hold no '<' (the storage format escapes it) and every id is valid. */
  predicate SpanWellFormed(x: Span)
    decreases x
  {
    match x
    case Plain(t) => '<' !in t
    case Marked(id, inner) => ValidId(id) && WellFormed(inner)
  }

  predicate WellFormed(xs: seq<Span>)
    decreases xs
  {
    xs == [] || (SpanWellFormed(xs[0]) && WellFormed(xs[1..]))
  }

  lemma {:induction false} SpanStripNoLt(x: Span)
    requires SpanWellFormed(x)
    ensures '<' !in StripSpan(x)
    decreases x
  {
    match x
    case Plain(_) =>
    case Marked(_, inner) => StripNoLt(inner);
  }

  lemma {:induction false} StripNoLt(xs: seq<Span>)
    requires WellFormed(xs)
    ensures '<' !in Strip(xs)
    decreases xs
  {
    if xs != [] {
      SpanStripNoLt(xs[0]);
      StripNoLt(xs[1..]);
    }
  }

  // ---------------------------------------------------------------------------
  // One round of collect_refs on marked-up text
  // ---------------------------------------------------------------------------

  /** Where sub occurs, each of its characters is in place. */
  lemma CharAt(s: string, sub: string, p: nat, i: nat)
    requires OccursAt(s, sub, p) && i < |sub|
    ensures s[p + i] == sub[i]
  {
    assert s[p..p + |sub|][i] == s[p + i];
  }

  /** One differing character rules an occurrence out. */
  lemma DiffersAt(s: string, sub: string, p: nat, i: nat)
    requires i < |sub| && (p + i < |s| ==> s[p + i] != sub[i])
    ensures !OccursAt(s, sub, p)
  {
    if p + |sub| <= |s| {
      assert s[p..p + |sub|][i] == s[p + i];
    }
  }

  /** A piece of an occurrence occurs at the matching offset. */
  lemma OccursPiece(s: string, sub: string, p: nat, i: nat, j: nat)
    requires OccursAt(s, sub, p) && i <= j <= |sub|
    ensures OccursAt(s, sub[i..j], p + i)
  {
    forall k | 0 <= k < j - i
      ensures s[p + i..p + j][k] == sub[i..j][k]
    {
      assert s[p..p + |sub|][i + k] == s[p + i + k];
    }
  }

  /** Both patterns start with '<', so a stretch without '<' holds no match. */
  lemma {:induction false} SkipTo(s: string, p: nat, n: nat)
    requires p <= n <= |s|
    requires forall j :: p <= j < n ==> s[j] != '<'
    ensures FindOpen(s, p) == FindOpen(s, n) && FindClose(s, p) == FindClose(s, n)
    decreases n - p
  {
    if p < n {
      NoMarkerAt(s, p);
      SkipOne(s, p);
      SkipTo(s, p + 1, n);
    }
  }

  lemma NoMarkerAt(s: string, p: nat)
    requires p < |s| && s[p] != '<'
    ensures MatchOpenAt(s, p).None? && !OccursAt(s, Close, p)
  {
    assert OpenHead[0] == '<' && Close[0] == '<';
    DiffersAt(s, OpenHead, p, 0);
    DiffersAt(s, Close, p, 0);
  }

  /** Neither search stops at a position where neither marker starts. */
  lemma SkipOne(s: string, p: nat)
    requires p < |s| && MatchOpenAt(s, p).None? && !OccursAt(s, Close, p)
    ensures FindOpen(s, p) == FindOpen(s, p + 1) && FindClose(s, p) == FindClose(s, p + 1)
  {
  }


  lemma NoLtInPrefix(d: string, y: string)
    requires '<' !in d
    ensures forall j :: 0 <= j < |d| ==> (d + y)[j] != '<'
  {
    forall j | 0 <= j < |d| ensures (d + y)[j] != '<' { assert (d + y)[j] == d[j]; }
  }

  lemma NoLtBefore(d: string, m: string, x: string)
    requires '<' !in d
    ensures forall j :: 0 <= j < |d| ==> (d + m + x)[j] != '<'
  {
    forall j | 0 <= j < |d| ensures (d + m + x)[j] != '<' { assert (d + m + x)[j] == d[j]; }
  }

  /** A closing marker is not an opening one: their second characters differ. */
  lemma CloseNotOpen(s: string, p: nat)
    requires OccursAt(s, Close, p)
    ensures MatchOpenAt(s, p).None?
  {
    assert OpenHead[1] == 'a' && Close[1] == '/';
    CharAt(s, Close, p, 1);
    DiffersAt(s, OpenHead, p, 1);
  }

  /** An opening marker is not a closing one. */
  lemma OpenNotClose(s: string, p: nat)
    requires OccursAt(s, OpenHead, p)
    ensures !OccursAt(s, Close, p)
  {
    assert OpenHead[1] == 'a' && Close[1] == '/';
    CharAt(s, OpenHead, p, 1);
    DiffersAt(s, Close, p, 1);
  }

  lemma SliceParts(a: string, b: string, c: string)
    ensures (a + b + c)[|a|..|a| + |b|] == b
    ensures (a + b + c)[..|a|] == a
    ensures (a + b + c)[|a| + |b|..] == c
  {
  }

  /** The lazy group, run over a valid id followed by `">`, captures exactly the id. */
  lemma {:induction false} LazyId(s: string, g: nat, id: string, k: nat)
    requires ValidId(id) && g < k <= g + |id| && g + |id| + |OpenTail| <= |s|
    requires OccursAt(s, id, g) && OccursAt(s, OpenTail, g + |id|)
    ensures LazyEnd(s, k) == Some(g + |id|)
    decreases g + |id| - k
  {
    CharAt(s, id, g, k - 1 - g);
    if k < g + |id| {
      CharAt(s, id, g, k - g);
      assert OpenTail[0] == '"';
      DiffersAt(s, OpenTail, k, 0);
      LazyId(s, g, id, k + 1);
    }
  }

  /** An opening marker written for a valid id matches the pattern and captures that id. */
  lemma MatchOpenMarker(s: string, p: nat, id: string)
    requires ValidId(id) && OccursAt(s, OpenMarker(id), p)
    ensures MatchOpenAt(s, p) == Some((id, p + |OpenMarker(id)|))
  {
    MarkerFacts(s, p, id);
    MatchAt(s, p, p + |OpenHead| + 1 + |RefAttr| + |id|);
  }

  /** What an opening marker written at p puts into s, piece by piece. */
  lemma MarkerFacts(s: string, p: nat, id: string)
    requires ValidId(id) && OccursAt(s, OpenMarker(id), p)
    ensures var h := |OpenHead|; var g := h + 1 + |RefAttr|;
      |OpenMarker(id)| == g + |id| + |OpenTail| && p + g + |id| < |s|
      && OccursAt(s, OpenHead, p) && SpaceRun(s, p + h) == 1 && OccursAt(s, RefAttr, p + h + 1)
      && LazyEnd(s, p + g + 1) == Some(p + g + |id|) && s[p + g..p + g + |id|] == id
  {
    MarkerParts(id);
    HeadAndAttr(s, p, id);
    OneSpace(s, p + |OpenHead|);
    IdPiece(s, p, id);
  }

  lemma HeadAndAttr(s: string, p: nat, id: string)
    requires OccursAt(s, OpenMarker(id), p)
    ensures var h := |OpenHead|;
      OccursAt(s, OpenHead, p) && OccursAt(s, RefAttr, p + h + 1)
      && p + h + 1 < |s| && s[p + h] == ' ' && s[p + h + 1] == 'a'
  {
    var m := OpenMarker(id);
    var h := |OpenHead|;
    MarkerParts(id);
    OccursPiece(s, m, p, 0, h);
    OccursPiece(s, m, p, h + 1, h + 1 + |RefAttr|);
    CharAt(s, m, p, h);
    assert RefAttr[0] == 'a';
    CharAt(s, RefAttr, p + h + 1, 0);
  }

  lemma IdPiece(s: string, p: nat, id: string)
    requires ValidId(id) && OccursAt(s, OpenMarker(id), p)
    ensures var g := |OpenHead| + 1 + |RefAttr|;
      LazyEnd(s, p + g + 1) == Some(p + g + |id|) && s[p + g..p + g + |id|] == id
  {
    var m := OpenMarker(id);
    var g := |OpenHead| + 1 + |RefAttr|;
    MarkerParts(id);
    OccursPiece(s, m, p, g, g + |id|);
    OccursPiece(s, m, p, g + |id|, |m|);
    LazyId(s, p + g, id, p + g + 1);
  }

  /** The match, given each of its parts: head, one or more spaces, the attribute, and the end of the lazy group. */
  lemma MatchAt(s: string, p: nat, k: nat)
    requires p + |OpenHead| <= |s| && OccursAt(s, OpenHead, p)
    requires var w := SpaceRun(s, p + |OpenHead|);
      w > 0 && OccursAt(s, RefAttr, p + |OpenHead| + w)
      && p + |OpenHead| + w + |RefAttr| < k <= |s|
      && LazyEnd(s, p + |OpenHead| + w + |RefAttr| + 1) == Some(k)
    ensures var g := p + |OpenHead| + SpaceRun(s, p + |OpenHead|) + |RefAttr|;
      MatchOpenAt(s, p) == Some((s[g..k], k + |OpenTail|))
  {
  }

  lemma OneSpace(s: string, i: nat)
    requires i + 1 < |s| && s[i] == ' ' && s[i + 1] == 'a'
    ensures SpaceRun(s, i) == 1
  {
    assert IsSpace(s[i]) && !IsSpace(s[i + 1]);
    assert SpaceRun(s, i + 1) == 0;
  }

  lemma MarkerParts(id: string)
    ensures var m := OpenMarker(id); var h := |OpenHead|; var g := h + 1 + |RefAttr|;
      |m| == g + |id| + |OpenTail|
      && m[..h] == OpenHead && m[h] == ' ' && m[h + 1..g] == RefAttr
      && m[g..g + |id|] == id && m[g + |id|..] == OpenTail
  {
    FiveParts(OpenHead, " ", RefAttr, id, OpenTail);
  }

  lemma FiveParts(a: string, b: string, c: string, d: string, e: string)
    ensures var m := a + b + c + d + e;
      var i, j, k := |a| + |b|, |a| + |b| + |c|, |a| + |b| + |c| + |d|;
      m[..|a|] == a && m[|a|..i] == b && m[i..j] == c && m[j..k] == d && m[k..] == e
  {
  }

  /** A round whose first opening marker comes before the first closing one pushes the marker. */
  lemma OpenRound(s: string, o: OpenMatch, stack: seq<(string, nat)>, refs: seq<Ref>)
    requires FindOpen(s, 0) == Some(o) && FindClose(s, 0).Some? && o.start < FindClose(s, 0).value
    ensures CollectFrom(s, stack, refs) == CollectFrom(s[..o.start] + s[o.end..], stack + [(o.id, o.start)], refs)
  {
  }

  /** A round whose first closing marker comes first pops the stack. */
  lemma CloseRound(s: string, c: nat, stack: seq<(string, nat)>, refs: seq<Ref>)
    requires FindClose(s, 0) == Some(c) && stack != []
    requires FindOpen(s, 0).None? || FindOpen(s, 0).value.start > c
    ensures var top := stack[|stack| - 1];
      CollectFrom(s, stack, refs)
      == CollectFrom(s[..c] + s[c + |Close|..], stack[..|stack| - 1], refs + [Ref(top.0, top.1, c)])
  {
  }

  /**
   * A round on a text with no '<' before position p, the match of an opening
   * marker at p and a closing marker at q >= p pushes the marker.
   */
  lemma OpenStepAt(s: string, p: nat, e: nat, id: string, q: nat, stack: seq<(string, nat)>, refs: seq<Ref>)
    requires p <= q && p <= |s| && (forall j :: 0 <= j < p ==> s[j] != '<')
    requires MatchOpenAt(s, p) == Some((id, e)) && OccursAt(s, Close, q)
    ensures p < e <= |s|
    ensures CollectFrom(s, stack, refs) == CollectFrom(s[..p] + s[e..], stack + [(id, p)], refs)
  {
    SkipTo(s, 0, p);
    FoundAt(s, p);
    OpenNotClose(s, p);
    CloseLater(s, p, q);
    OpenRound(s, OpenMatch(p, e, id), stack, refs);
  }

  lemma OpenMarkerStep(s: string, p: nat, id: string, q: nat, stack: seq<(string, nat)>, refs: seq<Ref>)
    requires ValidId(id) && OccursAt(s, OpenMarker(id), p) && p <= q && OccursAt(s, Close, q)
    requires forall j :: 0 <= j < p ==> s[j] != '<'
    ensures CollectFrom(s, stack, refs)
            == CollectFrom(s[..p] + s[p + |OpenMarker(id)|..], stack + [(id, p)], refs)
  {
    MatchOpenMarker(s, p, id);
    OpenStepAt(s, p, p + |OpenMarker(id)|, id, q, stack, refs);
  }

  /** The first round on d, an opening marker and x, where d has no '<' and x a closing marker, pushes the marker. */
  lemma OpenStep(d: string, id: string, x: string, j: nat, stack: seq<(string, nat)>, refs: seq<Ref>)
    requires '<' !in d && ValidId(id) && OccursAt(x, Close, j)
    ensures CollectFrom(d + OpenMarker(id) + x, stack, refs) == CollectFrom(d + x, stack + [(id, |d|)], refs)
  {
    var m := OpenMarker(id);
    var s := d + m + x;
    NoLtBefore(d, m, x);
    SliceParts(d, m, x);
    ShiftOccurs(d, m, x, Close, j);
    OpenMarkerStep(s, |d|, id, |d| + |m| + j, stack, refs);
    CutOut(d, m, x);
  }

  /** A closing marker at q and none at p <= q: the first one from p lies after p. */
  lemma CloseLater(s: string, p: nat, q: nat)
    requires p <= q && OccursAt(s, Close, q) && !OccursAt(s, Close, p)
    ensures FindClose(s, p).Some? && p < FindClose(s, p).value
  {
  }

  lemma FoundAt(s: string, p: nat)
    requires p <= |s| && MatchOpenAt(s, p).Some?
    ensures FindOpen(s, p) == Some(OpenMatch(p, MatchOpenAt(s, p).value.1, MatchOpenAt(s, p).value.0))
  {
  }

  lemma ShiftOccurs(d: string, m: string, x: string, sub: string, j: nat)
    requires OccursAt(x, sub, j)
    ensures OccursAt(d + m + x, sub, |d| + |m| + j)
  {
    var c := |d| + |m| + j;
    assert (d + m + x)[c..c + |sub|] == x[j..j + |sub|];
  }

  lemma CutOut(d: string, m: string, x: string)
    ensures (d + m + x)[..|d|] + (d + m + x)[|d| + |m|..] == d + x
  {
    SliceParts(d, m, x);
  }

  /** A round on d, a closing marker and x, where d has no '<', pops the stack into a ref ending at |d|. */
  lemma CloseStep(d: string, x: string, stack: seq<(string, nat)>, refs: seq<Ref>)
    requires '<' !in d && stack != []
    ensures var top := stack[|stack| - 1];
      CollectFrom(d + Close + x, stack, refs)
      == CollectFrom(d + x, stack[..|stack| - 1], refs + [Ref(top.0, top.1, |d|)])
  {
    var s := d + Close + x;
    NoLtBefore(d, Close, x);
    SkipTo(s, 0, |d|);
    SliceParts(d, Close, x);
    assert OccursAt(s, Close, |d|);
    CloseNotOpen(s, |d|);
    assert FindOpen(s, |d|) == FindOpen(s, |d| + 1);
    CloseRound(s, |d|, stack, refs);
    assert s[..|d|] + s[|d| + |Close|..] == d + x;
  }

  /** Text without '<' ends the loop. */
  lemma Done(t: string, stack: seq<(string, nat)>, refs: seq<Ref>)
    requires '<' !in t
    ensures CollectFrom(t, stack, refs) == Ok((refs, t))
  {
    NoLtInPrefix(t, "");
    assert t + "" == t;
    SkipTo(t, 0, |t|);
  }

  // ---------------------------------------------------------------------------
  // collect_refs on marked-up text
  // ---------------------------------------------------------------------------

  /**
   * Collecting over a marked span, after a prefix without '<': the span's
   * markers are removed and its refs appended, with positions shifted by the
   * prefix; the stack is as before.
   */
  lemma {:induction false} CollectSpan(d: string, x: Span, rest: string, stack: seq<(string, nat)>, refs: seq<Ref>)
    requires '<' !in d && SpanWellFormed(x)
    ensures CollectFrom(d + RenderSpan(x) + rest, stack, refs)
            == CollectFrom(d + StripSpan(x) + rest, stack, refs + RefsOfSpan(x, |d|))
    decreases x
  {
    match x
    case Plain(t) =>
      assert refs + [] == refs;
    case Marked(id, inner) =>
      var ri, si, m := Render(inner), Strip(inner), OpenMarker(id);
      var stack' := stack + [(id, |d|)];
      var refs' := refs + RefsOf(inner, |d|);
      var last := Ref(id, |d|, |d| + |si|);
      calc {
        CollectFrom(d + RenderSpan(x) + rest, stack, refs);
        { Regroup(d, m, ri, Close, rest); }
        CollectFrom(d + m + (ri + Close + rest), stack, refs);
        { SliceParts(ri, Close, rest); OpenStep(d, id, ri + Close + rest, |ri|, stack, refs); }
        CollectFrom(d + (ri + Close + rest), stack', refs);
        { Regroup(d, m, ri, Close, rest); }
        CollectFrom(d + ri + (Close + rest), stack', refs);
        { CollectSpans(d, inner, Close + rest, stack', refs); }
        CollectFrom(d + si + (Close + rest), stack', refs');
        { Assoc(d + si, Close, rest); }
        CollectFrom(d + si + Close + rest, stack', refs');
        { StripNoLt(inner); CloseAfterSpan(d, si, rest, stack, id, refs'); }
        CollectFrom(d + si + rest, stack, refs' + [last]);
        { Assoc(refs, RefsOf(inner, |d|), [last]); }
        CollectFrom(d + StripSpan(x) + rest, stack, refs + RefsOfSpan(x, |d|));
      }
  }

  /** CloseStep after a stripped span, with the marker opened at |d| on top of the stack. */
  lemma CloseAfterSpan(d: string, si: string, rest: string, stack: seq<(string, nat)>, id: string, refs: seq<Ref>)
    requires '<' !in d && '<' !in si
    ensures CollectFrom(d + si + Close + rest, stack + [(id, |d|)], refs)
            == CollectFrom(d + si + rest, stack, refs + [Ref(id, |d|, |d| + |si|)])
  {
    var stack' := stack + [(id, |d|)];
    var top := stack'[|stack'| - 1];
    assert '<' !in d + si;
    calc {
      CollectFrom(d + si + Close + rest, stack', refs);
      { CloseStep(d + si, rest, stack', refs); }
      CollectFrom(d + si + rest, stack'[..|stack'| - 1], refs + [Ref(top.0, top.1, |d + si|)]);
      { DropLast(stack, (id, |d|)); }
      CollectFrom(d + si + rest, stack, refs + [Ref(id, |d|, |d| + |si|)]);
    }
  }

  lemma Regroup(d: string, m: string, r: string, c: string, rest: string)
    ensures d + (m + r + c) + rest == d + m + (r + c + rest)
    ensures d + (r + c + rest) == d + r + (c + rest)
  {
  }

  lemma Assoc<T>(a: seq<T>, b: seq<T>, c: seq<T>)
    ensures a + (b + c) == a + b + c
  {
  }

  lemma Regroup4<T>(a: seq<T>, b: seq<T>, c: seq<T>, e: seq<T>)
    ensures a + (b + c) + e == a + b + (c + e)
  {
  }

  lemma DropLast<T>(s: seq<T>, x: T)
    ensures (s + [x])[..|s|] == s
  {
  }

  lemma {:induction false} CollectSpans(d: string, xs: seq<Span>, rest: string, stack: seq<(string, nat)>, refs: seq<Ref>)
    requires '<' !in d && WellFormed(xs)
    ensures CollectFrom(d + Render(xs) + rest, stack, refs)
            == CollectFrom(d + Strip(xs) + rest, stack, refs + RefsOf(xs, |d|))
    decreases xs
  {
    if xs == [] {
      assert d + "" + rest == d + rest;
      assert refs + [] == refs;
    } else {
      var x, tail := xs[0], xs[1..];
      var d' := d + StripSpan(x);
      var refs' := refs + RefsOfSpan(x, |d|);
      calc {
        CollectFrom(d + Render(xs) + rest, stack, refs);
        { Regroup4(d, RenderSpan(x), Render(tail), rest); }
        CollectFrom(d + RenderSpan(x) + (Render(tail) + rest), stack, refs);
        { CollectSpan(d, x, Render(tail) + rest, stack, refs); }
        CollectFrom(d' + (Render(tail) + rest), stack, refs');
        { Assoc(d', Render(tail), rest); }
        CollectFrom(d' + Render(tail) + rest, stack, refs');
        { SpanStripNoLt(x); CollectSpans(d', tail, rest, stack, refs'); }
        CollectFrom(d' + Strip(tail) + rest, stack, refs' + RefsOf(tail, |d'|));
        { Assoc(d, StripSpan(x), Strip(tail)); Assoc(refs, RefsOfSpan(x, |d|), RefsOf(tail, |d'|)); }
        CollectFrom(d + Strip(xs) + rest, stack, refs + RefsOf(xs, |d|));
      }
    }
  }

  /**
   * collect_refs on a well-formed marked-up text: it does not fail, returns
   * the text with the markers left out, and one ref per marked span, in the
   * order the closing markers come (inner spans first), each pairing a
   * closing marker with the most recently opened one.
   */
  lemma CollectRendered(xs: seq<Span>)
    requires WellFormed(xs)
    ensures Collect(Render(xs)) == Ok((RefsOf(xs, 0), Strip(xs)))
  {
    var r, t := RefsOf(xs, 0), Strip(xs);
    calc {
      Collect(Render(xs));
      { Bare(Render(xs)); }
      CollectFrom("" + Render(xs) + "", [], []);
      { CollectSpans("", xs, "", [], []); }
      CollectFrom("" + t + "", [], [] + r);
      { Bare(t); Bare(r); }
      CollectFrom(t, [], r);
      { StripNoLt(xs); Done(t, [], r); }
      Ok((r, t));
    }
  }

  lemma Bare<T>(s: seq<T>)
    ensures [] + s + [] == s && [] + s == s
  {
  }


  /** A closing marker with nothing opened before it makes collect_refs fail. */
  lemma UnopenedCloseFails(t: string, x: string)
    requires '<' !in t
    ensures Collect(t + Close + x) == Err(PopFromEmpty)
  {
    var s := t + Close + x;
    NoLtBefore(t, Close, x);
    SkipTo(s, 0, |t|);
    SliceParts(t, Close, x);
    assert OccursAt(s, Close, |t|);
    CloseNotOpen(s, |t|);
    assert FindOpen(s, |t|) == FindOpen(s, |t| + 1);
  }

  // ---------------------------------------------------------------------------
  // restore_refs
  // ---------------------------------------------------------------------------

  /** A Python slice index against a string of length n: negative counts from the end, then clamped. */
  function Clamp(i: int, n: nat): (r: nat)
    ensures r <= n
    ensures 0 <= i <= n ==> r == i
  {
    if i < 0 then (if n + i < 0 then 0 else n + i)
    else if i > n then n
    else i
  }

  /** s[i:j] as Python evaluates it: never fails, empty when the clamped bounds cross. */
  function PySlice(s: string, i: int, j: int): (r: string)
    ensures 0 <= i <= j <= |s| ==> r == s[i..j]
    ensures |r| <= |s|
  {
    var a, b := Clamp(i, |s|), Clamp(j, |s|);
    if a < b then s[a..b] else ""
  }

  /**
   * What restore_refs writes from position from onwards: the text up to the
   * next ref's start, the ref's span wrapped by addRef, and so on; after the
   * last ref, the rest of the text.
   */
  function Rest(refs: seq<Ref>, text: string, addRef: (string, string) -> string, from: int): string
    decreases |refs|
  {
    if refs == [] then PySlice(text, from, |text|)
    else
      PySlice(text, from, refs[0].start) + addRef(refs[0].id, PySlice(text, refs[0].start, refs[0].end))
      + Rest(refs[1..], text, addRef, refs[0].end)
  }

  /** restore_refs: without refs the text itself, otherwise the text with every ref's span wrapped. */
  function Restored(refs: seq<Ref>, text: string, addRef: (string, string) -> string): string
  {
    if refs == [] then text else Rest(refs, text, addRef, 0)
  }

  method RestoreRefs(refs: seq<Ref>, text: string, addRef: (string, string) -> string) returns (result: string)
    ensures result == Restored(refs, text, addRef)
  {
    if refs == [] {
      return text;
    }
    result := "";
    var i := 0;
    while i < |refs|
      invariant 0 <= i <= |refs|
      invariant i == 0 ==> result == ""
      invariant 0 < i ==> result + Rest(refs[i..], text, addRef, refs[i - 1].end) == Rest(refs, text, addRef, 0)
    {
      var gap := if i == 0 then PySlice(text, 0, refs[i].start) else PySlice(text, refs[i - 1].end, refs[i].start);
      var inner := PySlice(text, refs[i].start, refs[i].end);
      var from := if i == 0 then 0 else refs[i - 1].end;
      RestStep(refs[i..], text, addRef, from);
      Assoc3(result, gap, addRef(refs[i].id, inner), Rest(refs[i + 1..], text, addRef, refs[i].end));
      result := result + gap + addRef(refs[i].id, inner);
      i := i + 1;
    }
    result := result + PySlice(text, refs[i - 1].end, |text|);
  }

  lemma RestStep(refs: seq<Ref>, text: string, addRef: (string, string) -> string, from: int)
    requires refs != []
    ensures Rest(refs, text, addRef, from)
            == PySlice(text, from, refs[0].start) + addRef(refs[0].id, PySlice(text, refs[0].start, refs[0].end))
               + Rest(refs[1..], text, addRef, refs[0].end)
  {
  }

  lemma SplitSlice<T>(s: seq<T>, i: nat, j: nat, k: nat)
    requires i <= j <= k <= |s|
    ensures s[i..k] == s[i..j] + s[j..k]
  {
  }

  lemma Assoc3<T>(r: seq<T>, a: seq<T>, b: seq<T>, c: seq<T>)
    ensures r + (a + b + c) == r + a + b + c
  {
  }

  /** The refs lie in order in a text of length n, from position from on, none reaching back before the previous one's end. */
  ghost predicate InOrder(refs: seq<Ref>, from: int, n: nat)
    decreases |refs|
  {
    0 <= from <= n
    && (refs != [] ==> from <= refs[0].start <= refs[0].end && InOrder(refs[1..], refs[0].end, n))
  }

  /** With refs in order and an addRef that adds nothing, what is written from position from is the text from there. */
  lemma {:induction false} RestIdentity(refs: seq<Ref>, text: string, addRef: (string, string) -> string, from: int)
    requires InOrder(refs, from, |text|)
    requires forall id, t :: addRef(id, t) == t
    ensures Rest(refs, text, addRef, from) == text[from..]
    decreases |refs|
  {
    if refs != [] {
      var r := refs[0];
      calc {
        Rest(refs, text, addRef, from);
        { RestStep(refs, text, addRef, from); }
        PySlice(text, from, r.start) + addRef(r.id, PySlice(text, r.start, r.end)) + Rest(refs[1..], text, addRef, r.end);
        { RestIdentity(refs[1..], text, addRef, r.end); }
        text[from..r.start] + text[r.start..r.end] + text[r.end..];
        { SplitSlice(text, from, r.start, r.end); SplitSlice(text, from, r.end, |text|); }
        text[from..];
      }
    }
  }

  /**
   * restore_refs only adds: every character of the text is written, in
   * order, once the refs are in order and addRef is left out of the picture.
   */
  lemma IdentityRestores(refs: seq<Ref>, text: string, addRef: (string, string) -> string)
    requires InOrder(refs, 0, |text|)
    requires forall id, t :: addRef(id, t) == t
    ensures Restored(refs, text, addRef) == text
  {
    RestIdentity(refs, text, addRef, 0);
  }

  /** A marked span around a single run of text, or a run of text: what restore_refs can write back. */
  predicate FlatSpan(x: Span)
  {
    x.Plain? || (|x.inner| == 1 && x.inner[0].Plain?)
  }

  predicate Flat(xs: seq<Span>)
  {
    forall i :: 0 <= i < |xs| ==> FlatSpan(xs[i])
  }

  /** The add_ref that writes the markers collect_refs removes. */
  ghost predicate WritesMarker(addRef: (string, string) -> string)
  {
    forall id, t :: addRef(id, t) == OpenMarker(id) + t + Close
  }

  lemma {:induction false} RestFlat(xs: seq<Span>, text: string, addRef: (string, string) -> string, from: nat, off: nat)
    requires Flat(xs) && WritesMarker(addRef)
    requires from <= off && off + |Strip(xs)| == |text| && text[off..] == Strip(xs)
    ensures Rest(RefsOf(xs, off), text, addRef, from) == text[from..off] + Render(xs)
    decreases |xs|
  {
    if xs == [] {
      assert text[from..off] + "" == text[from..];
    } else {
      var off' := off + |StripSpan(xs[0])|;
      FlatTail(xs, text, off);
      if xs[0].Plain? {
        RestFlat(xs[1..], text, addRef, from, off');
        PlainStep(xs, text, addRef, from, off);
      } else {
        RestFlat(xs[1..], text, addRef, off', off');
        MarkedStep(xs, text, addRef, from, off);
      }
    }
  }

  lemma FlatMarked(x: Span)
    requires FlatSpan(x) && x.Marked?
    ensures x == Marked(x.id, [Plain(x.inner[0].text)]) && StripSpan(x) == x.inner[0].text
  {
    SingleRun(x.inner[0].text, 0);
  }

  /** The tail of a flat list is flat and lies in the text right after the head's run. */
  lemma FlatTail(xs: seq<Span>, text: string, off: nat)
    requires xs != [] && Flat(xs) && off + |Strip(xs)| == |text| && text[off..] == Strip(xs)
    ensures var off' := off + |StripSpan(xs[0])|;
      Flat(xs[1..]) && off' + |Strip(xs[1..])| == |text| && text[off'..] == Strip(xs[1..])
      && text[off..off'] == StripSpan(xs[0])
  {
    var tail := xs[1..];
    assert Flat(tail) by { forall i | 0 <= i < |tail| ensures FlatSpan(tail[i]) { assert tail[i] == xs[i + 1]; } }
    assert Strip(xs) == StripSpan(xs[0]) + Strip(tail);
  }

  lemma SingleRun(t: string, off: nat)
    ensures Strip([Plain(t)]) == t && Render([Plain(t)]) == t && RefsOf([Plain(t)], off) == []
  {
    assert [Plain(t)][1..] == [];
    assert t + "" == t;
  }

  /** A run of text is written back as it is, and adds no ref. */
  lemma PlainStep(xs: seq<Span>, text: string, addRef: (string, string) -> string, from: nat, off: nat)
    requires xs != [] && xs[0].Plain?
    requires var off' := off + |StripSpan(xs[0])|;
      from <= off && off' <= |text| && text[off..off'] == StripSpan(xs[0])
    requires var off' := off + |StripSpan(xs[0])|;
      Rest(RefsOf(xs[1..], off'), text, addRef, from) == text[from..off'] + Render(xs[1..])
    ensures Rest(RefsOf(xs, off), text, addRef, from) == text[from..off] + Render(xs)
  {
    var t := xs[0].text;
    assert StripSpan(xs[0]) == t;
    calc {
      Rest(RefsOf(xs, off), text, addRef, from);
      { ConsParts(xs, off); }
      Rest(RefsOf(xs[1..], off + |t|), text, addRef, from);
      text[from..off + |t|] + Render(xs[1..]);
      { PlainText(xs, text, from, off, t); }
      text[from..off] + Render(xs);
    }
  }

  lemma PlainText(xs: seq<Span>, text: string, from: nat, off: nat, t: string)
    requires xs != [] && xs[0] == Plain(t)
    requires from <= off && off + |t| <= |text| && text[off..off + |t|] == t
    ensures text[from..off + |t|] + Render(xs[1..]) == text[from..off] + Render(xs)
  {
    ConsParts(xs, off);
    SplitSlice(text, from, off, off + |t|);
    Assoc(text[from..off], t, Render(xs[1..]));
  }

  /** The parts a list of spans is made of: its first span and the rest. */
  lemma ConsParts(xs: seq<Span>, off: nat)
    requires xs != []
    ensures Render(xs) == RenderSpan(xs[0]) + Render(xs[1..])
    ensures Strip(xs) == StripSpan(xs[0]) + Strip(xs[1..])
    ensures xs[0].Plain? ==> RefsOf(xs, off) == RefsOf(xs[1..], off + |xs[0].text|)
    ensures xs[0].Marked? ==> RefsOf(xs, off) == RefsOfSpan(xs[0], off) + RefsOf(xs[1..], off + |Strip(xs[0].inner)|)
  {
    if xs[0].Plain? {
      Bare(RefsOf(xs[1..], off + |xs[0].text|));
    }
  }

  /** A marked run of text is its ref: the gap before it, then the run wrapped in markers. */
  lemma MarkedStep(xs: seq<Span>, text: string, addRef: (string, string) -> string, from: nat, off: nat)
    requires xs != [] && xs[0].Marked? && FlatSpan(xs[0]) && WritesMarker(addRef)
    requires var off' := off + |StripSpan(xs[0])|;
      from <= off && off' <= |text| && text[off..off'] == StripSpan(xs[0])
    requires var off' := off + |StripSpan(xs[0])|;
      Rest(RefsOf(xs[1..], off'), text, addRef, off') == text[off'..off'] + Render(xs[1..])
    ensures Rest(RefsOf(xs, off), text, addRef, from) == text[from..off] + Render(xs)
  {
    var id, t := xs[0].id, xs[0].inner[0].text;
    FlatMarked(xs[0]);
    var off' := off + |t|;
    var tail := RefsOf(xs[1..], off');
    var ref := Ref(id, off, off');
    var r := text[off'..off'] + Render(xs[1..]);
    calc {
      Rest(RefsOf(xs, off), text, addRef, from);
      { MarkedRefs(xs, off, id, t); }
      Rest([ref] + tail, text, addRef, from);
      { RestCons(ref, tail, text, addRef, from); }
      PySlice(text, from, off) + addRef(id, PySlice(text, off, off')) + Rest(tail, text, addRef, off');
      { assert PySlice(text, off, off') == t; }
      text[from..off] + addRef(id, t) + r;
      { assert addRef(id, t) == OpenMarker(id) + t + Close; }
      text[from..off] + (OpenMarker(id) + t + Close) + r;
      { MarkedText(xs, text, from, off, id, t); }
      text[from..off] + Render(xs);
    }
  }

  lemma MarkedRefs(xs: seq<Span>, off: nat, id: string, t: string)
    requires xs != [] && xs[0] == Marked(id, [Plain(t)])
    ensures RefsOf(xs, off) == [Ref(id, off, off + |t|)] + RefsOf(xs[1..], off + |t|)
  {
    ConsParts(xs, off);
    SingleRun(t, off);
    Bare([Ref(id, off, off + |t|)]);
  }

  lemma RestCons(ref: Ref, tail: seq<Ref>, text: string, addRef: (string, string) -> string, from: int)
    ensures Rest([ref] + tail, text, addRef, from)
            == PySlice(text, from, ref.start) + addRef(ref.id, PySlice(text, ref.start, ref.end)) + Rest(tail, text, addRef, ref.end)
  {
    assert ([ref] + tail)[1..] == tail;
  }

  lemma MarkedText(xs: seq<Span>, text: string, from: nat, off: nat, id: string, t: string)
    requires xs != [] && xs[0] == Marked(id, [Plain(t)])
    requires from <= off && off + |t| <= |text|
    ensures text[from..off] + (OpenMarker(id) + t + Close) + (text[off + |t|..off + |t|] + Render(xs[1..]))
            == text[from..off] + Render(xs)
  {
    var r := Render(xs[1..]);
    ConsParts(xs, off);
    SingleRun(t, off);
    assert text[off + |t|..off + |t|] + r == r;
    Assoc(text[from..off], OpenMarker(id) + t + Close, r);
  }

  /**
   * restore_refs undoes collect_refs on flat marked-up text: collecting the
   * refs and writing them back with markers gives the storage text again.
   */
  lemma RestoreInvertsCollect(xs: seq<Span>, addRef: (string, string) -> string)
    requires WellFormed(xs) && Flat(xs) && WritesMarker(addRef)
    ensures Collect(Render(xs)).Ok?
    ensures var (refs, text) := Collect(Render(xs)).value; Restored(refs, text, addRef) == Render(xs)
  {
    CollectRendered(xs);
    var refs, text := RefsOf(xs, 0), Strip(xs);
    RestFlat(xs, text, addRef, 0, 0);
    assert text[0..0] + Render(xs) == Render(xs);
    if refs == [] {
      assert Rest(refs, text, addRef, 0) == text[0..];
      assert text[0..] == text;
    }
  }
}
