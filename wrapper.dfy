/**
 * wrapper.py: a Confluence page as the backend sees it. The page keeps the
 * static markup around the managed part (`before`, `after`), the managed part
 * itself (`body`), its id and its page properties, and decides from a stored
 * hash whether an upload is needed. The Confluence API is abstracted: what a
 * request returns is passed in, and md5 is the opaque function `hash`.
 */
module Wrapper {
  import opened Wrappers
  import opened Text
  import opened Markup
  import opened Extracter

  /** The page property that stores the hash of the last uploaded content and title. */
  const HashKey: string := "foliant_hash"

  const StartAnchor: string := "foliant_start"
  const EndAnchor: string := "foliant_end"

  /** A page as the API returns it, with its storage body already parsed. */
  datatype Remote = Remote(
    id: int,
    title: string,
    body: Doc,
    properties: seq<(string, string)>,
    links: Option<(string, string)>)

  /** The anchor macro template up to its {name} placeholder, and after it. */
  const AnchorOpen: string :=
    "<ac:structured-macro ac:macro-id=\"0\" ac:name=\"anchor\" ac:schema-version=\"1\"><ac:parameter ac:name=\"\">"
  const AnchorClose: string := "</ac:parameter></ac:structured-macro>"

  /** The anchor macro markup generate_new_body writes around the managed part. */
  function AnchorMacro(name: string): string
  {
    AnchorOpen + name + AnchorClose
  }

  const AnchorAttrs: seq<Attr> :=
    [Attr("ac:macro-id", "0"), Attr("ac:name", "anchor"), Attr("ac:schema-version", "1")]

  /** Node m of d is the anchor macro for name: a macro, its parameter child, and the name as text. */
  ghost predicate AnchorAt(d: Doc, m: nat, c: nat, x: nat, name: string)
  {
    && m < c < x < |d|
    && d[m].ElemNode? && d[m].name == MacroName && d[m].attrs == AnchorAttrs && d[m].children == [c]
    && d[c] == ElemNode(ParameterName, [Attr("ac:name", "")], Some(m), [x])
    && d[x] == TextNode(name, Some(c))
  }

  /**
   * A parsed anchor macro is one extract looks for: the macro search matches
   * it and its anchor name is the lower-cased text of its parameter.
   */
  lemma AnchorDetected(d: Doc, m: nat, c: nat, x: nat, name: string)
    requires Ordered(d) && AnchorAt(d, m, c, x, name)
    ensures Matches(d[m], MacroName) && AnchorName(d, m) == Some(Lower(name))
  {
    assert OccursAt(MacroName, MacroName, 0);
    assert Kids(d[m]) == [c];
    assert FirstParam(d, [c]) == Some(0);
    assert KidsText(d, [x], c) == name + "";
    assert TextOf(d, c) == name;
  }

  /** The anchor generate_new_body writes first opens the managed part. */
  lemma StartAnchorOpens()
    ensures Named(Some(Lower(StartAnchor)), OpenTags)
  {
    assert Lower(StartAnchor) == StartAnchor by {
      LowerKeeps(StartAnchor);
    }
    assert StartAnchor == OpenTags[1];
  }

  /** The anchor generate_new_body writes last closes the managed part. */
  lemma EndAnchorCloses()
    ensures Named(Some(Lower(EndAnchor)), CloseTags)
  {
    assert Lower(EndAnchor) == EndAnchor by {
      LowerKeeps(EndAnchor);
    }
    assert EndAnchor == CloseTags[0];
  }

  /** Lower leaves a name of lower-case letters and underscores as it is. */
  lemma LowerKeeps(s: string)
    requires forall i :: 0 <= i < |s| ==> 'a' <= s[i] <= 'z' || s[i] == '_'
    ensures Lower(s) == s
  {
  }

  /** The page properties after copying pps over props in order: a later pair wins. */
  function Merged(props: map<string, string>, pps: seq<(string, string)>): map<string, string>
  {
    if pps == [] then props
    else Merged(props, pps[..|pps| - 1])[pps[|pps| - 1].0 := pps[|pps| - 1].1]
  }

  /**
   * After the copy, a key is present exactly when it was before or some pair
   * names it; a key no pair names keeps its value, and one that is named takes
   * the value of the last pair naming it.
   */
  lemma {:induction false} MergedLookup(props: map<string, string>, pps: seq<(string, string)>, k: string)
    ensures k in Merged(props, pps) <==> k in props || exists j :: 0 <= j < |pps| && pps[j].0 == k
    ensures k in props && (forall j :: 0 <= j < |pps| ==> pps[j].0 != k) ==> Merged(props, pps)[k] == props[k]
    ensures forall j :: 0 <= j < |pps| && pps[j].0 == k && (forall i :: j < i < |pps| ==> pps[i].0 != k) ==>
      k in Merged(props, pps) && Merged(props, pps)[k] == pps[j].1
    decreases |pps|
  {
    if pps != [] {
      var n := |pps| - 1;
      MergedLookup(props, pps[..n], k);
      if k != pps[n].0 {
        if exists j :: 0 <= j < |pps| && pps[j].0 == k {
          var j :| 0 <= j < |pps| && pps[j].0 == k;
          assert pps[..n][j].0 == k;
        }
      }
      forall j | 0 <= j < |pps| && pps[j].0 == k && (forall i :: j < i < |pps| ==> pps[i].0 != k)
        ensures k in Merged(props, pps) && Merged(props, pps)[k] == pps[j].1
      {
        if j < n {
          assert pps[..n][j] == pps[j];
          assert forall i :: j < i < n ==> pps[..n][i] == pps[i];
        }
      }
    }
  }

  /** Every page the API hands back parses into a well-formed tree. */
  ghost predicate FetchParses(fetch: int -> Option<Remote>)
  {
    forall i :: fetch(i).Some? ==> WellFormed(fetch(i).value.body)
  }

  lemma Fetched(fetch: int -> Option<Remote>, i: int)
    requires FetchParses(fetch) && fetch(i).Some?
    ensures WellFormed(fetch(i).value.body)
  {
  }

  /** The loop of _update_properties that copies the fetched properties, in order. */
  method MergeProperties(props: map<string, string>, pps: seq<(string, string)>) returns (r: map<string, string>)
    ensures r == Merged(props, pps)
  {
    r := props;
    for i := 0 to |pps|
      invariant r == Merged(props, pps[..i])
    {
      assert pps[..i + 1][..i] == pps[..i];
      r := r[pps[i].0 := pps[i].1];
    }
    assert pps[..|pps|] == pps;
  }

  class Page {
    var space: Option<string>
    var title: Option<string>
    var parentId: Option<int>
    var id: Option<int>
    /** The page as last fetched or uploaded; None when no page has this title yet. */
    var content: Option<Remote>
    var before: string
    var body: string
    var after: string
    var properties: map<string, string>
    var url: Option<string>
    /** md5 of the content followed by the title, as a hex digest. */
    const hash: (string, string) -> string

    /**
     * What a loaded page keeps: a page that exists holds the parts extract cut
     * from its body and its id; a page that does not has no id and empty parts.
     */
    ghost predicate Valid()
      reads this`content, this`id, this`before, this`body, this`after
    {
      match content
      case Some(c) =>
        && WellFormed(c.body) && AnchorsLinked(c.body, Detected(c.body)) && id == Some(c.id)
        && (before, body, after) == Cut(c.body, Detected(c.body))
      case None => id.None? && before == "" && body == "" && after == ""
    }

    /** The fields __init__ sets before it looks the page up. */
    constructor Init(space: Option<string>, title: Option<string>, parentId: Option<int>, id: Option<int>,
                     hash: (string, string) -> string)
      ensures this.space == space && this.title == title && this.parentId == parentId && this.id == id
      ensures this.hash == hash && content.None? && properties == map[] && url.None?
      ensures before == "" && body == "" && after == ""
    {
      this.space := space;
      this.title := title;
      this.parentId := parentId;
      this.id := id;
      this.hash := hash;
      content := None;
      before, body, after := "", "", "";
      properties := map[];
      url := None;
    }

    /** exists */
    function Exists(): bool
      reads this
    {
      content.Some?
    }

    /** full_body: the whole stored page with the managed part and without the anchors. */
    function FullBody(): string
      reads this
    {
      before + body + after
    }

    /** generate_new_body: new_content between a foliant_start and a foliant_end anchor, inside the static parts. */
    function GenerateNewBody(newContent: string): (r: string)
      reads this
    {
      before + AnchorMacro(StartAnchor) + newContent + AnchorMacro(EndAnchor) + after
    }

    /**
     * need_update: an upload is needed when the page does not exist or holds no
     * stored hash; otherwise exactly when that hash differs from the hash of
     * this content and title. A missing title then reaches `title.encode()` in
     * _calculate_hash and raises AttributeError.
     */
    function NeedUpdate(newContent: string, newTitle: Option<string>): (r: Result<bool, string>)
      reads this
      ensures r.Err? <==> content.Some? && HashKey in properties && newTitle.None?
      ensures r == Ok(false) <==>
        content.Some? && HashKey in properties && newTitle.Some? && properties[HashKey] == hash(newContent, newTitle.value)
    {
      if content.None? then Ok(true)
      else if HashKey !in properties then Ok(true)
      else if newTitle.None? then Err("AttributeError")
      else Ok(hash(newContent, newTitle.value) != properties[HashKey])
    }

    /** The first steps of _update_properties: keep the page and its id, and cut its body with extract. */
    method Load(c: Remote)
      requires WellFormed(c.body)
      modifies this`content, this`id, this`before, this`body, this`after
      ensures content == Some(c) && id == Some(c.id) && Valid()
    {
      var b, m, a := Extract(c.body);
      content, id := Some(c), Some(c.id);
      before, body, after := b, m, a;
    }

    /**
     * What _update_properties leaves besides the page itself: the fetched
     * properties copied over props0, the url built from the fetched links (url0
     * when there are none), and the fetched title when title0 was missing.
     */
    ghost predicate TookIn(c: Remote, props0: map<string, string>, url0: Option<string>, title0: Option<string>)
      reads this`properties, this`url, this`title
    {
      && properties == Merged(props0, c.properties)
      && url == (if c.links.Some? then Some(c.links.value.0 + c.links.value.1) else url0)
      && title == (if title0.None? then Some(c.title) else title0)
    }

    /**
     * _update_properties: keep the fetched page, cut its body with extract,
     * copy its properties over the known ones, and take its links and, when
     * none was given, its title.
     */
    method UpdateProperties(c: Remote)
      requires WellFormed(c.body)
      modifies this`content, this`id, this`before, this`body, this`after, this`properties, this`url, this`title
      ensures content == Some(c) && id == Some(c.id) && Valid()
      ensures TookIn(c, old(properties), old(url), old(title))
    {
      Load(c);
      properties := MergeProperties(properties, c.properties);
      if c.links.Some? {
        url := Some(c.links.value.0 + c.links.value.1);
      }
      if title.None? {
        title := Some(c.title);
      }
    }

    /**
     * _get_info: with a (non-zero) id, fetch that page, failing when it cannot
     * be fetched; otherwise search by space and title, and when nothing is
     * found record a page that does not exist yet.
     */
    method GetInfo(find: (Option<string>, Option<string>) -> Option<int>, fetch: int -> Option<Remote>)
      returns (r: Result<(), string>)
      requires FetchParses(fetch)
      modifies this`content, this`id, this`before, this`body, this`after, this`properties, this`url, this`title
      ensures r.Ok? ==> Valid()
      ensures r.Ok? && content.Some? ==> TookIn(content.value, old(properties), old(url), old(title))
      ensures r.Ok? && content.None? ==> properties == old(properties) && url == old(url) && title == old(title)
      ensures r.Err? ==> unchanged(this)
      ensures old(id).Some? && old(id).value != 0 ==>
        (r.Ok? <==> fetch(old(id).value).Some?) && (r.Ok? ==> content == fetch(old(id).value))
      ensures (old(id).None? || old(id).value == 0) && find(space, old(title)).None? ==>
        r.Ok? && content.None? && id.None? && properties == old(properties)
      ensures (old(id).None? || old(id).value == 0) && find(space, old(title)).Some? ==>
        (r.Ok? <==> fetch(find(space, old(title)).value).Some?) &&
        (r.Ok? ==> content == fetch(find(space, old(title)).value))
    {
      if id.Some? && id.value != 0 {
        var page := fetch(id.value);
        if page.None? {
          return Err("PageNotFoundError");
        }
        Fetched(fetch, id.value);
        UpdateProperties(page.value);
      } else {
        var found := find(space, title);
        if found.Some? {
          var page := fetch(found.value);
          if page.None? {
            return Err("TypeError");
          }
          Fetched(fetch, found.value);
          UpdateProperties(page.value);
        } else {
          content, id := None, None;
          before, after, body := "", "", "";
        }
      }
      return Ok(());
    }

    /**
     * update_hash: delete the stored hash property on the server if the page
     * has one (`dropped`), then store hash(content, title) as the new one. A
     * missing title raises AttributeError once the old hash is deleted; a
     * refused property raises RuntimeError. Either failure leaves the page's
     * own properties as they were.
     */
    method UpdateHash(newContent: string, newTitle: Option<string>, accepted: bool)
      returns (r: Result<(), string>, dropped: bool)
      modifies this`properties
      ensures dropped <==> HashKey in old(properties)
      ensures r.Ok? <==> newTitle.Some? && accepted
      ensures r.Ok? ==> properties == old(properties)[HashKey := hash(newContent, newTitle.value)]
      ensures r.Err? ==> properties == old(properties)
      ensures r.Ok? && content.Some? ==> NeedUpdate(newContent, newTitle) == Ok(false)
    {
      dropped := HashKey in properties;
      if newTitle.None? {
        return Err("AttributeError"), dropped;
      }
      if !accepted {
        return Err("RuntimeError"), dropped;
      }
      properties := properties[HashKey := hash(newContent, newTitle.value)];
      return Ok(()), dropped;
    }

    /**
     * upload_content: send generate_new_body(new_content), with the given
     * title or (when it is missing or empty) the page's own, then load the page
     * the API answers with and store the hash under the given title. Without a
     * title the page is still updated and its old hash deleted before
     * update_hash fails. After a successful upload no update is needed for the
     * same content and title.
     */
    method UploadContent(newContent: string, newTitle: Option<string>, response: Option<Remote>, accepted: bool)
      returns (r: Result<Remote, string>, sent: string, sentTitle: Option<string>, dropped: bool)
      requires response.Some? ==> WellFormed(response.value.body)
      modifies this`content, this`id, this`before, this`body, this`after, this`properties, this`url, this`title
      ensures sent == old(GenerateNewBody(newContent))
      ensures sentTitle == if newTitle.Some? && newTitle.value != "" then newTitle else old(title)
      ensures r.Ok? <==> response.Some? && newTitle.Some? && accepted
      ensures response.None? ==> unchanged(this) && !dropped
      ensures response.Some? ==> content == response && Valid()
      ensures response.Some? ==>
        && url == (if response.value.links.Some? then Some(response.value.links.value.0 + response.value.links.value.1) else old(url))
        && title == (if old(title).None? then Some(response.value.title) else old(title))
      ensures r.Ok? ==> properties == Merged(old(properties), response.value.properties)[HashKey := hash(newContent, newTitle.value)]
      ensures response.Some? ==> (dropped <==> HashKey in Merged(old(properties), response.value.properties))
      ensures response.Some? && r.Err? ==> properties == Merged(old(properties), response.value.properties)
      ensures r.Ok? ==> NeedUpdate(newContent, newTitle) == Ok(false)
    {
      sent := GenerateNewBody(newContent);
      sentTitle := if newTitle.Some? && newTitle.value != "" then newTitle else title;
      if response.None? {
        return Err("RuntimeError"), sent, sentTitle, false;
      }
      var h;
      h, dropped := Store(newContent, newTitle, response.value, accepted);
      if h.Err? {
        return Err(h.error), sent, sentTitle, dropped;
      }
      r := Ok(response.value);
    }

    /** The last two steps of upload_content: load the page the API answered with, then update_hash. */
    method Store(newContent: string, newTitle: Option<string>, c: Remote, accepted: bool)
      returns (h: Result<(), string>, dropped: bool)
      requires WellFormed(c.body)
      modifies this`content, this`id, this`before, this`body, this`after, this`properties, this`url, this`title
      ensures content == Some(c) && Valid()
      ensures url == (if c.links.Some? then Some(c.links.value.0 + c.links.value.1) else old(url))
      ensures title == (if old(title).None? then Some(c.title) else old(title))
      ensures dropped <==> HashKey in Merged(old(properties), c.properties)
      ensures h.Ok? <==> newTitle.Some? && accepted
      ensures h.Ok? ==> properties == Merged(old(properties), c.properties)[HashKey := hash(newContent, newTitle.value)]
      ensures h.Err? ==> properties == Merged(old(properties), c.properties)
      ensures h.Ok? ==> NeedUpdate(newContent, newTitle) == Ok(false)
    {
      UpdateProperties(c);
      h, dropped := UpdateHash(newContent, newTitle, accepted);
    }
  }

  /** exists: a loaded page exists exactly when it has an id. */
  lemma ExistsIffId(p: Page)
    requires p.Valid()
    ensures p.Exists() <==> p.id.Some?
  {
  }

  /**
   * full_body is the stored page without its anchor blocks: with both anchor
   * blocks the five parts rebuild the page, with one the managed part is empty,
   * and a page without anchors is all managed part.
   */
  lemma FullBodyWithoutAnchors(p: Page)
    requires p.Valid() && p.content.Some?
    ensures var d := p.content.value.body; var (top, bottom) := Detected(d);
      && (top.Some? && bottom.Some? ==>
            p.before + Render(d, top.value) + p.body + Render(d, bottom.value) + p.after == RenderDoc(d))
      && (top.Some? && bottom.None? ==> p.body == "" && p.before + Render(d, top.value) + p.after == RenderDoc(d))
      && (top.None? ==> p.FullBody() == RenderDoc(d))
  {
    ExtractRejoins(p.content.value.body);
  }

  /** A page that does not exist yet gets the content between the two anchors, and nothing else. */
  lemma NewPageBody(p: Page, x: string)
    requires p.Valid() && !p.Exists()
    ensures p.GenerateNewBody(x) == AnchorMacro(StartAnchor) + x + AnchorMacro(EndAnchor)
  {
  }

  /** generate_new_body keeps the new content apart: two contents give the same body only when equal. */
  lemma NewBodyInjective(p: Page, x: string, y: string)
    ensures p.GenerateNewBody(x) == p.GenerateNewBody(y) <==> x == y
  {
    var head := p.before + AnchorMacro(StartAnchor);
    var tail := AnchorMacro(EndAnchor) + p.after;
    assert p.GenerateNewBody(x) == head + x + tail;
    assert p.GenerateNewBody(y) == head + y + tail;
    if head + x + tail == head + y + tail {
      assert |x| == |y|;
      forall i | 0 <= i < |x|
        ensures x[i] == y[i]
      {
        assert (head + x + tail)[|head| + i] == x[i];
        assert (head + y + tail)[|head| + i] == y[i];
      }
    }
  }

  /** Page(...) passes its argument check and _get_info searches by space and title. */
  predicate ByTitle(space: Option<string>, title: Option<string>, id: Option<int>)
  {
    (id.None? && title.Some? && space.Some?) || id == Some(0)
  }

  /**
   * Page(...): fails unless an id or both a title and a space are given, then
   * looks the page up as _get_info does.
   */
  method OpenPage(space: Option<string>, title: Option<string>, parentId: Option<int>, id: Option<int>,
                  hash: (string, string) -> string,
                  find: (Option<string>, Option<string>) -> Option<int>, fetch: int -> Option<Remote>)
    returns (r: Result<Page, string>)
    requires FetchParses(fetch)
    ensures (title.None? || space.None?) && id.None? ==> r.Err?
    ensures r.Ok? ==> fresh(r.value) && r.value.Valid() && r.value.hash == hash && r.value.space == space
    ensures r.Ok? && r.value.content.None? ==>
      r.value.FullBody() == "" && r.value.id.None? && r.value.properties == map[] && r.value.url.None? && r.value.title == title
    ensures r.Ok? && r.value.content.Some? ==> var c := r.value.content.value;
      && r.value.properties == Merged(map[], c.properties)
      && r.value.url == (if c.links.Some? then Some(c.links.value.0 + c.links.value.1) else None)
      && r.value.title == (if title.None? then Some(c.title) else title)
    ensures id.Some? && id.value != 0 ==>
      (r.Ok? <==> fetch(id.value).Some?) && (r.Ok? ==> r.value.content == fetch(id.value))
    ensures ByTitle(space, title, id) && find(space, title).None? ==>
      r.Ok? && r.value.content.None? && r.value.id.None?
    ensures ByTitle(space, title, id) && find(space, title).Some? ==>
      (r.Ok? <==> fetch(find(space, title).value).Some?) &&
      (r.Ok? ==> r.value.content == fetch(find(space, title).value))
  {
    if (title.None? || space.None?) && id.None? {
      return Err("RuntimeError");
    }
    var page := new Page.Init(space, title, parentId, id, hash);
    var info := page.GetInfo(find, fetch);
    if info.Err? {
      return Err(info.error);
    }
    return Ok(page);
  }
}
