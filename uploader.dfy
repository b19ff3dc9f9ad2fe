/**
 * The page uploader's bookkeeping: the registry of attachment copies, which
 * remembers every file it has copied so that the same file is attached once,
 * and the choice of the parent page from the page's configuration.
 */
module Uploader {
  import opened Wrappers
  import opened Text

  // ---------------------------------------------------------------------------
  // The attachment registry: a dictionary that remembers insertion order
  // ---------------------------------------------------------------------------

  /**
   * A dictionary from resolved source paths to the paths of their copies,
   * with its keys in insertion order (the order its values are listed in).
   */
  datatype Registry = Registry(keys: seq<string>, paths: map<string, string>)

  ghost predicate Distinct(s: seq<string>)
  {
    forall i, j :: 0 <= i < j < |s| ==> s[i] != s[j]
  }

  /** The keys list holds each key of the dictionary once. */
  ghost predicate RegistryValid(m: Registry)
  {
    Distinct(m.keys) && (forall k :: k in m.paths <==> k in m.keys)
  }

  /** The dictionary's values, in the order their keys were inserted. */
  function Values(m: Registry): (r: seq<string>)
    requires RegistryValid(m)
    ensures |r| == |m.keys|
    ensures forall i :: 0 <= i < |r| ==> r[i] == m.paths[m.keys[i]]
    decreases |m.keys|
  {
    if m.keys == [] then []
    else
      var last := m.keys[|m.keys| - 1];
      var rest := Registry(m.keys[..|m.keys| - 1], m.paths - {last});
      Values(rest) + [m.paths[last]]
  }

  /** Storing a value under a key: a new key goes to the end, a known key keeps its place. */
  function Put(m: Registry, k: string, v: string): (r: Registry)
    requires RegistryValid(m)
    ensures RegistryValid(r)
    ensures r.paths == m.paths[k := v]
  {
    if k in m.paths then Registry(m.keys, m.paths[k := v])
    else Registry(m.keys + [k], m.paths[k := v])
  }

  /**
   * add_attachment on the registry: a path already registered returns its
   * copy and changes nothing; otherwise the copy's outcome is returned, and
   * registered only when the copy produced a path.
   */
  function Add(m: Registry, absPath: string, copied: Option<string>): (r: (Registry, Option<string>))
    requires RegistryValid(m)
  {
    if absPath in m.paths then (m, Some(m.paths[absPath]))
    else if copied.Some? then (Put(m, absPath, copied.value), copied)
    else (m, None)
  }

  /** What add_attachment returns and what the registry becomes, case by case. */
  lemma AddCases(m: Registry, absPath: string, copied: Option<string>)
    requires RegistryValid(m)
    ensures RegistryValid(Add(m, absPath, copied).0)
    ensures absPath in m.paths ==> Add(m, absPath, copied) == (m, Some(m.paths[absPath]))
    ensures absPath !in m.paths ==> Add(m, absPath, copied).1 == copied
    ensures absPath !in m.paths && copied.None? ==> Add(m, absPath, copied).0 == m
    ensures absPath !in m.paths && copied.Some? ==>
      Values(Add(m, absPath, copied).0) == Values(m) + [copied.value]
      && Add(m, absPath, copied).0.paths == m.paths[absPath := copied.value]
  {
    if absPath !in m.paths && copied.Some? {
      var r := Put(m, absPath, copied.value);
      assert r.keys == m.keys + [absPath];
      ValuesExtend(m, absPath, copied.value);
    }
  }

  lemma ValuesExtend(m: Registry, k: string, v: string)
    requires RegistryValid(m) && k !in m.paths
    ensures Values(Put(m, k, v)) == Values(m) + [v]
  {
    var r := Put(m, k, v);
    var a, b := Values(r), Values(m) + [v];
    assert |a| == |b|;
    forall i | 0 <= i < |a|
      ensures a[i] == b[i]
    {
      if i < |m.keys| {
        assert m.keys[i] != k;
      }
    }
  }

  /**
   * Whatever the second copy would produce, adding a file a second time
   * after a successful first add returns the same path and lists no further
   * attachment.
   */
  lemma AddTwice(m: Registry, absPath: string, first: Option<string>, second: Option<string>)
    requires RegistryValid(m)
    requires absPath in m.paths || first.Some?
    ensures var (m1, r1) := Add(m, absPath, first);
      RegistryValid(m1) && Add(m1, absPath, second) == (m1, r1) && Values(Add(m1, absPath, second).0) == Values(m1)
  {
    AddCases(m, absPath, first);
    var (m1, r1) := Add(m, absPath, first);
    AddCases(m1, absPath, second);
  }

  /** The registry is never shrunk by an add: every attachment listed before is listed after, in place. */
  lemma AddKeeps(m: Registry, absPath: string, copied: Option<string>)
    requires RegistryValid(m)
    ensures var m1 := Add(m, absPath, copied).0;
      RegistryValid(m1) && Values(m) <= Values(m1) && |Values(m1)| <= |Values(m)| + 1
  {
    AddCases(m, absPath, copied);
  }

  /**
   * AttachmentManager: the registry lives in the object and add_attachment
   * updates it in place. The resolution of the file's absolute path and the
   * copy into the attachments directory (which yields no path for a missing
   * file) are given as functions.
   */
  class AttachmentManager {
    var registry: Registry

    ghost predicate Valid()
      reads this
    {
      RegistryValid(registry)
    }

    /** The manager starts with an empty registry. */
    constructor()
      ensures Valid() && registry == Registry([], map[])
    {
      registry := Registry([], map[]);
    }

    method AddAttachment(filePath: string, resolve: string -> string, copy: string -> Option<string>)
      returns (r: Option<string>)
      requires Valid()
      modifies this
      ensures Valid()
      ensures (registry, r) == Add(old(registry), resolve(filePath), copy(filePath))
    {
      var absPath := resolve(filePath);
      if absPath in registry.paths {
        r := Some(registry.paths[absPath]);
      } else {
        var newPath := copy(filePath);
        if newPath.Some? {
          registry := Put(registry, absPath, newPath.value);
        }
        r := newPath;
      }
    }

    /** attachments: the registry's values, one per registered file. */
    function Attachments(): (r: seq<string>)
      requires Valid()
      reads this
      ensures |r| == |registry.keys|
      ensures forall i :: 0 <= i < |r| ==> r[i] == registry.paths[registry.keys[i]]
    {
      Values(registry)
    }
  }

  // ---------------------------------------------------------------------------
  // Choosing the parent page
  // ---------------------------------------------------------------------------

  /** The keys of the page's configuration that decide its parent; a missing key is None. */
  datatype Config = Config(id: Option<string>, parentId: Option<string>, parentTitle: Option<string>,
                           spaceKey: Option<string>, testRun: bool)

  /** A page as the lookup by title returns it: its fields, or nothing. */
  type Found = Option<map<string, string>>

  const NoSpaceKey := "You have to add space_key if you specify parent by title!"

  function NotFound(title: string): string
  {
    "Cannot find parent with title " + title
  }

  /** A space key that Python reads as false: missing or empty. */
  predicate Falsy(key: Option<string>)
  {
    key.None? || key.value == ""
  }

  /**
   * get_content_id_by_title: the id of the page with this title in this
   * space. A missing space key is an error; a page that is not found is None
   * in a test run and an error otherwise. The lookup stands for the server.
   */
  function GetContentIdByTitle(lookup: (string, string) -> Found, title: string, spaceKey: Option<string>,
                               testRun: bool): (r: Result<Option<string>, string>)
    ensures Falsy(spaceKey) ==> r == Err(NoSpaceKey)
    ensures !Falsy(spaceKey) ==>
      var p := lookup(spaceKey.value, title);
      (p.Some? && "id" in p.value ==> r == Ok(Some(p.value["id"])))
      && (!(p.Some? && "id" in p.value) ==> r == if testRun then Ok(None) else Err(NotFound(title)))
  {
    if Falsy(spaceKey) then Err(NoSpaceKey)
    else
      var p := lookup(spaceKey.value, title);
      if p.Some? && "id" in p.value then Ok(Some(p.value["id"]))
      else if testRun then Ok(None)
      else Err(NotFound(title))
  }

  /** _get_parent_id: no parent for a page given by id; else the configured parent id, else a lookup by title. */
  function GetParentId(config: Config, lookup: (string, string) -> Found): (r: Result<Option<string>, string>)
  {
    if config.id.Some? then Ok(None)
    else if config.parentId.Some? then Ok(config.parentId)
    else if config.parentTitle.Some? then
      GetContentIdByTitle(lookup, config.parentTitle.value, config.spaceKey, config.testRun)
    else Ok(None)
  }

  /**
   * A configured id means no parent, a configured parent id wins over a parent
   * title, and in both cases the server is not asked: any two lookups agree.
   * Without any of the three keys there is no parent either.
   */
  lemma ParentIdPrecedence(config: Config, lookup: (string, string) -> Found, other: (string, string) -> Found)
    ensures config.id.Some? ==> GetParentId(config, lookup) == Ok(None)
    ensures config.id.None? && config.parentId.Some? ==> GetParentId(config, lookup) == Ok(config.parentId)
    ensures config.id.None? && config.parentId.None? && config.parentTitle.None? ==> GetParentId(config, lookup) == Ok(None)
    ensures config.id.Some? || config.parentId.Some? ==> GetParentId(config, lookup) == GetParentId(config, other)
  {
  }

  /** Only a parent title sends the page to the server, and then the answer is the lookup's. */
  lemma ParentByTitle(config: Config, lookup: (string, string) -> Found)
    requires config.id.None? && config.parentId.None? && config.parentTitle.Some?
    ensures GetParentId(config, lookup).Err? <==>
      Falsy(config.spaceKey)
      || (!config.testRun && !(lookup(config.spaceKey.value, config.parentTitle.value).Some?
                              && "id" in lookup(config.spaceKey.value, config.parentTitle.value).value))
  {
  }
}
