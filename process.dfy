/**
 * The final Confluence preprocessor: the code macro generator, the nested
 * task-list builder and the normalisation of Markdown line endings and
 * whitespace.
 */
module Process {
  import opened Wrappers
  import opened Text

  // ---------------------------------------------------------------------------
  // Code macros
  // ---------------------------------------------------------------------------

  /** Highlighting language names understood by Confluence, keyed by the lower-cased fence language. */
  const SyntaxConvert: map<string, string> := map[
    "python" := "py",
    "actionscript" := "actionscript3",
    "applescript" := "applescript",
    "bash" := "bash",
    "c#" := "c#",
    "cs" := "c#",
    "c" := "c",
    "cpp" := "cpp",
    "css" := "css",
    "coldfusion" := "coldfusion",
    "delphi" := "delphi",
    "diff" := "diff",
    "erlang" := "erl",
    "groovy" := "groovy",
    "xml" := "xml",
    "html" := "html",
    "java" := "java",
    "js" := "js",
    "javascript" := "javascript",
    "php" := "php",
    "perl" := "perl",
    "powershell" := "powershell",
    "yaml" := "yml"
  ]

  /** The code macro themes Confluence accepts. */
  const Themes: seq<string> := ["emacs", "django", "fadetogrey", "midnight", "rdark", "eclipse", "confluence"]

  const MacroHead := "<raw_confluence><p><ac:structured-macro ac:name=\"code\" ac:schema-version=\"1\">\n"
  const BodyOpen := "<ac:plain-text-body><![CDATA["
  const BodyClose := "]]></ac:plain-text-body>\n</ac:structured-macro></p></raw_confluence>"

  /** The parameters a code macro may carry, in the order they are written. */
  datatype ParamKind = Language | Theme | Title | LineNumbers | Collapse

  function KindName(k: ParamKind): string
  {
    match k
    case Language => "language"
    case Theme => "theme"
    case Title => "title"
    case LineNumbers => "linenumbers"
    case Collapse => "collapse"
  }

  /** Position of a parameter kind in the fixed output order. */
  function Rank(k: ParamKind): nat
  {
    match k
    case Language => 0
    case Theme => 1
    case Title => 2
    case LineNumbers => 3
    case Collapse => 4
  }

  /** Python truthiness of an optional string: present and non-empty. */
  predicate Truthy(s: Option<string>)
  {
    s.Some? && s.value != ""
  }

  function ParamLine(k: ParamKind, v: string): string
  {
    "  <ac:parameter ac:name=\"" + KindName(k) + "\">" + v + "</ac:parameter>\n"
  }

  function ParamLines(ps: seq<(ParamKind, string)>): string
  {
    if ps == [] then "" else ParamLine(ps[0].0, ps[0].1) + ParamLines(ps[1..])
  }

  /** The Confluence language name for a fence language, when it is one the macro knows. */
  function LanguageValue(language: Option<string>): Option<string>
  {
    if Truthy(language) && Lower(language.value) in SyntaxConvert
    then Some(SyntaxConvert[Lower(language.value)]) else None
  }

  /** The lower-cased theme, when it is one Confluence accepts. */
  function ThemeValue(theme: Option<string>): Option<string>
  {
    if Truthy(theme) && Lower(theme.value) in Themes then Some(Lower(theme.value)) else None
  }

  /** The title, when it is non-empty. */
  function TitleValue(title: Option<string>): Option<string>
  {
    if Truthy(title) then title else None
  }

  /** The literal "true" of a switched-on flag. */
  function Flag(b: bool): Option<string>
  {
    if b then Some("true") else None
  }

  /** ps followed by the parameter (k, v) when there is a value v. */
  function Push(ps: seq<(ParamKind, string)>, k: ParamKind, v: Option<string>): seq<(ParamKind, string)>
  {
    if v.Some? then ps + [(k, v.value)] else ps
  }

  /** The parameters a code macro is given, as (kind, value) pairs in output order. */
  function Params(language: Option<string>, theme: Option<string>, title: Option<string>,
                  linenumbers: bool, collapse: bool): seq<(ParamKind, string)>
  {
    ParamsOf(LanguageValue(language), ThemeValue(theme), TitleValue(title), Flag(linenumbers), Flag(collapse))
  }

  /** The parameters present among the five values, in the fixed order. */
  function ParamsOf(language: Option<string>, theme: Option<string>, title: Option<string>,
                    linenumbers: Option<string>, collapse: Option<string>): seq<(ParamKind, string)>
  {
    var withLanguage := Push([], Language, language);
    var withTheme := Push(withLanguage, Theme, theme);
    var withTitle := Push(withTheme, Title, title);
    var withNumbers := Push(withTitle, LineNumbers, linenumbers);
    Push(withNumbers, Collapse, collapse)
  }

  /** The value given to the parameter of kind `k`, if any. */
  function ValueOf(ps: seq<(ParamKind, string)>, k: ParamKind): (r: Option<string>)
    ensures r.Some? <==> exists j :: 0 <= j < |ps| && ps[j].0 == k
  {
    if ps == [] then None
    else if ps[0].0 == k then Some(ps[0].1)
    else ValueOf(ps[1..], k)
  }

  /** gen_code_macro: the code macro for a source text, with the parameters it is given. */
  function GenCodeMacro(source: string, language: Option<string>, theme: Option<string>,
                        title: Option<string>, linenumbers: bool, collapse: bool): string
  {
    MacroHead + ParamLines(Params(language, theme, title, linenumbers, collapse))
    + BodyOpen + source + BodyClose
  }

  /** Where each of five concatenated pieces sits in the whole. */
  lemma Pieces(a: string, b: string, c: string, d: string, e: string)
    ensures var r := a + b + c + d + e;
      && r[..|a|] == a
      && r[|r| - |e|..] == e
      && r[|r| - |e| - |d|..|r| - |e|] == d
      && r[|r| - |e| - |d| - |c|..|r| - |e| - |d|] == c
  {
  }

  /** The macro opens with the code macro header and ends with the source inside CDATA, verbatim. */
  lemma CodeMacroFrame(source: string, language: Option<string>, theme: Option<string>,
                       title: Option<string>, linenumbers: bool, collapse: bool)
    ensures var r := GenCodeMacro(source, language, theme, title, linenumbers, collapse);
      && StartsWith(r, MacroHead)
      && |BodyOpen| + |source| + |BodyClose| <= |r|
      && r[|r| - |BodyClose|..] == BodyClose
      && r[|r| - |BodyClose| - |source|..|r| - |BodyClose|] == source
      && r[|r| - |BodyClose| - |source| - |BodyOpen|..|r| - |BodyClose| - |source|] == BodyOpen
  {
    Pieces(MacroHead, ParamLines(Params(language, theme, title, linenumbers, collapse)), BodyOpen, source, BodyClose);
  }

  /** The first of two optional values that is present. */
  function First(a: Option<string>, b: Option<string>): Option<string>
  {
    if a.Some? then a else b
  }

  /** A pushed parameter is found unless an earlier one of the same kind shadows it. */
  lemma {:induction false} ValueOfPush(ps: seq<(ParamKind, string)>, k: ParamKind, v: Option<string>, q: ParamKind)
    ensures ValueOf(Push(ps, k, v), q) == First(ValueOf(ps, q), if k == q then v else None)
    decreases |ps|
  {
    if v.Some? && ps != [] {
      assert (ps + [(k, v.value)])[1..] == ps[1..] + [(k, v.value)];
      ValueOfPush(ps[1..], k, v, q);
    }
  }

  /**
   * Which parameters a macro carries, and with which values: the language only
   * when its lower-cased form is a known language (mapped to Confluence's name),
   * the theme only when its lower-cased form is a known theme (lower-cased), the
   * title only when non-empty, line numbers and collapsing only when requested.
   */
  lemma ParamsValues(language: Option<string>, theme: Option<string>,
                     title: Option<string>, linenumbers: bool, collapse: bool)
    ensures var ps := Params(language, theme, title, linenumbers, collapse);
      && ValueOf(ps, Language) == LanguageValue(language)
      && ValueOf(ps, Theme) == ThemeValue(theme)
      && ValueOf(ps, Title) == TitleValue(title)
      && ValueOf(ps, LineNumbers) == Flag(linenumbers)
      && ValueOf(ps, Collapse) == Flag(collapse)
  {
    var p1 := Push([], Language, LanguageValue(language));
    var p2 := Push(p1, Theme, ThemeValue(theme));
    var p3 := Push(p2, Title, TitleValue(title));
    var p4 := Push(p3, LineNumbers, Flag(linenumbers));
    forall q | true
      ensures ValueOf(Params(language, theme, title, linenumbers, collapse), q)
           == First(First(First(First(First(None, if q == Language then LanguageValue(language) else None),
                                            if q == Theme then ThemeValue(theme) else None),
                                      if q == Title then TitleValue(title) else None),
                                if q == LineNumbers then Flag(linenumbers) else None),
                          if q == Collapse then Flag(collapse) else None)
    {
      ValueOfPush([], Language, LanguageValue(language), q);
      ValueOfPush(p1, Theme, ThemeValue(theme), q);
      ValueOfPush(p2, Title, TitleValue(title), q);
      ValueOfPush(p3, LineNumbers, Flag(linenumbers), q);
      ValueOfPush(p4, Collapse, Flag(collapse), q);
    }
  }

  /** Every parameter kind in ps comes strictly before k in the fixed order. */
  ghost predicate Before(ps: seq<(ParamKind, string)>, k: ParamKind)
  {
    forall i :: 0 <= i < |ps| ==> Rank(ps[i].0) < Rank(k)
  }

  /** The kinds in ps follow the fixed order strictly, so none repeats. */
  ghost predicate InOrder(ps: seq<(ParamKind, string)>)
  {
    forall i, j :: 0 <= i < j < |ps| ==> Rank(ps[i].0) < Rank(ps[j].0)
  }

  /** Parameters appear in the fixed order language, theme, title, linenumbers, collapse, each at most once. */
  lemma ParamsOrdered(language: Option<string>, theme: Option<string>, title: Option<string>,
                      linenumbers: bool, collapse: bool)
    ensures InOrder(Params(language, theme, title, linenumbers, collapse))
  {
    var p1 := Push([], Language, LanguageValue(language));
    var p2 := Push(p1, Theme, ThemeValue(theme));
    var p3 := Push(p2, Title, TitleValue(title));
    var p4 := Push(p3, LineNumbers, Flag(linenumbers));
    PushKeepsOrder([], Language, LanguageValue(language), Theme);
    PushKeepsOrder(p1, Theme, ThemeValue(theme), Title);
    PushKeepsOrder(p2, Title, TitleValue(title), LineNumbers);
    PushKeepsOrder(p3, LineNumbers, Flag(linenumbers), Collapse);
    PushKeepsOrder(p4, Collapse, Flag(collapse), Collapse);
  }

  lemma PushKeepsOrder(ps: seq<(ParamKind, string)>, k: ParamKind, v: Option<string>, next: ParamKind)
    requires InOrder(ps) && Before(ps, k)
    ensures InOrder(Push(ps, k, v))
    ensures Rank(k) < Rank(next) ==> Before(Push(ps, k, v), next)
  {
  }

  // ---------------------------------------------------------------------------
  // Task lists
  // ---------------------------------------------------------------------------

  /** One checkbox item with the items nested below it. */
  datatype Task = Task(text: string, status: string, id: nat, children: seq<Task>)

  /** A new task: its status is "complete" exactly when it is checked, and it has no children yet. */
  function NewTask(text: string, checked: bool, id: nat): (t: Task)
    ensures t.status == "complete" <==> checked
    ensures t.text == text && t.id == id && t.children == []
  {
    Task(text, if checked then "complete" else "incomplete", id, [])
  }

  /** The ids of a task and everything below it, in document order. */
  function TaskIds(t: Task): seq<nat>
    decreases t
  {
    [t.id] + ListIds(t.children)
  }

  function ListIds(ts: seq<Task>): seq<nat>
    decreases ts
  {
    if ts == [] then [] else ListIds(ts[..|ts| - 1]) + TaskIds(ts[|ts| - 1])
  }

  /** 1, 2, ..., n */
  function UpTo(n: nat): seq<nat>
  {
    if n == 0 then [] else UpTo(n - 1) + [n]
  }

  /**
   * How many lists lie on the path that always goes into the last task's
   * children: 0 for an empty list, 1 for a list whose last task has no children, ...
   */
  function SpineDepth(ts: seq<Task>): nat
    decreases ts
  {
    if ts == [] then 0 else 1 + SpineDepth(ts[|ts| - 1].children)
  }

  /** The list at depth k on that path. */
  function ListAt(ts: seq<Task>, k: nat): seq<Task>
    requires k <= SpineDepth(ts)
    decreases ts
  {
    if k == 0 then ts else ListAt(ts[|ts| - 1].children, k - 1)
  }

  /** The forest with t appended to the list at depth k on the path of last tasks. */
  function AppendAt(ts: seq<Task>, k: nat, t: Task): seq<Task>
    requires k <= SpineDepth(ts)
    decreases ts
  {
    if k == 0 then ts + [t]
    else
      var last := ts[|ts| - 1];
      ts[..|ts| - 1] + [last.(children := AppendAt(last.children, k - 1, t))]
  }

  function Min(a: nat, b: nat): nat
  {
    if a <= b then a else b
  }

  lemma {:induction false} ListAtStep(ts: seq<Task>, k: nat)
    requires k <= SpineDepth(ts)
    ensures ListAt(ts, k) != [] <==> k + 1 <= SpineDepth(ts)
    ensures ListAt(ts, k) != [] ==> ListAt(ts, k + 1) == ListAt(ts, k)[|ListAt(ts, k)| - 1].children
    decreases k
  {
    if k > 0 {
      ListAtStep(ts[|ts| - 1].children, k - 1);
    }
  }

  /** The new task is the last element of the list it was appended to. */
  lemma {:induction false} AppendAtLast(ts: seq<Task>, k: nat, t: Task)
    requires k <= SpineDepth(ts)
    ensures k <= SpineDepth(AppendAt(ts, k, t))
    ensures ListAt(AppendAt(ts, k, t), k) == ListAt(ts, k) + [t]
    decreases k
  {
    if k > 0 {
      var last := ts[|ts| - 1];
      AppendAtLast(last.children, k - 1, t);
      var r := AppendAt(ts, k, t);
      assert r[|r| - 1] == last.(children := AppendAt(last.children, k - 1, t));
    }
  }

  lemma {:induction false} ListIdsAppend(ts: seq<Task>, t: Task)
    ensures ListIds(ts + [t]) == ListIds(ts) + TaskIds(t)
  {
    assert (ts + [t])[..|ts|] == ts;
  }

  /**
   * Appending a childless task anywhere on the path of last tasks adds its id
   * at the end of the document order, and nothing else changes in that order.
   */
  lemma {:induction false} AppendAtIds(ts: seq<Task>, k: nat, t: Task)
    requires k <= SpineDepth(ts) && t.children == []
    ensures ListIds(AppendAt(ts, k, t)) == ListIds(ts) + [t.id]
    decreases k
  {
    if k == 0 {
      ListIdsAppend(ts, t);
      assert ListIds([]) == [];
    } else {
      var last := ts[|ts| - 1];
      AppendAtIds(last.children, k - 1, t);
      AppendBelowIds(ts, k, t);
    }
  }

  /** The step of AppendAtIds: appending below the last task adds the id at the end. */
  lemma AppendBelowIds(ts: seq<Task>, k: nat, t: Task)
    requires 0 < k <= SpineDepth(ts)
    requires ListIds(AppendAt(ts[|ts| - 1].children, k - 1, t)) == ListIds(ts[|ts| - 1].children) + [t.id]
    ensures ListIds(AppendAt(ts, k, t)) == ListIds(ts) + [t.id]
  {
    var init, last := ts[..|ts| - 1], ts[|ts| - 1];
    var last' := last.(children := AppendAt(last.children, k - 1, t));
    var r := AppendAt(ts, k, t);
    assert r[..|r| - 1] == init && r[|r| - 1] == last';
    var a, b := ListIds(init), ListIds(last.children);
    assert ListIds(ts) == a + ([last.id] + b);
    assert ListIds(r) == a + ([last.id] + (b + [t.id]));
  }

  /** The builder of one nested task list. */
  class TaskList {
    var tasks: seq<Task>
    var lastId: nat

    /** Every task ever added is present, and the ids run 1, 2, ..., lastId in document order. */
    ghost predicate Valid()
      reads this
    {
      ListIds(tasks) == UpTo(lastId)
    }

    constructor ()
      ensures tasks == [] && lastId == 0 && Valid()
    {
      tasks := [];
      lastId := 0;
    }

    /**
     * add_item: go down through the last task's children at most `level` times
     * (stopping early at a task without children, whose children list then
     * receives the new task) and append a new task with the next id. With
     * level > 0 and no tasks yet, the first step finds no last task and the
     * call fails (ok is false) without changing anything.
     */
    method AddItem(text: string, checked: bool, level: nat) returns (ok: bool)
      requires Valid()
      modifies this
      ensures Valid()
      ensures ok <==> level == 0 || old(tasks) != []
      ensures !ok ==> tasks == old(tasks) && lastId == old(lastId)
      ensures ok ==> lastId == old(lastId) + 1
      ensures ok ==> tasks == AppendAt(old(tasks), Min(level, SpineDepth(old(tasks))),
                                       NewTask(text, checked, lastId))
    {
      var curLevel: nat := 0;
      var cur := tasks;
      var depth: nat := 0;
      while curLevel < level
        invariant curLevel <= level && depth == curLevel
        invariant depth <= SpineDepth(tasks) && cur == ListAt(tasks, depth)
        invariant curLevel > 0 ==> cur != []
        invariant depth > 0 ==> tasks != []
        invariant unchanged(this)
        decreases level - curLevel
      {
        if cur == [] {
          return false;
        }
        ListAtStep(tasks, depth);
        cur := cur[|cur| - 1].children;
        depth := depth + 1;
        if cur != [] {
          curLevel := curLevel + 1;
        } else {
          ListAtStep(tasks, depth);
          break;
        }
      }
      assert depth == Min(level, SpineDepth(tasks));
      lastId := lastId + 1;
      AppendAtIds(tasks, depth, NewTask(text, checked, lastId));
      tasks := AppendAt(tasks, depth, NewTask(text, checked, lastId));
      ok := true;
    }

    /** to_string: the whole list as Confluence task-list markup. */
    method ToString() returns (r: string)
      ensures r == ListMarkup(tasks)
    {
      var ts := tasks;
      r := ListOpen;
      for i := 0 to |ts|
        invariant r == ListOpen + TasksMarkup(ts[..i])
      {
        var s := TaskToString(ts[i]);
        PrefixStep(ts, i);
        Assoc(ListOpen, TasksMarkup(ts[..i]), s);
        r := r + s;
      }
      assert ts[..|ts|] == ts;
      r := r + ListClose;
    }
  }

  /** A childless task added anywhere keeps the ids 1, 2, ..., n and grows the count by one. */
  lemma AddedIds(ts: seq<Task>, n: nat, k: nat, text: string, checked: bool)
    requires ListIds(ts) == UpTo(n) && k <= SpineDepth(ts)
    ensures ListIds(AppendAt(ts, k, NewTask(text, checked, n + 1))) == UpTo(n + 1)
    ensures |ListIds(AppendAt(ts, k, NewTask(text, checked, n + 1)))| == |ListIds(ts)| + 1
  {
    AppendAtIds(ts, k, NewTask(text, checked, n + 1));
  }

  const ListOpen := "<ac:task-list>\n"
  const ListClose := "\n</ac:task-list>\n"
  const ChildOpen := "\n        <ac:task-list>"
  const ChildClose := "\n        </ac:task-list>"
  const TaskTail := "\n    </ac:task-body>\n</ac:task>"

  function TaskHead(t: Task): string
  {
    "\n<ac:task>\n    <ac:task-id>" + NatToString(t.id) + "</ac:task-id>\n    <ac:task-status>"
    + t.status + "</ac:task-status>\n    <ac:task-body>\n        <span class=\"placeholder-inline-tasks\">"
    + t.text + "</span>"
  }

  /** The markup of one task with its nested lists. */
  function TaskMarkup(t: Task): string
    decreases t, 1
  {
    TaskHead(t) + ChildrenMarkup(t.children) + TaskTail
  }

  /** Each child in a list of its own. */
  function ChildrenMarkup(cs: seq<Task>): string
    decreases cs
  {
    if cs == [] then "" else ChildrenMarkup(cs[..|cs| - 1]) + Wrap(cs[|cs| - 1])
  }

  /** One child in a task list of its own. */
  function Wrap(t: Task): string
    decreases t, 2
  {
    ChildOpen + TaskMarkup(t) + ChildClose
  }

  function TasksMarkup(ts: seq<Task>): string
    decreases ts
  {
    if ts == [] then "" else TasksMarkup(ts[..|ts| - 1]) + TaskMarkup(ts[|ts| - 1])
  }

  function ListMarkup(ts: seq<Task>): string
  {
    ListOpen + TasksMarkup(ts) + ListClose
  }

  /** Task.to_string */
  method TaskToString(t: Task) returns (r: string)
    ensures r == TaskMarkup(t)
    decreases t
  {
    r := TaskHead(t);
    for i := 0 to |t.children|
      invariant r == TaskHead(t) + ChildrenMarkup(t.children[..i])
    {
      r := r + ChildOpen;
      var s := TaskToString(t.children[i]);
      r := r + s;
      r := r + ChildClose;
      assert t.children[..i + 1][..i] == t.children[..i];
      assert ChildrenMarkup(t.children[..i + 1]) == ChildrenMarkup(t.children[..i]) + ChildOpen + s + ChildClose;
      Regroup(TaskHead(t), ChildrenMarkup(t.children[..i]), ChildOpen, s, ChildClose);
    }
    assert t.children[..|t.children|] == t.children;
    r := r + TaskTail;
  }

  lemma PrefixStep(s: seq<Task>, i: nat)
    requires i < |s|
    ensures s[..i + 1][..i] == s[..i] && s[..i + 1][i] == s[i]
  {
  }

  lemma Assoc(a: string, b: string, c: string)
    ensures (a + b) + c == a + (b + c)
  {
  }

  lemma Regroup(a: string, b: string, c: string, d: string, e: string)
    ensures a + b + c + d + e == a + (b + c + d + e)
  {
  }

  lemma OccursShift(a: string, b: string, c: string, sub: string, j: int)
    requires OccursAt(b, sub, j)
    ensures OccursAt(a + b + c, sub, |a| + j)
  {
    assert (a + b + c)[|a| + j..|a| + j + |sub|] == b[j..j + |sub|];
  }

  lemma OccursAtEnd(a: string, b: string)
    ensures OccursAt(a + b, b, |a|)
  {
    assert (a + b)[|a|..|a| + |b|] == b;
  }

  lemma OccursInPrefix(a: string, b: string, sub: string, p: int)
    requires OccursAt(a, sub, p)
    ensures OccursAt(a + b, sub, p)
  {
    assert (a + b)[p..p + |sub|] == a[p..p + |sub|];
  }

  lemma ChildrenMarkupLast(cs: seq<Task>)
    requires cs != []
    ensures ChildrenMarkup(cs) == ChildrenMarkup(cs[..|cs| - 1]) + Wrap(cs[|cs| - 1])
  {
  }

  /** Every child appears in the children's markup wrapped in a task list of its own. */
  lemma {:induction false} ChildrenWrapped(cs: seq<Task>, i: nat)
    requires i < |cs|
    ensures exists p :: OccursAt(ChildrenMarkup(cs), Wrap(cs[i]), p)
    decreases |cs|
  {
    var n := |cs| - 1;
    var pre := ChildrenMarkup(cs[..n]);
    ChildrenMarkupLast(cs);
    if i == n {
      OccursAtEnd(pre, Wrap(cs[n]));
    } else {
      assert cs[..n][i] == cs[i];
      ChildrenWrapped(cs[..n], i);
      var p :| OccursAt(pre, Wrap(cs[i]), p);
      OccursInPrefix(pre, Wrap(cs[n]), Wrap(cs[i]), p);
    }
  }

  /** Every child of a task appears in the task's markup wrapped in a task list of its own. */
  lemma TaskWrapsChildren(t: Task, i: nat)
    requires i < |t.children|
    ensures Contains(TaskMarkup(t), ChildOpen + TaskMarkup(t.children[i]) + ChildClose)
  {
    var w := Wrap(t.children[i]);
    ChildrenWrapped(t.children, i);
    var p :| OccursAt(ChildrenMarkup(t.children), w, p);
    OccursShift(TaskHead(t), ChildrenMarkup(t.children), TaskTail, w, p);
  }

  // ---------------------------------------------------------------------------
  // Normalisation
  // ---------------------------------------------------------------------------

  /** No space stands directly before a newline. */
  predicate NoSpaceBeforeNewline(s: string)
  {
    forall i :: 0 < i < |s| && s[i] == '\n' ==> s[i - 1] != ' '
  }

  /** Every character of r is a character of s or the character c. */
  predicate DrawnFrom(r: string, s: string, c: char)
  {
    forall i :: 0 <= i < |r| ==> r[i] in s || r[i] == c
  }

  /** s with every occurrence of c deleted. */
  function Erase(s: string, c: char): string
  {
    if s == [] then [] else (if s[0] == c then [] else [s[0]]) + Erase(s[1..], c)
  }

  lemma {:induction false} EraseAppend(a: string, b: string, c: char)
    ensures Erase(a + b, c) == Erase(a, c) + Erase(b, c)
  {
    if a == [] {
      assert a + b == b;
    } else {
      assert (a + b)[1..] == a[1..] + b;
      EraseAppend(a[1..], b, c);
    }
  }

  lemma {:induction false} EraseAll(s: string, c: char)
    requires forall i :: 0 <= i < |s| ==> s[i] == c
    ensures Erase(s, c) == []
  {
    if s != [] {
      EraseAll(s[1..], c);
    }
  }

  /** The last two characters of s, neither of them c, are the last two left by Erase. */
  lemma EraseLastTwo(s: string, c: char)
    requires |s| >= 2 && s[|s| - 2] != c && s[|s| - 1] != c
    ensures var e := Erase(s, c); |e| >= 2 && e[|e| - 2] == s[|s| - 2] && e[|e| - 1] == s[|s| - 1]
  {
    var x, y := s[|s| - 2], s[|s| - 1];
    assert s == s[..|s| - 2] + [x, y];
    EraseAppend(s[..|s| - 2], [x, y], c);
    assert Erase([y], c) == [y] by { assert [y][1..] == []; }
    assert [x, y][1..] == [y];
  }

  /** Number of times c occurs in s. */
  function Count(s: string, c: char): nat
  {
    if s == [] then 0 else (if s[0] == c then 1 else 0) + Count(s[1..], c)
  }

  /** Number of positions of s where a CR is directly followed by an LF. */
  function CrLfPairs(s: string): nat
  {
    if |s| < 2 then 0 else (if s[0] == '\r' && s[1] == '\n' then 1 else 0) + CrLfPairs(s[1..])
  }

  /** Every CRLF pair becomes LF. */
  function CrLfToLf(s: string): (r: string)
    ensures DrawnFrom(r, s, '\n')
  {
    if |s| >= 2 && s[0] == '\r' && s[1] == '\n' then
      var r := "\n" + CrLfToLf(s[2..]);
      assert forall i :: 0 < i < |r| ==> r[i] == CrLfToLf(s[2..])[i - 1];
      r
    else if s == [] then []
    else
      var r := [s[0]] + CrLfToLf(s[1..]);
      assert forall i :: 0 < i < |r| ==> r[i] == CrLfToLf(s[1..])[i - 1];
      r
  }

  /**
   * CrLfToLf removes only CRs, one for each CRLF pair of the text, and keeps
   * the last character.
   */
  lemma {:induction false} CrLfToLfDropsPairedCr(s: string)
    ensures Erase(CrLfToLf(s), '\r') == Erase(s, '\r')
    ensures |CrLfToLf(s)| == |s| - CrLfPairs(s)
    ensures s != [] ==> CrLfToLf(s) != [] && CrLfToLf(s)[|CrLfToLf(s)| - 1] == s[|s| - 1]
  {
    if |s| >= 2 && s[0] == '\r' && s[1] == '\n' {
      var t := CrLfToLf(s[2..]);
      CrLfToLfDropsPairedCr(s[2..]);
      assert CrLfToLf(s) == "\n" + t;
      assert ("\n" + t)[1..] == t;
      assert s[1..][1..] == s[2..];
      assert CrLfPairs(s[1..]) == CrLfPairs(s[2..]);
    } else if s != [] {
      var t := CrLfToLf(s[1..]);
      CrLfToLfDropsPairedCr(s[1..]);
      assert CrLfToLf(s) == [s[0]] + t;
      assert ([s[0]] + t)[1..] == t;
    }
  }

  /** Every remaining CR becomes LF and every other character stays in place. */
  function CrToLf(s: string): (r: string)
    ensures |r| == |s|
    ensures forall i :: 0 <= i < |s| && s[i] != '\r' ==> r[i] == s[i]
    ensures forall i :: 0 <= i < |s| && s[i] == '\r' ==> r[i] == '\n'
    ensures '\r' !in r
    ensures DrawnFrom(r, s, '\n')
  {
    seq(|s|, i requires 0 <= i < |s| => if s[i] == '\r' then '\n' else s[i])
  }

  /**
   * A newline is inserted where the end of the text (or the position before a
   * final newline) follows a non-whitespace character; either way the text
   * gains one final newline, and a non-empty result ends in whitespace.
   */
  function EndLine(s: string): (r: string)
    ensures r == s || r == s + "\n"
    ensures r == s + "\n" <==>
      || (|s| > 0 && !IsSpace(s[|s| - 1]))
      || (|s| >= 2 && s[|s| - 1] == '\n' && !IsSpace(s[|s| - 2]))
    ensures r != [] ==> IsSpace(r[|r| - 1])
    ensures DrawnFrom(r, s, '\n')
  {
    if |s| > 0 && !IsSpace(s[|s| - 1]) then s + "\n"
    else if |s| >= 2 && s[|s| - 1] == '\n' && !IsSpace(s[|s| - 2]) then s[..|s| - 1] + "\n" + "\n"
    else s
  }

  /** Every tab becomes four spaces. */
  function ExpandTabs(s: string): (r: string)
    ensures '\t' !in r
    ensures DrawnFrom(r, s, ' ')
  {
    if s == [] then []
    else
      var h := if s[0] == '\t' then "    " else [s[0]];
      var r := h + ExpandTabs(s[1..]);
      assert forall i :: |h| <= i < |r| ==> r[i] == ExpandTabs(s[1..])[i - |h|];
      r
  }

  /**
   * ExpandTabs grows the text by three characters per tab and ends it in a
   * space where it ended in a tab.
   */
  lemma {:induction false} ExpandTabsWidens(s: string)
    ensures |ExpandTabs(s)| == |s| + 3 * Count(s, '\t')
    ensures s != [] ==>
      && ExpandTabs(s) != []
      && ExpandTabs(s)[|ExpandTabs(s)| - 1] == (if s[|s| - 1] == '\t' then ' ' else s[|s| - 1])
  {
    if s != [] {
      var h := if s[0] == '\t' then "    " else [s[0]];
      var t := ExpandTabs(s[1..]);
      ExpandTabsWidens(s[1..]);
      assert ExpandTabs(s) == h + t;
    }
  }

  /** With spaces and tabs erased, ExpandTabs leaves the text unchanged. */
  lemma {:induction false} ExpandTabsKeepsText(s: string)
    ensures Erase(ExpandTabs(s), ' ') == Erase(Erase(s, ' '), '\t')
  {
    if s != [] {
      var h := if s[0] == '\t' then "    " else [s[0]];
      var t := ExpandTabs(s[1..]);
      ExpandTabsKeepsText(s[1..]);
      assert ExpandTabs(s) == h + t;
      EraseAppend(h, t, ' ');
      var u := Erase(s[1..], ' ');
      if s[0] == '\t' {
        EraseAll(h, ' ');
        assert Erase(s, ' ') == [s[0]] + u;
        assert ([s[0]] + u)[1..] == u;
      } else if s[0] == ' ' {
        assert Erase(h, ' ') == [] by { assert h[1..] == []; }
        assert Erase(s, ' ') == u;
      } else {
        assert Erase(h, ' ') == h by { assert h[1..] == []; }
        assert Erase(s, ' ') == [s[0]] + u;
        assert ([s[0]] + u)[1..] == u;
        assert Erase([s[0]] + u, '\t') == [s[0]] + Erase(u, '\t');
      }
    }
  }

  /** Length of the run of spaces and newlines that ends the text. */
  function TrailRun(s: string): (k: nat)
    ensures k <= |s|
    ensures forall i :: |s| - k <= i < |s| ==> s[i] == ' ' || s[i] == '\n'
    ensures k < |s| ==> s[|s| - k - 1] != ' ' && s[|s| - k - 1] != '\n'
  {
    if s != [] && (s[|s| - 1] == ' ' || s[|s| - 1] == '\n') then
      var k := 1 + TrailRun(s[..|s| - 1]);
      assert forall i :: 0 <= i < |s| - 1 ==> s[..|s| - 1][i] == s[i];
      k
    else 0
  }

  /**
   * A run of spaces and newlines at the end becomes a single newline: the text
   * before the run stays, and the result ends in at most one space or newline,
   * a newline exactly when the run was there.
   */
  function TrimEnd(s: string): (r: string)
    ensures |s| - TrailRun(s) <= |r| && r[..|s| - TrailRun(s)] == s[..|s| - TrailRun(s)]
    ensures |r| == |s| - TrailRun(s) + (if TrailRun(s) > 0 then 1 else 0)
    ensures TrailRun(r) == (if TrailRun(s) > 0 then 1 else 0)
    ensures TrailRun(s) > 0 ==> r[|r| - 1] == '\n'
    ensures DrawnFrom(r, s, '\n')
  {
    var k := TrailRun(s);
    if k == 0 then s
    else
      var r := s[..|s| - k] + "\n";
      assert r[..|r| - 1] == s[..|s| - k];
      r
  }

  /** Number of spaces the text starts with. */
  function LeadingSpaces(s: string): (k: nat)
    ensures k <= |s|
    ensures forall i :: 0 <= i < k ==> s[i] == ' '
    ensures k < |s| ==> s[k] != ' '
  {
    if s != [] && s[0] == ' ' then 1 + LeadingSpaces(s[1..]) else 0
  }

  /** Past its leading spaces, the text continues with a newline. */
  predicate NewlineAhead(s: string)
  {
    LeadingSpaces(s) < |s| && s[LeadingSpaces(s)] == '\n'
  }

  /** Number of spaces of s that stand in a run of spaces ending at a newline. */
  function Doomed(s: string): nat
  {
    if s == [] then 0 else (if s[0] == ' ' && NewlineAhead(s) then 1 else 0) + Doomed(s[1..])
  }

  /** The first j leading spaces are all doomed, or none is; Erase drops them. */
  lemma {:induction false} DoomedRun(s: string, j: nat)
    requires j <= LeadingSpaces(s)
    ensures Doomed(s) == (if NewlineAhead(s) then j else 0) + Doomed(s[j..])
    ensures Erase(s, ' ') == Erase(s[j..], ' ')
  {
    if j > 0 {
      assert LeadingSpaces(s) == 1 + LeadingSpaces(s[1..]);
      assert NewlineAhead(s) == NewlineAhead(s[1..]);
      DoomedRun(s[1..], j - 1);
      assert s[1..][j - 1..] == s[j..];
    }
  }

  /** Every run of spaces directly before a newline is removed. */
  function DropSpacesBeforeNewline(s: string): (r: string)
    ensures forall i :: 0 <= i < |r| ==> r[i] in s
    ensures s != [] && s[0] != ' ' ==> r != [] && r[0] == s[0]
    ensures NoSpaceBeforeNewline(r)
    decreases |s|
  {
    if s == [] then []
    else
      var k := LeadingSpaces(s);
      if k == 0 then
        var t := DropSpacesBeforeNewline(s[1..]);
        var r := [s[0]] + t;
        assert forall i :: 0 < i < |r| ==> r[i] == t[i - 1];
        r
      else if k < |s| && s[k] == '\n' then
        var t := DropSpacesBeforeNewline(s[k..]);
        assert forall i :: 0 <= i < |t| ==> t[i] in s[k..];
        t
      else
        var t := DropSpacesBeforeNewline(s[k..]);
        var r := s[..k] + t;
        assert forall i :: k <= i < |r| ==> r[i] == t[i - k];
        r
  }

  /**
   * DropSpacesBeforeNewline removes only spaces, exactly the doomed ones, and
   * keeps a last character that is not a space.
   */
  lemma {:induction false} DropRemovesDoomedSpaces(s: string)
    ensures Erase(DropSpacesBeforeNewline(s), ' ') == Erase(s, ' ')
    ensures |DropSpacesBeforeNewline(s)| == |s| - Doomed(s)
    ensures s != [] && s[|s| - 1] != ' ' ==>
      && DropSpacesBeforeNewline(s) != []
      && DropSpacesBeforeNewline(s)[|DropSpacesBeforeNewline(s)| - 1] == s[|s| - 1]
    decreases |s|
  {
    if s != [] {
      var k := LeadingSpaces(s);
      if k == 0 {
        DropKeepsHead(s);
      } else if k < |s| && s[k] == '\n' {
        DropSkipsDoomed(s, k);
      } else {
        DropKeepsRun(s, k);
      }
    }
  }

  lemma {:induction false} DropKeepsHead(s: string)
    requires s != [] && s[0] != ' '
    ensures Erase(DropSpacesBeforeNewline(s), ' ') == Erase(s, ' ')
    ensures |DropSpacesBeforeNewline(s)| == |s| - Doomed(s)
    ensures s[|s| - 1] != ' ' ==>
      && DropSpacesBeforeNewline(s) != []
      && DropSpacesBeforeNewline(s)[|DropSpacesBeforeNewline(s)| - 1] == s[|s| - 1]
    decreases |s|, 0
  {
    var t := DropSpacesBeforeNewline(s[1..]);
    DropRemovesDoomedSpaces(s[1..]);
    assert DropSpacesBeforeNewline(s) == [s[0]] + t;
    assert ([s[0]] + t)[1..] == t;
  }

  lemma {:induction false} DropSkipsDoomed(s: string, k: nat)
    requires 0 < k == LeadingSpaces(s) < |s| && s[k] == '\n'
    ensures Erase(DropSpacesBeforeNewline(s), ' ') == Erase(s, ' ')
    ensures |DropSpacesBeforeNewline(s)| == |s| - Doomed(s)
    ensures s[|s| - 1] != ' ' ==>
      && DropSpacesBeforeNewline(s) != []
      && DropSpacesBeforeNewline(s)[|DropSpacesBeforeNewline(s)| - 1] == s[|s| - 1]
    decreases |s|, 0
  {
    var u := s[k..];
    DropRemovesDoomedSpaces(u);
    DropSkipsRun(s, k);
    DoomedRun(s, k);
    assert s[|s| - 1] == u[|u| - 1];
  }

  lemma DropSkipsRun(s: string, k: nat)
    requires 0 < k == LeadingSpaces(s) < |s| && s[k] == '\n'
    ensures DropSpacesBeforeNewline(s) == DropSpacesBeforeNewline(s[k..])
  {
  }

  lemma {:induction false} DropKeepsRun(s: string, k: nat)
    requires 0 < k == LeadingSpaces(s) && !(k < |s| && s[k] == '\n')
    ensures Erase(DropSpacesBeforeNewline(s), ' ') == Erase(s, ' ')
    ensures |DropSpacesBeforeNewline(s)| == |s| - Doomed(s)
    ensures s[|s| - 1] != ' ' ==>
      && DropSpacesBeforeNewline(s) != []
      && DropSpacesBeforeNewline(s)[|DropSpacesBeforeNewline(s)| - 1] == s[|s| - 1]
    decreases |s|, 0
  {
    var u := s[k..];
    var t := DropSpacesBeforeNewline(u);
    DropRemovesDoomedSpaces(u);
    assert DropSpacesBeforeNewline(s) == s[..k] + t;
    ErasePrefixSpaces(s[..k], t);
    DoomedRun(s, k);
  }

  /** A prefix of spaces disappears under Erase. */
  lemma ErasePrefixSpaces(p: string, t: string)
    requires forall i :: 0 <= i < |p| ==> p[i] == ' '
    ensures Erase(p + t, ' ') == Erase(t, ' ')
  {
    EraseAppend(p, t, ' ');
    EraseAll(p, ' ');
  }

  /** _normalize: the six substitutions, in the order the program applies them. */
  function Normalize(s: string): string
  {
    DropSpacesBeforeNewline(TrimEnd(ExpandTabs(EndLine(CrToLf(CrLfToLf(s))))))
  }

  /** The normalised text has no carriage returns, no tabs and no spaces before a line end. */
  lemma NormalizeClean(s: string)
    ensures '\r' !in Normalize(s)
    ensures '\t' !in Normalize(s)
    ensures NoSpaceBeforeNewline(Normalize(s))
  {
    var a := CrToLf(CrLfToLf(s));
    var b := ExpandTabs(EndLine(a));
    var c := TrimEnd(b);
    assert '\r' !in EndLine(a);
    assert '\r' !in b;
    assert '\r' !in c && '\t' !in c;
  }

  /**
   * A final character the substitutions can end a line after: anything but
   * whitespace, or one of space, tab, LF and CR.
   */
  predicate LineEndable(c: char)
  {
    !IsSpace(c) || c == ' ' || c == '\t' || c == '\n' || c == '\r'
  }

  /** The text ends in exactly one newline, with no space before it. */
  predicate EndsInOneNewline(r: string)
  {
    r != [] && r[|r| - 1] == '\n' && (|r| == 1 || (r[|r| - 2] != '\n' && r[|r| - 2] != ' '))
  }

  /**
   * The trailing newline _normalize provides: a text whose last character is
   * line-endable comes out ending in exactly one newline, with neither a
   * space nor another newline before it.
   */
  lemma NormalizeEndsLine(s: string)
    requires s != [] && LineEndable(s[|s| - 1])
    ensures EndsInOneNewline(Normalize(s))
  {
    var b := PreparedEndsBlank(s);
    var c := TrimEnd(b);
    TrimEndLeavesOneNewline(b);
    DropKeepsOneNewline(c);
  }

  /** Before TrimEnd, such a text ends in a space or a newline. */
  lemma PreparedEndsBlank(s: string) returns (b: string)
    requires s != [] && LineEndable(s[|s| - 1])
    ensures b == ExpandTabs(EndLine(CrToLf(CrLfToLf(s))))
    ensures b != [] && (b[|b| - 1] == ' ' || b[|b| - 1] == '\n')
  {
    var a := ConvertedEndable(s);
    var e := EndLineEndsBlank(a);
    var z := e[|e| - 1];
    ExpandTabsWidens(e);
    b := ExpandTabs(e);
    assert b[|b| - 1] == if z == '\t' then ' ' else z;
  }

  lemma ConvertedEndable(s: string) returns (a: string)
    requires s != [] && LineEndable(s[|s| - 1])
    ensures a == CrToLf(CrLfToLf(s))
    ensures a != [] && LineEndable(a[|a| - 1]) && a[|a| - 1] != '\r'
  {
    CrLfToLfDropsPairedCr(s);
    a := CrToLf(CrLfToLf(s));
    assert a[|a| - 1] == if s[|s| - 1] == '\r' then '\n' else s[|s| - 1];
  }

  lemma EndLineEndsBlank(a: string) returns (e: string)
    requires a != [] && LineEndable(a[|a| - 1]) && a[|a| - 1] != '\r'
    ensures e == EndLine(a)
    ensures e != [] && (e[|e| - 1] == ' ' || e[|e| - 1] == '\t' || e[|e| - 1] == '\n')
  {
    var y := a[|a| - 1];
    e := EndLine(a);
    if IsSpace(y) {
      assert y == ' ' || y == '\t' || y == '\n';
      var z := e[|e| - 1];
      assert z == y || z == '\n';
    } else {
      assert e == a + "\n";
    }
  }

  lemma TrimEndLeavesOneNewline(b: string)
    requires b != [] && (b[|b| - 1] == ' ' || b[|b| - 1] == '\n')
    ensures EndsInOneNewline(TrimEnd(b))
  {
    var c := TrimEnd(b);
    assert TrailRun(b) > 0;
    assert TrailRun(c) == 1;
  }

  lemma DropKeepsOneNewline(c: string)
    requires EndsInOneNewline(c)
    ensures EndsInOneNewline(DropSpacesBeforeNewline(c))
  {
    var r := DropSpacesBeforeNewline(c);
    DropRemovesDoomedSpaces(c);
    if |r| >= 2 {
      assert r[|r| - 2] != ' ';
      EraseLastTwo(r, ' ');
      EraseLastTwo(c, ' ');
    }
  }

  /**
   * A text ending in a form feed gets no trailing newline: `(?<=\S)$` does not
   * match after whitespace, and `[ \n]+$` leaves the form feed in place.
   */
  lemma NormalizeLeavesFormFeed()
    ensures Normalize("a\U{c}") == "a\U{c}"
  {
    var s := "a\U{c}";
    assert IsSpace(s[1]);
    assert CrLfToLf(s) == s by {
      assert CrLfToLf(s[1..]) == s[1..] by { assert s[1..][1..] == []; }
    }
    assert CrToLf(s) == s;
    assert EndLine(s) == s;
    assert ExpandTabs(s) == s by {
      assert ExpandTabs(s[1..]) == s[1..] by { assert s[1..][1..] == []; }
    }
    assert TrailRun(s) == 0;
    assert DropSpacesBeforeNewline(s) == s by {
      assert DropSpacesBeforeNewline(s[1..]) == s[1..] by { assert s[1..][1..] == []; }
    }
  }
}
