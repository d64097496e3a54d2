/**
 * The per-project registries of the plugin: `AutoLanguageStatus`, which keeps
 * what the caret listener last reported for each project, and
 * `AutoLanguageWidgetHolder`, which keeps each project's status-bar widget.
 */
module Status {
  import opened Wrappers
  import opened CharClass
  import opened Keyboard

  /** An open project, compared by identity as the Kotlin maps do. */
  type ProjectId = nat

  /** A status-bar widget, compared by identity. */
  type WidgetId = nat

  /** One project's status: the detected character, the language and a message. */
  datatype StatusInfo = StatusInfo(currentChar: Char16, language: string, status: string)

  /** What a project reports before the listener has updated it. */
  const DefaultStatus := StatusInfo(Space, "Ready", "Waiting for input...")

  /** The status `statuses` gives `project`, or the default for a project not in it. */
  function Lookup(statuses: map<ProjectId, StatusInfo>, project: ProjectId): StatusInfo {
    if project in statuses then statuses[project] else DefaultStatus
  }

  /**
   * `AutoLanguageStatus`. A project's entry is created with the default on
   * first access, by a read as well as by an update; the mutable `StatusInfo`
   * of an entry never escapes, so it is kept here as a value that an update
   * replaces.
   */
  class StatusStore {
    var statuses: map<ProjectId, StatusInfo>

    constructor()
      ensures statuses == map[]
    {
      statuses := map[];
    }

    /** What `getStatus` reports for `project` in the current state. */
    function View(project: ProjectId): StatusInfo
      reads this
    {
      Lookup(statuses, project)
    }

    /** `updateStatus`: the project now reports exactly the new triple; every other project is unchanged. */
    method UpdateStatus(project: ProjectId, c: Char16, lang: string, message: string)
      modifies this
      ensures statuses == old(statuses)[project := StatusInfo(c, lang, message)]
      ensures View(project) == StatusInfo(c, lang, message)
      ensures forall q :: q != project ==> View(q) == old(View(q))
    {
      statuses := statuses[project := StatusInfo(c, lang, message)];
    }

    /**
     * `getStatus`: the project's current triple, the default for a project
     * never updated. It inserts the default entry (`getOrPut`) but changes no
     * project's view.
     */
    method GetStatus(project: ProjectId) returns (c: Char16, lang: string, message: string)
      modifies this
      ensures StatusInfo(c, lang, message) == old(View(project))
      ensures old(project !in statuses) ==> StatusInfo(c, lang, message) == DefaultStatus
      ensures statuses == old(statuses)[project := old(View(project))]
      ensures forall q :: View(q) == old(View(q))
    {
      if project !in statuses {
        statuses := statuses[project := DefaultStatus];
      }
      var info := statuses[project];
      c, lang, message := info.currentChar, info.language, info.status;
    }

    /** `getCurrentLayoutName`: "Arabic" exactly when the live layout is Arabic, "English" for every other layout. */
    method GetCurrentLayoutName(user32: User32) returns (name: string)
      ensures name == "Arabic" <==> IsArabicLayout(user32.current)
      ensures name == "English" <==> !IsArabicLayout(user32.current)
    {
      var currentLayout := user32.GetKeyboardLayout(0);
      name := if IsArabicLayout(currentLayout) then "Arabic" else "English";
    }
  }

  const Quote: Char16 := 0x27

  /** How the widget shows the detected character: a blank as itself, anything else in single quotes. */
  function CharDisplay(c: Char16): seq<Char16> {
    if c == Space then [Space] else [Quote, c, Quote]
  }

  /** The display tells characters apart: two characters shown alike are the same character. */
  lemma CharDisplayInjective(a: Char16, b: Char16)
    requires CharDisplay(a) == CharDisplay(b)
    ensures a == b
  {
    if a != Space && b != Space {
      assert CharDisplay(a)[1] == a && CharDisplay(b)[1] == b;
    }
  }

  /*
   * `AutoLanguageWidgetHolder` keeps a `LinkedHashMap`, whose entries keep
   * their insertion order; `removeWidget` finds the first entry holding the
   * widget in that order. The map is modelled as its entry list.
   */

  type Entries = seq<(ProjectId, WidgetId)>

  /** No project appears twice among the entries. */
  ghost predicate DistinctKeys(entries: Entries) {
    forall i, j :: 0 <= i < j < |entries| ==> entries[i].0 != entries[j].0
  }

  /** `widgets[project]`. */
  function Get(entries: Entries, project: ProjectId): Option<WidgetId> {
    if entries == [] then None
    else if entries[0].0 == project then Some(entries[0].1)
    else Get(entries[1..], project)
  }

  /** `widgets[project] = widget`: an existing entry keeps its place, a new one goes last. */
  function Put(entries: Entries, project: ProjectId, widget: WidgetId): Entries {
    if entries == [] then [(project, widget)]
    else if entries[0].0 == project then [(project, widget)] + entries[1..]
    else [entries[0]] + Put(entries[1..], project, widget)
  }

  /** `widgets.remove(project)`. */
  function Remove(entries: Entries, project: ProjectId): Entries {
    if entries == [] then []
    else if entries[0].0 == project then Remove(entries[1..], project)
    else [entries[0]] + Remove(entries[1..], project)
  }

  /** `widgets.entries.find { it.value == widget }?.key`: the project of the first entry holding the widget. */
  function FindProject(entries: Entries, widget: WidgetId): Option<ProjectId> {
    if entries == [] then None
    else if entries[0].1 == widget then Some(entries[0].0)
    else FindProject(entries[1..], widget)
  }

  /** A project has an entry exactly when some entry carries its key. */
  lemma {:induction false} GetSome(entries: Entries, project: ProjectId)
    ensures Get(entries, project).Some? <==> exists i :: 0 <= i < |entries| && entries[i].0 == project
  {
    if entries != [] {
      GetSome(entries[1..], project);
      if Get(entries[1..], project).Some? {
        var i :| 0 <= i < |entries[1..]| && entries[1..][i].0 == project;
        assert entries[i + 1].0 == project;
      }
      if exists i :: 0 <= i < |entries| && entries[i].0 == project {
        var i :| 0 <= i < |entries| && entries[i].0 == project;
        if i > 0 {
          assert entries[1..][i - 1].0 == project;
        }
      }
    }
  }

  /** After `widgets[p] = w`, `p` maps to `w` and every other project is unchanged. */
  lemma {:induction false} GetPut(entries: Entries, p: ProjectId, w: WidgetId, q: ProjectId)
    ensures Get(Put(entries, p, w), q) == if q == p then Some(w) else Get(entries, q)
  {
    if entries != [] && entries[0].0 != p {
      GetPut(entries[1..], p, w, q);
    }
  }

  /** `widgets[p] = w` keeps the keys distinct and makes the key set grow by `p` at most. */
  lemma {:induction false} PutKeys(entries: Entries, p: ProjectId, w: WidgetId)
    requires DistinctKeys(entries)
    ensures DistinctKeys(Put(entries, p, w))
    ensures |Put(entries, p, w)| == if Get(entries, p).Some? then |entries| else |entries| + 1
  {
    if entries != [] && entries[0].0 != p {
      PutKeys(entries[1..], p, w);
      var rest := Put(entries[1..], p, w);
      forall i | 0 <= i < |rest|
        ensures rest[i].0 != entries[0].0
      {
        GetSome(rest, rest[i].0);
        GetPut(entries[1..], p, w, rest[i].0);
        GetSome(entries[1..], rest[i].0);
      }
    }
  }

  /** After `widgets.remove(p)`, `p` has no widget and every other project is unchanged. */
  lemma {:induction false} GetRemove(entries: Entries, p: ProjectId, q: ProjectId)
    ensures Get(Remove(entries, p), q) == if q == p then None else Get(entries, q)
  {
    if entries != [] {
      GetRemove(entries[1..], p, q);
    }
  }

  /** The project `find` returns holds the widget: with distinct keys, looking it up gives that widget back. */
  lemma {:induction false} FindProjectHolds(entries: Entries, widget: WidgetId)
    requires DistinctKeys(entries)
    ensures FindProject(entries, widget).Some? ==> Get(entries, FindProject(entries, widget).value) == Some(widget)
    ensures FindProject(entries, widget).None? <==> forall i :: 0 <= i < |entries| ==> entries[i].1 != widget
  {
    if entries != [] {
      FindProjectHolds(entries[1..], widget);
      if entries[0].1 != widget && FindProject(entries[1..], widget).Some? {
        var p := FindProject(entries[1..], widget).value;
        GetSome(entries[1..], p);
        var j :| 0 <= j < |entries[1..]| && entries[1..][j].0 == p;
        assert entries[j + 1].0 == p;
      }
      if forall i :: 0 <= i < |entries[1..]| ==> entries[1..][i].1 != widget {
        assert forall i :: 1 <= i < |entries| ==> entries[i].1 == entries[1..][i - 1].1;
      } else {
        var i :| 0 <= i < |entries[1..]| && entries[1..][i].1 == widget;
        assert entries[i + 1].1 == widget;
      }
    }
  }

  /** `AutoLanguageWidgetHolder`: each project's status-bar widget. */
  class WidgetHolder {
    var widgets: Entries

    ghost predicate Valid()
      reads this
    {
      DistinctKeys(widgets)
    }

    constructor()
      ensures Valid() && widgets == []
    {
      widgets := [];
    }

    /** `setWidget`: the project now maps to the widget; other projects keep theirs. */
    method SetWidget(project: ProjectId, widget: WidgetId)
      requires Valid()
      modifies this
      ensures Valid()
      ensures widgets == Put(old(widgets), project, widget)
      ensures Get(widgets, project) == Some(widget)
      ensures forall q :: q != project ==> Get(widgets, q) == Get(old(widgets), q)
    {
      PutKeys(widgets, project, widget);
      forall q {
        GetPut(widgets, project, widget, q);
      }
      widgets := Put(widgets, project, widget);
    }

    /**
     * `removeWidget`: the first project (in insertion order) holding the
     * widget loses its entry; nothing changes when no project holds it.
     */
    method RemoveWidget(widget: WidgetId)
      requires Valid()
      modifies this
      ensures Valid()
      ensures FindProject(old(widgets), widget).None? ==> widgets == old(widgets)
      ensures FindProject(old(widgets), widget).Some? ==>
                var p := FindProject(old(widgets), widget).value;
                widgets == Remove(old(widgets), p)
                && Get(old(widgets), p) == Some(widget) && Get(widgets, p) == None
                && forall q :: q != p ==> Get(widgets, q) == Get(old(widgets), q)
    {
      FindProjectHolds(widgets, widget);
      var project := FindProject(widgets, widget);
      if project.Some? {
        forall q {
          GetRemove(widgets, project.value, q);
        }
        RemoveKeeps(widgets, project.value);
        widgets := Remove(widgets, project.value);
      }
    }

    /** `updateWidget`: the widget whose display is refreshed, if the project has one. */
    method UpdateWidget(project: ProjectId) returns (refreshed: Option<WidgetId>)
      requires Valid()
      ensures refreshed == Get(widgets, project)
      ensures refreshed.Some? ==> (project, refreshed.value) in widgets
      ensures refreshed.None? <==> forall i :: 0 <= i < |widgets| ==> widgets[i].0 != project
    {
      refreshed := Get(widgets, project);
      GetSome(widgets, project);
      GetFinds(widgets, project);
    }
  }

  /** An entry found by `Get` is an entry of the list. */
  lemma {:induction false} GetFinds(entries: Entries, project: ProjectId)
    ensures Get(entries, project).Some? ==> (project, Get(entries, project).value) in entries
  {
    if entries != [] && entries[0].0 != project {
      GetFinds(entries[1..], project);
    }
  }

  /** Removing a key keeps the remaining keys distinct. */
  lemma {:induction false} RemoveKeeps(entries: Entries, p: ProjectId)
    requires DistinctKeys(entries)
    ensures DistinctKeys(Remove(entries, p))
    ensures forall e :: e in Remove(entries, p) ==> e in entries
  {
    if entries != [] {
      RemoveKeeps(entries[1..], p);
      var rest := Remove(entries[1..], p);
      if entries[0].0 != p {
        forall i | 0 <= i < |rest|
          ensures rest[i].0 != entries[0].0
        {
          assert rest[i] in entries[1..];
          var k :| 0 <= k < |entries[1..]| && entries[1..][k] == rest[i];
          assert entries[k + 1] == rest[i];
        }
      }
    }
  }
}
