/** The workspace registry (src-tauri/src/lib.rs:8-19, 259-338): a list of
    workspaces and the id of the active one, changed by the commands that
    select, create, delete and rename a workspace. Each command is specified
    by a step function on `Config` that gives the new configuration and the
    command's answer; `Registry` holds the configuration in fields and
    updates them in place as the commands do. Whether creating the
    workspace's directory and saving the configuration succeed are
    parameters: a failed save still leaves the configuration in memory
    changed, because every command changes it before saving. */
module Workspaces {
  import opened Util
  import Slug

  datatype Workspace = Workspace(id: string, name: string, shortcut: Option<string>)

  datatype Config = Config(workspaces: seq<Workspace>, activeId: string)

  /** What a command leaves in memory, and what it returns. */
  datatype Outcome<T> = Outcome(config: Config, result: Result<T>)

  function Ids(ws: seq<Workspace>): (ids: seq<string>)
    ensures |ids| == |ws| && forall k :: 0 <= k < |ws| ==> ids[k] == ws[k].id
  {
    seq(|ws|, k requires 0 <= k < |ws| => ws[k].id)
  }

  function Shortcuts(ws: seq<Workspace>): (s: seq<Option<string>>)
    ensures |s| == |ws| && forall k :: 0 <= k < |ws| ==> s[k] == ws[k].shortcut
  {
    seq(|ws|, k requires 0 <= k < |ws| => ws[k].shortcut)
  }

  predicate Distinct<T(==)>(s: seq<T>) {
    forall i, j :: 0 <= i < j < |s| ==> s[i] != s[j]
  }

  /** No two workspaces hold the same shortcut. */
  predicate ShortcutsDistinct(ws: seq<Workspace>) {
    forall i, j :: 0 <= i < j < |ws| && ws[i].shortcut.Some? ==> ws[i].shortcut != ws[j].shortcut
  }

  /** The invariant the commands keep: at least one workspace, no two with
      the same id or the same shortcut, and the active id names one of
      them. */
  predicate Valid(c: Config) {
    && |c.workspaces| > 0
    && Distinct(Ids(c.workspaces))
    && ShortcutsDistinct(c.workspaces)
    && c.activeId in Ids(c.workspaces)
  }

  /** The configuration written when there is none yet, with the single
      workspace "Personal" (lines 89-96 and 106-112). */
  function DefaultConfig(): Config {
    Config([Workspace("Personal", "Personal", Some("1"))], "Personal")
  }

  lemma DefaultConfigValid()
    ensures Valid(DefaultConfig())
  {
    assert Ids(DefaultConfig().workspaces) == ["Personal"];
  }

  // ---------------------------------------------------------------------
  // Shortcuts (lines 284-286)

  /** `(1..=9).map(|n| n.to_string())` */
  const ShortcutNames: seq<string> := ["1", "2", "3", "4", "5", "6", "7", "8", "9"]

  /** The first candidate no workspace holds: every earlier candidate is
      held, and there is none only when every candidate is held. */
  function FreeShortcut(ws: seq<Workspace>, cands: seq<string>): (r: Option<string>)
    ensures r.None? <==> forall k :: 0 <= k < |cands| ==> Some(cands[k]) in Shortcuts(ws)
    ensures r.Some? ==> Some(r.value) !in Shortcuts(ws)
    ensures r.Some? ==> exists k :: 0 <= k < |cands| && cands[k] == r.value && (forall j :: 0 <= j < k ==> Some(cands[j]) in Shortcuts(ws))
    decreases |cands|
  {
    if cands == [] then None
    else if Some(cands[0]) !in Shortcuts(ws) then Some(cands[0])
    else
      var r := FreeShortcut(ws, cands[1..]);
      assert forall k :: 0 < k < |cands| ==> cands[k] == cands[1..][k - 1];
      r
  }

  /** The shortcut a new workspace is given: the smallest of "1".."9" that
      no workspace holds, none when all nine are taken. */
  function NextShortcut(ws: seq<Workspace>): Option<string> {
    FreeShortcut(ws, ShortcutNames)
  }

  /** The shortcut given to a new workspace is held by no existing one. */
  lemma NextShortcutFree(ws: seq<Workspace>)
    ensures NextShortcut(ws).Some? ==> forall i :: 0 <= i < |ws| ==> ws[i].shortcut != NextShortcut(ws)
    ensures NextShortcut(ws).None? ==> forall k :: 0 <= k < 9 ==> Some(ShortcutNames[k]) in Shortcuts(ws)
  {
    var r := NextShortcut(ws);
    if r.Some? {
      forall i | 0 <= i < |ws| ensures ws[i].shortcut != r {
        assert Shortcuts(ws)[i] == ws[i].shortcut;
      }
    }
  }

  // ---------------------------------------------------------------------
  // The commands as steps on the configuration

  /** `set_active_workspace` (lines 259-266): an unknown id is refused and
      changes nothing; a known one becomes active. */
  function SetActiveStep(c: Config, id: string, saveOk: bool): (o: Outcome<()>)
    ensures id !in Ids(c.workspaces) ==> o == Outcome(c, Err(WorkspaceNotFound))
    ensures id in Ids(c.workspaces) ==>
      && o.config.workspaces == c.workspaces && o.config.activeId == id
      && (o.result.Ok? <==> saveOk)
  {
    if id !in Ids(c.workspaces) then Outcome(c, Err(WorkspaceNotFound))
    else Outcome(c.(activeId := id), if saveOk then Ok(()) else Err(Io))
  }

  /** `create_workspace` (lines 269-297): the id is the slug of the name; an
      empty slug, an id already taken, or a directory that cannot be created
      is refused and changes nothing. Otherwise exactly one workspace is
      appended, with that id, the given name and the next free shortcut. */
  function CreateStep(c: Config, name: string, t: Slug.CharTables, dirOk: bool, saveOk: bool): (o: Outcome<Workspace>)
    ensures Slug.Slug(name, t) == [] ==> o == Outcome(c, Err(InvalidWorkspaceName))
    ensures Slug.Slug(name, t) != [] && Slug.Slug(name, t) in Ids(c.workspaces) ==> o == Outcome(c, Err(WorkspaceExists))
    ensures o.config == c || o.config.activeId == c.activeId
    ensures o.result.Ok? ==> saveOk
    ensures o.config != c ==>
      var w := Workspace(Slug.Slug(name, t), name, NextShortcut(c.workspaces));
      && w.id != [] && w.id !in Ids(c.workspaces) && dirOk
      && o.config.workspaces == c.workspaces + [w]
      && (o.result.Ok? ==> o.result.value == w)
    ensures o.config == c ==> o.result.Err?
    ensures Slug.Slug(name, t) != [] && Slug.Slug(name, t) !in Ids(c.workspaces) ==>
      && (o.config != c <==> dirOk)
      && (!dirOk ==> o.result == Err(Io))
      && (dirOk ==> (o.result.Ok? <==> saveOk))
  {
    var id := Slug.Slug(name, t);
    if id == [] then Outcome(c, Err(InvalidWorkspaceName))
    else if id in Ids(c.workspaces) then Outcome(c, Err(WorkspaceExists))
    else if !dirOk then Outcome(c, Err(Io))
    else
      var w := Workspace(id, name, NextShortcut(c.workspaces));
      assert c.workspaces + [w] != c.workspaces;
      Outcome(c.(workspaces := c.workspaces + [w]), if saveOk then Ok(w) else Err(Io))
  }

  /** `delete_workspace` (lines 300-320): refused when at most one workspace
      is left, or when the id is unknown; otherwise the first workspace with
      that id is removed, and if it was the active one the first remaining
      workspace becomes active. */
  function DeleteStep(c: Config, id: string, saveOk: bool): (o: Outcome<()>)
    ensures |c.workspaces| <= 1 ==> o == Outcome(c, Err(LastWorkspace))
    ensures |c.workspaces| > 1 && id !in Ids(c.workspaces) ==> o == Outcome(c, Err(WorkspaceNotFound))
    ensures |c.workspaces| > 1 && id in Ids(c.workspaces) ==>
      && (exists k :: 0 <= k < |c.workspaces| && c.workspaces[k].id == id && id !in Ids(c.workspaces[..k])
           && o.config.workspaces == c.workspaces[..k] + c.workspaces[k + 1..])
      && |o.config.workspaces| == |c.workspaces| - 1
      && o.config.activeId == (if c.activeId == id then o.config.workspaces[0].id else c.activeId)
      && (o.result.Ok? <==> saveOk)
  {
    if |c.workspaces| <= 1 then Outcome(c, Err(LastWorkspace))
    else
      match IndexOf(Ids(c.workspaces), id)
      case None => Outcome(c, Err(WorkspaceNotFound))
      case Some(k) =>
        assert Ids(c.workspaces[..k]) == Ids(c.workspaces)[..k];
        var ws := c.workspaces[..k] + c.workspaces[k + 1..];
        var active := if c.activeId == id then ws[0].id else c.activeId;
        Outcome(Config(ws, active), if saveOk then Ok(()) else Err(Io))
  }

  /** `rename_workspace` (lines 323-338): refused when the id is unknown;
      otherwise the first workspace with that id gets the new name and keeps
      its id and shortcut, and is returned. */
  function RenameStep(c: Config, id: string, newName: string, saveOk: bool): (o: Outcome<Workspace>)
    ensures id !in Ids(c.workspaces) ==> o == Outcome(c, Err(WorkspaceNotFound))
    ensures id in Ids(c.workspaces) ==>
      exists k :: 0 <= k < |c.workspaces| && c.workspaces[k].id == id && id !in Ids(c.workspaces[..k])
        && var w := Workspace(id, newName, c.workspaces[k].shortcut);
        && o.config == c.(workspaces := c.workspaces[k := w])
        && (if saveOk then o.result == Ok(w) else o.result == Err(Io))
  {
    match IndexOf(Ids(c.workspaces), id)
    case None => Outcome(c, Err(WorkspaceNotFound))
    case Some(k) =>
      assert Ids(c.workspaces[..k]) == Ids(c.workspaces)[..k];
      var w := c.workspaces[k].(name := newName);
      Outcome(c.(workspaces := c.workspaces[k := w]), if saveOk then Ok(w) else Err(Io))
  }

  // ---------------------------------------------------------------------
  // The invariant is kept by every command, whatever the outcome

  lemma SetActiveKeepsValid(c: Config, id: string, saveOk: bool)
    requires Valid(c)
    ensures Valid(SetActiveStep(c, id, saveOk).config)
  {
  }

  lemma {:induction false} CreateKeepsValid(c: Config, name: string, t: Slug.CharTables, dirOk: bool, saveOk: bool)
    requires Valid(c)
    ensures Valid(CreateStep(c, name, t, dirOk, saveOk).config)
  {
    var o := CreateStep(c, name, t, dirOk, saveOk);
    if o.config != c {
      var w := Workspace(Slug.Slug(name, t), name, NextShortcut(c.workspaces));
      var ws := c.workspaces + [w];
      assert o.config.workspaces == ws;
      NextShortcutFree(c.workspaces);
      forall i, j | 0 <= i < j < |ws| ensures ws[i].id != ws[j].id {
        if j == |ws| - 1 {
          assert Ids(c.workspaces)[i] == ws[i].id;
        }
      }
      forall i, j | 0 <= i < j < |ws| && ws[i].shortcut.Some? ensures ws[i].shortcut != ws[j].shortcut {
        if j == |ws| - 1 {
          assert ws[i].shortcut == c.workspaces[i].shortcut;
        }
      }
      var a :| 0 <= a < |c.workspaces| && c.workspaces[a].id == c.activeId;
      assert Ids(ws)[a] == c.activeId;
    }
  }

  lemma DeleteKeepsValid(c: Config, id: string, saveOk: bool)
    requires Valid(c)
    ensures Valid(DeleteStep(c, id, saveOk).config)
  {
    if |c.workspaces| > 1 && id in Ids(c.workspaces) {
      var k := DeletedAt(c, id, saveOk);
      var r := c.workspaces[..k] + c.workspaces[k + 1..];
      RemoveKeepsDistinct(c.workspaces, k);
      if c.activeId == id {
        assert Ids(r)[0] == r[0].id;
      } else {
        OtherIdSurvives(c.workspaces, k, c.activeId);
      }
    }
  }

  /** A delete that goes ahead removes the workspace at the index of the
      first match of the id. */
  lemma DeletedAt(c: Config, id: string, saveOk: bool) returns (k: nat)
    requires |c.workspaces| > 1 && id in Ids(c.workspaces)
    ensures k < |c.workspaces| && c.workspaces[k].id == id
    ensures var r := c.workspaces[..k] + c.workspaces[k + 1..];
      DeleteStep(c, id, saveOk).config == Config(r, if c.activeId == id then r[0].id else c.activeId)
  {
    k := IndexOf(Ids(c.workspaces), id).value;
  }

  /** An id other than the removed workspace's is still held after the
      removal. */
  lemma OtherIdSurvives(ws: seq<Workspace>, k: nat, x: string)
    requires k < |ws| && x in Ids(ws) && x != ws[k].id
    ensures x in Ids(ws[..k] + ws[k + 1..])
  {
    var r := ws[..k] + ws[k + 1..];
    var a :| 0 <= a < |ws| && ws[a].id == x;
    var a' := if a < k then a else a - 1;
    assert r[a'] == ws[a];
    assert Ids(r)[a'] == x;
  }

  /** Removing one workspace keeps ids and shortcuts distinct. */
  lemma RemoveKeepsDistinct(ws: seq<Workspace>, k: nat)
    requires k < |ws|
    requires Distinct(Ids(ws)) && ShortcutsDistinct(ws)
    ensures var r := ws[..k] + ws[k + 1..];
      Distinct(Ids(r)) && ShortcutsDistinct(r)
  {
    var r := ws[..k] + ws[k + 1..];
    forall i | 0 <= i < |r| ensures r[i] == ws[if i < k then i else i + 1] {
    }
    forall i, j | 0 <= i < j < |r| ensures Ids(r)[i] != Ids(r)[j] {
      var i', j' := if i < k then i else i + 1, if j < k then j else j + 1;
      assert Ids(ws)[i'] != Ids(ws)[j'];
    }
  }

  lemma RenameKeepsValid(c: Config, id: string, newName: string, saveOk: bool)
    requires Valid(c)
    ensures Valid(RenameStep(c, id, newName, saveOk).config)
  {
    var o := RenameStep(c, id, newName, saveOk);
    assert Ids(o.config.workspaces) == Ids(c.workspaces);
    assert Shortcuts(o.config.workspaces) == Shortcuts(c.workspaces);
  }

  /** After a successful delete of a workspace in a valid configuration, no
      workspace with that id is left, and every other workspace still
      is. */
  lemma DeleteRemovesExactly(c: Config, id: string, saveOk: bool)
    requires Valid(c)
    ensures var ws := DeleteStep(c, id, saveOk).config.workspaces;
      |c.workspaces| > 1 && id in Ids(c.workspaces) ==>
        && id !in Ids(ws)
        && forall w :: w in c.workspaces && w.id != id ==> w in ws
  {
    if |c.workspaces| > 1 && id in Ids(c.workspaces) {
      var k := DeletedAt(c, id, saveOk);
      RemovedIdGone(c.workspaces, k);
      forall w | w in c.workspaces && w.id != id ensures w in c.workspaces[..k] + c.workspaces[k + 1..] {
        OtherWorkspaceSurvives(c.workspaces, k, w);
      }
    }
  }

  /** With distinct ids, the removed workspace's id is held by no workspace
      left. */
  lemma RemovedIdGone(ws: seq<Workspace>, k: nat)
    requires k < |ws| && Distinct(Ids(ws))
    ensures ws[k].id !in Ids(ws[..k] + ws[k + 1..])
  {
    var r := ws[..k] + ws[k + 1..];
    forall i | 0 <= i < |r| ensures Ids(r)[i] != ws[k].id {
      var i' := if i < k then i else i + 1;
      assert r[i] == ws[i'];
      assert Ids(ws)[i'] != Ids(ws)[k];
    }
  }

  /** A workspace other than the removed one is still there. */
  lemma OtherWorkspaceSurvives(ws: seq<Workspace>, k: nat, w: Workspace)
    requires k < |ws| && w in ws && w != ws[k]
    ensures w in ws[..k] + ws[k + 1..]
  {
    var r := ws[..k] + ws[k + 1..];
    var i :| 0 <= i < |ws| && ws[i] == w;
    if i < k {
      assert r[i] == w;
    } else {
      assert r[i - 1] == w;
    }
  }

  // ---------------------------------------------------------------------
  // The registry object

  /** The configuration held in memory (`AppState::config`), updated in
      place by the commands. */
  class Registry {
    var workspaces: seq<Workspace>
    var activeId: string

    function State(): Config
      reads this
    {
      Config(workspaces, activeId)
    }

    constructor (c: Config)
      ensures State() == c
    {
      workspaces := c.workspaces;
      activeId := c.activeId;
    }

    method SetActive(id: string, saveOk: bool) returns (r: Result<()>)
      modifies this
      ensures State() == SetActiveStep(old(State()), id, saveOk).config
      ensures r == SetActiveStep(old(State()), id, saveOk).result
      ensures Valid(old(State())) ==> Valid(State())
    {
      if id !in Ids(workspaces) {
        return Err(WorkspaceNotFound);
      }
      activeId := id;
      r := if saveOk then Ok(()) else Err(Io);
    }

    method Create(name: string, t: Slug.CharTables, dirOk: bool, saveOk: bool) returns (r: Result<Workspace>)
      modifies this
      ensures State() == CreateStep(old(State()), name, t, dirOk, saveOk).config
      ensures r == CreateStep(old(State()), name, t, dirOk, saveOk).result
      ensures Valid(old(State())) ==> Valid(State())
    {
      ghost var before := State();
      if Valid(before) {
        CreateKeepsValid(before, name, t, dirOk, saveOk);
      }
      var id := Slug.Slugify(name, t);
      if id == [] {
        return Err(InvalidWorkspaceName);
      }
      if id in Ids(workspaces) {
        return Err(WorkspaceExists);
      }
      if !dirOk {
        return Err(Io);
      }
      var w := Workspace(id, name, NextShortcut(workspaces));
      workspaces := workspaces + [w];
      r := if saveOk then Ok(w) else Err(Io);
    }

    method Delete(id: string, saveOk: bool) returns (r: Result<()>)
      modifies this
      ensures State() == DeleteStep(old(State()), id, saveOk).config
      ensures r == DeleteStep(old(State()), id, saveOk).result
      ensures Valid(old(State())) ==> Valid(State())
    {
      ghost var before := State();
      if Valid(before) {
        DeleteKeepsValid(before, id, saveOk);
      }
      if |workspaces| <= 1 {
        return Err(LastWorkspace);
      }
      var found := IndexOf(Ids(workspaces), id);
      if found.None? {
        return Err(WorkspaceNotFound);
      }
      var k := found.value;
      workspaces := workspaces[..k] + workspaces[k + 1..];
      if activeId == id {
        activeId := workspaces[0].id;
      }
      r := if saveOk then Ok(()) else Err(Io);
    }

    method Rename(id: string, newName: string, saveOk: bool) returns (r: Result<Workspace>)
      modifies this
      ensures State() == RenameStep(old(State()), id, newName, saveOk).config
      ensures r == RenameStep(old(State()), id, newName, saveOk).result
      ensures Valid(old(State())) ==> Valid(State())
    {
      ghost var before := State();
      if Valid(before) {
        RenameKeepsValid(before, id, newName, saveOk);
      }
      var found := IndexOf(Ids(workspaces), id);
      if found.None? {
        return Err(WorkspaceNotFound);
      }
      var k := found.value;
      var w := workspaces[k].(name := newName);
      workspaces := workspaces[k := w];
      r := if saveOk then Ok(w) else Err(Io);
    }
  }
}
