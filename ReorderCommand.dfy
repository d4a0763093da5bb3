/** The `reorder_note` command (src-tauri/src/lib.rs:479-529) over a
    directory listing: it orders the numbered notes, moves one, and
    renumbers them all, with the renames it performs as its output. What
    the steps compute is specified in `Reorder`. */
module ReorderCommand {
  import opened Util
  import opened Reorder

  /** `reorder_note` over the listing of the `.md` files in `dir`: fails
      with "Note not found" when `path` is not a numbered note; returns
      `path` and renames nothing when the note already sits at `newIndex`
      or there is at most one note; otherwise moves the note and returns
      the renames of the renumbering and the note's new path. */
  method ReorderNote(dir: string, listing: seq<Entry>, path: string, newIndex: nat)
    returns (r: Result<string>, renames: seq<Rename>)
    ensures var sorted := Ordered(listing);
      r.Err? <==> path !in Paths(sorted)
    ensures r.Err? ==> r.error == NoteNotFound && renames == []
    ensures var sorted := Ordered(listing);
      r.Ok? ==>
        var idx := IndexOf(Paths(sorted), path).value;
        if idx == newIndex || |sorted| <= 1 then r.value == path && renames == []
        else
          var moved := Moved(sorted, idx, newIndex);
          var ts := Targets(dir, moved);
          renames == Plan(moved, ts, |moved|) && r.value == ResultAfter(moved, ts, path, |moved|)
  {
    var entries := Ordered(listing);
    var found := IndexOf(Paths(entries), path);
    if found.None? {
      return Err(NoteNotFound), [];
    }
    var sourceIdx := found.value;
    if sourceIdx == newIndex || |entries| <= 1 {
      return Ok(path), [];
    }
    ghost var sorted := entries;
    var item := entries[sourceIdx];
    entries := entries[..sourceIdx] + entries[sourceIdx + 1..];
    assert entries == Without(sorted, sourceIdx);
    var insertIdx := if newIndex < |entries| then newIndex else |entries|;
    assert insertIdx == Min(newIndex, |entries|);
    entries := entries[..insertIdx] + [item] + entries[insertIdx..];
    assert entries == Moved(sorted, sourceIdx, newIndex);
    var newPath;
    newPath, renames := Renumber(dir, entries, path);
    r := Ok(newPath);
  }

  /** The loop at lines 515-526: each entry that changes path is renamed,
      and the result follows the source note. */
  method Renumber(dir: string, entries: seq<Entry>, path: string) returns (result: string, renames: seq<Rename>)
    ensures var ts := Targets(dir, entries);
      renames == Plan(entries, ts, |entries|) && result == ResultAfter(entries, ts, path, |entries|)
  {
    result := path;
    renames := [];
    var i := 0;
    while i < |entries|
      invariant 0 <= i <= |entries|
      invariant renames == Plan(entries, Targets(dir, entries), i)
      invariant result == ResultAfter(entries, Targets(dir, entries), path, i)
    {
      renames, result := RenumberEntry(dir, entries, i, path, renames, result);
      i := i + 1;
    }
  }

  /** One pass of that loop (lines 516-525): entry `i` gets number
      `|entries| - i`; when its path changes the rename is recorded, and
      when it is the moved note its new path becomes the result. */
  method RenumberEntry(dir: string, entries: seq<Entry>, i: nat, path: string, renames: seq<Rename>, result: string)
    returns (renames': seq<Rename>, result': string)
    requires i < |entries|
    requires renames == Plan(entries, Targets(dir, entries), i)
    requires result == ResultAfter(entries, Targets(dir, entries), path, i)
    ensures renames' == Plan(entries, Targets(dir, entries), i + 1)
    ensures result' == ResultAfter(entries, Targets(dir, entries), path, i + 1)
  {
    var e := entries[i];
    var newP := NewPath(dir, |entries| - i, e.name);
    RenumberStep(dir, entries, Targets(dir, entries), i, path, newP);
    renames', result' := renames, result;
    if e.path != newP {
      renames' := renames + [Rename(e.path, newP)];
      if e.path == path {
        result' := newP;
      }
    }
  }
}
