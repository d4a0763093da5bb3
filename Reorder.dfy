/** `reorder_note` (src-tauri/src/lib.rs:479-529): the numbered notes of the
    active workspace, highest number first, with one note moved to a new
    position and every note renumbered `len`, `len - 1`, ..., `1` in the new
    order, each keeping its slug. The directory listing is an input
    sequence; the renames the command performs are its output. */
module Reorder {
  import opened Util
  import opened Decimal
  import opened NoteNames
  import opened Sorting

  /** A `.md` file of the directory: its path and its stem. */
  datatype Entry = Entry(path: string, name: string)

  /** One `fs::rename` from a path to another. */
  datatype Rename = Rename(from: string, to: string)

  // ---------------------------------------------------------------------
  // Selecting and ordering the entries (lines 484-502)

  /** The entries whose stem has a number prefix, in listing order (line
      493): each numbered entry as often as in the listing, no other. */
  function NumberedOnly(listing: seq<Entry>): (r: seq<Entry>)
    ensures forall k :: 0 <= k < |r| ==> ParseFileNumber(r[k].name).Some?
    ensures multiset(r) <= multiset(listing)
    decreases |listing|
  {
    if listing == [] then []
    else
      var init, e := listing[..|listing| - 1], listing[|listing| - 1];
      assert listing == init + [e];
      if ParseFileNumber(e.name).Some? then NumberedOnly(init) + [e] else NumberedOnly(init)
  }

  /** The filter keeps listing order: it works entry by entry, keeping a
      numbered entry and dropping any other. */
  lemma {:induction false} NumberedOnlyInOrder(a: seq<Entry>, b: seq<Entry>)
    ensures NumberedOnly(a + b) == NumberedOnly(a) + NumberedOnly(b)
    decreases |b|
  {
    if b == [] {
      assert a + b == a;
    } else {
      var init, last := b[..|b| - 1], b[|b| - 1];
      assert b == init + [last];
      assert a + b == (a + init) + [last];
      NumberedOnlyInOrder(a, init);
      NumberedOnlySplitLast(a + init, last);
      NumberedOnlySplitLast(init, last);
    }
  }

  /** A single entry is kept exactly when it is numbered. */
  lemma NumberedOnlyOne(e: Entry)
    ensures NumberedOnly([e]) == if ParseFileNumber(e.name).Some? then [e] else []
  {
    NumberedOnlySnoc([], e);
    assert [] + [e] == [e];
  }

  lemma NumberedOnlySplitLast(s: seq<Entry>, e: Entry)
    ensures NumberedOnly(s + [e]) == NumberedOnly(s) + NumberedOnly([e])
  {
    NumberedOnlySnoc(s, e);
    NumberedOnlyOne(e);
  }

  /** Every numbered entry is kept as often as it is listed, and no other
      entry is. */
  lemma {:induction false} NumberedOnlyCounts(listing: seq<Entry>, e: Entry)
    ensures multiset(NumberedOnly(listing))[e] == if ParseFileNumber(e.name).Some? then multiset(listing)[e] else 0
    decreases |listing|
  {
    if listing != [] {
      var init, last := listing[..|listing| - 1], listing[|listing| - 1];
      assert listing == init + [last];
      NumberedOnlyCounts(init, e);
      NumberedOnlySnoc(init, last);
    }
  }

  lemma NumberedOnlySnoc(s: seq<Entry>, e: Entry)
    ensures NumberedOnly(s + [e]) == if ParseFileNumber(e.name).Some? then NumberedOnly(s) + [e] else NumberedOnly(s)
  {
    assert (s + [e])[..|s + [e]| - 1] == s;
  }

  /** The number of an entry, 0 for a stem without one (`unwrap_or(0)`). */
  function Number(e: Entry): nat {
    match ParseFileNumber(e.name)
    case Some(n) => n
    case None => 0
  }

  /** The comparator at lines 498-502: a higher number comes first. */
  predicate ByNumberDesc(a: Entry, b: Entry) {
    Number(b) <= Number(a)
  }

  lemma ByNumberDescTotalPreorder()
    ensures TotalPreorder(ByNumberDesc)
  {
  }

  function Paths(es: seq<Entry>): (ps: seq<string>)
    ensures |ps| == |es| && forall k :: 0 <= k < |es| ==> ps[k] == es[k].path
  {
    seq(|es|, k requires 0 <= k < |es| => es[k].path)
  }

  /** The numbered notes highest number first, as the command orders them
      before the move. */
  function Ordered(listing: seq<Entry>): seq<Entry> {
    Sort(NumberedOnly(listing), ByNumberDesc)
  }

  /** The search at line 505 finds a path exactly when a numbered entry of
      the listing has it; otherwise the command fails with "Note not
      found". */
  lemma OrderedPaths(listing: seq<Entry>, path: string)
    ensures path in Paths(Ordered(listing)) <==>
      exists e :: e in listing && e.path == path && ParseFileNumber(e.name).Some?
  {
    Sorting.SortPermutation(NumberedOnly(listing), ByNumberDesc);
    KeptPaths(listing, Ordered(listing), path);
  }

  /** The paths of any arrangement of the numbered entries. */
  lemma KeptPaths(listing: seq<Entry>, r: seq<Entry>, path: string)
    requires multiset(r) == multiset(NumberedOnly(listing))
    ensures path in Paths(r) <==>
      exists e :: e in listing && e.path == path && ParseFileNumber(e.name).Some?
  {
    if path in Paths(r) {
      var k :| 0 <= k < |r| && Paths(r)[k] == path;
      var e := r[k];
      assert e in multiset(r);
      NumberedOnlyCounts(listing, e);
      assert e in multiset(listing);
    }
    if exists e :: e in listing && e.path == path && ParseFileNumber(e.name).Some? {
      var e :| e in listing && e.path == path && ParseFileNumber(e.name).Some?;
      NumberedOnlyCounts(listing, e);
      assert e in multiset(r);
      var k :| 0 <= k < |r| && r[k] == e;
      assert Paths(r)[k] == path;
    }
  }

  // ---------------------------------------------------------------------
  // The move (lines 511-513)

  function Min(a: nat, b: nat): nat {
    if a < b then a else b
  }

  /** `s` without its element at `k`. */
  function Without<T>(s: seq<T>, k: nat): (r: seq<T>)
    requires k < |s|
    ensures |r| == |s| - 1
  {
    s[..k] + s[k + 1..]
  }

  /** `Vec::remove` at `from`, then `Vec::insert` at `to`, clamped to the
      shortened length. */
  function Moved<T>(s: seq<T>, from: nat, to: nat): (r: seq<T>)
    requires from < |s|
    ensures |r| == |s|
  {
    var rest := Without(s, from);
    var at := Min(to, |rest|);
    rest[..at] + [s[from]] + rest[at..]
  }

  /** The moved element ends at `min(to, |s| - 1)`. */
  lemma MovedPosition<T>(s: seq<T>, from: nat, to: nat)
    requires from < |s|
    ensures Moved(s, from, to)[Min(to, |s| - 1)] == s[from]
  {
  }

  /** The other elements keep their relative order: taking the moved
      element out again leaves `s` without it. */
  lemma MovedOthers<T>(s: seq<T>, from: nat, to: nat)
    requires from < |s|
    ensures Without(Moved(s, from, to), Min(to, |s| - 1)) == Without(s, from)
  {
    var rest := Without(s, from);
    var at := Min(to, |rest|);
    var m := Moved(s, from, to);
    assert m[..at] == rest[..at];
    assert m[at + 1..] == rest[at..];
  }

  /** Moving neither adds nor drops elements. */
  lemma MovedPermutation<T>(s: seq<T>, from: nat, to: nat)
    requires from < |s|
    ensures multiset(Moved(s, from, to)) == multiset(s)
  {
    var rest := Without(s, from);
    var at := Min(to, |rest|);
    assert s == s[..from] + [s[from]] + s[from + 1..];
    assert multiset(s) == multiset(s[..from]) + multiset{s[from]} + multiset(s[from + 1..]);
    assert multiset(rest) == multiset(s[..from]) + multiset(s[from + 1..]);
    assert rest == rest[..at] + rest[at..];
    assert multiset(rest) == multiset(rest[..at]) + multiset(rest[at..]);
    var m := Moved(s, from, to);
    assert m == rest[..at] + [s[from]] + rest[at..];
    assert multiset(m) == multiset(rest[..at]) + multiset{s[from]} + multiset(rest[at..]);
    assert multiset(m) == multiset(rest) + multiset{s[from]};
  }

  // ---------------------------------------------------------------------
  // Renumbering (lines 515-526)

  /** The slug of a stem: what follows its first dash, "untitled" when it
      has none (`splitn(2, '-').nth(1).unwrap_or("untitled")`). */
  function SlugOf(name: string): string {
    match AfterFirstDash(name)
    case Some(s) => s
    case None => "untitled"
  }

  /** The stem an entry is given at its new position. */
  function NewStem(n: nat, name: string): string {
    ToDecimal(n) + "-" + SlugOf(name)
  }

  /** `notes_dir.join(format!("{}-{}.md", new_num, slug))` */
  function NewPath(dir: string, n: nat, name: string): string {
    dir + "/" + NewStem(n, name) + ".md"
  }


  /** The new path of every entry: the one at position `i` gets number
      `|es| - i`. */
  function Targets(dir: string, es: seq<Entry>): (ts: seq<string>)
    ensures |ts| == |es|
    decreases |es|
  {
    if es == [] then [] else [NewPath(dir, |es|, es[0].name)] + Targets(dir, es[1..])
  }

  /** The renames the loop performs over the first `n` entries, given
      their new paths `ts`: one for every entry whose path changes, in
      order. */
  function Plan(es: seq<Entry>, ts: seq<string>, n: nat): seq<Rename>
    requires n <= |es| == |ts|
  {
    if n == 0 then []
    else
      var rest := Plan(es, ts, n - 1);
      if es[n - 1].path != ts[n - 1] then rest + [Rename(es[n - 1].path, ts[n - 1])] else rest
  }

  /** The path returned after the first `n` entries: the new path of the
      last renamed entry whose old path is `source`, else `source`. */
  function ResultAfter(es: seq<Entry>, ts: seq<string>, source: string, n: nat): string
    requires n <= |es| == |ts|
  {
    if n == 0 then source
    else if es[n - 1].path != ts[n - 1] && es[n - 1].path == source then ts[n - 1]
    else ResultAfter(es, ts, source, n - 1)
  }

  lemma TargetAt(dir: string, es: seq<Entry>, i: nat)
    requires i < |es|
    ensures Targets(dir, es)[i] == NewPath(dir, |es| - i, es[i].name)
  {
    TargetNumbered(dir, es, i, |es| - i, es[i].name);
  }

  /** The same, with the number and the stem given: the induction keeps
      them fixed while it drops the first entry. */
  lemma {:induction false} TargetNumbered(dir: string, es: seq<Entry>, i: nat, n: nat, name: string)
    requires i < |es| && n == |es| - i && name == es[i].name
    ensures Targets(dir, es)[i] == NewPath(dir, n, name)
    decreases i
  {
    if i > 0 {
      TargetsTail(dir, es, i);
      TargetNumbered(dir, es[1..], i - 1, n, name);
    }
  }

  lemma TargetsTail(dir: string, es: seq<Entry>, i: nat)
    requires 0 < i < |es|
    ensures Targets(dir, es)[i] == Targets(dir, es[1..])[i - 1]
  {
  }

  /** One more entry: the plan grows by its rename, if any, and the result
      follows it when it is the source. */
  lemma PlanStep(es: seq<Entry>, ts: seq<string>, i: nat, source: string)
    requires i < |es| == |ts|
    ensures Plan(es, ts, i + 1) ==
      if es[i].path != ts[i] then Plan(es, ts, i) + [Rename(es[i].path, ts[i])] else Plan(es, ts, i)
    ensures ResultAfter(es, ts, source, i + 1) ==
      if es[i].path != ts[i] && es[i].path == source then ts[i] else ResultAfter(es, ts, source, i)
  {
  }

  /** One turn of the renumbering loop, with `newP` the path it computes. */
  lemma RenumberStep(dir: string, es: seq<Entry>, ts: seq<string>, i: nat, source: string, newP: string)
    requires i < |es| && ts == Targets(dir, es)
    requires newP == NewPath(dir, |es| - i, es[i].name)
    ensures Plan(es, ts, i + 1) ==
      if es[i].path != newP then Plan(es, ts, i) + [Rename(es[i].path, newP)] else Plan(es, ts, i)
    ensures ResultAfter(es, ts, source, i + 1) ==
      if es[i].path != newP && es[i].path == source then newP else ResultAfter(es, ts, source, i)
  {
    TargetAt(dir, es, i);
    PlanStep(es, ts, i, source);
  }

  // ---------------------------------------------------------------------
  // What the renumbering promises

  /** The entry at position `i` is given number `|es| - i` and keeps the
      part of its stem after the first dash. */
  lemma Renumbered(dir: string, es: seq<Entry>, i: nat)
    requires i < |es| <= U64_MAX
    requires ParseFileNumber(es[i].name).Some?
    ensures var stem := NewStem(|es| - i, es[i].name);
      && Targets(dir, es)[i] == dir + "/" + stem + ".md"
      && ParseFileNumber(stem) == Some(|es| - i)
      && AfterFirstDash(stem) == AfterFirstDash(es[i].name)
  {
    TargetStem(dir, es, i);
    NewStemParts(|es| - i, es[i].name);
  }

  lemma TargetStem(dir: string, es: seq<Entry>, i: nat)
    requires i < |es|
    ensures Targets(dir, es)[i] == dir + "/" + NewStem(|es| - i, es[i].name) + ".md"
  {
    TargetAt(dir, es, i);
  }

  /** A new stem for a numbered name carries the given number and the
      name's own slug. */
  lemma NewStemParts(n: nat, name: string)
    requires n <= U64_MAX && ParseFileNumber(name).Some?
    ensures ParseFileNumber(NewStem(n, name)) == Some(n)
    ensures AfterFirstDash(NewStem(n, name)) == AfterFirstDash(name)
  {
    assert '-' in name;
    NewStemNumber(n, name);
    NumberedStemSlug(n, SlugOf(name));
  }

  /** A new stem reads back as the number it was given. */
  lemma NewStemNumber(n: nat, name: string)
    requires n <= U64_MAX
    ensures ParseFileNumber(NewStem(n, name)) == Some(n)
  {
    NumberedStemRoundTrip(n, SlugOf(name));
  }

  /** Paths built from stems are equal only when the stems are. */
  lemma PathStem(dir: string, a: string, b: string)
    requires dir + "/" + a + ".md" == dir + "/" + b + ".md"
    ensures a == b
  {
    var p := dir + "/" + a + ".md";
    assert p[|dir| + 1..|p| - 3] == a;
    var q := dir + "/" + b + ".md";
    assert q[|dir| + 1..|q| - 3] == b;
  }

  /** Different positions get different paths. */
  lemma TargetsDistinct(dir: string, es: seq<Entry>, i: nat, j: nat)
    requires i < |es| <= U64_MAX && j < |es|
    requires Targets(dir, es)[i] == Targets(dir, es)[j]
    ensures i == j
  {
    var m, n := |es| - i, |es| - j;
    var x, y := es[i].name, es[j].name;
    TargetNumbered(dir, es, i, m, x);
    TargetNumbered(dir, es, j, n, y);
    assert m == n by {
      NewPathInjective(dir, m, n, x, y);
    }
  }

  /** Paths given different numbers differ. */
  lemma NewPathInjective(dir: string, m: nat, n: nat, x: string, y: string)
    requires m <= U64_MAX && n <= U64_MAX
    requires NewPath(dir, m, x) == NewPath(dir, n, y)
    ensures m == n
  {
    PathStem(dir, NewStem(m, x), NewStem(n, y));
    NewStemInjective(m, n, x, y);
  }

  /** Stems given different numbers differ. */
  lemma NewStemInjective(m: nat, n: nat, x: string, y: string)
    requires m <= U64_MAX && n <= U64_MAX
    requires NewStem(m, x) == NewStem(n, y)
    ensures m == n
  {
    NewStemNumber(m, x);
    NewStemNumber(n, y);
  }

  /** Every rename of the plan moves some entry to its new path. */
  lemma {:induction false} PlanSources(es: seq<Entry>, ts: seq<string>, n: nat)
    requires n <= |es| == |ts|
    ensures forall k :: 0 <= k < |Plan(es, ts, n)| ==>
      exists i :: 0 <= i < n && es[i].path != ts[i] && Plan(es, ts, n)[k] == Rename(es[i].path, ts[i])
  {
    if n > 0 {
      PlanSources(es, ts, n - 1);
      PlanStep(es, ts, n - 1, "");
      var prev, plan := Plan(es, ts, n - 1), Plan(es, ts, n);
      forall k | 0 <= k < |plan|
        ensures exists i :: 0 <= i < n && es[i].path != ts[i] && plan[k] == Rename(es[i].path, ts[i])
      {
        if k < |prev| {
          var i :| 0 <= i < n - 1 && es[i].path != ts[i] && prev[k] == Rename(es[i].path, ts[i]);
          assert plan[k] == prev[k];
        } else {
          assert |plan| > |prev|;
          assert plan == prev + [Rename(es[n - 1].path, ts[n - 1])];
          assert plan[k] == Rename(es[n - 1].path, ts[n - 1]);
        }
      }
      assert forall k :: 0 <= k < |plan| ==>
        exists i :: 0 <= i < n && es[i].path != ts[i] && plan[k] == Rename(es[i].path, ts[i]);
    } else {
      assert Plan(es, ts, n) == [];
    }
  }

  /** Every entry whose path changes is renamed. */
  lemma {:induction false} PlanCovers(es: seq<Entry>, ts: seq<string>, n: nat)
    requires n <= |es| == |ts|
    ensures forall i :: 0 <= i < n && es[i].path != ts[i] ==> Rename(es[i].path, ts[i]) in Plan(es, ts, n)
  {
    if n > 0 {
      PlanCovers(es, ts, n - 1);
      PlanStep(es, ts, n - 1, "");
      var prev, plan := Plan(es, ts, n - 1), Plan(es, ts, n);
      forall i | 0 <= i < n && es[i].path != ts[i]
        ensures Rename(es[i].path, ts[i]) in plan
      {
        if i < n - 1 {
          assert Rename(es[i].path, ts[i]) in prev;
        } else {
          assert plan[|prev|] == Rename(es[i].path, ts[i]);
        }
      }
    }
  }

  /** With distinct entry paths, the returned path is the source note's
      new path when it was renamed, and its old path otherwise. */
  lemma {:induction false} ResultFollowsSource(es: seq<Entry>, ts: seq<string>, k: nat, n: nat)
    requires k < |es| && n <= |es| == |ts|
    requires forall i, j :: 0 <= i < j < |es| ==> es[i].path != es[j].path
    ensures ResultAfter(es, ts, es[k].path, n) ==
      if k < n && es[k].path != ts[k] then ts[k] else es[k].path
  {
    if n > 0 {
      ResultFollowsSource(es, ts, k, n - 1);
      if k < n - 1 {
        assert es[k].path != es[n - 1].path;
      } else if k > n - 1 {
        assert es[n - 1].path != es[k].path;
      }
    }
  }
}
