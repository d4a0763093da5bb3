/** What the renames of `reorder_note` (src-tauri/src/lib.rs:515-526) do to
    the notes directory, modelled as a map from path to file content. The
    loop renames one file at a time, and `fs::rename` replaces a file that
    already sits at the destination; when two notes share a slug, a rename
    can overwrite a note that has not been moved yet. `ApplyInOrder` is the
    loop as written, `ApplyAtOnce` the effect the renumbering evidently
    intends: every note ends at its new path with its own content. */
module Renames {
  import opened Util
  import opened Decimal
  import opened NoteNames
  import opened Reorder

  /** The files of a directory: path to content. */
  type Files = map<string, string>

  // ---------------------------------------------------------------------
  // The loop as written

  /** The renames performed one after another. Each moves the content of
      `from` to `to`, replacing whatever was at `to`; a missing source is an
      I/O error that ends the command. Renaming never creates files, so the
      directory never grows. */
  function ApplyInOrder(fs: Files, rs: seq<Rename>): (r: Result<Files>)
    ensures r.Ok? ==> |r.value| <= |fs|
    decreases |rs|
  {
    if rs == [] then Ok(fs)
    else
      match ApplyInOrder(fs, rs[..|rs| - 1])
      case Err(e) => Err(e)
      case Ok(m) =>
        var last := rs[|rs| - 1];
        if last.from !in m then Err(Io)
        else
          var removed := m - {last.from};
          assert |removed| == |m| - 1;
          Ok(removed[last.to := m[last.from]])
  }

  /** Two notes numbered 2 and 1 that share a slug, so that each one's
      current path is the other's new path once note 1 moves to the top.
      The first rename moves note 1 onto note 2's path, which replaces
      note 2's content; the second renames that file back: the directory
      ends with note 1 alone, and the path the command returns no longer
      exists. */
  lemma ReorderLosesNote(dir: string, two: Entry, one: Entry, a: string, b: string)
    requires ParseFileNumber(two.name) == Some(2) && ParseFileNumber(one.name) == Some(1)
    requires two.path == NewPath(dir, 2, one.name) && one.path == NewPath(dir, 1, two.name)
    requires two.path != one.path
    ensures Ordered([two, one]) == [two, one]
    ensures IndexOf(Paths([two, one]), one.path) == Some(1)
    ensures Moved([two, one], 1, 0) == [one, two]
    ensures var ts := Targets(dir, [one, two]);
      && ApplyInOrder(map[two.path := a, one.path := b], Plan([one, two], ts, 2)) == Ok(map[one.path := b])
      && ResultAfter([one, two], ts, one.path, 2) == two.path
      && two.path !in map[one.path := b]
  {
    OrderedExample(two, one);
    var sorted := [two, one];
    assert Ordered([two, one]) == sorted;
    PathsExample(two, one);
    MovedExample(two, one);
    TargetsExample(dir, one, two, two.path, one.path);
    PlanExample(one, two);
    ApplyExample(two.path, one.path, a, b);
  }

  lemma PathsExample(two: Entry, one: Entry)
    requires two.path != one.path
    ensures IndexOf(Paths([two, one]), one.path) == Some(1)
  {
    assert Paths([two, one]) == [two.path, one.path];
  }

  lemma MovedExample<T>(x: T, y: T)
    ensures Moved([x, y], 1, 0) == [y, x]
  {
  }

  /** Two untitled notes in `d` meet the conditions above. */
  lemma UntitledPairCollides()
    ensures var two, one := Entry("d/2-untitled.md", "2-untitled"), Entry("d/1-untitled.md", "1-untitled");
      && ParseFileNumber(two.name) == Some(2) && ParseFileNumber(one.name) == Some(1)
      && two.path == NewPath("d", 2, one.name) && one.path == NewPath("d", 1, two.name)
      && two.path != one.path
  {
    UntitledPair("d/2-untitled.md", "2-untitled", "d/1-untitled.md", "1-untitled", "d", "2", "1", "untitled");
  }

  lemma UntitledPair(p2: string, n2: string, p1: string, n1: string, dir: string, d2: string, d1: string, slug: string)
    requires p2 == "d/2-untitled.md" && n2 == "2-untitled" && p1 == "d/1-untitled.md" && n1 == "1-untitled"
    requires dir == "d" && d2 == "2" && d1 == "1" && slug == "untitled"
    ensures ParseFileNumber(n2) == Some(2) && ParseFileNumber(n1) == Some(1)
    ensures p2 == NewPath(dir, 2, n1) && p1 == NewPath(dir, 1, n2)
    ensures p2 != p1
  {
    UntitledTwoText(n2, d2, slug);
    UntitledOneText(n1, d1, slug);
    UntitledPathTwoText(p2, dir, d2, slug);
    UntitledPathOneText(p1, dir, d1, slug);
    DigitsTwoOne(d2, d1);
    SwappedStems(dir, 2, 1, n2, n1, slug, p2, p1);
    UntitledPathsDiffer(p2, p1);
  }

  lemma DigitsTwoOne(d2: string, d1: string)
    requires d2 == "2" && d1 == "1"
    ensures ToDecimal(2) == d2 && ToDecimal(1) == d1
  {
  }

  lemma UntitledPathsDiffer(p2: string, p1: string)
    requires p2 == "d/2-untitled.md" && p1 == "d/1-untitled.md"
    ensures p2 != p1
  {
    assert p2[2] != p1[2];
  }

  /** Two stems with the same slug, each at the path the other's number
      gives. */
  lemma SwappedStems(dir: string, m: nat, n: nat, sm: string, sn: string, slug: string, pm: string, pn: string)
    requires m <= U64_MAX && n <= U64_MAX
    requires sm == ToDecimal(m) + "-" + slug && sn == ToDecimal(n) + "-" + slug
    requires pm == dir + "/" + (ToDecimal(m) + "-" + slug) + ".md"
    requires pn == dir + "/" + (ToDecimal(n) + "-" + slug) + ".md"
    ensures ParseFileNumber(sm) == Some(m) && ParseFileNumber(sn) == Some(n)
    ensures pm == NewPath(dir, m, sn) && pn == NewPath(dir, n, sm)
  {
    NumberedName(m, sm, slug);
    NumberedName(n, sn, slug);
  }

  /** A stem built from a number and a slug has both back. */
  lemma NumberedName(n: nat, stem: string, slug: string)
    requires n <= U64_MAX && stem == ToDecimal(n) + "-" + slug
    ensures ParseFileNumber(stem) == Some(n) && SlugOf(stem) == slug
  {
    NumberedStemRoundTrip(n, slug);
    NumberedStemSlug(n, slug);
  }

  /** The stem `2-untitled`. */
  lemma UntitledTwoText(c: string, d: string, slug: string)
    requires c == "2-untitled" && d == "2" && slug == "untitled"
    ensures c == d + "-" + slug
  {
    var s := d + "-" + slug;
    assert |c| == |s| == 10;
    assert c[0] == s[0];
    assert c[1] == s[1];
    assert c[2] == s[2];
    assert c[3] == s[3];
    assert c[4] == s[4];
    assert c[5] == s[5];
    assert c[6] == s[6];
    assert c[7] == s[7];
    assert c[8] == s[8];
    assert c[9] == s[9];
  }

  /** The stem `1-untitled`. */
  lemma UntitledOneText(c: string, d: string, slug: string)
    requires c == "1-untitled" && d == "1" && slug == "untitled"
    ensures c == d + "-" + slug
  {
    var s := d + "-" + slug;
    assert |c| == |s| == 10;
    assert c[0] == s[0];
    assert c[1] == s[1];
    assert c[2] == s[2];
    assert c[3] == s[3];
    assert c[4] == s[4];
    assert c[5] == s[5];
    assert c[6] == s[6];
    assert c[7] == s[7];
    assert c[8] == s[8];
    assert c[9] == s[9];
  }

  /** The path `d/2-untitled.md`. */
  lemma UntitledPathTwoText(c: string, dir: string, d: string, slug: string)
    requires c == "d/2-untitled.md" && dir == "d" && d == "2" && slug == "untitled"
    ensures c == dir + "/" + (d + "-" + slug) + ".md"
  {
    var s := dir + "/" + (d + "-" + slug) + ".md";
    assert |c| == |s| == 15;
    assert c[0] == s[0];
    assert c[1] == s[1];
    assert c[2] == s[2];
    assert c[3] == s[3];
    assert c[4] == s[4];
    assert c[5] == s[5];
    assert c[6] == s[6];
    assert c[7] == s[7];
    assert c[8] == s[8];
    assert c[9] == s[9];
    assert c[10] == s[10];
    assert c[11] == s[11];
    assert c[12] == s[12];
    assert c[13] == s[13];
    assert c[14] == s[14];
  }

  /** The path `d/1-untitled.md`. */
  lemma UntitledPathOneText(c: string, dir: string, d: string, slug: string)
    requires c == "d/1-untitled.md" && dir == "d" && d == "1" && slug == "untitled"
    ensures c == dir + "/" + (d + "-" + slug) + ".md"
  {
    var s := dir + "/" + (d + "-" + slug) + ".md";
    assert |c| == |s| == 15;
    assert c[0] == s[0];
    assert c[1] == s[1];
    assert c[2] == s[2];
    assert c[3] == s[3];
    assert c[4] == s[4];
    assert c[5] == s[5];
    assert c[6] == s[6];
    assert c[7] == s[7];
    assert c[8] == s[8];
    assert c[9] == s[9];
    assert c[10] == s[10];
    assert c[11] == s[11];
    assert c[12] == s[12];
    assert c[13] == s[13];
    assert c[14] == s[14];
  }

  /** A listing of notes numbered 2 and 1 is already in order. */
  lemma OrderedExample(two: Entry, one: Entry)
    requires ParseFileNumber(two.name) == Some(2) && ParseFileNumber(one.name) == Some(1)
    ensures Ordered([two, one]) == [two, one]
  {
    var listing := [two, one];
    assert listing[..1] == [two];
    assert NumberedOnly([two]) == [two];
    assert NumberedOnly(listing) == listing;
    assert Sorting.Sort([two], ByNumberDesc) == [two];
    assert Sorting.Insert(one, [two], ByNumberDesc) == [two, one];
  }

  lemma TargetsExample(dir: string, one: Entry, two: Entry, p2: string, p1: string)
    requires NewPath(dir, 2, one.name) == p2 && NewPath(dir, 1, two.name) == p1
    ensures Targets(dir, [one, two]) == [p2, p1]
  {
    TargetAt(dir, [one, two], 0);
    TargetAt(dir, [one, two], 1);
  }

  lemma PlanExample(one: Entry, two: Entry)
    requires one.path != two.path
    ensures var ts := [two.path, one.path];
      && Plan([one, two], ts, 2) == [Rename(one.path, two.path), Rename(two.path, one.path)]
      && ResultAfter([one, two], ts, one.path, 2) == two.path
  {
    var ts := [two.path, one.path];
    PlanStep([one, two], ts, 0, one.path);
    PlanStep([one, two], ts, 1, one.path);
  }

  lemma ApplyExample(p2: string, p1: string, a: string, b: string)
    requires p2 != p1
    ensures ApplyInOrder(map[p2 := a, p1 := b], [Rename(p1, p2), Rename(p2, p1)]) == Ok(map[p1 := b])
  {
    var files := map[p2 := a, p1 := b];
    var plan := [Rename(p1, p2), Rename(p2, p1)];
    assert plan[..1] == [Rename(p1, p2)];
    assert plan[..1][..0] == [];
    var m1 := (files - {p1})[p2 := b];
    assert m1 == map[p2 := b];
    assert ApplyInOrder(files, plan[..1]) == Ok(m1);
    var m2 := (m1 - {p2})[p1 := b];
    assert m2 == map[p1 := b];
  }

  // ---------------------------------------------------------------------
  // The intended effect

  /** The sources of a list of renames. */
  function Sources(rs: seq<Rename>): (s: set<string>)
    ensures forall k :: 0 <= k < |rs| ==> rs[k].from in s
    ensures forall p :: p in s ==> exists k :: 0 <= k < |rs| && rs[k].from == p
  {
    set k | 0 <= k < |rs| :: rs[k].from
  }

  /** `base` with every target of `rs` given the content its source has in
      `fs`. */
  function Place(fs: Files, base: Files, rs: seq<Rename>): (r: Files)
    requires forall k :: 0 <= k < |rs| ==> rs[k].from in fs
    ensures forall p :: p in r <==> p in base || exists k :: 0 <= k < |rs| && rs[k].to == p
    decreases |rs|
  {
    if rs == [] then base
    else
      var last := rs[|rs| - 1];
      Place(fs, base, rs[..|rs| - 1])[last.to := fs[last.from]]
  }

  /** Every source taken away first, then every target written with the
      content its source had before any rename: the result of renaming
      each source to a fresh temporary name and then each temporary name
      to its target. */
  function ApplyAtOnce(fs: Files, rs: seq<Rename>): Files
    requires forall k :: 0 <= k < |rs| ==> rs[k].from in fs
  {
    Place(fs, fs - Sources(rs), rs)
  }

  /** A target written by renames that all agree on its source holds that
      source's content. */
  lemma {:induction false} PlaceTarget(fs: Files, base: Files, rs: seq<Rename>, k: nat)
    requires forall j :: 0 <= j < |rs| ==> rs[j].from in fs
    requires k < |rs|
    requires forall j :: 0 <= j < |rs| && rs[j].to == rs[k].to ==> rs[j].from == rs[k].from
    ensures rs[k].to in Place(fs, base, rs) && Place(fs, base, rs)[rs[k].to] == fs[rs[k].from]
    decreases |rs|
  {
    var last := rs[|rs| - 1];
    if k < |rs| - 1 && last.to != rs[k].to {
      PlaceTarget(fs, base, rs[..|rs| - 1], k);
    }
  }

  /** A path no rename writes keeps its content from `base`. */
  lemma {:induction false} PlaceOther(fs: Files, base: Files, rs: seq<Rename>, p: string)
    requires forall j :: 0 <= j < |rs| ==> rs[j].from in fs
    requires p in base
    requires forall j :: 0 <= j < |rs| ==> rs[j].to != p
    ensures p in Place(fs, base, rs) && Place(fs, base, rs)[p] == base[p]
    decreases |rs|
  {
    if rs != [] {
      PlaceOther(fs, base, rs[..|rs| - 1], p);
    }
  }

  /** With the renames applied at once, every note of the renumbering sits
      at its new path with its own content, and the path the command returns
      for a note holds that note. */
  lemma ReorderKeepsEveryNote(dir: string, es: seq<Entry>, fs: Files)
    requires |es| <= U64_MAX
    requires forall i, j :: 0 <= i < j < |es| ==> es[i].path != es[j].path
    requires forall i :: 0 <= i < |es| ==> es[i].path in fs
    ensures var ts := Targets(dir, es);
      var plan := Plan(es, ts, |es|);
      && (forall k :: 0 <= k < |plan| ==> plan[k].from in fs)
      && var after := ApplyAtOnce(fs, plan);
      forall i :: 0 <= i < |es| ==>
        && ts[i] in after && after[ts[i]] == fs[es[i].path]
        && ResultAfter(es, ts, es[i].path, |es|) == ts[i]
  {
    var ts := Targets(dir, es);
    forall i, j | 0 <= i < |es| && 0 <= j < |es| && ts[i] == ts[j] ensures i == j {
      TargetsDistinct(dir, es, i, j);
    }
    AtOnceMovesEachEntry(es, ts, fs);
  }

  /** The same for any distinct new paths `ts`. */
  lemma AtOnceMovesEachEntry(es: seq<Entry>, ts: seq<string>, fs: Files)
    requires |ts| == |es|
    requires forall i, j :: 0 <= i < j < |es| ==> es[i].path != es[j].path
    requires forall i, j :: 0 <= i < |es| && 0 <= j < |es| && ts[i] == ts[j] ==> i == j
    requires forall i :: 0 <= i < |es| ==> es[i].path in fs
    ensures var plan := Plan(es, ts, |es|);
      && (forall k :: 0 <= k < |plan| ==> plan[k].from in fs)
      && var after := ApplyAtOnce(fs, plan);
      forall i :: 0 <= i < |es| ==>
        && ts[i] in after && after[ts[i]] == fs[es[i].path]
        && ResultAfter(es, ts, es[i].path, |es|) == ts[i]
  {
    var plan := Plan(es, ts, |es|);
    PlanFromListing(es, ts, fs);
    var after := ApplyAtOnce(fs, plan);
    forall i | 0 <= i < |es|
      ensures ts[i] in after && after[ts[i]] == fs[es[i].path]
      ensures ResultAfter(es, ts, es[i].path, |es|) == ts[i]
    {
      EntryMoves(es, ts, fs, i);
    }
  }

  /** Every rename of the plan starts at a listed path. */
  lemma PlanFromListing(es: seq<Entry>, ts: seq<string>, fs: Files)
    requires |ts| == |es|
    requires forall i :: 0 <= i < |es| ==> es[i].path in fs
    ensures var plan := Plan(es, ts, |es|);
      forall k :: 0 <= k < |plan| ==> plan[k].from in fs
  {
    PlanSources(es, ts, |es|);
  }

  /** One entry of `AtOnceMovesEachEntry`. */
  lemma EntryMoves(es: seq<Entry>, ts: seq<string>, fs: Files, i: nat)
    requires |ts| == |es| && i < |es|
    requires forall i, j :: 0 <= i < j < |es| ==> es[i].path != es[j].path
    requires forall i, j :: 0 <= i < |es| && 0 <= j < |es| && ts[i] == ts[j] ==> i == j
    requires forall i :: 0 <= i < |es| ==> es[i].path in fs
    ensures var plan := Plan(es, ts, |es|);
      && (forall k :: 0 <= k < |plan| ==> plan[k].from in fs)
      && var after := ApplyAtOnce(fs, plan);
      && ts[i] in after && after[ts[i]] == fs[es[i].path]
      && ResultAfter(es, ts, es[i].path, |es|) == ts[i]
  {
    var plan := Plan(es, ts, |es|);
    PlanSources(es, ts, |es|);
    PlanCovers(es, ts, |es|);
    ResultFollowsSource(es, ts, i, |es|);
    EntryLands(es, ts, fs, plan, i);
  }

  lemma EntryLands(es: seq<Entry>, ts: seq<string>, fs: Files, plan: seq<Rename>, i: nat)
    requires |ts| == |es| && i < |es|
    requires forall i, j :: 0 <= i < j < |es| ==> es[i].path != es[j].path
    requires forall i, j :: 0 <= i < |es| && 0 <= j < |es| && ts[i] == ts[j] ==> i == j
    requires forall i :: 0 <= i < |es| ==> es[i].path in fs
    requires forall k :: 0 <= k < |plan| ==>
      exists m :: 0 <= m < |es| && es[m].path != ts[m] && plan[k] == Rename(es[m].path, ts[m])
    requires forall m :: 0 <= m < |es| && es[m].path != ts[m] ==> Rename(es[m].path, ts[m]) in plan
    requires forall k :: 0 <= k < |plan| ==> plan[k].from in fs
    ensures ts[i] in ApplyAtOnce(fs, plan) && ApplyAtOnce(fs, plan)[ts[i]] == fs[es[i].path]
  {
    if es[i].path != ts[i] {
      var k :| 0 <= k < |plan| && plan[k] == Rename(es[i].path, ts[i]);
      forall j | 0 <= j < |plan| && plan[j].to == plan[k].to
        ensures plan[j].from == plan[k].from
      {
        var m :| 0 <= m < |es| && es[m].path != ts[m] && plan[j] == Rename(es[m].path, ts[m]);
        assert ts[m] == ts[i];
      }
      PlaceTarget(fs, fs - Sources(plan), plan, k);
    } else {
      forall j | 0 <= j < |plan|
        ensures plan[j].to != ts[i] && plan[j].from != ts[i]
      {
        var m :| 0 <= m < |es| && es[m].path != ts[m] && plan[j] == Rename(es[m].path, ts[m]);
        assert m != i;
      }
      assert ts[i] !in Sources(plan);
      PlaceOther(fs, fs - Sources(plan), plan, ts[i]);
    }
  }

  // ---------------------------------------------------------------------
  // Distinct paths survive the selection, the sort and the move

  /** No two entries share a path, as in a directory listing. */
  predicate DistinctPaths(es: seq<Entry>) {
    forall i, j :: 0 <= i < j < |es| ==> es[i].path != es[j].path
  }

  /** An entry at two positions occurs at least twice. */
  lemma TwiceCounted(t: seq<Entry>, i: nat, j: nat)
    requires i < j < |t| && t[i] == t[j]
    ensures multiset(t)[t[i]] >= 2
  {
    assert t == t[..j] + [t[j]] + t[j + 1..];
    assert t[..j][i] == t[i];
    assert multiset(t) == multiset(t[..j]) + multiset{t[j]} + multiset(t[j + 1..]);
  }

  /** With distinct paths, no entry occurs twice. */
  lemma {:induction false} OccursOnce(s: seq<Entry>, x: Entry)
    requires DistinctPaths(s)
    ensures multiset(s)[x] <= 1
    decreases |s|
  {
    if s != [] {
      var init, last := s[..|s| - 1], s[|s| - 1];
      assert s == init + [last];
      OccursOnce(init, x);
      if last == x {
        forall k | 0 <= k < |init| ensures init[k] != x {
          assert s[k].path != s[|s| - 1].path;
        }
        assert x !in init;
      }
    }
  }

  /** With distinct paths, different entries have different paths. */
  lemma DifferentPaths(s: seq<Entry>, x: Entry, y: Entry)
    requires DistinctPaths(s) && x in s && y in s && x != y
    ensures x.path != y.path
  {
    var k :| 0 <= k < |s| && s[k] == x;
    var l :| 0 <= l < |s| && s[l] == y;
    if k < l {
      assert s[k].path != s[l].path;
    } else {
      assert s[l].path != s[k].path;
    }
  }

  /** Taking some of the entries, in any order, keeps their paths
      distinct. */
  lemma SubMultisetDistinct(s: seq<Entry>, t: seq<Entry>)
    requires multiset(t) <= multiset(s) && DistinctPaths(s)
    ensures DistinctPaths(t)
  {
    forall i, j | 0 <= i < j < |t| ensures t[i].path != t[j].path {
      assert t[i] in multiset(t) && t[j] in multiset(t);
      if t[i] == t[j] {
        OccursOnce(s, t[i]);
        TwiceCounted(t, i, j);
      } else {
        DifferentPaths(s, t[i], t[j]);
      }
    }
  }

  /** The list `reorder_note` renumbers has distinct paths when the
      directory listing does, so `ReorderKeepsEveryNote` applies to it. */
  lemma MovedDistinct(listing: seq<Entry>, from: nat, to: nat)
    requires DistinctPaths(listing) && from < |Ordered(listing)|
    ensures DistinctPaths(Moved(Ordered(listing), from, to))
  {
    var sorted := Ordered(listing);
    Sorting.SortPermutation(NumberedOnly(listing), ByNumberDesc);
    MovedPermutation(sorted, from, to);
    assert multiset(Moved(sorted, from, to)) <= multiset(listing);
    SubMultisetDistinct(listing, Moved(sorted, from, to));
  }
}
