/** The order of `list_notes` (src-tauri/src/lib.rs:376-385): numbered
    notes first, highest number first, then the unnumbered notes, most
    recently modified first. */
module Listing {
  import opened Util
  import opened NoteNames
  import opened Sorting

  /** One entry of the listing: the file stem, the full path, the
      modification time in seconds since the Unix epoch, and the title. */
  datatype NoteEntry = NoteEntry(name: string, path: string, modified: nat, title: string)

  datatype Ordering = Less | Equal | Greater

  /** `Ord::cmp` on numbers. */
  function Cmp(x: nat, y: nat): (o: Ordering)
    ensures o == Less <==> x < y
    ensures o == Greater <==> x > y
  {
    if x < y then Less else if x > y then Greater else Equal
  }

  /** The comparator passed to `sort_by`. */
  function CompareNotes(a: NoteEntry, b: NoteEntry): Ordering {
    match (ParseFileNumber(a.name), ParseFileNumber(b.name))
    case (Some(x), Some(y)) => Cmp(y, x)
    case (Some(_), None) => Less
    case (None, Some(_)) => Greater
    case (None, None) => Cmp(b.modified, a.modified)
  }

  /** `a` may stay before `b`. */
  predicate NoteLeq(a: NoteEntry, b: NoteEntry) {
    CompareNotes(a, b) != Greater
  }

  /** Swapping the arguments reverses the answer. */
  lemma CompareNotesFlip(a: NoteEntry, b: NoteEntry)
    ensures CompareNotes(a, b) == Less <==> CompareNotes(b, a) == Greater
    ensures CompareNotes(a, b) == Equal <==> CompareNotes(b, a) == Equal
  {
  }

  /** The comparator is a total preorder, so the sort is well defined. */
  lemma NoteLeqTotalPreorder()
    ensures TotalPreorder(NoteLeq)
  {
    forall a, b, c | NoteLeq(a, b) && NoteLeq(b, c) ensures NoteLeq(a, c) {
      NoteLeqTrans(a, b, c);
    }
  }

  lemma NoteLeqTrans(a: NoteEntry, b: NoteEntry, c: NoteEntry)
    requires NoteLeq(a, b) && NoteLeq(b, c)
    ensures NoteLeq(a, c)
  {
  }

  /** The listing in the order `list_notes` returns it. */
  function SortNotes(entries: seq<NoteEntry>): seq<NoteEntry> {
    Sort(entries, NoteLeq)
  }

  predicate Numbered(e: NoteEntry) {
    ParseFileNumber(e.name).Some?
  }

  /** The sorted listing holds the same entries, every numbered note comes
      before every unnumbered one, numbered notes come in non-increasing
      order of their numbers, and unnumbered ones in non-increasing order of
      modification time. */
  lemma ListingOrder(entries: seq<NoteEntry>)
    ensures var r := SortNotes(entries);
      && multiset(r) == multiset(entries)
      && (forall i, j :: 0 <= i < j < |r| && Numbered(r[j]) ==> Numbered(r[i]))
      && (forall i, j :: 0 <= i < j < |r| && Numbered(r[i]) && Numbered(r[j]) ==>
            ParseFileNumber(r[i].name).value >= ParseFileNumber(r[j].name).value)
      && (forall i, j :: 0 <= i < j < |r| && !Numbered(r[i]) && !Numbered(r[j]) ==>
            r[i].modified >= r[j].modified)
  {
    SortPermutation(entries, NoteLeq);
    NoteLeqTotalPreorder();
    SortSorted(entries, NoteLeq);
  }
}
