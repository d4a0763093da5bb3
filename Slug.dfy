/** `slugify` (src-tauri/src/lib.rs): turns a title into the slug used in
    note file names and workspace ids. The text is lowercased, every
    character that is not alphanumeric becomes a dash, runs of dashes
    collapse to one, and dashes at either end are dropped.

    Lowercasing and the alphanumeric test follow Unicode tables in the
    source; here they are parameters (`CharTables`), with an ASCII instance
    for concrete examples. */
module Slug {

  /** The character tables `slugify` consults: `str::to_lowercase` and
      `char::is_alphanumeric`. */
  datatype CharTables = CharTables(lower: string -> string, isAlphanumeric: char -> bool)

  /** The lowercased text with every non-alphanumeric character replaced by
      a dash (the `map` before the loop). */
  function Dashed(text: string, t: CharTables): string {
    DashOthers(t.lower(text), t.isAlphanumeric)
  }

  /** `s` with every character that fails `keep` replaced by a dash. */
  function DashOthers(s: string, keep: char -> bool): (r: string)
    ensures |r| == |s|
    ensures forall i :: 0 <= i < |s| ==> r[i] == if keep(s[i]) then s[i] else '-'
    decreases |s|
  {
    if s == [] then ""
    else
      var c := s[|s| - 1];
      DashOthers(s[..|s| - 1], keep) + [if keep(c) then c else '-']
  }

  /** The pieces of `s` between its dashes, in order, empty pieces included:
      read from left to right, a dash starts a new piece and any other
      character extends the current one, so n dashes give n + 1 pieces. */
  function Split(s: string): (ps: seq<string>)
    ensures |ps| > 0
    decreases |s|
  {
    if s == [] then [""]
    else
      var ps := Split(s[..|s| - 1]);
      var c := s[|s| - 1];
      if c == '-' then ps + [""]
      else ps[..|ps| - 1] + [ps[|ps| - 1] + [c]]
  }

  /** The words joined with one dash between neighbours. */
  function Join(ws: seq<string>): string
    decreases |ws|
  {
    if |ws| == 0 then ""
    else if |ws| == 1 then ws[0]
    else Join(ws[..|ws| - 1]) + "-" + ws[|ws| - 1]
  }

  /** The pieces that are not empty, in order. */
  function NonEmpty(ps: seq<string>): seq<string>
    decreases |ps|
  {
    if |ps| == 0 then []
    else if ps[|ps| - 1] == [] then NonEmpty(ps[..|ps| - 1])
    else NonEmpty(ps[..|ps| - 1]) + [ps[|ps| - 1]]
  }

  /** `trim_end_matches('-')`: the longest prefix not ending in a dash
      such that only dashes follow it. */
  function TrimEndDashes(s: string): (r: string)
    ensures r <= s
    ensures r == [] || r[|r| - 1] != '-'
    ensures forall i :: |r| <= i < |s| ==> s[i] == '-'
    decreases |s|
  {
    if |s| > 0 && s[|s| - 1] == '-' then TrimEndDashes(s[..|s| - 1]) else s
  }

  /** What `slugify` returns: the runs of alphanumeric characters of the
      lowercased text, joined by single dashes. */
  function Slug(text: string, t: CharTables): string {
    Join(NonEmpty(Split(Dashed(text, t))))
  }

  /** `slugify`: the lowercasing `map`, then the loop at lines 133-145. */
  method Slugify(text: string, t: CharTables) returns (slug: string)
    ensures slug == Slug(text, t)
  {
    slug := CollapseDashes(Dashed(text, t));
  }

  /** The loop at lines 133-145, which keeps a character unless it is a dash
      that follows a dash or would open the result, then the final
      `trim_end_matches('-')`. */
  method CollapseDashes(s: string) returns (slug: string)
    ensures slug == Join(NonEmpty(Split(s)))
  {
    var result: string := "";
    var prevDash := false;
    var i := 0;
    while i < |s|
      invariant 0 <= i <= |s|
      invariant prevDash == (i > 0 && s[i - 1] == '-')
      invariant result == Collapsed(s[..i])
    {
      var c := s[i];
      CollapsedStep(s, i);
      if c == '-' {
        if !prevDash && result != "" {
          result := result + [c];
        }
        prevDash := true;
      } else {
        result := result + [c];
        prevDash := false;
      }
      i := i + 1;
    }
    assert s[..i] == s;
    TrimCollapsed(s);
    slug := TrimEndDashes(result);
  }

  // ---------------------------------------------------------------------
  // The loop's state

  /** The loop's `result` after it has read `p`: the words read so far,
      joined, and one dash after them when `p` ends in a dash. */
  ghost function Collapsed(p: string): string {
    var ws := NonEmpty(Split(p));
    Join(ws) + (if |p| > 0 && p[|p| - 1] == '-' && ws != [] then "-" else "")
  }

  lemma CollapsedStep(s: string, i: nat)
    requires i < |s|
    ensures Collapsed(s[..i + 1]) ==
      if s[i] != '-' then Collapsed(s[..i]) + [s[i]]
      else if (i > 0 && s[i - 1] == '-') || Collapsed(s[..i]) == "" then Collapsed(s[..i])
      else Collapsed(s[..i]) + "-"
  {
    assert s[..i + 1] == s[..i] + [s[i]];
    if s[i] == '-' {
      CollapsedSnocDash(s[..i]);
    } else {
      CollapsedSnocLetter(s[..i], s[i]);
    }
  }

  /** A dash is appended only after a character that is not a dash and
      only to a non-empty result. */
  lemma CollapsedSnocDash(p: string)
    ensures Collapsed(p + "-") ==
      if (|p| > 0 && p[|p| - 1] == '-') || Collapsed(p) == "" then Collapsed(p) else Collapsed(p) + "-"
  {
    SplitSnoc(p, '-');
    NonEmptySnoc(Split(p), "");
    var ws := NonEmpty(Split(p));
    if ws != [] {
      SplitDashFree(p);
      NonEmptyWords(Split(p));
      JoinNonEmpty(ws);
    }
  }

  /** Any other character is appended. */
  lemma CollapsedSnocLetter(p: string, c: char)
    requires c != '-'
    ensures Collapsed(p + [c]) == Collapsed(p) + [c]
  {
    var ps := Split(p);
    var init, last := ps[..|ps| - 1], ps[|ps| - 1];
    assert ps == init + [last];
    SplitSnoc(p, c);
    assert Split(p + [c]) == init + [last + [c]];
    NonEmptySnoc(init, last + [c]);
    NonEmptySnoc(init, last);
    CollapsedAfterLetter(p + [c]);
    SplitLastPiece(p);
    if last == [] {
      assert last + [c] == [c];
      CollapsedAfterEmptyPiece(p, c);
    } else {
      CollapsedAfterLetter(p);
      CollapsedAfterWord(p, c, NonEmpty(init), last);
    }
  }

  /** After a character that is not a dash the loop holds just the words. */
  lemma CollapsedAfterLetter(q: string)
    requires q != [] && q[|q| - 1] != '-'
    ensures Collapsed(q) == Join(NonEmpty(Split(q)))
  {
  }

  lemma CollapsedAfterWord(p: string, c: char, ws: seq<string>, last: string)
    requires NonEmpty(Split(p)) == ws + [last]
    requires NonEmpty(Split(p + [c])) == ws + [last + [c]]
    requires Collapsed(p) == Join(NonEmpty(Split(p)))
    requires Collapsed(p + [c]) == Join(NonEmpty(Split(p + [c])))
    ensures Collapsed(p + [c]) == Collapsed(p) + [c]
  {
    JoinExtendLast(ws, last, [c]);
  }

  lemma CollapsedAfterEmptyPiece(p: string, c: char)
    requires p == [] || p[|p| - 1] == '-'
    requires NonEmpty(Split(p + [c])) == NonEmpty(Split(p)) + [[c]]
    requires Collapsed(p + [c]) == Join(NonEmpty(Split(p + [c])))
    ensures Collapsed(p + [c]) == Collapsed(p) + [c]
  {
    var ws := NonEmpty(Split(p));
    if ws != [] {
      assert Collapsed(p) == Join(ws) + "-";
      JoinSnoc(ws, [c]);
    } else {
      assert Collapsed(p) == "";
      assert ws + [[c]] == [[c]];
    }
  }

  /** Trimming the loop's final result leaves the joined words. */
  lemma TrimCollapsed(s: string)
    ensures TrimEndDashes(Collapsed(s)) == Join(NonEmpty(Split(s)))
  {
    var ws := NonEmpty(Split(s));
    SplitDashFree(s);
    NonEmptyWords(Split(s));
    JoinShape(ws);
    TrimEndDash(Join(ws));
  }

  // ---------------------------------------------------------------------
  // Pieces and words

  /** The pieces after one more character: a dash opens a new, empty
      piece; any other character extends the last piece. */
  function Extend(ps: seq<string>, c: char): seq<string>
    requires |ps| > 0
  {
    if c == '-' then ps + [""] else ps[..|ps| - 1] + [ps[|ps| - 1] + [c]]
  }

  lemma SplitSnoc(p: string, c: char)
    ensures Split(p + [c]) == Extend(Split(p), c)
  {
    assert (p + [c])[..|p|] == p;
  }

  lemma ExtendAppend(x: seq<string>, y: seq<string>, c: char)
    requires |y| > 0
    ensures Extend(x + y, c) == x + Extend(y, c)
  {
    assert (x + y)[..|x + y| - 1] == x + y[..|y| - 1];
  }

  /** The last piece is empty exactly when the string is empty or ends in a
      dash. */
  lemma SplitLastPiece(s: string)
    ensures Split(s)[|Split(s)| - 1] == [] <==> (s == [] || s[|s| - 1] == '-')
  {
  }

  /** No piece holds a dash. */
  lemma {:induction false} SplitDashFree(s: string)
    ensures forall k :: 0 <= k < |Split(s)| ==> '-' !in Split(s)[k]
    decreases |s|
  {
    if s != [] {
      var init, c := s[..|s| - 1], s[|s| - 1];
      SplitDashFree(init);
      var ps := Split(init);
      if c != '-' {
        var r := ps[..|ps| - 1] + [ps[|ps| - 1] + [c]];
        forall k | 0 <= k < |r| ensures '-' !in r[k] {
          if k < |ps| - 1 {
            assert r[k] == ps[k];
          } else {
            assert '-' !in ps[|ps| - 1];
          }
        }
      }
    }
  }

  /** Joining the pieces gives back the string. */
  lemma {:induction false} JoinSplit(s: string)
    ensures Join(Split(s)) == s
    decreases |s|
  {
    if s != [] {
      var init, c := s[..|s| - 1], s[|s| - 1];
      assert s == init + [c];
      JoinSplit(init);
      var ps := Split(init);
      if c == '-' {
        JoinSnoc(ps, "");
      } else {
        var last := ps[|ps| - 1];
        assert ps == ps[..|ps| - 1] + [last];
        JoinExtendLast(ps[..|ps| - 1], last, [c]);
      }
    }
  }

  /** A dash separates: the pieces of `a + "-" + b` are those of `a`
      followed by those of `b`. */
  lemma {:induction false} SplitAppend(a: string, b: string)
    ensures Split(a + "-" + b) == Split(a) + Split(b)
    decreases |b|
  {
    if b == [] {
      assert a + "-" + b == a + "-";
      SplitSnoc(a, '-');
    } else {
      var init, c := b[..|b| - 1], b[|b| - 1];
      assert a + "-" + b == (a + "-" + init) + [c];
      assert b == init + [c];
      SplitAppend(a, init);
      SplitSnoc(a + "-" + init, c);
      SplitSnoc(init, c);
      ExtendAppend(Split(a), Split(init), c);
    }
  }

  /** A dash-free string is a single piece. */
  lemma {:induction false} SplitWord(w: string)
    requires '-' !in w
    ensures Split(w) == [w]
    decreases |w|
  {
    if w != [] {
      var init, c := w[..|w| - 1], w[|w| - 1];
      assert w == init + [c];
      SplitWord(init);
      SplitSnoc(init, c);
    }
  }

  lemma NonEmptySnoc(ps: seq<string>, w: string)
    ensures NonEmpty(ps + [w]) == if w == [] then NonEmpty(ps) else NonEmpty(ps) + [w]
  {
    assert (ps + [w])[..|ps|] == ps;
  }

  lemma {:induction false} NonEmptyAppend(ps: seq<string>, qs: seq<string>)
    ensures NonEmpty(ps + qs) == NonEmpty(ps) + NonEmpty(qs)
    decreases |qs|
  {
    if qs == [] {
      assert ps + qs == ps;
    } else {
      var init, w := qs[..|qs| - 1], qs[|qs| - 1];
      assert ps + qs == (ps + init) + [w];
      assert qs == init + [w];
      NonEmptyAppend(ps, init);
      NonEmptySnoc(ps + init, w);
      NonEmptySnoc(init, w);
    }
  }

  /** The words kept from dash-free pieces are non-empty and dash-free. */
  lemma {:induction false} NonEmptyWords(ps: seq<string>)
    requires forall k :: 0 <= k < |ps| ==> '-' !in ps[k]
    ensures forall k :: 0 <= k < |NonEmpty(ps)| ==> NonEmpty(ps)[k] != [] && '-' !in NonEmpty(ps)[k]
    decreases |ps|
  {
    if ps != [] {
      var init := ps[..|ps| - 1];
      assert forall k :: 0 <= k < |init| ==> init[k] == ps[k];
      NonEmptyWords(init);
    }
  }

  /** Joining words whose last one is not empty gives a non-empty string. */
  lemma JoinNonEmpty(ws: seq<string>)
    requires |ws| > 0 && ws[|ws| - 1] != []
    ensures Join(ws) != ""
  {
  }

  lemma JoinSnoc(ws: seq<string>, w: string)
    requires |ws| > 0
    ensures Join(ws + [w]) == Join(ws) + "-" + w
  {
    assert (ws + [w])[..|ws|] == ws;
  }

  /** Extending the last word extends the joined string. */
  lemma JoinExtendLast(ws: seq<string>, w: string, x: string)
    ensures Join(ws + [w + x]) == Join(ws + [w]) + x
  {
    if |ws| > 0 {
      JoinSnoc(ws, w + x);
      JoinSnoc(ws, w);
    } else {
      assert ws + [w + x] == [w + x];
      assert ws + [w] == [w];
    }
  }

  /** Trimming the single dash appended after a slug-shaped string. */
  lemma TrimEndDash(s: string)
    requires IsSlugShaped(s)
    ensures TrimEndDashes(s + "-") == s && TrimEndDashes(s) == s
  {
    assert (s + "-")[..|s|] == s;
  }

  // ---------------------------------------------------------------------
  // What a slug looks like

  /** Neither a leading nor a trailing dash, and no two dashes in a row. */
  ghost predicate IsSlugShaped(r: string) {
    && (r != [] ==> r[0] != '-' && r[|r| - 1] != '-')
    && forall i :: 0 <= i < |r| - 1 ==> !(r[i] == '-' && r[i + 1] == '-')
  }

  /** Non-empty, dash-free words joined by dashes make a slug-shaped
      string. */
  lemma {:induction false} JoinShape(ws: seq<string>)
    requires forall k :: 0 <= k < |ws| ==> ws[k] != [] && '-' !in ws[k]
    ensures IsSlugShaped(Join(ws))
    decreases |ws|
  {
    if |ws| > 1 {
      var init, w := ws[..|ws| - 1], ws[|ws| - 1];
      assert forall k :: 0 <= k < |init| ==> init[k] == ws[k];
      JoinShape(init);
      var a := Join(init);
      var r := a + "-" + w;
      assert Join(ws) == r;
      assert a != [] by {
        JoinNonEmpty(init);
      }
      forall i | 0 <= i < |r| - 1
        ensures !(r[i] == '-' && r[i + 1] == '-')
      {
        if i < |a| - 1 {
          assert r[i] == a[i] && r[i + 1] == a[i + 1];
        } else if i == |a| - 1 {
          assert r[i] == a[|a| - 1];
        } else if i == |a| {
          assert r[i + 1] == w[0];
        } else {
          assert r[i] == w[i - |a| - 1];
        }
      }
      assert r[0] == a[0];
      assert r[|r| - 1] in w;
    } else if |ws| == 1 {
      var w := ws[0];
      forall i | 0 <= i < |w| - 1
        ensures !(w[i] == '-' && w[i + 1] == '-')
      {
        assert w[i] in w;
      }
      assert w[0] in w && w[|w| - 1] in w;
    }
  }

  /** `slugify` never returns a leading or trailing dash nor two dashes in
      a row, whatever the text and the character tables. */
  lemma SlugShape(text: string, t: CharTables)
    ensures IsSlugShaped(Slug(text, t))
  {
    var ps := Split(Dashed(text, t));
    SplitDashFree(Dashed(text, t));
    NonEmptyWords(ps);
    JoinShape(NonEmpty(ps));
  }

  /** The characters of `s` that are not dashes, in order. */
  function Letters(s: string): string
    decreases |s|
  {
    if |s| == 0 then ""
    else if s[|s| - 1] == '-' then Letters(s[..|s| - 1])
    else Letters(s[..|s| - 1]) + [s[|s| - 1]]
  }

  /** The characters of `s` that the tables call alphanumeric (other than
      a dash), in order. */
  function Alphanumerics(s: string, t: CharTables): (r: string)
    ensures forall i :: 0 <= i < |r| ==> t.isAlphanumeric(r[i])
    decreases |s|
  {
    if |s| == 0 then ""
    else if t.isAlphanumeric(s[|s| - 1]) && s[|s| - 1] != '-' then Alphanumerics(s[..|s| - 1], t) + [s[|s| - 1]]
    else Alphanumerics(s[..|s| - 1], t)
  }

  /** The words laid end to end. */
  function Concat(ws: seq<string>): string
    decreases |ws|
  {
    if |ws| == 0 then "" else Concat(ws[..|ws| - 1]) + ws[|ws| - 1]
  }

  /** `slugify` keeps every alphanumeric character of the lowercased text,
      in order, and adds none: only dashes are dropped or collapsed. */
  lemma SlugKeepsAlphanumerics(text: string, t: CharTables)
    ensures Letters(Slug(text, t)) == Alphanumerics(t.lower(text), t)
  {
    var d := Dashed(text, t);
    var ps := Split(d);
    SplitDashFree(d);
    NonEmptyWords(ps);
    LettersJoin(NonEmpty(ps));
    ConcatNonEmpty(ps);
    LettersJoin(ps);
    JoinSplit(d);
    LettersDashOthers(t.lower(text), t);
  }

  /** Every character of a slug is a dash or alphanumeric. */
  lemma SlugCharacters(text: string, t: CharTables)
    ensures forall i :: 0 <= i < |Slug(text, t)| ==> Slug(text, t)[i] == '-' || t.isAlphanumeric(Slug(text, t)[i])
  {
    var r := Slug(text, t);
    SlugKeepsAlphanumerics(text, t);
    forall i | 0 <= i < |r| && r[i] != '-' ensures t.isAlphanumeric(r[i]) {
      LettersMember(r, i);
    }
  }

  /** A character other than a dash survives in `Letters`. */
  lemma {:induction false} LettersMember(s: string, i: nat)
    requires i < |s| && s[i] != '-'
    ensures s[i] in Letters(s)
    decreases |s|
  {
    if i < |s| - 1 {
      LettersMember(s[..|s| - 1], i);
    }
  }

  lemma {:induction false} LettersAppend(a: string, b: string)
    ensures Letters(a + b) == Letters(a) + Letters(b)
    decreases |b|
  {
    if b == [] {
      assert a + b == a;
    } else {
      assert (a + b)[..|a + b| - 1] == a + b[..|b| - 1];
      LettersAppend(a, b[..|b| - 1]);
    }
  }

  lemma {:induction false} LettersOfWord(w: string)
    requires '-' !in w
    ensures Letters(w) == w
    decreases |w|
  {
    if w != [] {
      assert w == w[..|w| - 1] + [w[|w| - 1]];
      LettersOfWord(w[..|w| - 1]);
    }
  }

  /** Dropping the dashes of joined dash-free words lays the words end to
      end. */
  lemma {:induction false} LettersJoin(ws: seq<string>)
    requires forall k :: 0 <= k < |ws| ==> '-' !in ws[k]
    ensures Letters(Join(ws)) == Concat(ws)
    decreases |ws|
  {
    if |ws| == 1 {
      LettersOfWord(ws[0]);
      assert ws[..0] == [];
    } else if |ws| > 1 {
      var init, w := ws[..|ws| - 1], ws[|ws| - 1];
      assert forall k :: 0 <= k < |init| ==> init[k] == ws[k];
      LettersJoin(init);
      LettersAppend(Join(init) + "-", w);
      LettersAppend(Join(init), "-");
      assert Letters("-") == "";
      LettersOfWord(w);
    }
  }

  lemma {:induction false} ConcatNonEmpty(ps: seq<string>)
    ensures Concat(NonEmpty(ps)) == Concat(ps)
    decreases |ps|
  {
    if |ps| > 0 {
      var init, w := ps[..|ps| - 1], ps[|ps| - 1];
      ConcatNonEmpty(init);
      if w != [] {
        assert (NonEmpty(init) + [w])[..|NonEmpty(init)|] == NonEmpty(init);
      }
    }
  }

  lemma {:induction false} LettersDashOthers(l: string, t: CharTables)
    ensures Letters(DashOthers(l, t.isAlphanumeric)) == Alphanumerics(l, t)
    decreases |l|
  {
    if l != [] {
      LettersDashOthers(l[..|l| - 1], t);
      var r := DashOthers(l, t.isAlphanumeric);
      assert r[..|r| - 1] == DashOthers(l[..|l| - 1], t.isAlphanumeric);
    }
  }

  // ---------------------------------------------------------------------
  // ASCII tables and the examples of the source's tests

  /** ASCII lowercasing: `A`..`Z` become `a`..`z`, all else is kept. */
  function AsciiLower(s: string): (r: string)
    ensures |r| == |s|
    ensures forall i :: 0 <= i < |s| ==> r[i] == AsciiLowerChar(s[i])
    decreases |s|
  {
    if s == [] then "" else AsciiLower(s[..|s| - 1]) + [AsciiLowerChar(s[|s| - 1])]
  }

  function AsciiLowerChar(c: char): char {
    if 'A' <= c <= 'Z' then (c as int + 32) as char else c
  }

  predicate IsAsciiAlphanumeric(c: char) {
    'a' <= c <= 'z' || 'A' <= c <= 'Z' || '0' <= c <= '9'
  }

  /** The tables restricted to ASCII, where Rust's Unicode tables agree
      with these. */
  const Ascii := CharTables(AsciiLower, IsAsciiAlphanumeric)
}
