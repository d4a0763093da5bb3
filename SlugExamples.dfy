/** The ASCII `slugify` tests at lines 637-659 of src-tauri/src/lib.rs,
    worked out under the ASCII tables. Each example is taken in stages:
    the dashed text, computed character by character; its pieces, read off
    one dash at a time; the non-empty words; and their join. Each stage is
    proved about strings equal to the literals rather than about the
    literals themselves, which keeps the proofs small. */
module SlugExamples {
  import opened Slug

  // ---------------------------------------------------------------------
  // Dashing under the ASCII tables

  /** What the `map` makes of one character under the ASCII tables. */
  function AsciiSlugChar(c: char): char {
    if IsAsciiAlphanumeric(c) then AsciiLowerChar(c) else '-'
  }

  /** The dashed text under the ASCII tables, character by character. */
  function AsciiDash(s: string): string
    decreases |s|
  {
    if s == [] then "" else AsciiDash(s[..|s| - 1]) + [AsciiSlugChar(s[|s| - 1])]
  }

  lemma {:induction false} AsciiDashAt(s: string)
    ensures |AsciiDash(s)| == |s|
    ensures forall i :: 0 <= i < |s| ==> AsciiDash(s)[i] == AsciiSlugChar(s[i])
    decreases |s|
  {
    if s != [] {
      AsciiDashAt(s[..|s| - 1]);
    }
  }

  /** Lowercasing an ASCII character does not change whether it is
      alphanumeric. */
  lemma LowerKeepsAlphanumeric(c: char)
    ensures IsAsciiAlphanumeric(AsciiLowerChar(c)) == IsAsciiAlphanumeric(c)
    ensures AsciiSlugChar(c) == if IsAsciiAlphanumeric(AsciiLowerChar(c)) then AsciiLowerChar(c) else '-'
  {
  }

  /** Under the ASCII tables, dashing works one character at a time. */
  lemma DashedIsAsciiDash(text: string)
    ensures Dashed(text, Ascii) == AsciiDash(text)
  {
    var l := AsciiLower(text);
    var d := DashOthers(l, IsAsciiAlphanumeric);
    assert Dashed(text, Ascii) == d;
    AsciiDashAt(text);
    forall i | 0 <= i < |text| ensures d[i] == AsciiDash(text)[i] {
      LowerKeepsAlphanumeric(text[i]);
    }
  }

  // ---------------------------------------------------------------------
  // Pieces, words and joins, one element at a time

  /** A dash-free piece in front of a dash is the first piece. */
  lemma SplitCons(a: string, rest: string)
    requires '-' !in a
    ensures Split(a + "-" + rest) == [a] + Split(rest)
  {
    SplitAppend(a, rest);
    SplitWord(a);
  }

  lemma NonEmptyOne(w: string)
    ensures NonEmpty([w]) == if w == [] then [] else [w]
  {
    NonEmptySnoc([], w);
    assert [] + [w] == [w];
  }

  lemma NonEmptyCons(w: string, ps: seq<string>)
    ensures NonEmpty([w] + ps) == if w == [] then NonEmpty(ps) else [w] + NonEmpty(ps)
  {
    NonEmptyAppend([w], ps);
    NonEmptyOne(w);
  }

  lemma Join1(a: string)
    ensures Join([a]) == a
  {
  }

  lemma Join2(a: string, b: string)
    ensures Join([a] + [b]) == a + "-" + b
  {
    assert ([a] + [b])[..1] == [a];
  }

  lemma Join3(a: string, b: string, c: string)
    ensures Join([a] + ([b] + [c])) == a + "-" + b + "-" + c
  {
    assert ([a] + ([b] + [c]))[..2] == [a] + [b];
    Join2(a, b);
  }

  // ---------------------------------------------------------------------
  // The layouts of the examples: words between runs of dashes

  /** The pieces of `a-b`. */
  lemma PiecesTwoWords(a: string, b: string)
    requires '-' !in a && '-' !in b
    ensures Split(a + "-" + b) == [a] + [b]
  {
    SplitCons(a, b);
    SplitWord(b);
  }

  lemma WordsTwoWords(a: string, b: string)
    requires a != [] && b != []
    ensures NonEmpty([a] + [b]) == [a] + [b]
  {
    NonEmptyCons(a, [b]);
    NonEmptyOne(b);
  }

  /** A text that dashes to `a-b` slugifies to its words joined by dashes. */
  lemma LayoutTwoWords(text: string, a: string, b: string)
    requires AsciiDash(text) == a + "-" + b
    requires '-' !in a && '-' !in b && a != [] && b != []
    ensures Slug.Slug(text, Ascii) == a + "-" + b
  {
    DashedIsAsciiDash(text);
    PiecesTwoWords(a, b);
    WordsTwoWords(a, b);
    Join2(a, b);
  }

  /** The pieces of `a--b-`. */
  lemma PiecesTwoWordsDashAfter(a: string, b: string)
    requires '-' !in a && '-' !in b
    ensures Split(a + "-" + ("" + "-" + (b + "-" + ""))) == [a] + ([""] + ([b] + [""]))
  {
    SplitCons(a, "" + "-" + (b + "-" + ""));
    SplitCons("", b + "-" + "");
    SplitCons(b, "");
  }

  lemma WordsTwoWordsDashAfter(a: string, b: string)
    requires a != [] && b != []
    ensures NonEmpty([a] + ([""] + ([b] + [""]))) == [a] + [b]
  {
    NonEmptyCons(a, [""] + ([b] + [""]));
    NonEmptyCons("", [b] + [""]);
    NonEmptyCons(b, [""]);
    NonEmptyOne("");
  }

  /** A text that dashes to `a--b-` slugifies to its words joined by dashes. */
  lemma LayoutTwoWordsDashAfter(text: string, a: string, b: string)
    requires AsciiDash(text) == a + "-" + ("" + "-" + (b + "-" + ""))
    requires '-' !in a && '-' !in b && a != [] && b != []
    ensures Slug.Slug(text, Ascii) == a + "-" + b
  {
    DashedIsAsciiDash(text);
    PiecesTwoWordsDashAfter(a, b);
    WordsTwoWordsDashAfter(a, b);
    Join2(a, b);
  }

  /** The pieces of `a----b`. */
  lemma PiecesTwoWordsFourDashes(a: string, b: string)
    requires '-' !in a && '-' !in b
    ensures Split(a + "-" + ("" + "-" + ("" + "-" + ("" + "-" + b)))) == [a] + ([""] + ([""] + ([""] + [b])))
  {
    SplitCons(a, "" + "-" + ("" + "-" + ("" + "-" + b)));
    SplitCons("", "" + "-" + ("" + "-" + b));
    SplitCons("", "" + "-" + b);
    SplitCons("", b);
    SplitWord(b);
  }

  lemma WordsTwoWordsFourDashes(a: string, b: string)
    requires a != [] && b != []
    ensures NonEmpty([a] + ([""] + ([""] + ([""] + [b])))) == [a] + [b]
  {
    NonEmptyCons(a, [""] + ([""] + ([""] + [b])));
    NonEmptyCons("", [""] + ([""] + [b]));
    NonEmptyCons("", [""] + [b]);
    NonEmptyCons("", [b]);
    NonEmptyOne(b);
  }

  /** A text that dashes to `a----b` slugifies to its words joined by dashes. */
  lemma LayoutTwoWordsFourDashes(text: string, a: string, b: string)
    requires AsciiDash(text) == a + "-" + ("" + "-" + ("" + "-" + ("" + "-" + b)))
    requires '-' !in a && '-' !in b && a != [] && b != []
    ensures Slug.Slug(text, Ascii) == a + "-" + b
  {
    DashedIsAsciiDash(text);
    PiecesTwoWordsFourDashes(a, b);
    WordsTwoWordsFourDashes(a, b);
    Join2(a, b);
  }

  /** The pieces of `a---b`. */
  lemma PiecesTwoWordsThreeDashes(a: string, b: string)
    requires '-' !in a && '-' !in b
    ensures Split(a + "-" + ("" + "-" + ("" + "-" + b))) == [a] + ([""] + ([""] + [b]))
  {
    SplitCons(a, "" + "-" + ("" + "-" + b));
    SplitCons("", "" + "-" + b);
    SplitCons("", b);
    SplitWord(b);
  }

  lemma WordsTwoWordsThreeDashes(a: string, b: string)
    requires a != [] && b != []
    ensures NonEmpty([a] + ([""] + ([""] + [b]))) == [a] + [b]
  {
    NonEmptyCons(a, [""] + ([""] + [b]));
    NonEmptyCons("", [""] + [b]);
    NonEmptyCons("", [b]);
    NonEmptyOne(b);
  }

  /** A text that dashes to `a---b` slugifies to its words joined by dashes. */
  lemma LayoutTwoWordsThreeDashes(text: string, a: string, b: string)
    requires AsciiDash(text) == a + "-" + ("" + "-" + ("" + "-" + b))
    requires '-' !in a && '-' !in b && a != [] && b != []
    ensures Slug.Slug(text, Ascii) == a + "-" + b
  {
    DashedIsAsciiDash(text);
    PiecesTwoWordsThreeDashes(a, b);
    WordsTwoWordsThreeDashes(a, b);
    Join2(a, b);
  }

  /** The pieces of `a--b--c`. */
  lemma PiecesThreeWordsTwoDashes(a: string, b: string, c: string)
    requires '-' !in a && '-' !in b && '-' !in c
    ensures Split(a + "-" + ("" + "-" + (b + "-" + ("" + "-" + c)))) == [a] + ([""] + ([b] + ([""] + [c])))
  {
    SplitCons(a, "" + "-" + (b + "-" + ("" + "-" + c)));
    SplitCons("", b + "-" + ("" + "-" + c));
    SplitCons(b, "" + "-" + c);
    SplitCons("", c);
    SplitWord(c);
  }

  lemma WordsThreeWordsTwoDashes(a: string, b: string, c: string)
    requires a != [] && b != [] && c != []
    ensures NonEmpty([a] + ([""] + ([b] + ([""] + [c])))) == [a] + ([b] + [c])
  {
    NonEmptyCons(a, [""] + ([b] + ([""] + [c])));
    NonEmptyCons("", [b] + ([""] + [c]));
    NonEmptyCons(b, [""] + [c]);
    NonEmptyCons("", [c]);
    NonEmptyOne(c);
  }

  /** A text that dashes to `a--b--c` slugifies to its words joined by dashes. */
  lemma LayoutThreeWordsTwoDashes(text: string, a: string, b: string, c: string)
    requires AsciiDash(text) == a + "-" + ("" + "-" + (b + "-" + ("" + "-" + c)))
    requires '-' !in a && '-' !in b && '-' !in c && a != [] && b != [] && c != []
    ensures Slug.Slug(text, Ascii) == a + "-" + b + "-" + c
  {
    DashedIsAsciiDash(text);
    PiecesThreeWordsTwoDashes(a, b, c);
    WordsThreeWordsTwoDashes(a, b, c);
    Join3(a, b, c);
  }

  /** The pieces of `--a--`. */
  lemma PiecesWordTwoDashesAround(a: string)
    requires '-' !in a
    ensures Split("" + "-" + ("" + "-" + (a + "-" + ("" + "-" + "")))) == [""] + ([""] + ([a] + ([""] + [""])))
  {
    SplitCons("", "" + "-" + (a + "-" + ("" + "-" + "")));
    SplitCons("", a + "-" + ("" + "-" + ""));
    SplitCons(a, "" + "-" + "");
    SplitCons("", "");
  }

  lemma WordsWordTwoDashesAround(a: string)
    requires a != []
    ensures NonEmpty([""] + ([""] + ([a] + ([""] + [""])))) == [a]
  {
    NonEmptyCons("", [""] + ([a] + ([""] + [""])));
    NonEmptyCons("", [a] + ([""] + [""]));
    NonEmptyCons(a, [""] + [""]);
    NonEmptyCons("", [""]);
    NonEmptyOne("");
  }

  /** A text that dashes to `--a--` slugifies to its words joined by dashes. */
  lemma LayoutWordTwoDashesAround(text: string, a: string)
    requires AsciiDash(text) == "" + "-" + ("" + "-" + (a + "-" + ("" + "-" + "")))
    requires '-' !in a && a != []
    ensures Slug.Slug(text, Ascii) == a
  {
    DashedIsAsciiDash(text);
    PiecesWordTwoDashesAround(a);
    WordsWordTwoDashesAround(a);
    Join1(a);
  }

  /** The pieces of `---a---`. */
  lemma PiecesWordThreeDashesAround(a: string)
    requires '-' !in a
    ensures Split("" + "-" + ("" + "-" + ("" + "-" + (a + "-" + ("" + "-" + ("" + "-" + "")))))) == [""] + ([""] + ([""] + ([a] + ([""] + ([""] + [""])))))
  {
    SplitCons("", "" + "-" + ("" + "-" + (a + "-" + ("" + "-" + ("" + "-" + "")))));
    SplitCons("", "" + "-" + (a + "-" + ("" + "-" + ("" + "-" + ""))));
    SplitCons("", a + "-" + ("" + "-" + ("" + "-" + "")));
    SplitCons(a, "" + "-" + ("" + "-" + ""));
    SplitCons("", "" + "-" + "");
    SplitCons("", "");
  }

  lemma WordsWordThreeDashesAround(a: string)
    requires a != []
    ensures NonEmpty([""] + ([""] + ([""] + ([a] + ([""] + ([""] + [""])))))) == [a]
  {
    NonEmptyCons("", [""] + ([""] + ([a] + ([""] + ([""] + [""])))));
    NonEmptyCons("", [""] + ([a] + ([""] + ([""] + [""]))));
    NonEmptyCons("", [a] + ([""] + ([""] + [""])));
    NonEmptyCons(a, [""] + ([""] + [""]));
    NonEmptyCons("", [""] + [""]);
    NonEmptyCons("", [""]);
    NonEmptyOne("");
  }

  /** A text that dashes to `---a---` slugifies to its words joined by dashes. */
  lemma LayoutWordThreeDashesAround(text: string, a: string)
    requires AsciiDash(text) == "" + "-" + ("" + "-" + ("" + "-" + (a + "-" + ("" + "-" + ("" + "-" + "")))))
    requires '-' !in a && a != []
    ensures Slug.Slug(text, Ascii) == a
  {
    DashedIsAsciiDash(text);
    PiecesWordThreeDashesAround(a);
    WordsWordThreeDashesAround(a);
    Join1(a);
  }

  // ---------------------------------------------------------------------
  // The examples

  /** "Hello World" gives "hello-world" (the test at lines 637-641). */
  lemma SlugBasic()
    ensures Slug.Slug("Hello World", Ascii) == "hello-world"
  {
    SlugBasicAt("Hello World", "hello-world", "hello", "world");
  }

  lemma SlugBasicAt(text: string, slug: string, a: string, b: string)
    requires text == "Hello World" && slug == "hello-world" && a == "hello" && b == "world"
    ensures Slug.Slug(text, Ascii) == slug
  {
    SlugBasicDashed(text, a, b);
    LayoutTwoWords(text, a, b);
    SlugBasicJoined(slug, a, b);
  }

  /** The words joined: "hello-world". */
  lemma SlugBasicJoined(slug: string, a: string, b: string)
    requires slug == "hello-world" && a == "hello" && b == "world"
    ensures a + "-" + b == slug
  {
    var j := a + "-" + b;
    assert |j| == |slug| == 11;
    assert j[0] == slug[0];
    assert j[1] == slug[1];
    assert j[2] == slug[2];
    assert j[3] == slug[3];
    assert j[4] == slug[4];
    assert j[5] == slug[5];
    assert j[6] == slug[6];
    assert j[7] == slug[7];
    assert j[8] == slug[8];
    assert j[9] == slug[9];
    assert j[10] == slug[10];
  }

  /** The text dashed: "hello-world". */
  lemma SlugBasicDashed(text: string, a: string, b: string)
    requires text == "Hello World" && a == "hello" && b == "world"
    ensures AsciiDash(text) == a + "-" + b
  {
    var d := a + "-" + b;
    AsciiDashAt(text);
    assert |text| == |d| == 11;
    assert AsciiSlugChar(text[0]) == d[0];
    assert AsciiSlugChar(text[1]) == d[1];
    assert AsciiSlugChar(text[2]) == d[2];
    assert AsciiSlugChar(text[3]) == d[3];
    assert AsciiSlugChar(text[4]) == d[4];
    assert AsciiSlugChar(text[5]) == d[5];
    assert AsciiSlugChar(text[6]) == d[6];
    assert AsciiSlugChar(text[7]) == d[7];
    assert AsciiSlugChar(text[8]) == d[8];
    assert AsciiSlugChar(text[9]) == d[9];
    assert AsciiSlugChar(text[10]) == d[10];
  }

  /** "My Note" gives "my-note" (the test at lines 637-641). */
  lemma SlugNote()
    ensures Slug.Slug("My Note", Ascii) == "my-note"
  {
    SlugNoteAt("My Note", "my-note", "my", "note");
  }

  lemma SlugNoteAt(text: string, slug: string, a: string, b: string)
    requires text == "My Note" && slug == "my-note" && a == "my" && b == "note"
    ensures Slug.Slug(text, Ascii) == slug
  {
    SlugNoteDashed(text, a, b);
    LayoutTwoWords(text, a, b);
    SlugNoteJoined(slug, a, b);
  }

  /** The words joined: "my-note". */
  lemma SlugNoteJoined(slug: string, a: string, b: string)
    requires slug == "my-note" && a == "my" && b == "note"
    ensures a + "-" + b == slug
  {
    var j := a + "-" + b;
    assert |j| == |slug| == 7;
    assert j[0] == slug[0];
    assert j[1] == slug[1];
    assert j[2] == slug[2];
    assert j[3] == slug[3];
    assert j[4] == slug[4];
    assert j[5] == slug[5];
    assert j[6] == slug[6];
  }

  /** The text dashed: "my-note". */
  lemma SlugNoteDashed(text: string, a: string, b: string)
    requires text == "My Note" && a == "my" && b == "note"
    ensures AsciiDash(text) == a + "-" + b
  {
    var d := a + "-" + b;
    AsciiDashAt(text);
    assert |text| == |d| == 7;
    assert AsciiSlugChar(text[0]) == d[0];
    assert AsciiSlugChar(text[1]) == d[1];
    assert AsciiSlugChar(text[2]) == d[2];
    assert AsciiSlugChar(text[3]) == d[3];
    assert AsciiSlugChar(text[4]) == d[4];
    assert AsciiSlugChar(text[5]) == d[5];
    assert AsciiSlugChar(text[6]) == d[6];
  }

  /** "Hello! World?" gives "hello-world" (the test at lines 643-647). */
  lemma SlugPunctuation()
    ensures Slug.Slug("Hello! World?", Ascii) == "hello-world"
  {
    SlugPunctuationAt("Hello! World?", "hello-world", "hello", "world");
  }

  lemma SlugPunctuationAt(text: string, slug: string, a: string, b: string)
    requires text == "Hello! World?" && slug == "hello-world" && a == "hello" && b == "world"
    ensures Slug.Slug(text, Ascii) == slug
  {
    SlugPunctuationDashed(text, a, b);
    LayoutTwoWordsDashAfter(text, a, b);
    SlugPunctuationJoined(slug, a, b);
  }

  /** The words joined: "hello-world". */
  lemma SlugPunctuationJoined(slug: string, a: string, b: string)
    requires slug == "hello-world" && a == "hello" && b == "world"
    ensures a + "-" + b == slug
  {
    var j := a + "-" + b;
    assert |j| == |slug| == 11;
    assert j[0] == slug[0];
    assert j[1] == slug[1];
    assert j[2] == slug[2];
    assert j[3] == slug[3];
    assert j[4] == slug[4];
    assert j[5] == slug[5];
    assert j[6] == slug[6];
    assert j[7] == slug[7];
    assert j[8] == slug[8];
    assert j[9] == slug[9];
    assert j[10] == slug[10];
  }

  /** The text dashed: "hello--world-". */
  lemma SlugPunctuationDashed(text: string, a: string, b: string)
    requires text == "Hello! World?" && a == "hello" && b == "world"
    ensures AsciiDash(text) == a + "-" + ("" + "-" + (b + "-" + ""))
  {
    var d := a + "-" + ("" + "-" + (b + "-" + ""));
    AsciiDashAt(text);
    assert |text| == |d| == 13;
    assert AsciiSlugChar(text[0]) == d[0];
    assert AsciiSlugChar(text[1]) == d[1];
    assert AsciiSlugChar(text[2]) == d[2];
    assert AsciiSlugChar(text[3]) == d[3];
    assert AsciiSlugChar(text[4]) == d[4];
    assert AsciiSlugChar(text[5]) == d[5];
    assert AsciiSlugChar(text[6]) == d[6];
    assert AsciiSlugChar(text[7]) == d[7];
    assert AsciiSlugChar(text[8]) == d[8];
    assert AsciiSlugChar(text[9]) == d[9];
    assert AsciiSlugChar(text[10]) == d[10];
    assert AsciiSlugChar(text[11]) == d[11];
    assert AsciiSlugChar(text[12]) == d[12];
  }

  /** "Test@#$%Name" gives "test-name" (the test at lines 643-647). */
  lemma SlugSymbols()
    ensures Slug.Slug("Test@#$%Name", Ascii) == "test-name"
  {
    SlugSymbolsAt("Test@#$%Name", "test-name", "test", "name");
  }

  lemma SlugSymbolsAt(text: string, slug: string, a: string, b: string)
    requires text == "Test@#$%Name" && slug == "test-name" && a == "test" && b == "name"
    ensures Slug.Slug(text, Ascii) == slug
  {
    SlugSymbolsDashed(text, a, b);
    LayoutTwoWordsFourDashes(text, a, b);
    SlugSymbolsJoined(slug, a, b);
  }

  /** The words joined: "test-name". */
  lemma SlugSymbolsJoined(slug: string, a: string, b: string)
    requires slug == "test-name" && a == "test" && b == "name"
    ensures a + "-" + b == slug
  {
    var j := a + "-" + b;
    assert |j| == |slug| == 9;
    assert j[0] == slug[0];
    assert j[1] == slug[1];
    assert j[2] == slug[2];
    assert j[3] == slug[3];
    assert j[4] == slug[4];
    assert j[5] == slug[5];
    assert j[6] == slug[6];
    assert j[7] == slug[7];
    assert j[8] == slug[8];
  }

  /** The text dashed: "test----name". */
  lemma SlugSymbolsDashed(text: string, a: string, b: string)
    requires text == "Test@#$%Name" && a == "test" && b == "name"
    ensures AsciiDash(text) == a + "-" + ("" + "-" + ("" + "-" + ("" + "-" + b)))
  {
    var d := a + "-" + ("" + "-" + ("" + "-" + ("" + "-" + b)));
    AsciiDashAt(text);
    assert |text| == |d| == 12;
    assert AsciiSlugChar(text[0]) == d[0];
    assert AsciiSlugChar(text[1]) == d[1];
    assert AsciiSlugChar(text[2]) == d[2];
    assert AsciiSlugChar(text[3]) == d[3];
    assert AsciiSlugChar(text[4]) == d[4];
    assert AsciiSlugChar(text[5]) == d[5];
    assert AsciiSlugChar(text[6]) == d[6];
    assert AsciiSlugChar(text[7]) == d[7];
    assert AsciiSlugChar(text[8]) == d[8];
    assert AsciiSlugChar(text[9]) == d[9];
    assert AsciiSlugChar(text[10]) == d[10];
    assert AsciiSlugChar(text[11]) == d[11];
  }

  /** "Hello   World" gives "hello-world" (the test at lines 649-653). */
  lemma SlugSpaces()
    ensures Slug.Slug("Hello   World", Ascii) == "hello-world"
  {
    SlugSpacesAt("Hello   World", "hello-world", "hello", "world");
  }

  lemma SlugSpacesAt(text: string, slug: string, a: string, b: string)
    requires text == "Hello   World" && slug == "hello-world" && a == "hello" && b == "world"
    ensures Slug.Slug(text, Ascii) == slug
  {
    SlugSpacesDashed(text, a, b);
    LayoutTwoWordsThreeDashes(text, a, b);
    SlugSpacesJoined(slug, a, b);
  }

  /** The words joined: "hello-world". */
  lemma SlugSpacesJoined(slug: string, a: string, b: string)
    requires slug == "hello-world" && a == "hello" && b == "world"
    ensures a + "-" + b == slug
  {
    var j := a + "-" + b;
    assert |j| == |slug| == 11;
    assert j[0] == slug[0];
    assert j[1] == slug[1];
    assert j[2] == slug[2];
    assert j[3] == slug[3];
    assert j[4] == slug[4];
    assert j[5] == slug[5];
    assert j[6] == slug[6];
    assert j[7] == slug[7];
    assert j[8] == slug[8];
    assert j[9] == slug[9];
    assert j[10] == slug[10];
  }

  /** The text dashed: "hello---world". */
  lemma SlugSpacesDashed(text: string, a: string, b: string)
    requires text == "Hello   World" && a == "hello" && b == "world"
    ensures AsciiDash(text) == a + "-" + ("" + "-" + ("" + "-" + b))
  {
    var d := a + "-" + ("" + "-" + ("" + "-" + b));
    AsciiDashAt(text);
    assert |text| == |d| == 13;
    assert AsciiSlugChar(text[0]) == d[0];
    assert AsciiSlugChar(text[1]) == d[1];
    assert AsciiSlugChar(text[2]) == d[2];
    assert AsciiSlugChar(text[3]) == d[3];
    assert AsciiSlugChar(text[4]) == d[4];
    assert AsciiSlugChar(text[5]) == d[5];
    assert AsciiSlugChar(text[6]) == d[6];
    assert AsciiSlugChar(text[7]) == d[7];
    assert AsciiSlugChar(text[8]) == d[8];
    assert AsciiSlugChar(text[9]) == d[9];
    assert AsciiSlugChar(text[10]) == d[10];
    assert AsciiSlugChar(text[11]) == d[11];
    assert AsciiSlugChar(text[12]) == d[12];
  }

  /** "A--B--C" gives "a-b-c" (the test at lines 649-653). */
  lemma CollapsesRuns()
    ensures Slug.Slug("A--B--C", Ascii) == "a-b-c"
  {
    CollapsesRunsAt("A--B--C", "a-b-c", "a", "b", "c");
  }

  lemma CollapsesRunsAt(text: string, slug: string, a: string, b: string, c: string)
    requires text == "A--B--C" && slug == "a-b-c" && a == "a" && b == "b" && c == "c"
    ensures Slug.Slug(text, Ascii) == slug
  {
    CollapsesRunsDashed(text, a, b, c);
    LayoutThreeWordsTwoDashes(text, a, b, c);
    CollapsesRunsJoined(slug, a, b, c);
  }

  /** The words joined: "a-b-c". */
  lemma CollapsesRunsJoined(slug: string, a: string, b: string, c: string)
    requires slug == "a-b-c" && a == "a" && b == "b" && c == "c"
    ensures a + "-" + b + "-" + c == slug
  {
    var j := a + "-" + b + "-" + c;
    assert |j| == |slug| == 5;
    assert j[0] == slug[0];
    assert j[1] == slug[1];
    assert j[2] == slug[2];
    assert j[3] == slug[3];
    assert j[4] == slug[4];
  }

  /** The text dashed: "a--b--c". */
  lemma CollapsesRunsDashed(text: string, a: string, b: string, c: string)
    requires text == "A--B--C" && a == "a" && b == "b" && c == "c"
    ensures AsciiDash(text) == a + "-" + ("" + "-" + (b + "-" + ("" + "-" + c)))
  {
    var d := a + "-" + ("" + "-" + (b + "-" + ("" + "-" + c)));
    AsciiDashAt(text);
    assert |text| == |d| == 7;
    assert AsciiSlugChar(text[0]) == d[0];
    assert AsciiSlugChar(text[1]) == d[1];
    assert AsciiSlugChar(text[2]) == d[2];
    assert AsciiSlugChar(text[3]) == d[3];
    assert AsciiSlugChar(text[4]) == d[4];
    assert AsciiSlugChar(text[5]) == d[5];
    assert AsciiSlugChar(text[6]) == d[6];
  }

  /** "  Hello  " gives "hello" (the test at lines 655-659). */
  lemma SlugPadded()
    ensures Slug.Slug("  Hello  ", Ascii) == "hello"
  {
    SlugPaddedAt("  Hello  ", "hello", "hello");
  }

  lemma SlugPaddedAt(text: string, slug: string, a: string)
    requires text == "  Hello  " && slug == "hello" && a == "hello"
    ensures Slug.Slug(text, Ascii) == slug
  {
    SlugPaddedDashed(text, a);
    LayoutWordTwoDashesAround(text, a);
    SlugPaddedJoined(slug, a);
  }

  /** The words joined: "hello". */
  lemma SlugPaddedJoined(slug: string, a: string)
    requires slug == "hello" && a == "hello"
    ensures a == slug
  {
    var j := a;
    assert |j| == |slug| == 5;
    assert j[0] == slug[0];
    assert j[1] == slug[1];
    assert j[2] == slug[2];
    assert j[3] == slug[3];
    assert j[4] == slug[4];
  }

  /** The text dashed: "--hello--". */
  lemma SlugPaddedDashed(text: string, a: string)
    requires text == "  Hello  " && a == "hello"
    ensures AsciiDash(text) == "" + "-" + ("" + "-" + (a + "-" + ("" + "-" + "")))
  {
    var d := "" + "-" + ("" + "-" + (a + "-" + ("" + "-" + "")));
    AsciiDashAt(text);
    assert |text| == |d| == 9;
    assert AsciiSlugChar(text[0]) == d[0];
    assert AsciiSlugChar(text[1]) == d[1];
    assert AsciiSlugChar(text[2]) == d[2];
    assert AsciiSlugChar(text[3]) == d[3];
    assert AsciiSlugChar(text[4]) == d[4];
    assert AsciiSlugChar(text[5]) == d[5];
    assert AsciiSlugChar(text[6]) == d[6];
    assert AsciiSlugChar(text[7]) == d[7];
    assert AsciiSlugChar(text[8]) == d[8];
  }

  /** "---test---" gives "test" (the test at lines 655-659). */
  lemma TrimsEnds()
    ensures Slug.Slug("---test---", Ascii) == "test"
  {
    TrimsEndsAt("---test---", "test", "test");
  }

  lemma TrimsEndsAt(text: string, slug: string, a: string)
    requires text == "---test---" && slug == "test" && a == "test"
    ensures Slug.Slug(text, Ascii) == slug
  {
    TrimsEndsDashed(text, a);
    LayoutWordThreeDashesAround(text, a);
    TrimsEndsJoined(slug, a);
  }

  /** The words joined: "test". */
  lemma TrimsEndsJoined(slug: string, a: string)
    requires slug == "test" && a == "test"
    ensures a == slug
  {
    var j := a;
    assert |j| == |slug| == 4;
    assert j[0] == slug[0];
    assert j[1] == slug[1];
    assert j[2] == slug[2];
    assert j[3] == slug[3];
  }

  /** The text dashed: "---test---". */
  lemma TrimsEndsDashed(text: string, a: string)
    requires text == "---test---" && a == "test"
    ensures AsciiDash(text) == "" + "-" + ("" + "-" + ("" + "-" + (a + "-" + ("" + "-" + ("" + "-" + "")))))
  {
    var d := "" + "-" + ("" + "-" + ("" + "-" + (a + "-" + ("" + "-" + ("" + "-" + "")))));
    AsciiDashAt(text);
    assert |text| == |d| == 10;
    assert AsciiSlugChar(text[0]) == d[0];
    assert AsciiSlugChar(text[1]) == d[1];
    assert AsciiSlugChar(text[2]) == d[2];
    assert AsciiSlugChar(text[3]) == d[3];
    assert AsciiSlugChar(text[4]) == d[4];
    assert AsciiSlugChar(text[5]) == d[5];
    assert AsciiSlugChar(text[6]) == d[6];
    assert AsciiSlugChar(text[7]) == d[7];
    assert AsciiSlugChar(text[8]) == d[8];
    assert AsciiSlugChar(text[9]) == d[9];
  }
}
