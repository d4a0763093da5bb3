/** Note file names and titles (src-tauri/src/lib.rs): a note lives in
    `<number>-<slug>.md`; the number orders the notes and the slug comes
    from the note's first `# ` heading. This module holds the pure string
    rules behind those names. */
module NoteNames {
  import opened Util
  import opened Decimal
  import Slug

  // ---------------------------------------------------------------------
  // The number prefix

  /** `parse_file_number`: the text before the first dash, read as a `u64`;
      no dash, or a prefix that is not a `u64`, gives `None`. */
  function ParseFileNumber(name: string): (r: Option<nat>)
    ensures '-' !in name ==> r.None?
    ensures r.Some? ==> r.value <= U64_MAX
  {
    match IndexOf(name, '-')
    case None => None
    case Some(k) => ParseU64(name[..k])
  }

  /** When `k` is the position of the first dash, the number is what the
      text before it parses to. */
  lemma FileNumberPrefix(name: string, k: nat)
    requires k < |name| && name[k] == '-' && '-' !in name[..k]
    ensures ParseFileNumber(name) == ParseU64(name[..k])
  {
    FirstUnique(name, '-', IndexOf(name, '-').value, k);
  }

  /** The number of a stem that starts with a dash-free prefix and a dash
      is what the prefix parses to. */
  lemma NumberedPrefix(d: string, slug: string)
    requires '-' !in d
    ensures ParseFileNumber(d + "-" + slug) == ParseU64(d)
  {
    var stem := d + "-" + slug;
    assert stem[..|d|] == d;
    assert stem[|d|] == '-';
    FileNumberPrefix(stem, |d|);
  }

  /** The ordinal prefix of a stem built from a number and a slug reads
      back as that number, whatever the slug. */
  lemma NumberedStemRoundTrip(n: nat, slug: string)
    requires n <= U64_MAX
    ensures ParseFileNumber(ToDecimal(n) + "-" + slug) == Some(n)
  {
    NumberedPrefix(ToDecimal(n), slug);
    ParseToDecimal(n);
  }

  /** The cases of the tests at lines 667-678. */
  lemma FileNumberExamples()
    ensures ParseFileNumber("1-hello") == Some(1)
    ensures ParseFileNumber("42-my-note") == Some(42)
    ensures ParseFileNumber("100-test") == Some(100)
    ensures ParseFileNumber("hello") == None
    ensures ParseFileNumber("abc-123") == None
    ensures ParseFileNumber("-test") == None
  {
    FileNumberOne("1-hello", "1", "hello");
    FileNumberFortyTwo("42-my-note", "42", "my-note");
    FileNumberHundred("100-test", "100", "test");
    FileNumberNoDash("hello");
    FileNumberLetters("abc-123", "abc", "123");
    FileNumberLeadingDash("-test", "", "test");
  }

  lemma FileNumberOne(c: string, d: string, slug: string)
    requires c == "1-hello" && d == "1" && slug == "hello"
    ensures ParseFileNumber(c) == Some(1)
  {
    FileNumberOneText(c, d, slug);
    assert ToDecimal(1) == d;
    NumberedStemRoundTrip(1, slug);
  }

  lemma FileNumberFortyTwo(c: string, d: string, slug: string)
    requires c == "42-my-note" && d == "42" && slug == "my-note"
    ensures ParseFileNumber(c) == Some(42)
  {
    FileNumberFortyTwoText(c, d, slug);
    assert ToDecimal(42) == ToDecimal(4) + [Digit(2)];
    assert ToDecimal(42) == d;
    NumberedStemRoundTrip(42, slug);
  }

  lemma FileNumberHundred(c: string, d: string, slug: string)
    requires c == "100-test" && d == "100" && slug == "test"
    ensures ParseFileNumber(c) == Some(100)
  {
    FileNumberHundredText(c, d, slug);
    assert ToDecimal(10) == ToDecimal(1) + [Digit(0)];
    assert ToDecimal(100) == ToDecimal(10) + [Digit(0)];
    assert ToDecimal(100) == d;
    NumberedStemRoundTrip(100, slug);
  }

  lemma FileNumberNoDash(c: string)
    requires c == "hello"
    ensures ParseFileNumber(c) == None
  {
    assert '-' !in c;
  }

  /** The text before the dash does not start with a digit. */
  lemma FileNumberLetters(c: string, d: string, rest: string)
    requires c == "abc-123" && d == "abc" && rest == "123"
    ensures ParseFileNumber(c) == None
  {
    FileNumberLettersText(c, d, rest);
    NumberedPrefix(d, rest);
    assert !IsDigit(d[0]) && d[0] != '+';
  }

  /** Nothing comes before the dash. */
  lemma FileNumberLeadingDash(c: string, d: string, rest: string)
    requires c == "-test" && d == "" && rest == "test"
    ensures ParseFileNumber(c) == None
  {
    FileNumberLeadingDashText(c, d, rest);
    NumberedPrefix(d, rest);
  }

  /** "1-hello" is the number, a dash and the slug. */
  lemma FileNumberOneText(c: string, d: string, slug: string)
    requires c == "1-hello" && d == "1" && slug == "hello"
    ensures c == d + "-" + slug
  {
    var s := d + "-" + slug;
    assert |c| == |s| == 7;
    assert c[0] == s[0];
    assert c[1] == s[1];
    assert c[2] == s[2];
    assert c[3] == s[3];
    assert c[4] == s[4];
    assert c[5] == s[5];
    assert c[6] == s[6];
  }

  /** "42-my-note" is the number, a dash and the slug. */
  lemma FileNumberFortyTwoText(c: string, d: string, slug: string)
    requires c == "42-my-note" && d == "42" && slug == "my-note"
    ensures c == d + "-" + slug
  {
    var s := d + "-" + slug;
    assert |c| == |s| == 10;
    assert c[0] == s[0];
    assert c[1] == s[1];
    assert c[2] == s[2];
    assert c[3] == s[3];
    assert c[4] == s[4];
    assert c[5] == s[5];
    assert c[6] == s[6];
    assert c[7] == s[7];
    assert c[8] == s[8];
    assert c[9] == s[9];
  }

  /** "100-test" is the number, a dash and the slug. */
  lemma FileNumberHundredText(c: string, d: string, slug: string)
    requires c == "100-test" && d == "100" && slug == "test"
    ensures c == d + "-" + slug
  {
    var s := d + "-" + slug;
    assert |c| == |s| == 8;
    assert c[0] == s[0];
    assert c[1] == s[1];
    assert c[2] == s[2];
    assert c[3] == s[3];
    assert c[4] == s[4];
    assert c[5] == s[5];
    assert c[6] == s[6];
    assert c[7] == s[7];
  }

  /** "abc-123" is a prefix without a dash, a dash and the rest. */
  lemma FileNumberLettersText(c: string, d: string, rest: string)
    requires c == "abc-123" && d == "abc" && rest == "123"
    ensures c == d + "-" + rest
  {
    var s := d + "-" + rest;
    assert |c| == |s| == 7;
    assert c[0] == s[0];
    assert c[1] == s[1];
    assert c[2] == s[2];
    assert c[3] == s[3];
    assert c[4] == s[4];
    assert c[5] == s[5];
    assert c[6] == s[6];
  }

  /** "-test" is an empty prefix, a dash and the rest. */
  lemma FileNumberLeadingDashText(c: string, d: string, rest: string)
    requires c == "-test" && d == "" && rest == "test"
    ensures c == d + "-" + rest
  {
    var s := d + "-" + rest;
    assert |c| == |s| == 5;
    assert c[0] == s[0];
    assert c[1] == s[1];
    assert c[2] == s[2];
    assert c[3] == s[3];
    assert c[4] == s[4];
  }

  // ---------------------------------------------------------------------
  // Old timestamp stems

  /** `is_old_timestamp_format`: at least ten characters, all ASCII digits.
      The source compares the length in bytes; a string of ASCII digits has
      one byte per character, and any other string fails the digit test. */
  predicate IsOldTimestampFormat(name: string) {
    |name| >= 10 && AllDigits(name)
  }

  /** An old timestamp stem has no dash, so it never reads as numbered. */
  lemma OldTimestampUnnumbered(name: string)
    requires IsOldTimestampFormat(name)
    ensures ParseFileNumber(name).None?
  {
    forall k | 0 <= k < |name| ensures name[k] != '-' {
      assert IsDigit(name[k]);
    }
  }

  /** The cases of the tests at lines 680-691. */
  lemma OldTimestampExamples()
    ensures IsOldTimestampFormat("1704067200000")
    ensures IsOldTimestampFormat("1234567890")
    ensures !IsOldTimestampFormat("123")
    ensures !IsOldTimestampFormat("abc1234567")
    ensures !IsOldTimestampFormat("12-hello")
  {
    assert !IsDigit("abc1234567"[0]);
    assert !IsDigit("12-hello"[2]);
  }

  // ---------------------------------------------------------------------
  // The next free number

  /** The largest number among the numbered stems, 0 when none is
      numbered: the `max().unwrap_or(0)` of `get_next_number`. */
  function MaxNumber(stems: seq<string>): (m: nat)
    ensures forall i :: 0 <= i < |stems| && ParseFileNumber(stems[i]).Some? ==> ParseFileNumber(stems[i]).value <= m
    ensures m == 0 || exists i :: 0 <= i < |stems| && ParseFileNumber(stems[i]).Some? && ParseFileNumber(stems[i]).value == m
    decreases |stems|
  {
    if stems == [] then 0
    else
      var rest := MaxNumber(stems[1..]);
      assert forall i :: 1 <= i < |stems| ==> stems[i] == stems[1..][i - 1];
      match ParseFileNumber(stems[0])
      case None => rest
      case Some(n) => if n > rest then n else rest
  }

  /** `get_next_number`: one more than the largest number in use, 1 in a
      directory without numbered notes. */
  function NextNumber(stems: seq<string>): (n: nat)
    ensures n >= 1
    ensures forall i :: 0 <= i < |stems| && ParseFileNumber(stems[i]).Some? ==> ParseFileNumber(stems[i]).value < n
    ensures n == 1 || exists i :: 0 <= i < |stems| && ParseFileNumber(stems[i]).Some? && ParseFileNumber(stems[i]).value + 1 == n
  {
    MaxNumber(stems) + 1
  }

  /** The stem `create_note` writes (line 444): the next number and the
      slug "untitled". */
  function NewNoteStem(stems: seq<string>): string {
    ToDecimal(NextNumber(stems)) + "-" + "untitled"
  }

  /** The stem of a new note is not the stem of any entry already in the
      directory, as long as the next number is itself a `u64`. */
  lemma NewNoteStemFresh(stems: seq<string>)
    requires NextNumber(stems) <= U64_MAX
    ensures NewNoteStem(stems) !in stems
  {
    NextNumberStemFresh(stems, "untitled");
  }

  /** Whatever the slug, a stem with the next number is not listed yet. */
  lemma NextNumberStemFresh(stems: seq<string>, slug: string)
    requires NextNumber(stems) <= U64_MAX
    ensures ToDecimal(NextNumber(stems)) + "-" + slug !in stems
  {
    var n := NextNumber(stems);
    var stem := ToDecimal(n) + "-" + slug;
    NumberedStemRoundTrip(n, slug);
    forall i | 0 <= i < |stems| ensures stems[i] != stem {
      assert ParseFileNumber(stems[i]).Some? ==> ParseFileNumber(stems[i]).value < n;
    }
  }

  // ---------------------------------------------------------------------
  // Lines and titles

  /** A line without its final carriage return. */
  function StripCR(l: string): (r: string)
    ensures r == l || r + "\r" == l
    ensures r + "\r" == l <==> |l| > 0 && l[|l| - 1] == '\r'
  {
    if |l| > 0 && l[|l| - 1] == '\r' then l[..|l| - 1] else l
  }

  /** `str::lines`: the text split at each line feed, a carriage return
      just before a line feed dropped with it, and no empty line after a
      final line feed. */
  function Lines(s: string): (ls: seq<string>)
    ensures forall i :: 0 <= i < |ls| ==> '\n' !in ls[i]
    ensures s == [] <==> ls == []
    decreases |s|
  {
    if s == [] then []
    else
      match IndexOf(s, '\n')
      case None => [s]
      case Some(k) => [StripCR(s[..k])] + Lines(s[k + 1..])
  }

  /** A line without a line feed followed by one and more text. */
  lemma LinesCons(l: string, rest: string)
    requires '\n' !in l
    ensures Lines(l + "\n" + rest) == [StripCR(l)] + Lines(rest)
  {
    var s := l + "\n" + rest;
    assert s[..|l|] == l;
    assert s[|l|] == '\n';
    IndexOfAt(s, '\n', |l|);
    assert s[|l| + 1..] == rest;
  }

  /** Text without a line feed is one line, kept whole. */
  lemma LinesOne(l: string)
    requires l != [] && '\n' !in l
    ensures Lines(l) == [l]
  {
  }

  /** The lines a heading search accepts: they start with `# `. */
  predicate IsHeading(l: string) {
    |l| >= 2 && l[0] == '#' && l[1] == ' '
  }

  /** `trim_start_matches("# ")`: every leading `# ` removed, one after
      another. */
  function TrimMarker(l: string): (r: string)
    ensures !IsHeading(r)
    ensures l == Markers(MarkerCount(l)) + r
    decreases |l|
  {
    if IsHeading(l) then
      var r := TrimMarker(l[2..]);
      MarkersCons(MarkerCount(l[2..]), r);
      assert l == "# " + l[2..];
      r
    else
      l
  }

  /** How many leading `# ` the text starts with. */
  function MarkerCount(l: string): nat
    decreases |l|
  {
    if IsHeading(l) then MarkerCount(l[2..]) + 1 else 0
  }

  /** `k` copies of the marker `# `. */
  function Markers(k: nat): string {
    if k == 0 then "" else "# " + Markers(k - 1)
  }

  lemma MarkersCons(k: nat, r: string)
    ensures Markers(k + 1) + r == "# " + (Markers(k) + r)
  {
    assert Markers(k + 1) == "# " + Markers(k);
  }

  /** Position of the first heading among the lines. */
  function FirstHeading(ls: seq<string>): (r: Option<nat>)
    ensures r.None? <==> forall i :: 0 <= i < |ls| ==> !IsHeading(ls[i])
    ensures r.Some? ==> r.value < |ls| && IsHeading(ls[r.value]) && forall i :: 0 <= i < r.value ==> !IsHeading(ls[i])
    decreases |ls|
  {
    if ls == [] then None
    else if IsHeading(ls[0]) then Some(0)
    else
      assert forall i :: 1 <= i < |ls| ==> ls[i] == ls[1..][i - 1];
      match FirstHeading(ls[1..])
      case None => None
      case Some(k) => Some(k + 1)
  }

  /** `parse_title`: the first line that starts with `# `, with its leading
      markers removed; "Untitled" when no line does. The title itself never
      starts with `# `. */
  function ParseTitle(content: string): (title: string)
    ensures !IsHeading(title)
  {
    TitleOfLines(Lines(content))
  }

  /** The title found among the lines. */
  function TitleOfLines(ls: seq<string>): (title: string)
    ensures !IsHeading(title)
  {
    match FirstHeading(ls)
    case None => "Untitled"
    case Some(k) => TrimMarker(ls[k])
  }

  /** The title is the first heading line, markers removed, whatever
      lines come before it. */
  lemma TitleIsFirstHeading(content: string, k: nat)
    requires var ls := Lines(content);
      k < |ls| && IsHeading(ls[k]) && forall i :: 0 <= i < k ==> !IsHeading(ls[i])
    ensures ParseTitle(content) == TrimMarker(Lines(content)[k])
  {
    FirstHeadingAt(Lines(content), k);
  }

  lemma FirstHeadingAt(ls: seq<string>, k: nat)
    requires k < |ls| && IsHeading(ls[k]) && forall i :: 0 <= i < k ==> !IsHeading(ls[i])
    ensures FirstHeading(ls) == Some(k)
  {
  }

  /** Without a heading line the title is "Untitled". */
  lemma TitleWithoutHeading(content: string)
    requires forall i :: 0 <= i < |Lines(content)| ==> !IsHeading(Lines(content)[i])
    ensures ParseTitle(content) == "Untitled"
  {
  }

  lemma FirstHeadingSkip(x: string, ls: seq<string>)
    requires !IsHeading(x)
    ensures FirstHeading([x] + ls) == match FirstHeading(ls) case None => None case Some(k) => Some(k + 1)
  {
    assert ([x] + ls)[1..] == ls;
  }

  lemma TitleOfLinesSkip(x: string, ls: seq<string>)
    requires !IsHeading(x)
    ensures TitleOfLines([x] + ls) == TitleOfLines(ls)
  {
    FirstHeadingSkip(x, ls);
    match FirstHeading(ls)
    case None =>
    case Some(k) =>
      assert ([x] + ls)[k + 1] == ls[k];
  }

  /** A line that is not a heading, before the rest of the text, does not
      change the title. */
  lemma TitleSkipsLine(l: string, rest: string)
    requires '\n' !in l && !IsHeading(l)
    ensures ParseTitle(l + "\n" + rest) == ParseTitle(rest)
  {
    LinesCons(l, rest);
    StripCRHeading(l);
    TitleOfLinesSkip(StripCR(l), Lines(rest));
  }

  /** Dropping a final carriage return does not make a line a heading. */
  lemma StripCRHeading(l: string)
    requires !IsHeading(l)
    ensures !IsHeading(StripCR(l))
  {
  }

  /** A heading line, before the rest of the text, is the title. */
  lemma TitleFromFirstLine(l: string, rest: string)
    requires '\n' !in l && IsHeading(l) && l[|l| - 1] != '\r'
    ensures ParseTitle(l + "\n" + rest) == TrimMarker(l)
  {
    LinesCons(l, rest);
  }

  /** A first line `# t`, followed by more text, gives the title `t`. */
  lemma HeadingLineTitle(t: string, rest: string)
    requires !IsHeading(t) && '\n' !in t && (t == [] || t[|t| - 1] != '\r')
    ensures ParseTitle("# " + t + "\n" + rest) == t
  {
    HeadingTrim(t);
    TitleFromFirstLine("# " + t, rest);
  }

  /** A text that is the one line `# t` gives the title `t`. */
  lemma HeadingOnlyTitle(t: string)
    requires !IsHeading(t) && '\n' !in t
    ensures ParseTitle("# " + t) == t
  {
    HeadingTrim(t);
    LinesOne("# " + t);
    FirstHeadingAt(["# " + t], 0);
  }

  /** One line that is not a heading gives "Untitled". */
  lemma PlainLineTitle(l: string)
    requires l != [] && '\n' !in l && !IsHeading(l)
    ensures ParseTitle(l) == "Untitled"
  {
    LinesOne(l);
  }

  lemma HeadingTrim(t: string)
    requires !IsHeading(t)
    ensures TrimMarker("# " + t) == t
  {
    assert ("# " + t)[2..] == t;
  }

  /** The cases of the tests at lines 614-634, each text written as its
      lines joined by line feeds. */
  lemma TitleExamples()
    ensures ParseTitle("# " + "Hello World" + "\n" + "Body text") == "Hello World"
    ensures ParseTitle("# " + "My Note") == "My Note"
    ensures ParseTitle("Some intro" + "\n" + ("# " + "Title Here" + "\n" + "Body")) == "Title Here"
    ensures ParseTitle("No heading here") == "Untitled"
    ensures ParseTitle("") == "Untitled"
    ensures ParseTitle("## Not a title") == "Untitled"
  {
    TitleHelloWorld();
    TitleMyNote();
    TitleAfterIntro();
    TitleNoHeading();
    TitleLevelTwo();
  }

  lemma TitleHelloWorld()
    ensures ParseTitle("# " + "Hello World" + "\n" + "Body text") == "Hello World"
  {
    TitleHelloWorldAt("Hello World", "Body text");
  }

  lemma TitleHelloWorldAt(t: string, rest: string)
    requires t == "Hello World" && rest == "Body text"
    ensures ParseTitle("# " + t + "\n" + rest) == t
  {
    assert !IsHeading(t) && '\n' !in t && t[|t| - 1] != '\r';
    HeadingLineTitle(t, rest);
  }

  lemma TitleMyNote()
    ensures ParseTitle("# " + "My Note") == "My Note"
  {
    TitleMyNoteAt("My Note");
  }

  lemma TitleMyNoteAt(t: string)
    requires t == "My Note"
    ensures ParseTitle("# " + t) == t
  {
    assert !IsHeading(t) && '\n' !in t;
    HeadingOnlyTitle(t);
  }

  lemma TitleAfterIntro()
    ensures ParseTitle("Some intro" + "\n" + ("# " + "Title Here" + "\n" + "Body")) == "Title Here"
  {
    TitleAfterIntroAt("Some intro", "Title Here", "Body");
  }

  lemma TitleAfterIntroAt(intro: string, t: string, rest: string)
    requires intro == "Some intro" && t == "Title Here" && rest == "Body"
    ensures ParseTitle(intro + "\n" + ("# " + t + "\n" + rest)) == t
  {
    assert !IsHeading(intro) && '\n' !in intro;
    TitleSkipsLine(intro, "# " + t + "\n" + rest);
    assert !IsHeading(t) && '\n' !in t && t[|t| - 1] != '\r';
    HeadingLineTitle(t, rest);
  }

  lemma TitleNoHeading()
    ensures ParseTitle("No heading here") == "Untitled"
  {
    TitleOneLine("No heading here");
  }

  lemma TitleLevelTwo()
    ensures ParseTitle("## Not a title") == "Untitled"
  {
    TitleOneLine("## Not a title");
  }

  lemma TitleOneLine(l: string)
    requires l == "No heading here" || l == "## Not a title"
    ensures ParseTitle(l) == "Untitled"
  {
    assert l != [] && '\n' !in l && !IsHeading(l);
    PlainLineTitle(l);
  }

  // ---------------------------------------------------------------------
  // The rename rule of `write_note`

  /** The slug a note's title gives its file name: "untitled" for a note
      without a title or with an empty one, otherwise the title's slug. */
  function TitleSlug(title: string, t: Slug.CharTables): string {
    if title == "Untitled" || title == "" then "untitled" else Slug.Slug(title, t)
  }

  /** The stem `write_note` would give a note with number `n` and this
      content. */
  function RenamedStem(n: nat, content: string, t: Slug.CharTables): string {
    ToDecimal(n) + "-" + TitleSlug(ParseTitle(content), t)
  }

  /** Lines 406-427 of `write_note`, after the content is written: the new
      stem for the note, or `None` when the file keeps its name. A stem
      without a number is never renamed; the new stem keeps the number and
      takes the slug of the title; the name is kept when it would not change
      or when a file of the new name already exists (`targetExists`). */
  function WriteNoteRename(oldStem: string, content: string, t: Slug.CharTables, targetExists: string -> bool): (r: Option<string>)
    ensures ParseFileNumber(oldStem).None? ==> r.None?
    ensures r.Some? ==> ParseFileNumber(oldStem).Some? && r.value != oldStem && !targetExists(r.value)
    ensures r.Some? ==> r.value == RenamedStem(ParseFileNumber(oldStem).value, content, t)
    ensures ParseFileNumber(oldStem).Some? && r.None? ==>
      var s := RenamedStem(ParseFileNumber(oldStem).value, content, t);
      s == oldStem || targetExists(s)
  {
    match ParseFileNumber(oldStem)
    case None => None
    case Some(n) =>
      var newStem := RenamedStem(n, content, t);
      if newStem == oldStem then None
      else if targetExists(newStem) then None
      else Some(newStem)
  }

  /** The part of a stem after its first dash. */
  function AfterFirstDash(name: string): (r: Option<string>)
    ensures '-' !in name <==> r.None?
    ensures r.Some? ==> exists k :: 0 <= k < |name| && name[k] == '-' && '-' !in name[..k] && r.value == name[k + 1..]
  {
    match IndexOf(name, '-')
    case None => None
    case Some(k) => Some(name[k + 1..])
  }

  /** In a stem built from a number and a slug, the slug is everything
      after the first dash. */
  lemma NumberedStemSlug(n: nat, slug: string)
    ensures AfterFirstDash(ToDecimal(n) + "-" + slug) == Some(slug)
  {
    var d := ToDecimal(n);
    var stem := d + "-" + slug;
    assert stem == d + ("-" + slug);
    IndexOfAppend(d, "-" + slug, '-');
    assert IndexOf(d, '-') == None;
    assert IndexOf("-" + slug, '-') == Some(0);
    assert IndexOf(stem, '-') == Some(|d|);
    assert stem[|d| + 1..] == slug;
  }

  /** A renamed note keeps its number, and its slug is the slug of its
      title. */
  lemma RenameKeepsNumber(oldStem: string, content: string, t: Slug.CharTables, targetExists: string -> bool)
    requires WriteNoteRename(oldStem, content, t, targetExists).Some?
    ensures var s := WriteNoteRename(oldStem, content, t, targetExists).value;
      ParseFileNumber(s) == ParseFileNumber(oldStem) &&
      AfterFirstDash(s) == Some(TitleSlug(ParseTitle(content), t))
  {
    var n := ParseFileNumber(oldStem).value;
    NumberedStemRoundTrip(n, TitleSlug(ParseTitle(content), t));
    NumberedStemSlug(n, TitleSlug(ParseTitle(content), t));
  }

  /** Writing the same content again under the new name renames nothing:
      the rule is idempotent. */
  lemma RenameIdempotent(oldStem: string, content: string, t: Slug.CharTables, targetExists: string -> bool, exists2: string -> bool)
    requires WriteNoteRename(oldStem, content, t, targetExists).Some?
    ensures WriteNoteRename(WriteNoteRename(oldStem, content, t, targetExists).value, content, t, exists2).None?
  {
    RenameKeepsNumber(oldStem, content, t, targetExists);
  }

  /** The slug a title gives is shaped like a slug. It can be empty: a
      title made only of punctuation gives the stem `<n>-`. */
  lemma TitleSlugShape(title: string, t: Slug.CharTables)
    ensures Slug.IsSlugShaped(TitleSlug(title, t))
  {
    if title == "Untitled" || title == "" {
      assert "untitled"[0] != '-' && "untitled"[7] != '-';
      forall i | 0 <= i < 7 ensures !("untitled"[i] == '-' && "untitled"[i + 1] == '-') { }
    } else {
      Slug.SlugShape(title, t);
    }
  }
}
