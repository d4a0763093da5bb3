# Notes backend, modelled in Dafny

This project models the Rust backend of a desktop notes application
(`src-tauri/src/lib.rs`). Each note is a Markdown file named
`<number>-<slug>.md` in the directory of a workspace. The number orders the
notes. The slug comes from the note's first `# ` heading. The model covers
four parts of the backend, with the file system replaced by plain values:

- **The file-name codec**, in modules `Decimal`, `Slug`, `SlugExamples` and
  `NoteNames`:
  - `slugify`;
  - `parse_file_number`, with the `u64` parser behind `str::parse`;
  - `parse_title`, with `str::lines` and `trim_start_matches`;
  - `is_old_timestamp_format`;
  - the max + 1 of `get_next_number`;
  - the rule by which `write_note` renames a note after its title.
- **The listing order** of `list_notes`, in modules `Sorting` and `Listing`.
  `slice::sort_by` is modelled as a stable insertion sort.
- **`reorder_note`**, in modules `Reorder` (what each step computes) and
  `ReorderCommand` (the command and its renaming loop). It selects the
  numbered notes, sorts them, moves one, and renumbers them all. The renames
  it performs are its output. Module `Renames` gives those renames meaning on a directory,
  modelled as a map from path to content.
- **The workspace registry**, in module `Workspaces`. It holds the commands
  that select, create, delete and rename a workspace. Each command is a step
  function on an in-memory `Config`. The class `Registry` holds the
  configuration in fields, and its methods update them in place.

Some inputs the backend reads from the world become parameters:

- The directory listing is a sequence of stems, or of `(path, stem)` entries.
- "A file of that name exists" is a predicate.
- The outcomes of `create_dir_all` and of `save_config` are booleans.

`to_lowercase` and `char::is_alphanumeric` become a pair of character tables
(`Slug.CharTables`). Every property of `slugify` is proved for any tables.
The ASCII tables `Slug.Ascii` are used for the test vectors.

Paths are strings joined with `/`.

## Model

| member | source | states |
|---|---|---|
| `Decimal.ToDecimal` | src-tauri/src/lib.rs:419 | `format!("{}", n)` gives a non-empty string of ASCII digits whose value is `n`. The only numeral starting with `0` is "0" itself, and there is no dash. |
| `Decimal.ParseU64` | src-tauri/src/lib.rs:151 | `str::parse::<u64>`: a result is at most `u64::MAX` and comes from a string of digits after an optional `+`. Digits whose value fits give that value. |
| `Decimal.ParseU64Exact` | src-tauri/src/lib.rs:151 | A result is the value of the non-empty digits after an optional `+`. `+` followed by digits whose value fits gives that value. Digits, with or without `+`, whose value does not fit give nothing. |
| `Decimal.ParseToDecimal` | src-tauri/src/lib.rs:151 | A rendered `u64` parses back to the same number. |
| `Decimal.ToDecimalInjective` | src-tauri/src/lib.rs:419 | Different numbers render differently. |
| `Slug.DashOthers` | src-tauri/src/lib.rs:128-132 | The `map` before the loop: each character keeps its place, and a character the table rejects becomes `-`. |
| `Slug.CollapseDashes` | src-tauri/src/lib.rs:133-146 | The loop over `result`/`prev_dash` and the final `trim_end_matches('-')` give exactly the non-empty dash-separated pieces of the input, joined by single dashes. |
| `Slug.Slugify` | src-tauri/src/lib.rs:127-147 | `slugify` equals `Slug`, the lowercased text split at non-alphanumerics with empty pieces dropped, joined by `-`. |
| `Slug.SplitAppend` | src-tauri/src/lib.rs:133-146 | Splitting at dashes distributes over a dash-joined concatenation. |
| `Slug.SlugShape` | src-tauri/src/lib.rs:127-147 | A slug never starts or ends with `-` and never holds two dashes in a row, for any character tables. |
| `Slug.SlugKeepsAlphanumerics` | src-tauri/src/lib.rs:127-147 | The non-dash characters of the slug are exactly the alphanumeric characters of the lowercased text, in order. |
| `Slug.SlugCharacters` | src-tauri/src/lib.rs:127-147 | Every character of a slug is `-` or alphanumeric. |
| `SlugExamples.SlugBasic` | src-tauri/src/lib.rs:637-641 | "Hello World" gives "hello-world". |
| `SlugExamples.SlugNote` | src-tauri/src/lib.rs:637-641 | "My Note" gives "my-note". |
| `SlugExamples.SlugPunctuation` | src-tauri/src/lib.rs:643-647 | "Hello! World?" gives "hello-world". |
| `SlugExamples.SlugSymbols` | src-tauri/src/lib.rs:643-647 | "Test@#$%Name" gives "test-name". |
| `SlugExamples.SlugSpaces` | src-tauri/src/lib.rs:649-653 | "Hello   World" gives "hello-world". |
| `SlugExamples.CollapsesRuns` | src-tauri/src/lib.rs:649-653 | "A--B--C" gives "a-b-c". |
| `SlugExamples.SlugPadded` | src-tauri/src/lib.rs:655-659 | "  Hello  " gives "hello". |
| `SlugExamples.TrimsEnds` | src-tauri/src/lib.rs:655-659 | "---test---" gives "test". |
| `Util.IndexOf` | src-tauri/src/lib.rs:150 | `find` and `position`: the result is `None` exactly when the element is absent. Otherwise it is the first index holding the element. |
| `NoteNames.ParseFileNumber` | src-tauri/src/lib.rs:149-152 | A stem without a dash has no number, and a number is at most `u64::MAX`. |
| `NoteNames.FileNumberPrefix` | src-tauri/src/lib.rs:149-152 | With `k` the first dash, the number is what the text before `k` parses to as a `u64`. |
| `NoteNames.NumberedStemRoundTrip` | src-tauri/src/lib.rs:149-152 | A stem `<n>-<slug>` reads back as `n`, whatever the slug. |
| `NoteNames.FileNumberExamples` | src-tauri/src/lib.rs:667-678 | The six test vectors: 1, 42, 100, and `None` for "hello", "abc-123" and "-test". |
| `NoteNames.OldTimestampUnnumbered` | src-tauri/src/lib.rs:171-173 | An old timestamp stem (ten or more ASCII digits) never reads as numbered. |
| `NoteNames.OldTimestampExamples` | src-tauri/src/lib.rs:680-691 | The five test vectors of `is_old_timestamp_format`. |
| `NoteNames.MaxNumber` | src-tauri/src/lib.rs:154-167 | The result bounds every number in use, and is 0 or one of them. |
| `NoteNames.NextNumber` | src-tauri/src/lib.rs:154-169 | The result is at least 1 and above every number in use. It is 1, or one more than a number in use. |
| `NoteNames.NewNoteStemFresh` | src-tauri/src/lib.rs:443-444 | The stem `create_note` picks is not the stem of any file already listed, while the next number fits in a `u64`. |
| `NoteNames.StripCR` | src-tauri/src/lib.rs:223 | A line loses its final carriage return exactly when it ends in one, and is otherwise unchanged. |
| `NoteNames.Lines` | src-tauri/src/lib.rs:223 | No line holds a line feed, and there are no lines exactly when the text is empty. |
| `NoteNames.LinesCons` | src-tauri/src/lib.rs:223 | A line followed by `\n` is the first line, without a final `\r`, followed by the lines of the rest. |
| `NoteNames.TrimMarker` | src-tauri/src/lib.rs:225 | `trim_start_matches("# ")` removes some number of leading `# `, and what is left does not start with `# `. |
| `NoteNames.FirstHeading` | src-tauri/src/lib.rs:224 | `find(starts_with("# "))`: the first line starting with `# `, or none when no line does. |
| `NoteNames.ParseTitle` | src-tauri/src/lib.rs:221-227 | The title never starts with `# `. |
| `NoteNames.TitleIsFirstHeading` | src-tauri/src/lib.rs:221-227 | The title is the first heading line with its markers removed, whatever comes before it. |
| `NoteNames.TitleWithoutHeading` | src-tauri/src/lib.rs:226 | Without a heading line the title is "Untitled". |
| `NoteNames.TitleSkipsLine` | src-tauri/src/lib.rs:224 | A non-heading line in front of the text does not change the title. |
| `NoteNames.TitleFromFirstLine` | src-tauri/src/lib.rs:224-225 | A heading on the first line is the title. |
| `NoteNames.TitleExamples` | src-tauri/src/lib.rs:614-634 | The six test vectors of `parse_title`, "## Not a title" giving "Untitled" among them. |
| `NoteNames.WriteNoteRename` | src-tauri/src/lib.rs:406-427 | A stem without a number is never renamed. A rename keeps the number, takes the title's slug, changes the stem and never targets an existing file. No rename happens only when the new stem equals the old one or its file exists. |
| `NoteNames.AfterFirstDash` | src-tauri/src/lib.rs:517 | `splitn(2, '-').nth(1)`: the text after the first dash, or none without a dash. |
| `NoteNames.NumberedStemSlug` | src-tauri/src/lib.rs:419 | In `<n>-<slug>`, the slug is everything after the first dash. |
| `NoteNames.RenameKeepsNumber` | src-tauri/src/lib.rs:413-421 | A renamed note keeps its number, and its slug is "untitled" for an empty or "Untitled" title, else the slug of the title. |
| `NoteNames.RenameIdempotent` | src-tauri/src/lib.rs:419-422 | Writing the same content again under the new name renames nothing. |
| `NoteNames.TitleSlugShape` | src-tauri/src/lib.rs:414-418 | The slug a note takes from its title is shaped like a slug. |
| `Sorting.SortPermutation` | src-tauri/src/lib.rs:376 | `sort_by` keeps every element and adds none. |
| `Sorting.SortSorted` | src-tauri/src/lib.rs:376 | Under a total preorder, no element ends up after one it should follow. |
| `Sorting.InsertSorted` | src-tauri/src/lib.rs:376 | Inserting into a sorted sequence keeps it sorted. |
| `Listing.Cmp` | src-tauri/src/lib.rs:380-383 | `Ord::cmp` on numbers: `Less` exactly when smaller, `Greater` exactly when larger. |
| `Listing.CompareNotesFlip` | src-tauri/src/lib.rs:376-385 | Swapping the arguments of the comparator swaps `Less` and `Greater`. |
| `Listing.NoteLeqTotalPreorder` | src-tauri/src/lib.rs:376-385 | The comparator is total and transitive. |
| `Listing.ListingOrder` | src-tauri/src/lib.rs:376-385 | The listing is a permutation of the entries. Numbered notes come first, in non-increasing number order, then unnumbered ones in non-increasing modification time. |
| `Reorder.NumberedOnly` | src-tauri/src/lib.rs:484-496 | Only numbered `.md` entries are kept, and none is added. |
| `Reorder.NumberedOnlyCounts` | src-tauri/src/lib.rs:484-496 | Each numbered entry is kept as many times as it is listed, and no other entry is kept. |
| `Reorder.NumberedOnlyInOrder` | src-tauri/src/lib.rs:484-496 | The filter of a concatenation is the concatenation of the filters, so kept entries stay in listing order. |
| `Reorder.NumberedOnlyOne` | src-tauri/src/lib.rs:493 | A single entry is kept exactly when its stem is numbered. |
| `Reorder.OrderedPaths` | src-tauri/src/lib.rs:504-505 | The search finds a path exactly when a numbered entry of the listing has it. |
| `Reorder.ByNumberDescTotalPreorder` | src-tauri/src/lib.rs:498-502 | The descending-number comparator is a total preorder. |
| `Reorder.MovedPosition` | src-tauri/src/lib.rs:511-513 | The moved entry ends at `min(new_index, len - 1)`. |
| `Reorder.MovedOthers` | src-tauri/src/lib.rs:511-513 | The other entries keep their relative order. |
| `Reorder.MovedPermutation` | src-tauri/src/lib.rs:511-513 | The move neither adds nor drops entries. |
| `ReorderCommand.ReorderNote` | src-tauri/src/lib.rs:479-529 | "Note not found" exactly when the path is not among the ordered numbered notes, which by `OrderedPaths` is exactly when no numbered entry of the listing has it. The path is returned with no renames when the note is already in place or there is at most one note. Otherwise the result is the renames of the renumbering of the moved list, and the note's new path. |
| `ReorderCommand.Renumber` | src-tauri/src/lib.rs:515-526 | The loop performs exactly the renames of `Plan` and returns the path `ResultAfter` gives. |
| `ReorderCommand.RenumberEntry` | src-tauri/src/lib.rs:516-525 | One pass of the loop takes `Plan` and `ResultAfter` from the entries before `i` to the entries up to and including `i`. |
| `Reorder.Renumbered` | src-tauri/src/lib.rs:516-518 | The entry at position `i` gets number `len - i` and keeps the part of its stem after the first dash. |
| `Reorder.TargetsDistinct` | src-tauri/src/lib.rs:516-518 | No two positions get the same new path. |
| `Reorder.PlanSources` | src-tauri/src/lib.rs:519-521 | Every rename moves some entry from its old path to its new one. |
| `Reorder.PlanCovers` | src-tauri/src/lib.rs:519-521 | Every entry whose path changes is renamed. |
| `Reorder.ResultFollowsSource` | src-tauri/src/lib.rs:522-524 | With distinct paths, the returned path is the source note's new path when it moved, and its old path otherwise. |
| `Renames.ApplyInOrder` | src-tauri/src/lib.rs:519-521 | Renames applied one at a time, each replacing its target, never grow the directory. |
| `Renames.ReorderLosesNote` | src-tauri/src/lib.rs:515-526 | For two notes numbered 2 and 1 that share a slug, moving note 1 to the top overwrites note 2. The directory ends with note 1 alone, and the returned path no longer exists. |
| `Renames.UntitledPairCollides` | src-tauri/src/lib.rs:444 | Two notes `2-untitled` and `1-untitled`, as `create_note` makes them, meet the conditions of `ReorderLosesNote`. |
| `Renames.Place` | src-tauri/src/lib.rs:515-526 | After the targets are written, a path is present exactly when it was in the base directory or is some rename's target. |
| `Renames.ReorderKeepsEveryNote` | src-tauri/src/lib.rs:515-526 | With the renames applied at once, every note sits at its new path with its own content, and the returned path holds the moved note. |
| `Renames.AtOnceMovesEachEntry` | src-tauri/src/lib.rs:515-526 | The same for any distinct new paths. |
| `Renames.SubMultisetDistinct` | src-tauri/src/lib.rs:484-513 | Selecting, sorting and moving entries keeps their paths distinct. |
| `Renames.MovedDistinct` | src-tauri/src/lib.rs:484-513 | The list `reorder_note` renumbers has distinct paths when the directory's do, so `ReorderKeepsEveryNote` applies to it. |
| `Workspaces.DefaultConfigValid` | src-tauri/src/lib.rs:89-96 | The initial configuration, the single workspace "Personal", is valid. |
| `Workspaces.FreeShortcut` | src-tauri/src/lib.rs:284-286 | `find` over the candidates: the first that no workspace holds, none only when every candidate is held. |
| `Workspaces.NextShortcutFree` | src-tauri/src/lib.rs:284-286 | A new workspace's shortcut is held by no other workspace. With none given, all of "1".."9" are taken. |
| `Workspaces.SetActiveStep` | src-tauri/src/lib.rs:259-266 | An unknown id is refused and changes nothing. A known id becomes active, and the list is unchanged. |
| `Workspaces.CreateStep` | src-tauri/src/lib.rs:269-297 | An empty slug and a taken id are refused with the config unchanged. For a new non-empty slug, the config changes exactly when the directory is created; a failed `create_dir_all` gives `Io`. A change appends exactly one workspace, with the slug as id, the name and the next free shortcut, and the result is `Ok` with it exactly when the save succeeds. The active id never changes. |
| `Workspaces.DeleteStep` | src-tauri/src/lib.rs:300-320 | Refused with at most one workspace, or with an unknown id. Otherwise exactly the first workspace with that id is removed, and the active id moves to the first remaining workspace when it was the one removed. |
| `Workspaces.RenameStep` | src-tauri/src/lib.rs:323-338 | An unknown id is refused. Otherwise only the name of the first workspace with that id changes, and that workspace is returned. |
| `Workspaces.SetActiveKeepsValid` | src-tauri/src/lib.rs:261-264 | Selecting a workspace keeps the configuration valid. |
| `Workspaces.CreateKeepsValid` | src-tauri/src/lib.rs:272-293 | Creating a workspace keeps the configuration valid: ids and shortcuts stay distinct. |
| `Workspaces.DeleteKeepsValid` | src-tauri/src/lib.rs:303-316 | Deleting keeps the list non-empty, the ids and shortcuts distinct, and the active id present. |
| `Workspaces.RemoveKeepsDistinct` | src-tauri/src/lib.rs:313 | Removing one workspace keeps ids and shortcuts distinct. |
| `Workspaces.RenameKeepsValid` | src-tauri/src/lib.rs:326-332 | Renaming keeps the configuration valid. |
| `Workspaces.DeleteRemovesExactly` | src-tauri/src/lib.rs:303-313 | After a delete no workspace has the deleted id, and every other workspace remains. |
| `Workspaces.Registry.SetActive` | src-tauri/src/lib.rs:259-266 | The fields become the configuration of `SetActiveStep`, and validity is kept. |
| `Workspaces.Registry.Create` | src-tauri/src/lib.rs:269-297 | The fields become the configuration of `CreateStep`, and validity is kept. |
| `Workspaces.Registry.Delete` | src-tauri/src/lib.rs:300-320 | The fields become the configuration of `DeleteStep`, and validity is kept. |
| `Workspaces.Registry.Rename` | src-tauri/src/lib.rs:323-338 | The fields become the configuration of `RenameStep`, and validity is kept. |

## Left out

- File system effects are not modelled: `read_dir`, `write`, `remove_file`, `create_dir_all` and `exists`. Listings, existence and I/O outcomes are inputs instead.
- `fs::rename` is modelled only in `Renames`, as an update of a path-to-content map that replaces an existing target.
- JSON persistence is left out (`load_config`, `save_config`, `get_config_path`). A failed save is modelled as an `Io` error that keeps the in-memory change, as the source does.
- A configuration file that exists but does not parse makes `load_config` return an empty configuration, which is not `Valid`. Loading is outside the model, so validity is proved for the default configuration and for each command applied to a valid one.
- The `Mutex`, `tauri::State` and the command wiring are concurrency and framework plumbing. The configuration is one owned object.
- The migrations are left out (`migrate_existing_notes`, `migrate_old_notes`, `init_workspaces`). They are directory-driven file moves; of them, only `is_old_timestamp_format` is modelled.
- `read_title_from_file` is left out. It reads the first 200 bytes with `from_utf8_lossy`, which is byte-level I/O.
- `read_note`, `delete_note`, `rename_note`, `ensure_notes_dir`, `get_workspaces`, `reveal_in_finder` and `run` are left out. Each is a single file-system call, a copy of the state, a process spawn or UI setup.
- Unicode lowercasing and alphanumeric tests are abstract character tables. The "Café" and "日本語" tests depend on the Unicode tables and are not stated.
- The `.md` extension filter of `list_notes` and `reorder_note` is not modelled. The listing given to the model is taken to be the `.md` files of the directory.
- PathBuf normalisation is not modelled. Paths are strings of the form `dir + "/" + stem + ".md"`.
- `Listing.ListingOrder`: does not state that `sort_by` is stable (equal entries keep their input order). Only the order between entries the comparator separates is stated.
- `NoteNames.NextNumber`: does not model the `u64` overflow of `max + 1` when a stem carries `u64::MAX`, because numbers are unbounded `nat`; `NewNoteStemFresh` requires the next number to fit.
- `NoteNames.WriteNoteRename`: the check `new_path != old_path` (line 425) is not modelled separately. When the stems differ in the same directory, the paths differ too.
- `ReorderCommand.ReorderNote`: a failed `fs::rename` part-way through the loop, which returns its error after earlier renames took effect, is not modelled. The renames are the output, so the model acts as if every rename succeeds.
- `modified` times come from the system clock; they are a given `nat`.
- The front end's TypeScript note store, which keeps the open notes in sync with the backend, is not part of this model.

## Findings

| source | as written | input that shows it | evidently intended | confidence | as-written member | corrected member |
|---|---|---|---|---|---|---|
| src-tauri/src/lib.rs:515-526 | The renumbering renames one file at a time. `fs::rename` replaces a file already at the target, even one not yet renamed. | Notes `d/2-untitled.md` (content A) and `d/1-untitled.md` (content B); `reorder_note("d/1-untitled.md", 0)`. The first rename moves B onto `d/2-untitled.md`, replacing A. The second renames it back to `d/1-untitled.md`. A is lost, and the returned `d/2-untitled.md` no longer exists. | Every note ends at its new path with its own content, as by a two-phase rename through temporary names. | not executed | `Renames.ReorderLosesNote` | `Renames.ReorderKeepsEveryNote` |
