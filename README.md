# iBooks highlights exporter — verified model of its core

The exporter reads two of Apple Books' SQLite databases: the annotation store and
the book library. It writes the user's highlights into an HTML report rendered
from `simpletemplate.html`. This project models the parts of
`ibooks_highlights_exporter.py` that compute rather than talk to a database,
a template engine or the file system:

- **Colors** (`colors.dfy`): `get_color` maps an annotation style code to a CSS
  class of the report. `get_mm_color` folds style codes above 7 cyclically
  onto the slots 2..7 of a mind-map palette and leaves every other code
  unchanged; the script defines it but never calls it.
- **TextFormat** (`text_format.dfy`): `bold_text` wraps the selected text of a
  highlight in `<b>…</b>` inside its representative passage.
  `make_text_readable` cuts text into lines of `every` characters joined by
  newlines; the script defines it but has no call site for it. Python's
  `str.find`, slicing (negative and out-of-range bounds included) and
  `str.join` are modelled as the script uses them.
- **Catalog** (`catalog.dfy`): the in-memory joins over the rows the queries
  return.
  - `get_all_titles` builds the asset-id → {title, author} catalog.
  - `get_all_relevant_titles` stamps each highlight count onto its asset's
    catalog entry in place and collects those entries. A missing id raises
    `KeyError`.
  - `get_asset_title_tab` fills the module-level `asset_title_tab` dictionary.

  None of these three has a caller in the script apart from
  `get_all_relevant_titles` calling `get_all_titles` (line 77); `do_note_list`
  repeats the loop of `get_asset_title_tab` inline (lines 204-205).

Query results are given as sequences of rows (`AssetRow`, `CountRow`) in the
order the cursor yields them. `KeyError` is the `KeyError` case of a `Result`.
The module-level dictionary is the field of the class `AssetTitleTab`, which
`GetAssetTitleTab` updates in place.

Each dictionary-filling loop is proved equal to a recursive specification:
- `Fill` is the result of `m[id] = entry(row)` over the first n rows.
- `Stamp` is the count-stamping loop, including its `KeyError` exit.

Lemmas then state what the loops promise about these specifications: which
keys there are, that the last row wins, that untouched entries are kept, and
when `KeyError` is raised and for which key.

Python's `s.find("")` is 0 for every `s`, including the empty string, so an
empty selection yields `"<b></b>"` followed by the passage
(`BoldTextEmptySelection`).

## Model

| member | source | states |
|---|---|---|
| `Colors.GetColor` | ibooks_highlights_exporter.py:156-170 | codes 0..5 give gray, green, blue, yellow, pink, violet (the palette entry at that index); every other integer, negative or above 5, gives the gray fallback |
| `Colors.GetColorInPalette` | ibooks_highlights_exporter.py:156-170 | every integer, known code or not, is rendered with a class of the palette |
| `Colors.GetMmColor` | ibooks_highlights_exporter.py:173-177 | a code up to 7 is returned unchanged; a code above 7 lands in 2..7 and is congruent to the code modulo 6 |
| `Colors.GetMmColorUnique` | ibooks_highlights_exporter.py:174-175 | for a code above 7 the folded value is the only slot of 2..7 congruent to it modulo 6, so the fold is the cyclic wrap-around onto 2..7 |
| `Colors.GetMmColorIdempotent` | ibooks_highlights_exporter.py:173-177 | folding an already folded colour changes nothing |
| `TextFormat.PySlice` | ibooks_highlights_exporter.py:92 | Python slicing never yields more than the sequence, and within bounds it is the ordinary subsequence |
| `TextFormat.Find` | ibooks_highlights_exporter.py:89 | `str.find` returns the lowest index where the selection occurs, and returns -1 exactly when it occurs nowhere |
| `TextFormat.FindFirstOccurrence` | ibooks_highlights_exporter.py:89 | when the selection's first occurrence starts at k, `find` returns k |
| `TextFormat.FindEmpty` | ibooks_highlights_exporter.py:89 | the empty selection is found at index 0 |
| `TextFormat.BoldTextAsWritten` | ibooks_highlights_exporter.py:88-93 | the script's slice arithmetic, negative `left` included; whenever the selection occurs it agrees with the corrected `BoldText` |
| `TextFormat.AsWrittenGarblesMissingSelection` | ibooks_highlights_exporter.py:89-92 | for a selection that does not occur, `bold_text("x", "abc")` yields `"ab<b></b>abc"`, which differs from the passage |
| `TextFormat.BoldTextAsWrittenMissing` | ibooks_highlights_exporter.py:89-92 | for any selection of length 1..len(passage) that the passage does not contain, the script yields the passage without its last character, `"<b></b>"`, and the passage from index len(selection)−1 on |
| `TextFormat.BoldTextAsWrittenLongSelection` | ibooks_highlights_exporter.py:89-92 | a selection longer than a non-empty passage makes the script emphasise the passage's last character: the result is the passage without its last character, `<b>`, that character, `</b>` |
| `TextFormat.BoldTextAsWrittenEmptyPassage` | ibooks_highlights_exporter.py:89-92 | a non-empty selection in an empty passage makes the script yield `"<b></b>"` |
| `TextFormat.BoldText` | ibooks_highlights_exporter.py:88-93 | a passage that does not contain the selection comes back unchanged; when the first occurrence starts at k, the result is the passage up to k, `<b>`, the selection, `</b>`, and the rest of the passage |
| `TextFormat.BoldTextRemovesToPassage` | ibooks_highlights_exporter.py:88-93 | the result is 7 characters longer, carries `<b>` at k and `</b>` right after the selection, and deleting the two markers gives the passage back |
| `TextFormat.BoldTextEmptySelection` | ibooks_highlights_exporter.py:88-93 | an empty selection gives `"<b></b>"` followed by the passage, both as written and corrected |
| `TextFormat.Join` | ibooks_highlights_exporter.py:143 | `sep.join` of no parts is empty; otherwise its length is the parts' total length plus one separator between each two parts |
| `TextFormat.JoinPartAt` | ibooks_highlights_exporter.py:143 | when all parts but the last have length w, part m of the join starts at m·(w+|sep|) |
| `TextFormat.JoinSeparatorAt` | ibooks_highlights_exporter.py:143 | when all parts but the last have length w, a separator follows each part but the last |
| `TextFormat.Chunks` | ibooks_highlights_exporter.py:143 | the pieces `text[i:i+every]`: none for empty text; each 1..every long, all but the last exactly every long; (count−1)·every < len ≤ count·every |
| `TextFormat.ChunkAt` | ibooks_highlights_exporter.py:143 | piece m is Python's `text[i:i+every]` for i = m·every, clamped to the end of the text |
| `TextFormat.ChunksConcat` | ibooks_highlights_exporter.py:143 | the pieces concatenate back to the text |
| `TextFormat.ChunkCountIsCeiling` | ibooks_highlights_exporter.py:143 | there are ceil(len/every) pieces, as many as `range(0, len(text), every)` has indices |
| `TextFormat.MakeTextReadable` | ibooks_highlights_exporter.py:142-143 | empty text gives empty output; otherwise the output is the text plus one newline between each two pieces |
| `TextFormat.MakeTextReadableDefault` | ibooks_highlights_exporter.py:142-143 | with the default width of 80, a text of at most 80 characters comes back unchanged |
| `TextFormat.MakeTextReadableLine` | ibooks_highlights_exporter.py:142-143 | line m of the output starts at m·(every+1) and holds `text[m*every : m*every+every]` |
| `TextFormat.MakeTextReadableBreak` | ibooks_highlights_exporter.py:142-143 | every line but the last is every characters long and is followed by a newline |
| `Catalog.AssetIdsBeforeMembers` | ibooks_highlights_exporter.py:56-57 | an id is among the rows' ids exactly when some row carries it |
| `Catalog.LastAssetRowExists` | ibooks_highlights_exporter.py:56-57 | every id among the rows has a last row carrying it (`FillLastWins` ties that row to the dictionary's value) |
| `Catalog.LastCountRowExists` | ibooks_highlights_exporter.py:81-83 | every id among the count rows has a last row carrying it (`StampOk` ties that row to the stamped count) |
| `Catalog.FillKeys` | ibooks_highlights_exporter.py:56-57 | assigning `m[row.id]` for each row adds exactly the rows' ids to the keys already present |
| `Catalog.FillLastWins` | ibooks_highlights_exporter.py:56-57 | for an id carried by several rows, the entry of the last such row is kept |
| `Catalog.FillKeepsOthers` | ibooks_highlights_exporter.py:150-151 | an entry whose id no row carries keeps its old value |
| `Catalog.GetAllTitles` | ibooks_highlights_exporter.py:49-59 | the loop builds exactly the catalog specified by `Fill` from an empty dictionary, and its keys are the rows' asset ids |
| `Catalog.AllTitlesContents` | ibooks_highlights_exporter.py:55-59 | the catalog has an entry for every row's id and no other; a repeated id keeps the last row's title and author; no entry has a count |
| `Catalog.GetAllRelevantTitles` | ibooks_highlights_exporter.py:74-85 | the loop returns exactly the `Stamp` result over the catalog of the library rows, its `KeyError` exit included, although it mutates the catalog entries in place |
| `Catalog.StampFailureSticks` | ibooks_highlights_exporter.py:81-83 | once a row has raised `KeyError`, no later row changes the outcome |
| `Catalog.StampKeyError` | ibooks_highlights_exporter.py:81-83 | `KeyError` is raised exactly when some count row's id is missing from the catalog, and its key is the id of the first such row, all rows before it being present |
| `Catalog.StampOk` | ibooks_highlights_exporter.py:79-85 | without `KeyError` the keys are exactly the count rows' ids, each holding its catalog entry with the count of the last row for that id |
| `Catalog.RelevantTitlesContents` | ibooks_highlights_exporter.py:74-85 | end to end: `KeyError` exactly when a count row names an id that no library row has; otherwise the keys are the count rows' ids, and an id's entry has the last library row's title and author and the last count row's count |
| `Catalog.AssetTitleTab.constructor` | ibooks_highlights_exporter.py:21 | the module-level table starts empty |
| `Catalog.AssetTitleTab.GetAssetTitleTab` | ibooks_highlights_exporter.py:146-153 | the table becomes the `Fill` of its old contents with [title, author] per row: old keys plus the rows' ids, the last row wins for a repeated id, untouched entries are kept; the returned value equals the table |

## Left out

- The SQL queries, the database connections and cursors, the globbing for the database files and the exit when none is found. The rows the queries return are parameters; `select distinct` and `group by` are not assumed, so repeated ids are allowed.
- `get_all_relevant_assetids_and_counts` and `get_all_highlights` only run a query and return its rows. `get_book_details` returns the row's title and author joined by `", "`, and `get_chapter_name` returns one column of the first row; both depend on a query for their input.
- The debug `print` of the count rows in `get_all_relevant_titles`, the `--list` listing and the command-line parsing.
- `do_note_list`: the template rendering, today's date and the file write. Its inline refill of `asset_title_tab` (lines 204-205) is the same loop as `get_asset_title_tab`. The grouping of highlights by book happens inside an HTML template that is not part of this model.
- Aliasing of Python dictionaries. `get_all_relevant_titles` stores the very dictionary it mutates in the catalog; the model compares entries as values. This gives the same final values, because each id's entry ends up with the last count stamped on it. `get_asset_title_tab` returns the module dictionary object itself, so a later write through the result would change `asset_title_tab`; the model returns a map value equal to the table and does not capture that sharing.
- Iteration order of Python dictionaries: they keep insertion order, and a repeated id keeps its first position. Dafny maps have no order, so the model does not state it; nothing in the modelled functions reads that order (only the template, which is not modelled, receives `asset_title_tab`).
- SQL NULL columns: titles, authors and ids are modelled as strings, and a missing title is not distinguished from an empty one.
- Non-integer style codes passed to `get_color` or `get_mm_color`, such as NULL: only integers are modelled.
- `TextFormat.MakeTextReadable`: requires `every >= 1`. Python raises `ValueError` for a width of 0 and returns an empty string for a negative width; the script has no call site for `make_text_readable`, so no width is ever passed to it.
- The mind-map output: the `--mindmap` and `--book` options are parsed but never read, and `get_mm_color` is never called; only the colour fold itself is modelled.

## Findings

| source | as written | input that shows it | evidently intended | confidence | as-written member | corrected member |
|---|---|---|---|---|---|---|
| ibooks_highlights_exporter.py:88-93 | `left = find(...)` is used as a slice bound even when it is -1, so a missing selection makes the slices wrap around | `bold_text("x", "abc")` yields `"ab<b></b>abc"`: the last letter is dropped, nothing is emphasised, and the passage is repeated | a passage without the selection is returned unchanged | not executed; high | `TextFormat.BoldTextAsWritten` (shown by `TextFormat.AsWrittenGarblesMissingSelection`, `TextFormat.BoldTextAsWrittenMissing`, `TextFormat.BoldTextAsWrittenLongSelection`, `TextFormat.BoldTextAsWrittenEmptyPassage`) | `TextFormat.BoldText` (with `BoldTextRemovesToPassage`) |
