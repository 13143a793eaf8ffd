# Comment-ranking scraper: extraction and save pipeline

This project models the core of the script `py/comment.py`. The script walks a
fixed list of nine news genres. For each genre it fetches the ranking of the most
commented articles and turns every listing item into one ten-column CSV row. It
then writes the genre's rows to a file named by the capture minute and the
genre code, inside a folder named by the capture day.

The model covers:

- **Text normalisation** (`text.dfy`, module `Text`).
  - Python's `str.strip()` over the characters for which `str.isspace()` holds.
  - The single `re.sub` pass that deletes the comment counter's "件/時"
    ("per hour") suffix.
- **Names derived from the capture time** (`naming.dfy`, module `Naming`).
  - The `strftime` patterns `%Y-%m-%d`, `%H:%M`, `%Y_%m%d_cmnt` and
    `%Y_%m%d_%H%M`.
  - POSIX `os.path.join`.
  - Each formatted string reads back as the fields it was formatted from, and
    two file paths are equal exactly when they share the capture minute and
    the genre code.
- **Extraction of one page** (`extraction.dfy`, module `Extraction`).
  - The five required elements are checked in the order rank, title, media,
    date, link. A missing one raises.
  - The link's `href` is read, and a missing `href` raises too.
  - Every text is stripped. The comment falls back to "N/A" when absent and
    then loses the counter suffix.
  - The ten cells are assembled in column order.
  - The item loop keeps rows in page order and stops at the first item that
    raises.
- **The per-genre step and the genre loop** (`pipeline.dfy`, module `Pipeline`).
  - `ScrapeAndSave` is the item loop as a `while` loop, proved against the
    function `GenreStep`.
  - `Run` is the script's loop over the genres, proved against `RunSpec`.
  - A fetch failure is logged and the run moves on to the next genre.
  - An empty page writes nothing.
  - Any extraction error stops the whole run with exit status 1.
  - The file system is a value (`Disk`). Folder creation is idempotent, and the
    last write to a path decides its contents.

The fetch result of each genre (`Page`) and the capture time (`Timestamp`) are
parameters. The capture time is read once per run and shared by every row,
folder and file name of the run.

## Model

| member | source | states |
|---|---|---|
| Text.LeadingSpaces | py/comment.py:46 | The count of leading characters that `strip()` removes: all of them are whitespace, and the next character, if any, is not. |
| Text.TrailingSpaces | py/comment.py:46 | The same count for the end of the string: the counted characters are whitespace and the one before them is not. |
| Text.Strip | py/comment.py:46-50 | The stripped text is no longer than the input and has no whitespace at either end. |
| Text.StripDecomposes | py/comment.py:46-50 | The input equals a run of whitespace, then the stripped text, then a run of whitespace. |
| Text.StripUnique | py/comment.py:46-50 | Whitespace around a middle with no whitespace at its ends strips to exactly that middle, so Strip is determined by the two lemmas above. |
| Text.StripIdempotent | py/comment.py:46-50 | Stripping an already stripped text changes nothing. |
| Text.RemoveNoise | py/comment.py:54 | Removing the counter suffix never lengthens the text. |
| Text.RemoveNoiseShrinks | py/comment.py:54 | A text that contains "件/時" gets strictly shorter. |
| Text.RemoveNoiseFixedIff | py/comment.py:54 | The pass leaves a text unchanged if and only if the text contains no "件/時". |
| Text.RemoveNoiseDropsSuffix | py/comment.py:54 | For any text, the text followed by "件/時" gives the same result as the text alone. |
| Text.RemoveNoiseFirstToken | py/comment.py:54 | A token-free text, then "件/時", then any rest becomes the token-free text followed by the result for the rest: the scan deletes the first occurrence and continues after it. |
| Text.CounterLosesSuffix | py/comment.py:54 | The counter "120件/時" becomes "120". |
| Text.RemoveNoiseNotIdempotent | py/comment.py:54 | The single pass is not idempotent: "件件/時/時" becomes "件/時", which a second pass changes again. |
| Naming.Pad2 | py/comment.py:58-59 | `%m`, `%d`, `%H` and `%M` give exactly two decimal digits. |
| Naming.Pad4 | py/comment.py:58 | `%Y` gives exactly four decimal digits. |
| Naming.Pad2RoundTrip | py/comment.py:58-59 | Two zero-padded digits read back as the number they format. |
| Naming.Pad4RoundTrip | py/comment.py:58 | Four zero-padded digits read back as the year they format. |
| Naming.Pad2Injective | py/comment.py:69 | Two numbers below 100 format alike if and only if they are equal. |
| Naming.Pad4Injective | py/comment.py:69 | Two years format alike if and only if they are equal. |
| Naming.DateCellFields | py/comment.py:58 | The `scrp_date` cell has 10 characters with '-' at positions 4 and 7, and its three fields read back as the capture year, month and day. |
| Naming.TimeCellFields | py/comment.py:59 | The `scrp_time` cell has 5 characters with ':' at position 2, and reads back as the capture hour and minute. |
| Naming.FileMatchesFolder | py/comment.py:69 | The file name's first nine characters are the `YYYY_MMDD` that also begins the day folder's name (line 101). |
| Naming.PathLayout | py/comment.py:69 | A file path is 39 characters plus the genre code, with the year, month, day, hour, minute and genre code at fixed positions. |
| Naming.FilePathCollidesIff | py/comment.py:69 | Two file paths are equal if and only if the capture times share year, month, day, hour and minute and the genre codes are equal. |
| Extraction.ExtractRowFails | py/comment.py:34-43 | An item fails with a missing field f if and only if f is absent and every field checked before f is present. |
| Extraction.ExtractRowOkIff | py/comment.py:34-50 | An item gives a row if and only if all five elements and the link's href are there. It fails for the href if and only if all five elements are there and the href is not. |
| Extraction.RowLayout | py/comment.py:46-63 | A row holds the capture date and time, the genre, the stripped rank, media, title, href and date, and the normalised comment. The five stripped cells have no whitespace at either end. |
| Extraction.MissingCommentIsNA | py/comment.py:53-54 | Without a comment element the comment cell is "N/A". |
| Extraction.CommentLosesSuffix | py/comment.py:53-54 | A counter text made of whitespace, a token-free value, "件/時" and whitespace gives exactly the value. |
| Extraction.CollectErrorPersists | py/comment.py:25-43 | Once an item has raised, the later items do not change the loop's outcome. |
| Extraction.CollectSpec | py/comment.py:25-63 | The item loop succeeds if and only if every item does, and then keeps every row in order. Otherwise its error is the first error. |
| Extraction.ErrorIndex | py/comment.py:34-43 | An item's error names the index of that item. |
| Extraction.ExtractAllSpec | py/comment.py:25-63 | A page gives rows if and only if every item does, one row per item in page order. Otherwise the error is that of the first failing item, and the items before it all gave rows. |
| Extraction.RowsShareStamp | py/comment.py:57-63 | Every row of a page has ten cells and carries the capture date, the capture time, the genre code and the genre name. |
| Pipeline.ScrapeAndSave | py/comment.py:17-82 | The item loop with its early exit gives the result of GenreStep. The invariant is that the rows kept so far are the loop outcome of the items seen so far. |
| Pipeline.GenreStepCases | py/comment.py:17-82 | FetchFailed if and only if the fetch raised; NoData if and only if the page has no item. A saved file holds one row per item, in order, at the folder and the minute-and-genre path. Failed carries the first failing item's error, and every earlier item gave a row. |
| Pipeline.Run | py/comment.py:98-110 | The genre loop with its early exit gives exactly the results, written files and outcome of RunSpec. |
| Pipeline.AbortPersists | py/comment.py:104-110 | After the run has stopped, later genres change nothing. |
| Pipeline.PolicyKeepsResults | py/comment.py:104-110 | The run's results are a prefix of the genres' step results, in list order. The files written are exactly those of the saved steps among them. |
| Pipeline.PolicyOutcome | py/comment.py:104-110 | The run completes if and only if no step failed, and then every genre was processed. Otherwise it stops at the first failed step, which is the last one processed. |
| Pipeline.RunPolicy | py/comment.py:104-110 | The same, in terms of the per-genre step and the exit status. Fetch failures and empty pages do not stop the run. An aborted run processed just the genres up to the first failing one and exits with status 1. |
| Pipeline.SavedFileStamp | py/comment.py:57-69 | A saved file lies in the capture day's folder and is named by the capture minute and the genre code. It has at least one row, and every row carries the capture date and time. |
| Pipeline.WrittenComesFrom | py/comment.py:104-110 | Every written file is the file of a saved step that comes before the step that stopped the run. |
| Pipeline.WrittenFiles | py/comment.py:98-110 | Every file the run writes comes from a genre before the one that stopped it. It is stamped with the run's folder, minute, date and time. |
| Pipeline.DistinctGenresDistinctPaths | py/comment.py:69 | Within one run, two genres with different codes never write the same path. |
| Pipeline.GenreCodesDistinct | py/comment.py:85-95 | The nine genre codes of the script are pairwise different. |
| Pipeline.ScriptRunPathsDistinct | py/comment.py:85-106 | In a run of the script, no genre's file overwrites another genre's file. |
| Pipeline.Save | py/comment.py:66-73 | Saving adds the folder to the directories and the path to the files. The path then holds the header and the rows, and every other file is unchanged. |
| Pipeline.LastWriteWins | py/comment.py:69-73 | After a sequence of saves, a path holds the rows of the last file written to it. |
| Pipeline.KeepsUntouched | py/comment.py:73 | A path that no save writes to keeps its contents. |
| Pipeline.SaveAllDirs | py/comment.py:66-68 | After a sequence of saves, the directories are exactly the old ones plus the files' folders, however often each recurs. |

## Left out

- Fetching: `requests.get` and `raise_for_status` are not modelled. Each genre's fetch result is a `Page` parameter, and `FetchError` stands for any `requests.RequestException`.
- HTML parsing and the CSS selectors: BeautifulSoup is not modelled. An `Item` records what `select_one` found for each selector and the `.text` of each element found. An element counts as present when it was found, as a BeautifulSoup tag is always truthy.
- The clock: `get_japan_time` becomes the `Timestamp` parameter, read once per run. Seconds, microseconds and the UTC offset appear in no output and are not modelled.
- Naming.DateTime.Valid: capture years before 1000 are left out. A Python `datetime` allows them, but some C libraries write such a year with fewer than four digits for `%Y`, so the file names and date cells of those years are not modelled.
- The pandas DataFrame and `to_csv`: CSV quoting, line endings and the UTF-8 encoding are not modelled. A file's contents are the header `Columns` followed by the rows, as lists of cells.
- File-system failures: an `OSError` from `os.makedirs` or `to_csv` would abort the run through the same handler as an extraction error. The model assumes writes succeed.
- `os.path.exists` and `os.makedirs`: the directories are a set in `Disk`.
- The `print` messages for saved files, empty pages, fetch errors and the abort are not modelled. Their texts, including the URL, are not part of any result.
- `time.sleep(3)` between genres: timing is not modelled.
- `exit(1)` is not modelled as process termination. It is the `Aborted` outcome together with `ExitCode`.
- Text.RemoveNoise: its own contract only bounds the length. Its result is determined by two lemmas. RemoveNoiseFixedIff covers a text without the token. RemoveNoiseFirstToken splits any other text at its first occurrence.
- Extraction.ItemError: `MissingHref(index)` carries the item index so that every item error names its item. The `KeyError` raised for a missing `href` holds only the key name, unlike the `ValueError` messages.
- Pipeline.WrittenFiles: it states where and how each written file is stamped. It does not state that a run's files all survive on the disk; that follows from ScriptRunPathsDistinct and LastWriteWins but is not proved as one lemma.

## Choices the code makes

These are the code's own behaviour, which a tolerant design might have made differently.

- **Missing elements.** Every one of the five elements is required, and there is no per-field sentinel. A missing element raises `ValueError`, and a link without `href` raises `KeyError` (`MissingElement`, `MissingHref`). Both are re-raised and end the whole run with exit status 1; no item is skipped. "N/A" is the only placeholder, and only the comment uses it.
- **Order of normalisation.** The comment is stripped first, and the token is removed afterwards with no trim after the removal. Whitespace that stood before a removed token can therefore remain at the end.
- **One removal pass.** The comment normalisation is not idempotent; `RemoveNoiseNotIdempotent` gives the input.
- **Fixed error policy.** A fetch error is logged and the run goes on to the next genre. Any other error aborts the run. Nothing makes this configurable.
- **Output options.** There is no byte-order mark and there are no fallback selectors.
