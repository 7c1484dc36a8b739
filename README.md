# audioscape: catalog titles and the idempotent download step

`play_sounds.py` reads a sheet of sound archives (a `URL` column and a
`Sound theme` column). It derives a title for every row, then downloads each
row's URL into the `sounds` directory, skipping every row whose file is
already there. This project models that pipeline in Dafny and proves what
it guarantees:

- `text.dfy` (module `Text`): Python's `str.replace` for a one-character
  pattern, and an occurrence count.
- `catalog.dfy` (module `Catalog`): the rows and the title lambda of `main`.
  Every comma is dropped and every space becomes `_`.
- `paths.dfy` (module `Paths`): `str.split("/")` and `"/".join`, proved to be
  inverse to each other. It also holds the file name `url.split("/")[-1]` and
  the save path `Path("sounds") / filename`. As in `pathlib`, an empty name or
  `.` joins to the directory itself.
- `download.dfy` (module `Download`): the file system is a map from path to
  entry, and the network is the list of URLs a request was attempted for. `Fetch`, `Visit` and
  `Run` specify `download_url`, one loop iteration and the whole loop. The
  class `Host` holds that state. Its methods `DownloadUrl` and `Download` are
  the imperative versions, proved equal to those functions.

How a transfer ends is outside the program. Each row therefore carries a
`Transfer` value: `Completed`, `GetFailed` (`requests.get` raised),
`OpenFailed` (opening the save path raised) or `StreamFailed` (the stream
raised after the file was opened, leaving a partial file). A row's value is
used only if the row is fetched.

What the code does, and what the model therefore does:
- The title drops only commas and turns spaces into `_`. All other
  punctuation is kept.
- `download_url` returns `None` on failure, `download` ignores that value, and
  `download` itself returns nothing. So the `path` column that `main` assigns
  is `None`, and `Host.Download` returns nothing.
- `play_sounds.py:75-76` holds only a `TODO` and a call to `play`, which is
  never defined.

## Model

| member | source | states |
|---|---|---|
| Text.Replace | play_sounds.py:71 | `str.replace` with a one-character pattern: the pattern is absent from the result when the replacement does not contain it, and every result character comes from the replacement or is a non-pattern character of the input |
| Text.ReplaceLength | play_sounds.py:71 | each occurrence of the pattern is traded for the replacement: the length is the input length minus the count plus count times the replacement length |
| Text.ReplaceAppend | play_sounds.py:71 | replacing commutes with concatenation |
| Text.ReplaceAbsent | play_sounds.py:71 | replacing a character that does not occur leaves the string unchanged |
| Catalog.Title | play_sounds.py:71 | the title contains no comma and no space, and it is as long as the theme minus its commas |
| Catalog.WithTitles | play_sounds.py:70-73 | the title column has one row per sheet row, in order; each row keeps its URL and its title is `Title` of its theme, so it is comma-free, space-free and as long as the theme minus its commas |
| Catalog.TitleAppend | play_sounds.py:71 | the title of a concatenation is the concatenation of the titles |
| Catalog.TitleOfChar | play_sounds.py:71 | a comma becomes nothing, a space becomes `_`, any other character stays itself |
| Catalog.TitleIsSlugs | play_sounds.py:71 | the title is the theme's per-character slugs joined in order (an independent character-by-character definition) |
| Catalog.TitleKeepsOrder | play_sounds.py:71 | every non-comma character of the theme appears in the title at the position after the title of its prefix: a space as `_`, anything else unchanged, so the order is kept |
| Catalog.TitleIdempotent | play_sounds.py:71 | deriving a title from a title gives it back unchanged |
| Paths.Split | play_sounds.py:43 | `split("/")` gives at least one part, no part contains the separator, and joining the parts with the separator gives the input back |
| Paths.SplitJoin | play_sounds.py:43 | the other direction: splitting the join of separator-free parts gives the parts back |
| Paths.FileName | play_sounds.py:43 | the file name contains no `/`, is a suffix of the URL, is preceded by a `/` unless it is the whole URL, and is the whole URL when the URL has no `/` |
| Paths.FileNameUnique | play_sounds.py:43 | any suffix with those properties is the file name, so the contract determines it |
| Paths.FileNameOfDirectoryUrl | play_sounds.py:43 | a URL ending in `/` has the empty file name |
| Paths.JoinPath | play_sounds.py:44 | `pathlib`'s `/` for one `/`-free component: the result is the base itself exactly when the name is empty or `.`, and otherwise it is the base, one `/`, and the name |
| Paths.SavePath | play_sounds.py:43-44 | the save path is the download directory exactly when the file name collapses, and otherwise an entry directly inside `sounds/` whose own last segment is the URL's file name |
| Paths.SavePathsCollide | play_sounds.py:43-44 | two URLs share a save path if and only if their file names are equal or both collapse into the directory |
| Paths.SavePathOfDirectoryUrl | play_sounds.py:43-44 | a URL ending in `/` is saved to the download directory itself |
| Download.Host.DownloadUrl | play_sounds.py:52-64 | the new state is `Fetch` of the old one: one attempt for the URL is recorded, the file is written complete only after a full stream, partially after a failed stream, and not at all when the request or the open fails. It returns 0 only after a full stream and nothing otherwise, and no `Exception` reaches the caller |
| Download.Fetch | play_sounds.py:52-64 | one attempt for the URL is appended; no other path changes; the save path exists afterwards exactly when it did before or the transfer leaves a file, and then it holds the URL's body, complete only after a full stream; a failure before opening leaves the files as they were |
| Download.Visit | play_sounds.py:41-49 | one loop iteration makes an attempt for the row's URL exactly when its save path is absent, keeps every existing entry unchanged, and can add only the save path |
| Download.Host.Download | play_sounds.py:37-49 | the new files and attempts are exactly those of visiting every row in order (`Run`), and nothing is returned |
| Download.Run | play_sounds.py:40-49 | the whole loop never removes or rewrites an existing path, keeps earlier attempts, and makes at most one attempt per row |
| Download.RunOnlyAddsSavePaths | play_sounds.py:43-49 | every path the loop creates is the save path of one of the rows |
| Download.SkipRule | play_sounds.py:45-49 | at each row, an existing save path leaves the world unchanged; an absent one causes exactly one fetch attempt for that row's URL |
| Download.DuplicateSkipped | play_sounds.py:43-49 | of two rows with the same save path, the later one makes no attempt when the earlier one's transfer left a file |
| Download.RunCovers | play_sounds.py:44-61 | after the loop, the save path of every row whose transfer leaves a file exists |
| Download.NothingToFetch | play_sounds.py:45-49 | when every save path already exists, the loop makes no attempt and changes nothing |
| Download.RerunFetchesNothing | play_sounds.py:40-49 | after a run in which every transfer left a file, running again makes no attempt and changes nothing, whatever the second run's transfers would do |
| Download.PartialFileSticks | play_sounds.py:57-64 | a stream that fails after opening leaves a partial file at the save path, and the loop keeps it to the end |
| Download.DirectoryUrlSkipped | play_sounds.py:43-49 | once the download directory exists, a row whose URL ends in `/` is never fetched |

## Left out

- `setup` (play_sounds.py:23-29) creates the download directory. That is file-system I/O and is not modelled. `Download.DirectoryUrlSkipped` takes the directory's existence as a precondition instead.
- `load_data` (play_sounds.py:32-34) and the dataframe plumbing in `main` (play_sounds.py:68-76) are thin wrappers over pandas. Rows are given as sequences of `SheetRow` and `Row`. A missing (NaN) cell, on which `.replace` or `.split` would raise, is not modelled.
- `play` (play_sounds.py:76) is called but never defined, and the time-of-day selection is only a `TODO` (play_sounds.py:75). There is nothing to model.
- The HTTP transfer (`requests.get`, `iter_content`, 128-byte chunked writes, play_sounds.py:58-61) is abstracted as a `Transfer` value per row. `Completed` means the whole response body was written, whatever its HTTP status: `requests.get` does not raise on an error status. The bytes themselves are not modelled.
- Logging (`_log`, `info`, `debug`, play_sounds.py:14-20, and the malformed message at play_sounds.py:64) is treated as output only. A `print` that raises (for example `BrokenPipeError` on a closed stdout) is not modelled; see the `Download.Visit` line below.
- Paths are plain strings. The operating system's resolution of `..`, symbolic links and case-insensitive file systems is not modelled. For example, a URL ending in `/..` gives the save path `sounds/..`, which the model treats as absent, but the real `exists()` finds it.
- Download.Host.DownloadUrl: a transfer that never ends (`requests.get` at play_sounds.py:58 has no timeout, and `iter_content` at :60 can block) and a `BaseException` that `except Exception` at :63 does not catch (`KeyboardInterrupt`, `SystemExit`) are not modelled. `Transfer` has no case for them, so the model and its lemmas describe runs that finish.
- Download.Visit: the `save_path.exists()` test at play_sounds.py:45 sits outside the `try`. An `exists()` that raises (for example ENAMETOOLONG for a last URL segment over 255 bytes, or EACCES on `sounds`) ends the source's loop part-way through the rows and escapes `main`. This is not modelled: `Visit` treats the path as absent, and `Run` and `Host.Download` describe runs in which every `exists()` returns. In the same way, the `debug` calls at play_sounds.py:46 and :49 are outside the `try`, and the one at :64 runs inside the `except` handler, so a `print` that raises there (such as `BrokenPipeError`) also ends the loop and escapes `download_url`; that is not modelled either.
