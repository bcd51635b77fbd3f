# Maynooth exam-paper scraper, modelled in Dafny

This project models the core of a desktop tool that signs in to the
Maynooth University library portal, lists the exam papers of one module,
keeps the PDF links whose file name mentions an allowed year, and downloads
them into `{output}/{module}/papers/`, reporting progress as it goes. It also
models the small light/dark theme manager the tool's windows share.

The model is a set of pure functions:

- The portal is an input value (`Scraper.Portal`). It holds the landing page's optional
  `form_build_id`, the status of the login POST, the listing page's status and hrefs, and
  one answer per paper URL.
- The disk is a value (`Scraper.FileSystem`): a set of directories and a map from file paths
  to bytes.
- A run (`Scraper.Start`) returns its outcome. That is `True`, one of the fixed messages,
  or the `ValueError` that `min()` raises on an empty year set. The run also returns the
  HTTP requests it made, the disk afterwards, and the progress-callback calls in order.

Modules:

- `Text`: Python's `str.endswith`, substring `in`, `split('/')` and `[-1]`, with `join` as
  the inverse of `split`.
- `StringOrder`: Python's code-point order on strings, and the least and greatest element
  of a set (`min`/`max`).
- `Decimal`: `str()` of an integer and its inverse `int()`.
- `Seqs`: an order-preserving filter.
- `Scraper`: `Scraper.__init__`, `start` (split at the login step into `Authenticate` and
  `FetchAndDownload`) and `download_paper`.
- `ScraperFacts`: the stage-by-stage properties of a run.
- `Scenarios`: concrete runs.
- `Styles`: `AppTheme`. The module-level `theme` instance (ui/styles.py:301) is
  `Styles.SharedTheme`, a constant equal to `Styles.Init()`.

Two behaviours of the code shape the model:

- `download_paper` calls `progress_update` on a 200 answer, on an existing file and on a
  non-200 answer. When `open(file_path, "wb")` raises (scraper.py:195), the thread ends
  first. So the model has a `WriteFailed` outcome with no progress call.
  `ScraperFacts.DownloadAllReportsEach` proves exactly one call per link when every target
  can be created.
- `self._progress_count += 1` (scraper.py:143) runs unlocked in several threads. The model
  runs the downloads one after the other.

## Model

| member | source | states |
|---|---|---|
| Text.ContainsIffOccurs | scraper.py:125 | `year in filename` holds exactly when the year occurs at some position of the file name (both directions) |
| Text.ContainsBounds | scraper.py:125 | the empty string is `in` every file name, and a year longer than the file name is never `in` it |
| Text.EndsWithIffAppended | scraper.py:97 | `href.endswith(".pdf")` holds exactly when the href is some text followed by ".pdf" |
| Text.Split | scraper.py:122 | `split('/')` yields at least one piece and no piece contains the separator |
| Text.JoinSplit | scraper.py:122 | joining the pieces of `split(sep)` with `sep` gives back the original string: splitting loses nothing |
| Text.SplitJoin | scraper.py:122 | splitting the join of separator-free pieces gives back those pieces |
| Text.LastSegment | scraper.py:122 | `split('/')[-1]` contains no `/` |
| Text.LastSegmentIsFinalPart | scraper.py:122 | `split('/')[-1]` is a suffix of the URL that is either the whole URL or preceded by `/` |
| Text.LastSegmentOfPath | scraper.py:173-174 | the last segment of `dir + "/" + name` is `name` when `name` has no `/` |
| StringOrder.LexLeTotal | scraper.py:133-134 | any two strings are comparable in Python's order |
| StringOrder.LexLeTransitive | scraper.py:133-134 | Python's string order is transitive |
| StringOrder.LexLeAntisymmetric | scraper.py:133-134 | two strings each at most the other are equal |
| StringOrder.LeastUnique | scraper.py:133 | a set has at most one least element, so `min(allowed_years)` is determined |
| StringOrder.Min | scraper.py:133-134 | `min` of a non-empty set is a member at most every member |
| StringOrder.Max | scraper.py:133-134 | `max` of a non-empty set is a member at least every member |
| Decimal.NatToString | scraper.py:23 | `str(n)` of a natural number is a non-empty string of decimal digits with no leading zero; zero is exactly "0" |
| Decimal.IntToStringRoundTrip | scraper.py:23-25 | `int(str(i)) == i` for every integer |
| Decimal.IntToStringInjective | scraper.py:23-25 | different integers give different year strings |
| Decimal.IntToString | scraper.py:23-25 | `str(i)` starts with '-' exactly for negative `i`, starts with '0' only as the whole text "0" of zero, and never has '0' right after the '-' |
| Seqs.Filter | scraper.py:95-98 | every kept element passes, each element is kept as often as it occurs if it passes and never otherwise, and the result keeps the input's order |
| Seqs.FilterMembership | scraper.py:95-98 | an element is kept exactly when it occurs in the input and passes |
| Seqs.FilterEmpty | scraper.py:101-103 | the filter is empty exactly when no element passes |
| Seqs.FilterAll | scraper.py:95-98 | when every element passes, the filter returns the input unchanged |
| Scraper.Init | scraper.py:22-25 | with a year argument the allowed set holds exactly the `str` of each element; no progress callback is attached yet |
| Scraper.AttachProgressCallback | ui/windows.py:112 | attaching a callback keeps the allowed years |
| Scraper.YearText | scraper.py:25 | `str(y)` of a string element is the string itself, and of an integer element is decimal text without leading zeros, starting with '-' exactly when the integer is negative, that `int()` reads back as that integer |
| Scraper.PathChecks | scraper.py:187-195 | `isfile` implies `exists`, a missing path is neither file nor directory, and `open(path, "wb")` succeeds only in an existing directory on a missing path or a file |
| Scraper.PapersDirShape | scraper.py:108 | the papers directory lies under the output folder, ends in "/papers", and different module codes get different directories |
| Scraper.MakeDirsIfMissing | scraper.py:112-116 | afterwards the path exists, no file changes, at most that one directory is added, and a path that is already a file is left as a file |
| Scraper.PaperPath | scraper.py:173-174 | the target is `{output}/{module}/papers/` plus the URL's last segment, and has the same last segment as the URL |
| Scraper.PdfLinks | scraper.py:91-98 | exactly the hrefs ending in `.pdf`, case-sensitive, in page order, duplicates kept |
| Scraper.PdfLinkFileName | scraper.py:173-174 | a PDF link's file name also ends in ".pdf", and a link ending in ".PDF" is not a PDF link |
| Scraper.FilterByYear | scraper.py:118-130 | exactly the papers whose file name contains an allowed year, each occurrence kept once, in order |
| Scraper.MentionsAllowedYearIff | scraper.py:121-128 | a link is kept exactly when some allowed year occurs in its file name; an empty year set keeps nothing and an empty-string year keeps everything |
| Scraper.DownloadPaper | scraper.py:172-204 | the file is written iff the answer is 200, no file or directory is at the path and the papers directory exists. Existing files and directories never change, a 200 answer for an existing file reports it as already present, a non-200 answer writes nothing, and in the model only a failed `open` skips the progress call |
| Scraper.ProgressUpdate | scraper.py:142-146 | the counter goes up by one and, with a callback, one `(count, total)` call is appended |
| Scraper.DownloadAll | scraper.py:148-163 | one download thread per filtered paper, in list order, each making one GET of its own URL |
| Scraper.Ticks | scraper.py:187-204 | one `progress_update` call per link except the links whose `open` failed, so one for every link exactly when no `open` failed |
| Scraper.Authenticate | scraper.py:34-70 | login passes iff there is no form or the POST answers 200. A form means exactly one POST carrying the credentials, `user_login` and the form's token; no form means no POST |
| Scraper.FetchAndDownload | scraper.py:72-170 | the listing GET comes first, every later request is a paper GET, and `True` is returned exactly when some paper was requested |
| Scraper.DownloadStage | scraper.py:136-170 | after the listing GET comes one GET per filtered paper, in order, and the run returns `True` |
| Scraper.NoPapersInYearsExtends | scraper.py:132-134 | the year-range message starts with "No papers found for this module", differs from it, and ends with the greatest allowed year |
| Scraper.Start | scraper.py:27-170 | the landing page is fetched first, a POST is the second request exactly when a form is shown, and no later request is a POST |
| ScraperFacts.InitDefaultYears | scraper.py:22-23 | with no argument the allowed years are exactly "2020" … "2025" |
| ScraperFacts.InitDefaultIsRange | scraper.py:22-25 | no argument and `range(2020, 2026)` give the same scraper |
| ScraperFacts.InitRangeSame | scraper.py:22-25 | any year list holding the integers 2020 … 2025 in order gives the default scraper |
| ScraperFacts.InitIntYearAllowed | scraper.py:24-25 | an integer's text is allowed iff the argument held that integer or its text |
| ScraperFacts.DefaultYearsMessage | scraper.py:132-134 | with the default years the empty-filter message is "No papers found for this module in years 2020-2025" |
| ScraperFacts.Selected | scraper.py:95-130 | every selected URL is a PDF link that mentions an allowed year, and the selection is a subsequence of the page's hrefs |
| ScraperFacts.StartSkipsLoginWithoutForm | scraper.py:43-77 | without a form the run makes no POST and goes straight from the landing page to the listing |
| ScraperFacts.StartRejectsLogin | scraper.py:44-67 | a form plus a non-200 POST returns "Error: Invalid credentials" after exactly the landing GET and the POST, with the disk unchanged and no progress |
| ScraperFacts.StartRejectsListing | scraper.py:72-83 | a non-200 listing returns "Error: Unable to fetch exam papers", with the listing GET as the last request, the disk unchanged and no progress |
| ScraperFacts.StartWithoutPdfLinks | scraper.py:95-103 | a listing without `.pdf` hrefs returns "No papers found for this module" before any directory is made |
| ScraperFacts.StartWithoutYearMatch | scraper.py:108-134 | when no PDF mentions an allowed year, the papers directory exists and no file changes. The result is the `min`-`max` message, or `ValueError` on an empty year set |
| ScraperFacts.StartSucceeds | scraper.py:136-170 | a run past login and listing that selects papers makes the directory, downloads the selection in order, reports each tick and returns `True` |
| ScraperFacts.StartSucceedsIff | scraper.py:27-170 | `start` returns `True` iff login passes, the listing is 200 and some paper is selected, whatever the per-file outcomes |
| ScraperFacts.DownloadAllFiles | scraper.py:172-199 | a batch keeps all directories and existing files, adds only bodies of 200 answers at their own paths, and adds every one whose path can be created |
| ScraperFacts.DownloadPaperIdempotent | scraper.py:182-199 | a second download of a written or skipped paper changes nothing and still reports once |
| ScraperFacts.DownloadAllWritesNothing | scraper.py:182-199 | when every 200 target already exists or cannot be created, a batch leaves the disk unchanged |
| ScraperFacts.DownloadAllIdempotent | scraper.py:172-199 | with the portal answering both passes the same way, a second pass over the same batch leaves the disk as the first pass left it |
| ScraperFacts.CountUpCons | scraper.py:142-146 | one call in front of a count-up is a longer count-up |
| ScraperFacts.ReportCountsUp | scraper.py:138-146 | the counter rises once per reporting outcome, and the callback sees consecutive counts in order |
| ScraperFacts.DownloadAllReportsEach | scraper.py:187-204 | when every target can be created, each paper reports exactly once |
| ScraperFacts.BatchReportsEach | scraper.py:138-146 | downloads into an existing directory with no target a directory report `(1, N)` … `(N, N)` |
| ScraperFacts.MadeDirIsNoPaper | scraper.py:112-113 | making the papers directory never puts a directory at a paper's path |
| ScraperFacts.StartReportsProgress | scraper.py:136-170 | a successful run whose targets can be created reports `(1, N)` … `(N, N)` with a callback, and nothing without one |
| Scenarios.YearFilterExample | scraper.py:121-130 | with years {"2021", "2022"} the filter keeps "exam_2021_may.pdf" and drops "exam_2019_may.pdf" |
| Scenarios.ThreePapersSelection | scraper.py:95-130 | of three listed PDFs the default years keep the 2022 and 2024 papers and drop the 2019 one |
| Scenarios.TwoFreshDownloads | scraper.py:172-199 | two new paper paths with 200 answers both get written with their bodies |
| Scenarios.ExamPortalRun | scraper.py:27-170 | a full example run returns `True`, creates only "out/CS101/papers", saves exactly the two selected papers there and reports `(1, 2)`, `(2, 2)` |
| Scenarios.RejectedLoginRun | scraper.py:64-67 | a 403 on the login POST returns "Error: Invalid credentials" and leaves the disk as it was |
| Scenarios.SubstringFalsePositive | scraper.py:121-128 | the raw substring test keeps a 2015 paper whose file name also carries "2021" |
| Styles.Init | ui/styles.py:9-10 | the theme starts as "light" |
| Styles.GetStylesheet | ui/styles.py:12-17 | the dark sheet iff the theme is "dark", the light sheet otherwise |
| Styles.SetTheme | ui/styles.py:19-22 | "light" and "dark" are adopted, any other name leaves the state unchanged, and validity is preserved |
| Styles.ToggleTheme | ui/styles.py:24-26 | "light" becomes "dark", anything else becomes "light", so the result is always valid |
| Styles.ToggleSwitchesStylesheet | ui/styles.py:12-26 | from a valid state toggling changes the stylesheet |
| Styles.ToggleTwice | ui/styles.py:24-26 | from a valid state toggling twice restores it |
| Styles.ToggleTwiceFromInvalid | ui/styles.py:24-26 | from any other name toggling twice gives "dark", not the starting state |
| Styles.ValidAfterAnyOps | ui/styles.py:19-26 | every sequence of set and toggle operations keeps the theme "light" or "dark" |
| Styles.ReachableThemesValid | ui/styles.py:9-26 | every theme reachable from the initial one is "light" or "dark" |

## Left out

- HTTP traffic and the cloudscraper session (scraper.py:13-19, 35, 60, 77, 179). Each response is an input: the login POST status, the listing status and hrefs, and a status and body per paper URL. The landing page's status is not consulted by the code, so it is not modelled.
- HTML parsing with BeautifulSoup. The landing page is an optional form token and the listing page is its sequence of hrefs.
- A login form input without a `value` attribute, which raises `KeyError` at scraper.py:47. The form token is modelled as always present when the input is.
- Threads. The downloads run one after the other in list order. The unlocked `_progress_count` increment (scraper.py:143) and the race between two links with the same file name are not modelled. In the model the second such link finds the first one's file.
- `os.makedirs` creates intermediate directories and can fail. The model adds only the papers directory, which is all the later steps consult.
- Scraper.DownloadPaper: a `session.get(url)` that raises (scraper.py:179) is not modelled. A connection error, a timeout or an href without a scheme all end the thread with no write and no `progress_update`. Hrefs are passed to `get` as they appear on the page, so a relative link such as "/a/CS101_2022.pdf" makes the real request raise. The model's `papers` answers every URL, `Scenarios.ExamPortalRun` included.
- Scraper.DownloadPaper: an `f.write` that raises (scraper.py:196) is not modelled. It leaves a partial file and skips the progress call. A write that starts always completes in the model.
- Scraper.Start: an exception from `session.get` or `session.post` at scraper.py:35, 60 and 77 leaves `start` instead of returning a value. The model always receives an answer.
- Scraper.YearText: `allowed_years` elements are only integers or strings. `str()` of floats, booleans or other objects is not modelled. The application's caller passes no argument (ui/windows.py:95).
- Scraper.PaperPath: paths are compared as unnormalised strings. "out/" with "/CS101/papers" gives "out//CS101/papers", which the model treats as a different path from "out/CS101/papers" for the skip-if-exists check, while the operating system does not.
- Logging throughout.
- The stylesheet text returned by `light_theme`/`dark_theme` is two opaque values.
- ui/windows.py (Qt widgets, worker threads, upper-casing of module codes), main.py and utils/module_scraper.py, all of which are I/O or GUI glue. Only the callback attachment at ui/windows.py:112 is modelled.
