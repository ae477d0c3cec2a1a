# ferbot — a Dafny model of its decision logic

ferbot downloads the course materials of a university portal. It drives a
browser to log in and list the enrolled courses. For each course it downloads
every folder as a zip archive that the browser saves into a staging directory,
then extracts it. It fetches every file over HTTP. Everything is laid out under
`destination/<course>/materijali/`.

Most of the program is calls into the browser driver, the HTTP client, the
zip library and the HTML parser. This model covers the logic between those
calls. All of it is in `ferbot/main.py`:

- **Download completion** (`downloads.dfy`, module `Downloads`).
  - `IsIncomplete` says whether a staged file name is an unfinished download.
  - `WaitDownloads` is the polling loop of `wait_downloads`. The clock and the
    directory listing become a trace of `Poll` records, one per pass of the
    loop. Each record holds the elapsed time read by the loop test, the
    elapsed time read to size the nap, and the listing.
  - The outcome is `Returned(listing)`, or `StillWaiting` when the trace ends
    before the loop would return. With no timeout, that is a wait that never
    ends.
  - The loop is proved equal to the specification function `Wait`. The
    lemmas about `Wait` state what the source promises:
    - the earliest qualifying listing is returned;
    - every returned entry is finished;
    - the expected count is honoured;
    - with a timeout the wait gives up, and without one it never does.
- **Course enumeration** (`courses.dfy`, module `Courses`). `GetCourseList`
  maps the anchors of the course list, in document order, to `Course`
  records. The link is kept verbatim and the name is stripped of surrounding
  whitespace.
- **Python string operations** (`text.dfy`, module `Text`). Substring test,
  `endswith`, `strip`, `rfind` and `lower`.
  - `Contains`, `Strip` and `RFind` are proved against an independent
    description: an occurrence at some index, a block with only whitespace
    around it, the last index holding the character.
  - `EndsWith` is its own definition: the input's tail equals the suffix.
  - For `Lower` two properties are proved: no letter A to Z is left, and
    lowering twice changes nothing.
- **Destination naming** (`paths.dfy`, module `Paths`).
  - `Splitext` models `os.path.splitext` on POSIX paths, including its rule
    that leading dots of a name do not start an extension.
  - The extension keeps its dot, and the source puts another `.` before it.
    So a file is saved as `name..ext`. The model reproduces this and proves
    it (`FileTargetDoublesDot`).
- **Materials download** (`materials.dfy`, module `Materials`).
  - `DownloadCourseMaterials` walks a course page's folder items, then its
    file items. It returns the actions it takes, in order: extract a staged
    archive, fetch a link, or skip a link without extension. It also returns
    whether it reached the end.
  - A folder waits for exactly one finished staged file and no timeout is
    passed. So the source's assertion that one file was returned can never
    fail. The model proves this (`SingleFileWait`) and keeps the check as a
    Dafny `assert`. A folder whose archive never settles hangs the run.
- **Configuration** (`configs.dfy`, module `Configs`; `ferbot.dfy`, module
  `Ferbot`).
  - `TryConfigs` picks the first candidate path that is an existing file.
  - A dotenv file is given as the items of the dictionary parsed from it:
    each key once, at the place it first appears in the file, with the value
    of its last assignment.
  - `LowerKeys` lower-cases every key. When two keys differ only in case, the
    one later in the dictionary wins.
  - `LoadSettings` and `RunCourses` are the start and the course loop of
    `main`.

The folder wait is called without a timeout (`ferbot/main.py:142`), so a
folder whose archive never settles makes it poll for ever. The model follows
the code: such a course ends in `Hung`, and so does the run.

Only the folder branch creates the course's `materijali/` directory
(`ferbot/main.py:148`). A course with files but no folders writes its files
into that directory without creating it (`ferbot/main.py:170`), which fails on
a fresh destination. The model's `Fetch` action does not capture this; see
"## Left out".

## Model

| member | source | states |
|---|---|---|
| `Downloads.IsIncomplete` | ferbot/main.py:43-48 | true exactly when the name contains `.com.brave.Browser` anywhere or ends with `.crdownload` |
| `Downloads.NapLength` | ferbot/main.py:55 | each pass sleeps between 0 and 0.5 s: the elapsed time when it lies in that range, 0.5 s above it, 0 below it |
| `Downloads.WaitDownloads` | ferbot/main.py:52-62 | the loop's outcome is `Wait` of the trace; it naps once per pass that gets past the loop test: if pass k is the first to stop, k + 1 naps when it passed the loop test and k when it failed it; each nap is `NapLength` of its pass, so between 0 and 0.5 s |
| `Downloads.WaitStopsAtFirstQualifyingPoll` | ferbot/main.py:54-61 | if pass k is the first that fails the loop test or sees a settled listing, the wait returns `[]` or that pass's listing respectively; if no pass stops, it is still waiting |
| `Downloads.WaitReturnsSettledListing` | ferbot/main.py:58-62 | a returned listing is empty or settled: every entry is finished, and with a count in force a non-empty result has exactly that count |
| `Downloads.WaitWithoutTimeoutNeverGivesUp` | ferbot/main.py:54-61 | with timeout None or 0 the wait is still waiting iff no pass saw a settled listing, and anything it returns is settled |
| `Downloads.WaitGivesUpAtTimeout` | ferbot/main.py:54-62 | with a timeout in force, a pass that reads an elapsed time at or above it before any settled listing makes the wait return `[]` |
| `Downloads.SingleFileWait` | ferbot/main.py:142-144 | waiting with no timeout for one file either keeps waiting or returns exactly one finished entry, so the length assertion holds |
| `Downloads.EmptyListingLooksLikeTimeout` | ferbot/main.py:54-62 | for any trace whose first stopping pass either sees a settled empty listing or fails the loop test, the wait returns `[]`: the caller cannot tell an empty staging directory from a timeout |
| `Downloads.PartialThenFinishedDownload` | ferbot/main.py:52-62 | a partial `report.pdf.crdownload` at 0 s and a finished `report.pdf` at 0.6 s: the wait for one file with a 5 s timeout returns `["report.pdf"]` |
| `Text.Contains` | ferbot/main.py:44 | Python's `sub in s`: true iff `sub` occurs as a contiguous block of `s` |
| `Text.TrimStartDropsLeadingSpace` | ferbot/main.py:117 | `lstrip` leaves a suffix, removes only whitespace, and stops at a non-whitespace character |
| `Text.TrimEndDropsTrailingSpace` | ferbot/main.py:117 | `rstrip` leaves a prefix, removes only whitespace, and stops at a non-whitespace character |
| `Text.StripStrips` | ferbot/main.py:117 | `strip` yields a block of the input with only whitespace around it, neither starting nor ending with whitespace |
| `Text.StripOfUnique` | ferbot/main.py:117 | only one string is a strip of a given string |
| `Text.StripIdempotent` | ferbot/main.py:117 | stripping a stripped name changes nothing |
| `Text.RFind` | ferbot/main.py:161 | `rfind` returns an index holding the character with none after it, or -1 when the character is absent |
| `Text.LowerIsLower` | ferbot/main.py:194 | a lower-cased key has no letter A to Z left, and lowering it again changes nothing |
| `Courses.GetCourseList` | ferbot/main.py:110-119 | one course per anchor, in document order; url is the href verbatim (absent when the anchor has none); name is the text stripped |
| `Paths.Splitext` | ferbot/main.py:161 | root followed by extension is the link; a non-empty extension starts with its only dot and has no `/` |
| `Paths.SplitextHasExtensionIff` | ferbot/main.py:161-165 | the extension is non-empty iff the last path component has a dot after some character other than a dot |
| `Paths.FileTargetDoublesDot` | ferbot/main.py:161-162 | a file with extension `.ext` is saved as `<materials dir>/<name>..ext` |
| `Materials.DownloadCourseMaterials` | ferbot/main.py:123-172 | an empty page yields nothing. Otherwise: one extraction per folder in order, then one fetch or skip per file in order. The course hangs iff some folder's archive never settles, and the actions stop before that folder |
| `Materials.FolderExtractionUsesTheSingleArchive` | ferbot/main.py:142-151 | a folder is extracted iff its wait returns; the archive is `<staging>/<the single finished entry>` and the target is `<materials dir>/<stripped folder name>` |
| `Materials.FileActionNaming` | ferbot/main.py:157-172 | a file is skipped iff its link has no extension; otherwise it is fetched from the link verbatim and saved as `<materials dir>/<stripped name>..<ext>` |
| `Configs.TryConfigs` | ferbot/main.py:186-189 | returns the entries of the first path that is an existing file, with no earlier path existing; nothing iff no path exists |
| `Configs.LowerKeysDomain` | ferbot/main.py:194 | the keys of the built dictionary are exactly the lower-cased keys of the entries |
| `Configs.LowerKeysLastWins` | ferbot/main.py:194 | each lower-cased key maps to the value of the last dictionary item whose key lowers to it |
| `Configs.RepeatedKeyKeepsDictionaryOrder` | ferbot/main.py:194 | example: a file assigning `FER=a`, `fer=b`, `FER=c` parses to the items `FER: c`, `fer: b`; lower-casing keeps `fer ↦ b`, the later item in the dictionary |
| `Configs.LowerKeysAreLowerCase` | ferbot/main.py:194 | every key of the built dictionary is in lower case |
| `Ferbot.LoadSettings` | ferbot/main.py:192-194 | settings come from `.env` if it exists, else from `.example.env`, with lower-cased keys; nothing iff neither exists |
| `Ferbot.RunCourses` | ferbot/main.py:203-205 | courses are processed in order; the run stops at the first course that hangs, and finishes all of them otherwise |

## Left out

- Browser session set-up and release (`driver_context`), `login`, and the element waits (`wait_el`, `wait_all`, `wait_clickable`, `wait_iframe`): thin calls into the browser driver with no logic of their own. Their timeouts and the errors they raise are not modelled.
- The wall clock, `time.sleep` and `os.listdir` become the `Poll` trace. Elapsed times are reals, not floats, so float rounding is not modelled. The nap lengths are returned rather than slept.
- The order of a directory listing is whatever the trace gives.
- HTML parsing: the course list is given as its anchors, and a materials page as its node count, folder items and file items.
- Navigation to `{fer}{course.url}/materijali` and to the intranet page is not modelled; a course's url is only carried along.
- Which archive the portal prepares for a folder is part of that folder's trace. The source clicks the first `.downloadZipFile` element of the whole page for every folder; the model does not capture which folder that element belongs to.
- The HTTP GET with basic authentication and writing the body to disk become the `Fetch` action. On a status other than 200 the source prints a message and still writes the body; what the body is after the response is closed depends on the HTTP library, so it is not modelled.
- Zip extraction, `os.makedirs` and `os.remove` become the `Extract` action, which carries the paths they are given.
- Reading and parsing dotenv files: the file system is a map from each existing file to the items of the dictionary parsed from it (distinct keys, in first-appearance order, each with its last value).
- Building `Config` from the dictionary and turning its two directories into absolute paths are not modelled.
- Console output is not modelled.
- `Text.Lower`: lower-cases only the ASCII letters A to Z, whereas Python's `str.lower` maps every Unicode cased letter; the configuration keys are ASCII.
- `Paths.Splitext`: models the POSIX variant only; on Windows `os.path.splitext` also treats `\` as a separator and skips a drive letter.
- `Ferbot.RunCourses`: states how far the run gets, not which actions it takes.
- `Materials.DownloadCourseMaterials`: assumes every HTTP GET, zip extraction and file write succeeds. A connection error raised by the GET, a staged file that is not a zip archive, and a write into a missing directory all end the program in the source; none of these is modelled.
- `Materials.DownloadCourseMaterials`: a course with files but no folders fetches into `<destination>/<course>/materijali/`, which only the folder branch creates; on a fresh destination the source's write fails there, while the model's `Fetch` action is taken as done.
