# napari update checker — a Dafny model of its decision logic

The update checker is a small napari widget. It asks two release feeds for
the newest napari version: the tag listing of the GitHub repository and the
conda-forge package index. It compares the newer of the two with the
installed version. Then it either says "you are up to date" or says the
installation is outdated and, unless snoozed, opens a "New release" dialog
whose Ignore button snoozes the dialog for 21 days. The snooze is a file
`ignore.txt` holding the ISO date of the last Ignore.

This project models the three pieces of pure decision logic in
`napari_update_checker/qt_update_checker.py` and proves their properties:

- **Tag normalisation** (`github_tags`), module `Tags`: drop items whose
  `name` is missing or empty, strip one leading `v`, reverse the order.
- **Latest-version selection** (`get_latest_version`), modules `Latest`,
  `Versions` and `VersionText`. It takes the last entry of each list, parses
  both and yields the greater. Conda-forge wins only when strictly greater.
  A network error yields nothing. An empty list raises `IndexError` and an
  unparsable entry raises `InvalidVersion` (as `packaging` 22 and later do).
  `Versions` is the PEP 440 release-segment ordering: components compared in
  turn, the shorter padded with zeros. It is proved equal to the key the
  `packaging` library compares, which is trailing zeros dropped and then
  Python tuple order.
- **Snooze state machine and decision** (`_check_time`, `show_version_info`,
  `check`), modules `Snooze` and `Calendar`. The state is the record file's
  contents (`Option<string>`) and the `_snoozed` flag. `Calendar` models
  `date.isoformat`, `date.fromisoformat` for the `YYYY-MM-DD` form, and
  `date.toordinal`, whose difference is what date subtraction returns.

Support modules: `Wrappers` (`Option`) and `Digits` (decimal digit strings,
shortest and zero-padded renderings).

Inputs that stand for the outside world:
- the decoded HTTP responses, as `Fetch<T>` (a body or a network error);
- the clock, as a valid `Date` (`checkDay` for `_check_time`, `answerDay` for
  the moment the dialog is answered);
- the dialog's result, as `Answer` (`Ok` or `Ignore`);
- the installed version, as a release segment.

Three behaviours of the code worth knowing:
- On a tie the GitHub tag is returned, not the conda-forge value.
  `latest_version > latest_tag` is strict; see `Latest.Select`.
- `_snoozed` is only assigned when the record parses. A record that is
  missing or unreadable leaves an earlier `True` in place. The dialog
  reads that flag, so it stays suppressed even though `_check_time` returns
  false. See `Snooze.StaleFlagSuppressesPrompt`.
- A record whose text does not parse is deleted. The suppressed
  `ValueError` falls through to `os.remove`.

## Model

| member | source | states |
|---|---|---|
| Tags.StripV | napari_update_checker/qt_update_checker.py:42-43 | exactly one leading `v` is removed when present (so `vv1` keeps one `v`); any other name is unchanged |
| Tags.GithubTagsMembers | napari_update_checker/qt_update_checker.py:38-45 | a string is in the tag list iff some item has a present, non-empty name that strips to it |
| Tags.GithubTagsCount | napari_update_checker/qt_update_checker.py:39-45 | the tag list has one entry per item with a non-empty name: its length is the number of such items |
| Tags.GithubTagsConcat | napari_update_checker/qt_update_checker.py:47 | the result is in reverse API order: the tags of `a + b` are the tags of `b` followed by those of `a` |
| Tags.GithubTagsLast | napari_update_checker/qt_update_checker.py:38-47 | when a named item exists, the list is non-empty and its last element is the first named item of the response, stripped |
| Tags.GithubTagsNone | napari_update_checker/qt_update_checker.py:39-41 | a response with no present, non-empty name gives the empty list |
| Versions.CompareEqual | napari_update_checker/qt_update_checker.py:76 | two releases compare equal iff every zero-padded component agrees (1.0 equals 1.0.0) |
| Versions.CompareLess | napari_update_checker/qt_update_checker.py:76 | `a < b` iff at the first zero-padded component where they differ, `a`'s is smaller |
| Versions.CompareFlip | napari_update_checker/qt_update_checker.py:76-79 | swapping the operands flips the answer, so any two releases are ordered one way or the other |
| Versions.CompareReflexive | napari_update_checker/qt_update_checker.py:76 | every release equals itself |
| Versions.CompareTransitive | napari_update_checker/qt_update_checker.py:76 | `>=` is transitive, and strict when either step is strict |
| Versions.TrimmedKeyOrder | napari_update_checker/qt_update_checker.py:74-76 | the padded order coincides with `packaging`'s key: equal iff the releases with trailing zeros dropped are equal, less iff those are less as Python tuples |
| VersionText.ParseReleaseDefined | napari_update_checker/qt_update_checker.py:74-75 | the release parser accepts a text iff it is digits and dots only, starts and ends with a digit and has no two dots in a row |
| VersionText.ParseDefined | napari_update_checker/qt_update_checker.py:74-75 | `parse` accepts a text iff it is a well-formed release, with or without one leading `v`/`V` |
| VersionText.ReleaseRoundTrip | napari_update_checker/qt_update_checker.py:74-75 | parsing the dotted decimal rendering of a release gives the release back |
| VersionText.PrefixedRoundTrip | napari_update_checker/qt_update_checker.py:75 | a `v`-prefixed rendering parses to the same release as the bare one (`v0.5.0` equals `0.5.0`) |
| Latest.Select | napari_update_checker/qt_update_checker.py:76-79 | the chosen version is one of the two candidates and is at least both; on equality the GitHub tag is chosen |
| Latest.ParseLast | napari_update_checker/qt_update_checker.py:74-75 | the last entry parses iff the list is non-empty and that entry is well-formed version text; `IndexError` iff the list is empty; any other failure is `InvalidVersion` naming the last entry |
| Latest.ParseLastRendered | napari_update_checker/qt_update_checker.py:74-75 | a last entry that is the rendering of a release, with or without a `v` prefix, parses to exactly that release |
| Latest.GetLatestVersion | napari_update_checker/qt_update_checker.py:59-79 | nothing is yielded iff either fetch raised `HTTPError`/`URLError`; otherwise a version is yielded iff both last entries exist and parse, and it is one of them and at least both; else the conda-forge exception wins over the GitHub one |
| Latest.LatestOfResponses | napari_update_checker/qt_update_checker.py:38-79 | over the raw responses (`GithubTags` of the tag listing, `CondaForgeReleases` of the package entry), the yield is the greater of the first named item of the tag listing (stripped) and the last conda-forge entry, and it is conda-forge's iff that one is strictly greater |
| Latest.MissingVersionsRaise | napari_update_checker/qt_update_checker.py:55-74 | a package entry without a `versions` key reads as the empty list (`CondaForgeReleases`), so the selection raises `IndexError` and yields nothing |
| Latest.NewestTagWins | napari_update_checker/qt_update_checker.py:59-79 | worked case: tag `v0.4.5` against conda-forge `0.4.3` yields 0.4.5 |
| Calendar.FromIsoFormat | napari_update_checker/qt_update_checker.py:125 | whatever the parser accepts is a date `datetime.date` can represent |
| Calendar.IsoRoundTrip | napari_update_checker/qt_update_checker.py:169 | what `isoformat` writes for a valid date, `fromisoformat` reads back as that date |
| Calendar.IsoCanonical | napari_update_checker/qt_update_checker.py:125 | only canonical text parses: a record that reads as a date is exactly that date's `isoformat` |
| Calendar.OrdinalOrder | napari_update_checker/qt_update_checker.py:126 | day numbers strictly increase in calendar order |
| Calendar.DaysBetweenSign | napari_update_checker/qt_update_checker.py:126 | the day difference is zero iff the dates are equal, and positive iff the earlier date is before the later |
| Snooze.CheckTime | napari_update_checker/qt_update_checker.py:115-132 | the answer is true iff the record parses and is under 21 days old; the record is never written, and it survives iff the answer is true; `_snoozed` becomes the answer when the record parses and is otherwise unchanged |
| Snooze.ShowVersionInfo | napari_update_checker/qt_update_checker.py:141-175 | the outdated label iff remote > installed, else the up-to-date label with installed >= remote; the dialog iff outdated and not snoozed; Ignore on the dialog writes today's ISO date as the whole record; otherwise nothing changes; `_snoozed` untouched |
| Snooze.Check | napari_update_checker/qt_update_checker.py:134-138 | the warning iff a fetch raised `HTTPError`/`URLError`; the decision runs iff a version was yielded; an exception raised by the selection is reported as that same exception; the dialog appears iff the yielded version is newer and `_snoozed` is false after `_check_time` (so never while the record is fresh); a newer version always gets the outdated label; after Ignore the state is the post-check state with today's ISO date as the record, and otherwise exactly the post-check state |
| Snooze.IgnoreThenCheckTime | napari_update_checker/qt_update_checker.py:115-169 | after Ignore on day `d`, a later check is snoozed iff fewer than 21 days have passed since `d`; it keeps the record then and deletes it otherwise |
| Snooze.IgnoreSuppressesPrompt | napari_update_checker/qt_update_checker.py:134-169 | after the dialog is answered Ignore, the next cycle within the 21-day window shows no dialog, still shows the outdated label for a newer version, and keeps the record with the flag set |
| Snooze.SnoozeHoldsThroughWindow | napari_update_checker/qt_update_checker.py:115-154 | from any state whose record was written on a day less than 21 days ago, a cycle shows no dialog, shows the outdated label for a newer version, and leaves that record with the flag set, so the same holds for every cycle in the window |
| Snooze.FirstCycle | napari_update_checker/qt_update_checker.py:88-154 | a new widget (`_snoozed` false) prompts on its first yielded version iff that version is newer and the record on disk is not a fresh snooze |
| Snooze.PromptReturnsAfterWindow | napari_update_checker/qt_update_checker.py:117-162 | once 21 days have passed the record is deleted and, if the remote version is still newer, the dialog appears again |
| Snooze.FutureRecordIsFresh | napari_update_checker/qt_update_checker.py:126-128 | a record dated today or later has non-positive age, so it is kept and snoozes |
| Snooze.CheckTimeIdempotent | napari_update_checker/qt_update_checker.py:115-132 | a second check on the same day returns the same answer and changes nothing |
| Snooze.StaleFlagSuppressesPrompt | napari_update_checker/qt_update_checker.py:123-154 | with a missing or unreadable record, `_check_time` answers false and deletes the record, yet an earlier `_snoozed = True` survives and suppresses the dialog |

## Left out

- Network I/O: `urlopen`, JSON decoding and the fixed endpoints (lines 33-36, 51-56). The decoded responses are inputs, and an `HTTPError`/`URLError` is the `NetworkError` input. Other exceptions of a fetch escape the `try` of `get_latest_version` with no warning and no yield: a connection dropped before the response (`http.client.RemoteDisconnected`, which `urlopen` does not wrap in `URLError`) or while `json.load` reads the body (`ConnectionResetError`, `IncompleteRead`). `Fetch` has no outcome for them. A body that is not valid JSON, or a tag `name` that is not a string, raises an error the model does not represent.
- Concurrency: `ThreadPoolExecutor`, `create_worker` and `ensure_main_thread` (lines 62-64, 136-140). A cycle is modelled as `_check_time` followed by the worker's result, as the source orders them.
- The `lru_cache` memoisation (lines 32, 50). It only caches; each model call takes the responses as given.
- Qt widgets, `QTimer`, the "Check for updates" button handler `_check`, `QMessageBox` and the HTML message text (lines 82-113, 145-161). The label is modelled by its kind and the two versions it shows. The dialog's result is the `Answer` input. The network warning of `show_warning` is the `warned` flag.
- What happens to an exception raised in the worker thread. The model only reports which exception was raised.
- VersionText.ParseDefined: `Parse` accepts only an optional `v`/`V` followed by a dotted numeric release. `packaging` also accepts surrounding whitespace, an epoch (`1!`), pre-, post- and dev-release parts and a local label. The model treats all of these as `InvalidVersion`, so it is weaker than the library on such inputs.
- Calendar.FromIsoFormat: models only the `YYYY-MM-DD` form, which is all `fromisoformat` accepts before Python 3.11 and all `isoformat` writes. The extra forms of Python 3.11 and later (`YYYYMMDD`, ISO week dates) are treated as unparsable.
- Filesystem failures: `open`, `read` or `os.remove` raising `OSError` (for example `ignore.txt` being a directory), `os.makedirs` and the `sys.prefix` location. An undecodable file raises `UnicodeDecodeError`, a `ValueError` the source suppresses. The model's record is already text, so it does not arise.
- The installed version string `napari.__version__` (line 90). It is an input, already parsed to a release segment.
- Snooze.CheckTime: takes one `today` for both `date.today()` calls of `_check_time` (the flag assignment and the `if` that follows). Across midnight the two can differ, for example age 20 then 21: `_snoozed` becomes true, yet the record is deleted and the call returns false. The model does not represent that interleaving.
- VersionText.ParseDefined: assumes `packaging` 22 or later, where an invalid version raises `InvalidVersion`. Earlier releases return a `LegacyVersion` that never raises and sorts below every PEP 440 version; the source does not pin the library version.
- A package entry with `"versions": null` is not representable. `data.get` returns `None` and `cf_versions[-1]` raises `TypeError`; `CondaPackage` only has a missing key or a list.
- The real clock. `date.today()` is the `Date` input, assumed to be a valid date.
