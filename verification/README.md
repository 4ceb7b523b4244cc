# mcserver core, modelled in Dafny

`mcserver` starts and updates a Minecraft server that runs on Paper. Its decision
logic is small and lives in three files:

- `src/mcserver/util.py`: `comparable_version` turns a dotted version string such as
  `1.20.1` into a 12-character key `000100200001`. String comparison of two keys then
  stands in for numeric comparison of the two versions.
- `src/mcserver/paper.py`: `get_latest_version` picks the first `SUPPORTED` entry of
  the Paper version index. `get_jar_version_and_build` reads the version and build
  out of a jar file name such as `paper-1.20.1-10.jar`. `get_latest_jarname` decides
  whether the latest remote build supersedes the local jar. `startup_sh` fills the
  jar name into the launch script template.
- `src/mcserver/screen.py`: `screen_exists` scans the output of `screen -list` for
  `<pid>.<name>` tokens.

The model has six modules, one file each:

- `Results` (`results.dfy`): `Option` and `Result`. A Python exception becomes a
  `Failure`.
- `Strings` (`strings.dfy`): the Python string operations the code relies on, each
  with its laws. These are `<` on `str`, `split`, the head of `rsplit(sep, 1)`, and
  `replace`.
- `Numerals` (`numerals.dfy`): digit strings, `int()` on them, decimal rendering,
  and the zero padding of `f"{n:04d}"`.
- `Util` (`util.dfy`): `comparable_version` and the order it is meant to preserve.
- `Paper` (`paper.dfy`): the index scan, jar name parsing, the update decision and
  the launch script substitution.
- `Screen` (`screen.dfy`): the `re.finditer` scan of `screen_exists`.

All network, file and process access is replaced by parameters. The version index,
the latest build's `(name, url)`, the launch script template and the text printed by
`screen -list` are inputs to the model.

Two behaviours are modelled as the code has them, and lemmas pin each one down.
First, the build numbers in `get_latest_jarname` are compared as strings, so build
`10` never supersedes build `9`. Second, both the version and the build must be
strictly greater for an update.

`paper.py` has no release-channel filter. The command line parses
`--allow-experimental` (`src/mcserver/__init__.py:33-36`) and passes it on at
`src/mcserver/__init__.py:60` and `65`, but `get_latest_jarname`
(`src/mcserver/paper.py:56`) takes no such argument. The model follows `paper.py`:
the latest build is taken as the build endpoint reports it.

## Model

| member | source | states |
|---|---|---|
| Strings.Less | src/mcserver/paper.py:66-67 | Python's `a < b` on strings: past the longest common prefix, `b` continues and `a` either ends or has the smaller code point; the laws below make it a strict total order |
| Strings.LessTrichotomy | src/mcserver/paper.py:67 | Python's `<` on strings is a strict total order: for any two strings exactly one of a<b, a==b, b<a holds |
| Strings.LessTransitive | src/mcserver/paper.py:66-67 | string `<` is transitive, so keys and builds compare consistently |
| Strings.LessSamePrefix | src/mcserver/util.py:23 | two concatenations whose first parts have equal length compare by the first parts, and by the second parts when the first parts are equal |
| Strings.Split | src/mcserver/util.py:18 | `s.split(sep)` returns at least one piece; what the pieces are is pinned by JoinSplit, SplitJoin, SplitPiecesLackSeparator and SplitCount |
| Strings.SplitCount | src/mcserver/paper.py:53 | a split has exactly one piece more than the string has separators |
| Strings.JoinSplit | src/mcserver/util.py:18 | joining the pieces of `split(sep)` with `sep` gives the original string back |
| Strings.SplitJoin | src/mcserver/util.py:18 | splitting the join of separator-free pieces gives exactly those pieces |
| Strings.SplitPiecesLackSeparator | src/mcserver/util.py:18 | no piece produced by `split(sep)` contains `sep` |
| Strings.SplitConcat | src/mcserver/paper.py:53 | splitting `a + sep + b` gives the pieces of `a` followed by the pieces of `b` |
| Strings.BeforeLast | src/mcserver/paper.py:53 | `rsplit(".", 1)[0]` is the whole string when there is no dot, otherwise the prefix that ends just before the last dot |
| Strings.BeforeLastOfSuffix | src/mcserver/paper.py:53 | removing an extension that contains no dot gives back exactly the stem |
| Strings.Replace | src/mcserver/paper.py:79 | `s.replace(pat, rep)`: replacing the pattern by itself changes nothing, and a replacement as long as the pattern keeps the length; ReplaceWithoutMatch and ReplaceFirstMatch pin down where replacements happen |
| Strings.ReplaceWithoutMatch | src/mcserver/paper.py:79 | `replace` leaves a string without any occurrence of the pattern unchanged |
| Strings.ReplaceFirstMatch | src/mcserver/paper.py:79 | `replace` substitutes the leftmost occurrence, copies the text before it, and goes on after it without overlap |
| Numerals.Decimal | src/mcserver/util.py:23 | the decimal rendering of n is a digit string with no superfluous leading zero and reads back as n |
| Numerals.Format | src/mcserver/util.py:23 | `f"{n:04d}"` is a digit string that reads back as n; it is exactly four characters long when n < 10000 |
| Numerals.NumeralOrder | src/mcserver/util.py:23 | for digit strings of equal length, string order coincides with numeric order |
| Numerals.ValueLeadingZeros | src/mcserver/util.py:19-21 | `int()` ignores leading zeros |
| Util.ParseInt | src/mcserver/util.py:19 | `int(text)` succeeds exactly on digit strings and otherwise raises the error naming the text |
| Util.ParseVersion | src/mcserver/util.py:18-21 | reading (major, minor, patch) succeeds exactly on strings with two numeric components and, when a third is present, a numeric third; on failure the error is the first of: major not an integer, no minor, minor not an integer, patch not an integer; on success the fields are the components' values, patch 0 when absent |
| Util.Key | src/mcserver/util.py:23 | the key is a digit string; for components below 10000 it is twelve digits whose three 4-digit fields read back as major, minor and patch |
| Util.ComparableVersion | src/mcserver/util.py:17-23 | succeeds exactly on well-formed versions; otherwise fails with the first error Python raises, in the order major (`ValueError`), missing minor (`IndexError`), minor, patch; for bounded components yields a 12-digit key that decodes to the parsed version |
| Util.ErrorOrder | src/mcserver/util.py:19-20 | `"x"` reports the bad major, not the missing minor; `"1"` reports the missing minor |
| Util.KeyOrder | src/mcserver/util.py:17-23 | for components below 10000, key a < key b as strings if and only if version a < version b in (major, minor, patch) order |
| Util.KeyInjective | src/mcserver/util.py:17-23 | for components below 10000, two versions share a key only if they are equal |
| Util.ComparableVersionOrder | src/mcserver/util.py:17-23 | on version strings: comparing their keys gives the same answer as comparing their parsed versions, and equal keys mean equal versions |
| Util.ParseRender | src/mcserver/util.py:18-21 | a version printed as `major.minor.patch` parses back to the same version |
| Util.MissingPatchIsZero | src/mcserver/util.py:21 | `M.m` and `M.m.0` give the same result, key or error |
| Util.ExtraComponentsIgnored | src/mcserver/util.py:18-21 | components after the third never change the result |
| Util.LeadingZerosShareKey | src/mcserver/util.py:20 | a minor component with leading zeros gives the same result as the same component without them |
| Util.OrderNeedsBound | src/mcserver/util.py:23 | the bound is needed: 10000.0.0 is the newer version, yet its key sorts before the key of 9999.0.0 |
| Paper.LatestVersion | src/mcserver/paper.py:25-31 | returns the id of the first `SUPPORTED` entry, and fails with "no supported version" exactly when no entry is `SUPPORTED` |
| Paper.JarVersionAndBuild | src/mcserver/paper.py:51-53 | `get_jar_version_and_build`: one field per dash of the name without its extension, none of them containing a dash; JarNameRoundTrip says which fields they are |
| Paper.JarNameRoundTrip | src/mcserver/paper.py:51-53 | `<prefix>-<version>-<build>.<ext>` parses to exactly [version, build] when the fields hold no dash and the extension holds no dot |
| Paper.PaperJarNameParses | src/mcserver/paper.py:51-53 | a name `paper-<major>.<minor>.<patch>-<build>.jar` is readable by the update decision and yields that version and build |
| Paper.LatestJarName | src/mcserver/paper.py:56-69 | succeeds exactly when both jar names unpack to two fields with a well-formed version; a returned URL is always the latest build's, returned together with the latest build's name; with no URL the local name is kept |
| Paper.UpdateIffNewer | src/mcserver/paper.py:64-69 | for components below 10000, a URL comes back if and only if the remote version is newer in (major, minor, patch) order and the remote build is greater as a string |
| Paper.SameVersionNeverUpdates | src/mcserver/paper.py:66 | a remote jar of the same version never replaces the local one, whatever its build |
| Paper.IdenticalJarNeverUpdates | src/mcserver/paper.py:64-69 | when the latest build is the installed jar itself, no update is reported |
| Paper.OlderVersionNeverUpdates | src/mcserver/paper.py:66 | for components below 10000, an older remote version never replaces the local jar (above the bound the keys can order the other way) |
| Paper.BuildNotGreaterNeverUpdates | src/mcserver/paper.py:67 | a remote build that is not greater as a string never replaces the local jar, whatever the versions |
| Paper.TextualBuildOrderBlocksUpdate | src/mcserver/paper.py:67 | going from build 9 to build 10 is never an update, since "10" < "9" as strings |
| Paper.NewerPaperJarSupersedes | src/mcserver/paper.py:64-69 | between Paper jar names, a newer version with a greater build is an update, and its name and URL come back |
| Paper.ZeroVersionJarIsSuperseded | src/mcserver/paper.py:64-69 | against the name `paper-0.0.0-0.jar`, any non-zero bounded remote version whose build sorts after "0" is an update |
| Paper.StartupScript | src/mcserver/paper.py:79 | the launch script text: a template without `$JARNAME$` is written out unchanged |
| Paper.ScriptReplacesFirst | src/mcserver/paper.py:79 | the leftmost `$JARNAME$` becomes the jar name, and the rest of the template is processed the same way |
| Paper.ScriptSinglePlaceholder | src/mcserver/paper.py:79 | a template with one `$JARNAME$` gets exactly that spot filled in and nothing else changed |
| Screen.RunEnd | src/mcserver/screen.py:5 | a greedy `[0-9]+` or `[a-z]+` stops at the end of the maximal run of its class |
| Screen.TryPattern | src/mcserver/screen.py:5 | the pattern tried at p: on a match, the pid group is the whole digit run from p, a literal dot follows, and the name group is the whole lowercase run after it; there is no match exactly when the digit run is empty or is not followed by a dot and a lowercase letter |
| Screen.Names | src/mcserver/screen.py:14 | the name groups `finditer` yields are non-empty and all lowercase; NamesAreTokens says which ones they are |
| Screen.NamesAreTokens | src/mcserver/screen.py:12-15 | the non-overlapping left-to-right scan reports a name if and only if some `<digit>.<lowercase run>` token after the start carries it |
| Screen.ScreenExists | src/mcserver/screen.py:8-15 | `screen_exists` is true exactly when some dot in the listing has a digit before it and a lowercase run after it that equals the name |
| Screen.OnlyLowercaseNamesExist | src/mcserver/screen.py:5 | only non-empty all-lowercase names can ever be reported |
| Screen.NoTokenNoSession | src/mcserver/screen.py:12-15 | a listing with no digit-dot-letter token reports no session |
| Screen.BareNameNotCounted | src/mcserver/screen.py:5 | a name that never occurs right after a digit and a dot anywhere in the listing is not counted |
| Screen.NameStopsAtNonLetter | src/mcserver/screen.py:5 | `4242.minecraft2` reports `minecraft`: the name group stops at the first non-lowercase character |
| Screen.NameMustMatchWholeRun | src/mcserver/screen.py:13 | `4242.minecraftx` does not report `minecraft`: the whole lowercase run must equal the name |
| Screen.ListingWithTwoSessions | src/mcserver/screen.py:12-15 | in a listing shaped like `screen -list` output, a second session after the first is found |

## Left out

- HTTP requests (`src/mcserver/paper.py:21-23`, `40-48`) are not modelled. Non-success statuses and missing JSON keys are not modelled either. The version index and the latest build are inputs.
- `get_latest_build` (`src/mcserver/paper.py:34-48`) is left out. It only fetches data, and its result `(name, url)` is the `latest` parameter of `Paper.LatestJarName`.
- `download` (`src/mcserver/util.py:5-15`) is left out. It only does network and file I/O.
- The file work of `startup_sh` is left out: reading the template, writing `start-paper.sh`, `chmod`, and the returned path (`src/mcserver/paper.py:74-83`). Only the text substitution on line 79 is modelled, with `server_jar.name` as a string input.
- `screen -list` is not run: its decoded output is the `listing` input. `create_screen` and `execute_in_screen` (`src/mcserver/screen.py:18-23`) are left out. They only start processes, and their exit codes are ignored.
- `src/mcserver/__init__.py` (argument parsing, locating the jar, orchestration) is not part of this model. It imports `download_jar` and `latest_jarname`, which `paper.py` does not define. It also passes `allow_experimental=` to a function with no such parameter. So it cannot run as written.
- Release channels and experimental builds are not modelled. `paper.py` has no channel filter, and `get_latest_jarname` (`src/mcserver/paper.py:56`) has no `allow_experimental` parameter.
- Util.ParseInt: accepts only ASCII digit strings. Python's `int()` also accepts a sign, surrounding whitespace, underscores between digits and non-ASCII decimal digits. The model reports such components as `NotAnInteger`.
- Util.KeyOrder: holds only for components below 10000. Above that, `f"{n:04d}"` widens the field and key order no longer follows version order, which `Util.OrderNeedsBound` shows.
- Util.ComparableVersionOrder: carries the same 10000 bound as `Util.KeyOrder`.
- Paper.OlderVersionNeverUpdates: carries the same 10000 bound as `Util.KeyOrder`.
- Paper.UpdateIffNewer: carries the same 10000 bound as `Util.KeyOrder`.
- The launch script pattern is the fixed non-empty `$JARNAME$`, so `replace` with an empty pattern is not modelled.
- Paper.LatestVersion: the index entries are given as `(id, status)` pairs. The nested dictionary lookups `version["version"]["support"]["status"]` and their possible `KeyError` are not modelled.
