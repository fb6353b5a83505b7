# GTNH issue helper: the crash-report engine in Dafny

The GT New Horizons issue helper bot reads a bug-report form. It finds the Minecraft crash
reports in it, either pasted inline or linked on a paste host, and answers with a short
automated analysis. This project models that engine, `entrypoint.py`, and proves properties of
the model. It has four parts.

- **Mod-state lines** (`installed_mods.dfy`). `InstalledMod.parse` is modelled as an explicit
  match of `<status> <modid>{<version>} [<modname>] (<filename>)`. Each regex group becomes
  a run of characters, and the choices the backtracking matcher makes are written out:
  - `\s+` gives back whitespace until the modid can start;
  - the greedy modname runs to the *last* `] (`.

  `Parse` applies the FML/Forge rule and the `minecraft.jar` coremod rule on top of that match.
- **Crash-report views** (`crash_reports.dfy`). A `CrashReport` is a URL and a text. Its views are
  functions of the text:
  - the main stack trace;
  - the mod table under the `States` header;
  - the truncation flag;
  - the `Java Version: (\S+),` capture;
  - the side, `is_java8` and `is_recent_java`.

  Two loops are methods proved against these functions: `main_stack_trace` and `mod_list`.
- **Sections and links** (`links.dfy`, `sections.dfy`). A section either holds an inline report
  or is scanned for links. The link scan has three parts:
  - the host whitelist (`Classify`), from a link already split by `urlparse`;
  - the per-section set of URLs already seen (`Dedup`);
  - what one fetched link adds (`Visit`).
- **Analysis** (`analysis.dfy`, `helper.dfy`).
  - `analyze` is a chain of rules that appends lines to the helper's output list `_out`. The
    diff against the official filename list follows.
  - `main` analyses every report in order and keeps going after a report whose analysis
    raised.
  - `Helper` is a class whose `out` field is `_out`. Its methods (`SearchSection`,
    `LocateReports`, `Analyze`, `Run` …) are proved against the functions of the other modules.

`text.dfy` holds the Python string operations the engine uses, stated on `seq<char>`:
- `find` with its start normalisation;
- `strip`, `splitlines`, `join` and `split()[0]`;
- `lower`;
- `str(n)`.

Behaviour kept from the code where a reading of the design would differ:
- **Duplicate URLs.** The set of seen URLs is local to one section (`entrypoint.py:286`). The same
  URL in two sections is fetched twice and gives two reports (`Sections.SameTextTwice`).
- **The inline loop never ends.** It searches for the next marker from `istart` itself
  (`entrypoint.py:285`), finds the same marker, and so never advances. The model runs one
  round, reports the flow `NeverReturns`, and proves that the search stalls
  (`Sections.InlineSearchStalls`).
- **A missing section key.** It raises a `KeyError` that nothing catches (`KeyMissing`).
- **An empty stack trace.** It raises at `main_stack_trace[0]` and is not handled as a soft case.
  `main` logs it, keeps the lines already appended and moves on (`Raised`).
- **No reports found.** `main` returns before anything is published. Lines such as the
  paste.ubuntu.com refusal are then never shown (`HelperModel.Helper.Run`).
- **The modid.** The regex only forbids a modid that starts with a space, a tab or `{`. A modid that
  starts with other whitespace (U+00A0, say) is read back shifted, so the round trip also
  requires a modid that does not start with whitespace.

## Model

| member | source | states |
|---|---|---|
| Text.Find | entrypoint.py:278-285 | `find` gives the lowest occurrence at or after the normalised start (a negative start counts from the end), or -1 when there is none |
| Text.FindAtMatch | entrypoint.py:285 | a search restarted at an occurrence finds that same occurrence |
| Text.StripSpec | entrypoint.py:69-71 | `strip()` is the slice left after removing the leading and trailing whitespace; everything removed is whitespace and the result has non-space ends |
| Text.SplitJoin | entrypoint.py:368 | joining non-empty lines without line breaks by '\n' and splitting again gives the lines back |
| Text.FirstTokenSpec | entrypoint.py:343 | `split()[0]` is a non-empty run without whitespace, preceded only by whitespace and followed by whitespace or the end; a blank field gives none (the IndexError) |
| Text.FirstTokenOf | entrypoint.py:343 | leading whitespace, a token and whitespace or the end give exactly that token |
| Text.Decimal | entrypoint.py:401 | `str(n)`: a non-empty run of decimal digits without a leading zero unless the count is 0 |
| Text.DecimalRoundTrip | entrypoint.py:401 | the decimal digits of the report count read back as the count |
| InstalledMods.MatchLineSound | entrypoint.py:154-156 | every match of the mod-line pattern is a well-formed decomposition that spells the line |
| InstalledMods.MatchLineComplete | entrypoint.py:154-156 | every line spelled by a well-formed decomposition matches, with the same status, gap, modid and version when the modid does not start with whitespace, and with all fields when the filename holds no `] (` |
| InstalledMods.NamesComplete | entrypoint.py:155 | `(.+)] \((.+)\)` matches every modname and filename without line breaks, and splits them back when the filename holds no `] (` |
| InstalledMods.VersionComplete | entrypoint.py:155 | `([^}]+)} \[` reads back the version and then the names |
| InstalledMods.HeadAt | entrypoint.py:155 | `[ULCHIJADE]+\s+([^{ \t][^{]*)\{` matches a line laid out as status letters, whitespace, a modid and a brace; it splits the line at those places when the modid starts with a non-space |
| InstalledMods.ParseRejectsExactly | entrypoint.py:154-158 | `parse` raises ValueError exactly when no well-formed decomposition spells the line |
| InstalledMods.ParseRoundTrip | entrypoint.py:153-173 | a line built from unambiguous fields parses to exactly those fields; errored is 'E' in the status and disabled is 'D' |
| InstalledMods.ParsePseudoMod | entrypoint.py:160-162 | FML and Forge give no record, whatever the filename |
| InstalledMods.ParseCoremod | entrypoint.py:163-169 | a `minecraft.jar` entry gets the filename `<modid>-<version>.jar` when it is CodeChickenCore or PlayerAPI, and gives no record otherwise |
| CrashReports.SameReportByUrl | entrypoint.py:121-125 | report equality compares URLs only: it ignores the text, is symmetric and transitive |
| CrashReports.MainStackTrace | entrypoint.py:66-72 | the loop returns the trace function |
| CrashReports.StackTraceSpec | entrypoint.py:66-72 | the trace is the stripped lines from the seventh on, in order, up to the first line that is blank after stripping; every element is non-empty, single-line and already stripped; six lines or fewer give [] |
| CrashReports.ModListOf | entrypoint.py:74-90 | the loop with its `in_list` flag returns the mod-table function |
| CrashReports.TableStartsAfterHeader | entrypoint.py:78-80 | no line up to and including the first `States` line is parsed |
| CrashReports.NoHeaderNoTable | entrypoint.py:76-81 | without a `States` line the mod list is empty |
| CrashReports.TableEndsAtMismatch | entrypoint.py:81-89 | inside the table the result is the records of the lines before the first line that does not match, in order; that line and all after it are left out, and a `States` line inside the table is skipped |
| CrashReports.TableToEnd | entrypoint.py:81-89 | a table without a mismatching line gives the records of all its lines, skipping the lines that give none |
| CrashReports.TruncatedByMarker | entrypoint.py:92-94 | a text with "Is Modded" appended is not truncated; a prefix of a truncated text is truncated |
| CrashReports.VersionAtSound | entrypoint.py:98 | a match of `Java Version: (\S+),` is the label, a non-empty version without whitespace, and a comma |
| CrashReports.VersionAtComplete | entrypoint.py:98 | the label, a version and a comma always match, and the match reads back that version when whitespace or the end follows the comma |
| CrashReports.JavaVersionSpec | entrypoint.py:96-99 | a Java version found is non-empty, has no whitespace, and stands after the label and before a comma |
| CrashReports.JavaVersionOf | entrypoint.py:96-99 | the version is the one after the first label |
| CrashReports.Java8NotRecent | entrypoint.py:114-119 | Java 8 is never recent |
| CrashReports.SideOf | entrypoint.py:101-112 | the client marker wins over the server marker; the Java 9 variant is chosen exactly when the version is recent; with neither marker the side is BOTH |
| Links.Classify | entrypoint.py:294-325 | only a link without a query is downloaded; gist.github.com and paste.ubuntu.com are recognised by host alone; a link is unknown exactly when its host is off the whitelist, github.com counting only with a files path |
| Links.GithubFilesPathIff | entrypoint.py:300-301 | the github.com path pattern accepts exactly `/<owner>/GT-New-Horizons-Modpack/files/<rest>` with an owner without '/' and a rest without line breaks |
| Links.PasteEePathIff | entrypoint.py:310 | the paste.ee pattern accepts exactly `/p/<id>/<rest>` with an id without '/' and a rest without line breaks |
| Links.DownloadShape | entrypoint.py:295-318 | every download is a whitelisted link of the accepted shape, fetched from that host's raw endpoint |
| Links.AcceptedLinks | entrypoint.py:295-318 | every accepted link without a query is downloaded from the raw endpoint |
| Links.AcceptedPasteEe | entrypoint.py:309-313 | `/p/<id>/<rest>` on paste.ee is fetched from `<scheme>://paste.ee/d/<id>/<rest>` |
| Links.QueryIsSuspicious | entrypoint.py:296-316 | a query on a whitelisted host makes the link suspicious |
| Sections.InlineStart | entrypoint.py:278 | `istart` is the first report marker |
| Sections.InlineText | entrypoint.py:284 | the inline report starts with the marker |
| Sections.InlineSpanBounds | entrypoint.py:278-284 | the span contains the whole marker and ends within the text, also when "Is Modded" occurs only before the marker and the newline search starts at -1 |
| Sections.InlineTextUnmodded | entrypoint.py:280-284 | when "Is Modded" occurs only before the marker, the report runs to the end of the text less a final newline, and is truncated |
| Sections.InlineTextComplete | entrypoint.py:280-284 | otherwise the report ends at the newline after the first "Is Modded" (or the end of the text) and is not truncated |
| Sections.InlineSearchStalls | entrypoint.py:285 | the search for the next marker returns `istart`, so the loop never advances |
| Sections.Visit | entrypoint.py:319-338 | a link gives a report exactly when its whitelisted download answers 200 with the marker first, and the report is that URL and text; it gives a line exactly when it is on paste.ubuntu.com (the refusal line) or its download does not answer 200 (the failure line naming both URLs); a suspicious, gist.github.com or unknown link gives nothing |
| Sections.DedupSpec | entrypoint.py:286-292 | the links visited are those whose URLs were not yet seen, each URL once, taken from the section's links |
| Sections.DedupAppend | entrypoint.py:286-292 | links after a prefix only add URLs the prefix did not have |
| Sections.DedupRepeated | entrypoint.py:286-292 | listing the same links twice in a section visits them once |
| Sections.LinkedReportsSound | entrypoint.py:326-334 | every linked report is a whitelisted download that answered 200 and starts with the marker |
| Sections.LinkedLinesSound | entrypoint.py:319-330 | every line a section adds is the refusal line or the failure line of a visited link |
| Sections.LinkedReportsComplete | entrypoint.py:326-334 | every visited link whose download answers 200 with the marker first contributes its report |
| Sections.LinkedLinesComplete | entrypoint.py:319-330 | every visited paste.ubuntu.com link contributes the refusal line, and every failed download its failure line |
| Sections.LocateStops | entrypoint.py:268-272 | once a section does not return, later sections change nothing |
| Sections.LocateAllReturn | entrypoint.py:268-272 | when every section returns, the scan returns with all sections' reports and lines, section by section in key order |
| Sections.MissingKeyStops | entrypoint.py:276 | a section key missing from the form stops the scan |
| Sections.SameTextTwice | entrypoint.py:286 | two sections with the same links give every report and every line twice |
| Analysis.Rules | entrypoint.py:351-369 | the first line is always the header, followed by the truncation warning when there is one |
| Analysis.TriageRules | entrypoint.py:354-369 | the FMLProxyPacket NPE and ChunkIOProvider rules each add one remark and stop; otherwise an empty trace raises; otherwise the trace block comes last, after the Angelica hint exactly when the trace starts with a failed chunk build; truncation never changes where the analysis goes |
| Analysis.TruncationWarned | entrypoint.py:355-356 | the truncation warning appears exactly when the report is truncated, and then as the second line |
| Analysis.TraceBlockRecovers | entrypoint.py:368-369 | the body of the stack-trace block splits back into the trace |
| Analysis.VersionKeyOf | entrypoint.py:343 | the version key is the first token of "Your Pack Version", lower-cased |
| Analysis.OfficialListFails | entrypoint.py:341-346 | a missing field, a blank field or a failed lookup all give the empty list |
| Analysis.ModsByFilenameKeys | entrypoint.py:373-374 | the keys of the filename map are the report's filenames |
| Analysis.LastEntryWins | entrypoint.py:373 | each filename maps to the last mod-list entry with that filename |
| Analysis.DiffBlocks | entrypoint.py:378-395 | the "Missing mods" block is present exactly when some official filename is missing, even if every one is then filtered out; the same holds for "Added mods" |
| Analysis.MissingBulletsSpec | entrypoint.py:380-389 | a filename's bullet is among the missing bullets exactly when the loop takes that filename and it is not filtered out |
| Analysis.MissingBulletsOnly | entrypoint.py:380-389 | the missing block holds nothing but `* <filename>` bullets of listed filenames the loop takes |
| Analysis.MissingBulletsDistinct | entrypoint.py:380-389 | iterating a set, each filename's bullet appears at most once |
| Analysis.NeverListed | entrypoint.py:381-388 | healer and CodeChickenLib, in any case, are never listed as missing; lwjgl3ify is listed only with a recent Java |
| Analysis.AddedBulletsSpec | entrypoint.py:393-394 | each added filename gets exactly one bullet `* <filename> (<modname>)` |
| Analysis.AddedBulletOfLastEntry | entrypoint.py:373-394 | the bullet of an added filename names the mod of the last entry with that filename |
| Analysis.AnalysisOf | entrypoint.py:351-395 | an analysis always starts with the early lines, header first |
| Analysis.EarlyLinesOpenNoBlock | entrypoint.py:352-369 | no early line opens a "Missing mods" or "Added mods" block |
| Analysis.AnalysisBlocks | entrypoint.py:360-395 | an analysis raises exactly on the empty-trace rule, and holds the missing (added) block exactly when the early rules let it go on, the official list is known and some filename is missing (added) |
| HelperModel.Helper.constructor | entrypoint.py:262-265 | the form and the section keys are kept and the output starts empty |
| HelperModel.Helper.SearchSection | entrypoint.py:274-339 | scanning one section gives the section function's flow and reports and appends its lines |
| HelperModel.Helper.InlineRound | entrypoint.py:277-285 | the first round of the inline loop yields the report `inline 1` with the inline text, and `istart` is unchanged afterwards |
| HelperModel.Helper.VisitAll | entrypoint.py:286-338 | the loop over the links with its set of seen URLs yields the reports and lines of the deduplicated links, in order |
| HelperModel.Helper.VisitNext | entrypoint.py:288-338 | one pass of the link loop skips a URL already seen and otherwise visits the link; either way the reports and lines still to come shrink by exactly what this link adds |
| HelperModel.Helper.VisitLink | entrypoint.py:293-338 | one link yields what `Visit` gives, and its line is appended to the output |
| HelperModel.Helper.LocateReports | entrypoint.py:267-272 | the sections in order give the combined flow, reports and lines |
| HelperModel.Helper.EarlyRules | entrypoint.py:351-369 | the early rules append exactly the rule-chain lines and end in its stage |
| HelperModel.Helper.MissingLoop | entrypoint.py:380-389 | the loop over the missing set appends the bullets of some enumeration of that set |
| HelperModel.Helper.AddedLoop | entrypoint.py:393-394 | the loop over the added set appends the bullets of some enumeration of that set |
| HelperModel.Helper.Diff | entrypoint.py:373-395 | the two blocks are appended for enumerations of the missing and added sets |
| HelperModel.Helper.Analyze | entrypoint.py:351-395 | one analysis appends the lines of `AnalysisOf` and reports whether it raised |
| HelperModel.Helper.Run | entrypoint.py:397-407 | with no reports, or when the scan does not return, nothing is published; otherwise the scan's lines, the count line and then every report's analysis in order are published, including analyses that raised |
| HelperModel.EveryReportAnalyzed | entrypoint.py:402-407 | every report's header line is in the published output, whatever an earlier analysis raised |
| HelperModel.AllAnalysesStep | entrypoint.py:402-407 | each report's analysis follows those of the reports before it |

## Left out

- Network and manifest plumbing is not modelled: `get_assets`, `get_official_mods`,
  `get_manifest` and `_iter_nightly_runs` (`entrypoint.py:176-258`). The official filename list
  comes from a `resolver` function of the version key and side. A resolver that fails gives
  `None`, which the model turns into the empty list.
- The downloads (`requests.get`, `entrypoint.py:326`) are a `fetch` function from a download URL
  to a status and a text. The URL regex of `entrypoint.py:287` and `urlparse` are an `extract`
  function from a section's text to its links. A link carries its URL, scheme, hostname, path
  and query.
- `fetch`, `resolver` and `extract` are functions, so they are deterministic. The memoisation
  by `lru_cache` and `cached_property` has no visible effect and is not modelled.
- `CrashReport.from_url` and the lazily fetched content (`entrypoint.py:54-63`, `128-130`) are
  not modelled. No path in the engine uses them. Every report holds its text.
- Logging is not modelled: the `gha_utils` warnings, notices and debug lines, `dictConfig`
  (`entrypoint.py:22-48`) and `log_utils.py`. Nothing they do reaches the output list.
- The log-file pattern at `entrypoint.py:335` is not modelled. It only leads to a notice, so a text
  that is not a report adds nothing either way.
- `_main`, `set_output` and `print` (`entrypoint.py:408-423`) are not modelled. `Run` returns the
  lines that would be published.
- Text.SplitLines splits on '\n' only. Python's `splitlines` also breaks at '\r', '\r\n', '\v',
  '\f' and some Unicode separators.
- Text.Lower lower-cases ASCII letters only. Python's `lower` is full Unicode case mapping.
- Iteration over Python sets has no fixed order. The loops of `analyze` pick an element
  nondeterministically, and the bullet lines are stated for the order actually taken, returned
  as a ghost value.
- HelperModel.Helper.SearchSection: for a section holding an inline report it records only the
  first round of a loop that never ends. What the loop would append in later rounds is not
  modelled, because it never returns.
- HelperModel.Helper.Run: exceptions other than the IndexError of an empty trace are not
  modelled. A `KeyError` from a missing section key is the flow `KeyMissing`. In particular
  `requests.get` (`entrypoint.py:326`) sits outside any `try`: a connection error or a time-out
  aborts the whole run and nothing is published, which the total `fetch` function cannot express.
