# ViX season ripper — a Dafny model of its core

`vix_downloader.py` downloads every episode of one season of a series from the
ViX streaming site. It drives a Chrome browser through the series page,
scrolls each episode range to harvest the episode cards (link, number, title),
sorts them by episode number, and then for each episode that is not yet done
it opens the episode page, watches the browser's performance log for the DASH
manifest (`.mpd`) request and hands that manifest to the `N_m3u8DL-RE`
downloader. Every success is appended to `titles.csv` (code, title, `.mp4`
name) and every failure to `failures.log` (code, link, reason). A re-run reads
`titles.csv` and the `.mp4` names in the output folder back into a resume
ledger of upper-cased episode codes and skips what it finds there.

This project models that logic with the browser and the downloader replaced
by what they answer:

- `base.dfy` (module `Base`): `Option`, prefixes and substrings, ASCII case
  mapping, decimal digits and Python's `{n:0Wd}` formatting.
- `text.dfy` (module `Text`): `slug`, `extract_card_meta` (the regular
  expression `EP\.?\s*(\d+)` under `re.I`, written out as a scanner), episode
  codes and output file names, absolute hrefs, and the episode-range labels.
- `harvest.dfy` (module `Harvest`): the shared card dictionary as a class
  `HarvestMap` updated in place, and `scroll_and_extract_metadata` as the
  method `ScrollAndExtract`, proved against the function `HarvestRange`. The
  browser is a function `nat -> StepObs` giving, for each scroll attempt, the
  window offset (or its failure), the cards seen (an optional href and the
  card text, or an error reading it), and the outcome of the scroll (heights
  before and after, new offset, window height, each of which may fail).
- `catalog.dfy` (module `Catalog`): the range loop, the stable sort with
  unknown numbers last, and `collect_episode_links` as the method
  `CollectEpisodeLinks`, proved against the function `CollectLinks`.
- `media.dfy` (module `Media`): `capture_mpd` over the batches of log entries
  the driver returns before the deadline, and the downloader's argument list.
- `ledger.dfy` (module `Ledger`): `previously_done` and why a downloaded file
  is recognised from its name on the next run.
- `ripper.dfy` (module `Ripper`): the episode loop of `main` and `main` itself,
  with the two logs and the ledger as values that only grow; each episode's
  navigation result, page heading, log batches, headers and downloader
  outcome come from an `EpisodeEnv`.

Behaviour kept as the code has it:

- The per-card `except NoSuchElementException` names an exception the module
  never imports, so any exception while reading a card's metadata turns into a
  `NameError` that leaves the harvester, leaves `collect_episode_links`, and
  ends the run in the outer `except Exception` of `main` before any episode is
  processed. The model has this as `MetaError` → `Escaped` → `Crashed`.
- The `"Unknown Episode"` and `"Episode {n}"` fallbacks of `extract_card_meta`
  never apply, because the title already defaults to `"Episode"`
  (`Text.ExtractCardMetaCorrect` proves the title is never empty).
- The bottom-of-page test runs only on an attempt that made no progress; an
  attempt that scrolled or grew the page continues even at the bottom
  (`Harvest.ProgressContinuesTheHarvest`).
- A failure row does not add the code to the ledger, so a failed episode is
  tried again on the next run; only successes are skipped.
- Two episodes without a number whose first 30 title characters slug alike
  share one `UNK_` code (`Text.UnknownCodesCollide`), and the second is then
  skipped as already done.
- The ledger reads only the seven characters `S##E###` from a file name, so
  the file of a four-digit episode such as 1000 (`S01E1000`) is read back as
  the code of episode 100 (`Ledger.LongNumberReadsAsShorter`): on the next run
  episode 100 is skipped as done, while episode 1000 is found again only
  through `titles.csv`.
- Any `TimeoutException` while opening the range chooser, including the wait
  for its list box, is treated as "no chooser" and harvests the single range
  `"current"`; any other exception there gives the empty list.

## Model

| member | source | states |
|---|---|---|
| Base.FormatIntRoundTrip | vix_downloader.py:493 | `{n:0Wd}` is as wide as Python makes it, starts with `-` exactly for a negative number, and its digits read back as the magnitude |
| Base.FormatFixedWidth | vix_downloader.py:493 | a number below 10^W formats to exactly W digits that read back as the number |
| Base.DecimalRoundTrip | vix_downloader.py:104 | `int()` of the decimal text of `n` is `n` |
| Base.PaddedRoundTrip | vix_downloader.py:493 | the zero-padded magnitude is as wide as the larger of the width and its digit count, and reads back as the magnitude |
| Base.UpperIdempotent | vix_downloader.py:501 | upper-casing twice is upper-casing once |
| Text.TrimStartCorrect | vix_downloader.py:30 | `lstrip` drops a prefix of cut characters and stops at a character that is not cut |
| Text.TrimEndCorrect | vix_downloader.py:30 | `rstrip` drops a suffix of cut characters and stops at a character that is not cut |
| Text.TrimCorrect | vix_downloader.py:30 | `strip`: the result is a slice of the input whose dropped ends are all cut characters and whose own ends are not |
| Text.TrimAllCut | vix_downloader.py:105 | a string of cut characters only strips to the empty string |
| Text.TrimKeepsTrimmed | vix_downloader.py:30 | a string whose ends are not cut characters is left as it is |
| Text.CollapseUnderscores | vix_downloader.py:30 | `re.sub(r"_+", "_")` leaves no `__`, keeps the first character and keeps a safe string safe |
| Text.CollapseKeepsOtherCharacters | vix_downloader.py:30 | collapsing removes only underscores: the other characters survive in order |
| Text.CollapseKeepsCollapsed | vix_downloader.py:30 | a string without `__` is unchanged by collapsing |
| Text.CollapseIsReplaceRuns | vix_downloader.py:30 | collapsing is exactly the left-to-right rewrite of each maximal run of `_` into a single `_` in its place, every other character copied |
| Text.SlugIsSlug | vix_downloader.py:24-30 | every character of a slug is in `SAFE`, it has no `__`, and it neither starts nor ends with `_` or a space |
| Text.SlugKeepsSlugs | vix_downloader.py:27-30 | `slug` leaves a string of that shape unchanged |
| Text.SlugIdempotent | vix_downloader.py:27-30 | `slug(slug(x)) == slug(x)` |
| Text.SkipSpaces | vix_downloader.py:103 | `\s*` consumes the maximal run of whitespace |
| Text.DigitsEnd | vix_downloader.py:103 | `\d+` consumes the maximal run of digits |
| Text.MatchAt | vix_downloader.py:103 | a match at `i` ends with a non-empty digit group that no further digit follows |
| Text.MatchAtCorrect | vix_downloader.py:103 | the pattern matches at `i` exactly when `E`, `P` (either case), an optional `.`, whitespace only and then a digit occur there, and the digit group starts at that first digit |
| Text.FirstMatch | vix_downloader.py:103 | `re.search` finds the leftmost match, or none when no index matches |
| Text.RemoveMatchesByFirstMatch | vix_downloader.py:105 | `re.sub` with an empty replacement keeps the text before the leftmost match, drops the match and continues after it, and keeps everything once no match is left |
| Text.RemoveMatchesKeepsCharacters | vix_downloader.py:105 | deleting the matches keeps only characters of the input |
| Text.CardNumberCorrect | vix_downloader.py:103-104 | the number is -1 exactly when nothing matches, and otherwise the value of the leftmost match's digits |
| Text.CardTitleCorrect | vix_downloader.py:105 | the title is the card text with the matches removed and then stripped when that is non-empty, and `"Episode"` otherwise; it is never empty and never starts or ends with whitespace |
| Text.ExtractCardMetaCorrect | vix_downloader.py:100-111 | -1 exactly when the card text (newlines as spaces) has no match, else the leftmost match's number; the title is the stripped text left once the matches are removed, or `"Episode"` when nothing but whitespace remains, so it is never empty |
| Text.Prefix | vix_downloader.py:497 | `s[:n]` is the prefix of `s` of length `n`, or all of `s` when it is shorter |
| Text.KnownCodeRoundTrip | vix_downloader.py:493 | a known code is the 7 characters `S##E###` from which the season and the number read back |
| Text.KnownCodesDistinct | vix_downloader.py:492-493 | two different episode numbers of one season never share a code, whatever their number of digits and whatever the season |
| Text.UnknownCodeIsSlugged | vix_downloader.py:497-499 | an unknown number's code is `UNK_` followed by a slug |
| Text.UnknownCodesAgree | vix_downloader.py:497-499 | unknown-numbered titles whose first 30 characters sanitise alike share a code |
| Text.UnknownCodesCollide | vix_downloader.py:497-499 | two different titles can give two unknown-numbered episodes the same code |
| Text.BeforeFirstCorrect | vix_downloader.py:179 | `split(sep)[0]` is the prefix of `s` before which no occurrence of `sep` starts and that is the whole string or is followed by `sep`: the text before the first occurrence |
| Text.AbsolutiseCorrect | vix_downloader.py:179 | an `http` href is kept; any other href is appended to the page URL cut before its first `/detail` (the whole URL when it has none) |
| Text.OptionLabel | vix_downloader.py:289-290 | an option contributes its stripped text exactly when that starts with `Episodios` |
| Text.FilterLabels | vix_downloader.py:289-290 | filtering never adds labels |
| Text.FilterLabelsAppend | vix_downloader.py:289-290 | the filter works option by option in order: the labels of two option lists in a row are those of the first followed by those of the second |
| Text.FilterLabelsSingle | vix_downloader.py:289-290 | a single option gives exactly what it contributes alone |
| Text.FilterLabelsMembers | vix_downloader.py:289-290 | a label is kept exactly when it is the stripped text of some option and starts with `Episodios` |
| Text.RangeLabels | vix_downloader.py:278-307 | a broken chooser (and only that) gives up; no chooser gives `["current"]`; a chooser gives the filtered labels of its options; `"current"` appears only without a chooser |
| Harvest.HarvestMap.constructor | vix_downloader.py:309 | the dictionary starts empty |
| Harvest.HarvestMap.Put | vix_downloader.py:194 | the key maps to the new value; a new key goes to the end of the insertion order, an existing one keeps its place |
| Harvest.ScanOneCard | vix_downloader.py:172-212 | reading one card updates the dictionary and the counters as the card specification says, and an error while reading leaves all three unchanged |
| Harvest.ScanVisibleCards | vix_downloader.py:172-214 | the card loop of one attempt leaves the dictionary, the counters and the raised flag that the specification of the visible cards gives |
| Harvest.ScrollAndExtract | vix_downloader.py:113-265 | the dictionary after the call and the result (count, or an exception) are those of the harvest specification from the old dictionary |
| Harvest.ScanCardGrows | vix_downloader.py:172-212 | one card never changes an existing key and adds at most plausible new keys at the end of the order |
| Harvest.ScanCardsGrows | vix_downloader.py:172-214 | the cards of one attempt grow the dictionary by exactly the counted number of keys, never changing an existing one |
| Harvest.ScanCardsTotal | vix_downloader.py:185-207 | the card loop raises only when some card's metadata cannot be read |
| Harvest.GrewFromTransitive | vix_downloader.py:184-197 | growth over two stretches adds up |
| Harvest.AttemptGrows | vix_downloader.py:131-261 | one scroll attempt keeps the dictionary well formed, never lowers the count of added keys, and only appends plausible keys |
| Harvest.HarvestFromGrows | vix_downloader.py:131-261 | from any attempt on, the loop keeps the dictionary well formed, only appends plausible keys, and stops within `max_scrolls` attempts |
| Harvest.HarvestRangeGrows | vix_downloader.py:113-265 | no existing key is overwritten or removed, each new key passed `num != -1 or "Unknown" not in title`, the returned count is the number of keys added, and at most `max_scrolls` attempts are made |
| Harvest.StallsStopTheHarvest | vix_downloader.py:254-261 | enough stalled attempts in a row stop the loop with `Stagnated` at exactly the fifth one |
| Harvest.StagnatedAfterStalls | vix_downloader.py:238-261 | the loop stops with `Stagnated` only after the remaining count of attempts, the last of which all stalled |
| Harvest.HarvestStagnatesOnlyAfterFiveStalls | vix_downloader.py:259-261 | a harvest that stagnates made at least five attempts and the last five stalled |
| Harvest.BottomStopsTheHarvest | vix_downloader.py:246-252 | an attempt without progress that reaches the bottom ends the loop there |
| Harvest.FailedReadEndsTheHarvest | vix_downloader.py:132-136 | a failed offset read, or a failed scroll or read after it, ends the loop at once with its own exit, and the harvester returns its count rather than raising |
| Harvest.ProgressContinuesTheHarvest | vix_downloader.py:242-244 | an attempt with progress goes on to the next attempt with the stagnation count back at 0 |
| Catalog.InsertSorted | vix_downloader.py:348-351 | inserting into a sorted list keeps it sorted and adds just that element |
| Catalog.InsertStable | vix_downloader.py:348-351 | an inserted element goes before the elements with its own number |
| Catalog.SortByEpisodeCorrect | vix_downloader.py:348-351 | the sort is a permutation, ordered by number with -1 as infinity, stable for every number, with unknowns last |
| Catalog.Items | vix_downloader.py:349 | the items list each key once, in insertion order, with its metadata |
| Catalog.AssembleCorrect | vix_downloader.py:343-351 | assembly is a sorted, stable permutation of the dictionary's items with unknowns last, and is `[]` exactly for an empty dictionary |
| Catalog.FinalList | vix_downloader.py:353-369 | the enumeration loop copies the sorted list unchanged |
| Catalog.HarvestRangesGrow | vix_downloader.py:312-339 | harvesting the ranges keeps the dictionary well formed and every entry plausible; a key found in an earlier range is never removed, overwritten or moved, and new keys are only appended |
| Catalog.CollectEpisodeLinks | vix_downloader.py:268-377 | the method returns what the collection specification gives for the chooser, the range selections and the browser's answers |
| Catalog.CollectedLinksWellFormed | vix_downloader.py:343-377 | the collected list is sorted with unknowns last, holds each link once, and holds only plausible entries |
| Catalog.SortedKeepsItems | vix_downloader.py:348-349 | any permutation of the items links each href once, to plausible metadata |
| Media.FirstManifestIsEarliest | vix_downloader.py:387-393 | none exactly when no entry requests a manifest; otherwise the URL of the earliest such entry |
| Media.ManifestUrlNamesMpd | vix_downloader.py:392-393 | a returned URL contains `.mpd` once lower-cased |
| Media.CaptureMpd | vix_downloader.py:384-397 | the method returns the first manifest URL across all polled batches in log order, skipping undecodable entries, or none |
| Media.HeaderArgs | vix_downloader.py:400 | two arguments per header |
| Media.HeaderArgsLayout | vix_downloader.py:400 | each header becomes `--header` then `name: value`, in order |
| Media.DownloaderArgsLayout | vix_downloader.py:399-411 | the command runs `N_m3u8DL-RE` on the manifest with the save directory, save name and language in their places, then the headers |
| Ledger.FindCode | vix_downloader.py:429 | finds the leftmost `S\d{2}E\d{3}` match (case-insensitive), or none when there is no match |
| Ledger.PreviouslyDone | vix_downloader.py:421-432 | the method builds exactly the ledger from the CSV rows and the file stems |
| Ledger.CsvCodesMembers | vix_downloader.py:423-427 | a code comes from `titles.csv` exactly when a non-empty row's first cell upper-cases to it |
| Ledger.StemCodesMembers | vix_downloader.py:428-431 | a code comes from the files exactly when a stem's first code upper-cases to it |
| Ledger.LedgerIsUpperCase | vix_downloader.py:421-432 | every ledger entry is its own upper case |
| Ledger.KnownCodeShape | vix_downloader.py:493 | a known code has the shape `S##E###` |
| Ledger.KnownCodeIsUpper | vix_downloader.py:501 | a code of that shape is its own upper case |
| Ledger.JoinedStemIsSlug | vix_downloader.py:494 | a slug joined with a known code by `.` is a slug |
| Ledger.JoinedStemCode | vix_downloader.py:429 | in `series.code` the leftmost code is the first seven characters after the dot |
| Ledger.LongCodeExtendsShort | vix_downloader.py:493 | the code of a four-digit episode is the code of the episode named by its first three digits, followed by its last digit |
| Ledger.LongNumberReadsAsShorter | vix_downloader.py:429 | the file of a four-digit episode is read back as the code of the episode named by its first three digits, which is not its own code |
| Ledger.DownloadedFileRecognised | vix_downloader.py:492-494 | the file written for a known episode yields the episode's own code when its name is read back by `previously_done` |
| Ripper.TagTextInjective | vix_downloader.py:522-598 | different failure reasons (and exit statuses) are written differently |
| Ripper.CsvRows | vix_downloader.py:586 | each title row is written as the cells code, title, file |
| Ripper.UpperCodesMembers | vix_downloader.py:588 | the upper-cased codes are exactly those of the rows |
| Ripper.TitlesReadBack | vix_downloader.py:586-588 | every code appended to `titles.csv` is in the ledger the next run reads |
| Ripper.CheckedTitle | vix_downloader.py:531-541 | the title is kept or replaced by the stripped page heading; it is replaced exactly when that heading is non-empty and not contained, case-insensitively, in the collected title |
| Ripper.DownloadEpisode | vix_downloader.py:501-601 | handling one episode gives the new logs, ledger and commands, and the fatal flag, that the per-episode specification gives |
| Ripper.DownloadEpisodes | vix_downloader.py:490-629 | the method produces the logs, ledger and commands of the episode-loop specification, and stops where it does |
| Ripper.ProcessEpisodeEffect | vix_downloader.py:531-588 | an episode appends at most one title row, with its code, its checked title and its base file name, for a code not in the ledger, which then gains it |
| Ripper.ProcessEpisodeCommand | vix_downloader.py:549-560 | the downloader is started exactly once for an episode not skipped whose page loaded and whose manifest was captured, on that manifest, with the base file name, output directory, language and the two headers, and never otherwise |
| Ripper.ProcessEpisodeOutcome | vix_downloader.py:501-601 | a done or relative-link episode writes nothing; otherwise the run stops exactly when the downloader is missing, else exactly one row is written: a success row exactly on exit status 0, or a failure row with the code, link and the reason met |
| Ripper.ProcessEpisodeFollows | vix_downloader.py:584-588 | one episode only appends to the logs, and the ledger gains only the code of a recorded download, not in it before |
| Ripper.FollowsTransitive | vix_downloader.py:490-629 | growth of logs and ledger composes over consecutive stretches of the loop |
| Ripper.UpperCodesAppend | vix_downloader.py:588 | the codes of two stretches of rows are the union of the codes of each |
| Ripper.RunEpisodesFollows | vix_downloader.py:490-629 | over the whole loop the logs only grow, the ledger grows by exactly the recorded codes, and no code is recorded twice or when already in the ledger |
| Ripper.EverythingDoneWritesNothing | vix_downloader.py:501-503 | when every episode is in the ledger nothing is written and nothing is downloaded |
| Ripper.FatalOnlyWhenToolMissing | vix_downloader.py:592-595 | the loop stops early only when the downloader program is missing for some episode |
| Ripper.RecordedFilesAreBaseNames | vix_downloader.py:586 | every recorded row names a collected episode's code and the `.mp4` file written for it |
| Ripper.RipSeason | vix_downloader.py:437-643 | the method's logs and ledger are those of the whole-run specification: nothing is written when the page fails or collection raises |
| Ripper.NoCodeRecordedTwice | vix_downloader.py:501-588 | a second run after a first one never records a code the first one recorded |

## Left out

- The Selenium calls (`make_driver`, `wait_css`, `js_click`, `safe_get_attr`,
  `prepare_season`, the unused `click_range`, `clear_perf_log`) are browser
  I/O; their answers are the observation inputs `StepObs`, `RangeChooser`,
  the range-selection results and `EpisodeEnv`.
- The JSON decoding of performance-log entries is foreign parsing; each entry
  is either undecodable or a method name with an optional URL.
- `unidecode` is a foreign transliteration library: `slug` and the title check
  work on the text as given.
- `time.sleep` and the `time.time()` deadline are clocks: the deadline is the
  finite list of batches polled before it passes, and the harvester's attempts
  are counted.
- Running processes (`run`, `subprocess.call`, `convert_vtt`): only the
  downloader's exit status, a missing program, or another exception is an
  input; subtitle conversion never touches the logs and is not modelled.
- `argparse`, `logging`, opening and closing the two log files, flushing,
  `KeyboardInterrupt` and the `finally` cleanup are plumbing.
- The series name derived from the browser title (lines 478-480) is a
  parameter of `Settings`; so are the season, the language and the output
  directory.
- Exceptions the model does not name (from `get_log`, the header script,
  `current_url`, or non-stale errors inside `safe_get_attr`) end the run
  through the outer handler; they are not modelled.
- CSV quoting: `titles.csv` is assumed to read back as the cells written.
- The text of a `failures.log` line (code, link and reason joined by commas)
  is not spelled out; each line is a `FailRow` holding those three fields.
- The page URL that relative hrefs are resolved against is read once per
  harvest (`url`), while the source reads `drv.current_url` for every card;
  the model assumes the page does not navigate while a range is harvested.
- The unused `max_known_ep` and `unknown_counter` of `collect_episode_links`
  compute nothing that reaches the result.
- `float('inf')` in the sort key is modelled as an order where -1 comes after
  every known number.
- Base.Upper: maps only ASCII letters, while Python's `str.upper()` maps all of
  Unicode; the ledger's codes and the `S..E...` match are ASCII.
- Base.Lower: maps only ASCII letters, unlike Python's `str.lower()`.
- Text.MatchAt: `\d` and `\s` are taken as ASCII digits and Python's whitespace
  characters; Unicode decimal digits beyond ASCII are not matched.
- Ripper.CheckedTitle: compares ASCII-lower-cased text without transliterating
  it first, so titles that differ only in accents are treated as different.
