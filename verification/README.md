# dhound-agent log pipeline, modelled in Dafny

dhound-agent is a Go agent. It tails log files and the Windows event log, turns matching lines into security events, batches them, and posts them to a server. When a post fails, the agent spools the envelope to disk for a later resend. This project models the pure decision logic of that pipeline. It proves what each step promises.

Each source file of the core has one module, next to three shared helper modules:

| module | file | what it holds |
|---|---|---|
| `Wrappers` | — | `Option`, for nil values and "not found" |
| `Strings` | — | replace-all, prefixes and suffixes, byte-wise string order and sorting |
| `Seqs` | — | the two gathering loops of the crawlers: keep what each element yields, append what each element yields |
| `Events` | securityevent.go, source_state.go, securityeventscontainer.go | the `SecurityEvent`, `SourceState` and `EventsContainer` records |
| `Convert` | util_convert.go | lenient integer parsing and formatting |
| `Dates` | util_date.go | the placeholder table, layout rewriting, year injection and Unix seconds |
| `Utils` | utils.go | capture merging, splitting, exclusion, templating and duplicate removal |
| `Containers` | securityeventscontainer.go | the container's duplicate-removal method |
| `Batcher` | queue.go | the queue state machine and its flush rule |
| `PositionStore` | system_state.go | find-or-create, expiry, and the merge done by `Sync` |
| `FileNames` | file.go | `NormalizeFileName` |
| `Utf8Probe` | utf8.go | the decision procedure of `Utf8Reader`: byte-order marks, the UTF-8 probe and the default encoding |
| `Utf16` | eventlogs_windows.go | `UTF16BytesToString` and `indexNullTerminator` |
| `Config` | config.go | rule discovery, normalisation and selection |
| `FilesCrawler` | crawler_files.go | the path-to-rules map, the per-file pass, line reading and `ParseLine` |
| `WinEventLog` | crawler_wineventlog_windows.go | the search list, the look-back period and per-item event construction |
| `Gateway` | http_gateway.go | envelope assembly, reply classification, the spool and the first-message flag |

## Modelling conventions

**Time and numbers**
- An instant is an `int` count of nanoseconds since the Unix epoch, and a duration is an `int` count of nanoseconds, as in Go's `time.Duration`.
- Integers are unbounded. Where the source's width matters, the contract states the bound:
  - `ForceAtoi` stays in int64 and turns overflow into 0;
  - `ForceAtoui` stays in uint64;
  - `int64(period / time.Millisecond)` truncates toward zero.

**Oracles.** Library behaviour the agent only calls is passed in as function-typed parameters, so every contract holds for any behaviour of those libraries:
- Go `regexp` becomes `Utils.Regex`: the group names plus the list of matches a text yields;
- `filepath.Glob` and `regexp.Compile`;
- `time.ParseDuration`, `time.ParseInLocation` and `time.Parse`;
- `htmlindex.Get`;
- `strings.ToLower` per character;
- `path.Join`;
- the event-log query.

**Map iteration order.** Go map iteration order is also a parameter. Where the result could depend on it, a lemma states when it does not (`Utils.ApplyExcludeFilterSpec`, `FilesCrawler.ExclusionIndependentOfOrder`) and when it does (`Utils.TemplateOrderMatters`), and for templates a sufficient condition under which every order agrees (`Utils.TemplateFill`).

**The world.** The file system, the clock and the network are input records:
- `FilesCrawler.FileView`, the per-segment reads of a file;
- `Gateway.World`, the spool listing, the reply and the removal outcomes;
- the `now` parameters.

**Loops become functions.** Loops over channels become functions over sequences of inputs. The queue steps once per input; `None` stands for a timer wake. The gateway sends once per batch.

**As written and as intended.** Where the source is wrong (see Findings), the code as written and the evident intent are both defined:
- `FilesCrawler.Variant` selects how a file pass builds its container and counts lines; `FilesCrawler.RunOnce` takes it as a parameter and hands it to every pass;
- `Gateway.Variant` selects whether the first accepted send clears the version flag and how spool files are named; both are stated for `Gateway.Run`;
- the dead-time finding is a pair of functions, `Config.LoadRules` as written and `Config.LoadRulesSkipping` as intended.

## Model

| member | source | states |
|---|---|---|
| Utils.Contains | utils.go:8-24 | the linear scan answers true exactly when the element occurs in the slice (`Contains` and `ContainsUint`) |
| Utils.FindAllSubmatchesSpec | utils.go:26-42 | a key is in the result exactly when it was there before or some named group captured a non-empty value for it; its value is the last such capture, else the old value |
| Utils.AssignLastWins | utils.go:31-41 | successive map assignments leave each key holding the value of its last assignment, and no other keys |
| Utils.CapturesMembership | utils.go:33-39 | a (name, value) pair is taken from a match exactly when its group is named and captured something non-empty |
| Utils.EmptyCapturesNeverErase | utils.go:34-38 | merging captures never removes a key, and every key it touches ends up with a non-empty value |
| Utils.UnnamedKeysUntouched | utils.go:26-42 | a key the expression does not name is present afterwards exactly when it was before, with the same value |
| Utils.LaterMatchWins | utils.go:31-41 | a name captured by the last match takes that match's value, whatever earlier matches captured |
| Utils.RegexSplit | utils.go:44-54 | one piece more than there are delimiter matches; interleaving the pieces with the matched delimiters gives back the text; no match gives the text alone |
| Utils.SplitFromInterleaves | utils.go:48-52 | the pieces cut between consecutive matches, rejoined with the delimiters, rebuild the rest of the text from the start position |
| Utils.SplitFromPieces | utils.go:48-52 | the first piece runs from the start position to the first match, each middle piece lies between consecutive matches, and the last piece is the rest of the text after the last match |
| Utils.ScanExcludesSpec | utils.go:58-73 | the scan over a key order reports an exclusion exactly when some key in that order has a regex that matches its non-empty field |
| Utils.ApplyExcludeFilterSpec | utils.go:56-75 | for any honest map iteration order, the event is skipped exactly when some present exclusion regex matches the non-empty value of its field; an empty filter never skips |
| Utils.ApplyTemplate | utils.go:77-86 | an empty message, a nil field map or a message without `#` comes back unchanged, whatever the iteration order |
| Utils.TemplateUnchanged | utils.go:77-86 | an empty message, a nil field map or a message without `#` comes back unchanged |
| Utils.TemplateSingleField | utils.go:80-83 | with one field, every `#key` occurrence is replaced by its value |
| Utils.TemplateOrderMatters | utils.go:80-83 | when one key's value spells another placeholder, two iteration orders give different messages |
| Utils.ReplaceFillsKey | utils.go:81 | on a template whose text, keys and values hold no `#` and whose keys are not prefixes of one another, one key's replace-all fills in that key's placeholders and nothing else |
| Utils.SubstituteFills | utils.go:80-82 | the key-by-key loop fills in exactly the keys the iteration order visits that have a field |
| Utils.TemplateFill | utils.go:77-86 | for such a template, the source's replacement in any iteration order that visits each placeholder's key equals the one-pass left-to-right fill of all placeholders |
| Utils.TemplateOrderIndependent | utils.go:80-82 | for such a template, any two honest map iteration orders give the same message |
| Utils.FirstOccurrencesKeys | utils.go:93-108 | keeping first occurrences loses no (security id, address, time) key |
| Utils.DedupIntoIsFirstOccurrences | utils.go:93-108 | the nested loop of the source computes exactly the first-occurrence subsequence of its input |
| Utils.FirstOccurrencesDistinct | utils.go:93-108 | the first-occurrence subsequence has pairwise distinct keys and is no longer than the input |
| Utils.FirstOccurrencesOfDistinct | utils.go:93-108 | a list whose keys are already distinct is its own first-occurrence subsequence |
| Utils.CleanDuplicates | utils.go:88-110 | the result is the first-occurrence subsequence of the input, the reference definition of keeping the first event per key; inputs shorter than two come back as they are |
| Utils.CleanDuplicatesSpec | utils.go:88-110 | the cleaned list has pairwise distinct keys, the same key set as the input, and is no longer than it |
| Utils.CleanDuplicatesIdempotent | utils.go:88-110 | removing duplicates twice is removing them once |
| Containers.Clean | securityeventscontainer.go:12-14 | the event list becomes its first-occurrence subsequence; the id, offset, line, source and address map are kept |
| Containers.CleanKeepsKeys | securityeventscontainer.go:12-14 | the cleaned list never grows, keeps every key and has no key twice |
| Containers.CleanIdempotent | securityeventscontainer.go:12-14 | calling the method twice leaves the same container as calling it once |
| Batcher.Init | queue.go:21-29 | the queue starts empty, not critical, with its first run pending and its clock at the start time |
| Batcher.Flush | queue.go:31-39 | the accumulated items are emitted in arrival order; the queue is then empty and not critical, its first run is over and its clock restarts at the time read after the hand-off |
| Batcher.AnyCritical | queue.go:65-72 | the early-exit scan finds a critical event exactly when the container holds one |
| Batcher.Absorb | queue.go:61-72 | a container is appended at the end and a timer wake appends nothing; the critical flag becomes set exactly when it was set or the new container holds a critical event |
| Batcher.Step | queue.go:58-101 | an input flushes exactly when some flush condition holds after absorbing it; a flush emits everything absorbed and restarts the queue with its clock at the post-hand-off reading; otherwise the absorption is the only change |
| Batcher.TriggerTable | queue.go:76-100 | the idle-time, item-count, critical, first-run and event-count tests fire in that priority, each only when all earlier ones fail; no flush happens exactly when none holds |
| Batcher.FirstWakeFlushes | queue.go:87-89 | the first input after `Init` always flushes, whatever it carries |
| Batcher.IdleFlushCanBeEmpty | queue.go:78-80 | a timer wake after the idle timeout with nothing collected hands on an empty batch |
| Batcher.StepKeepsConsistent | queue.go:61-100 | the critical flag keeps telling whether some collected container holds a critical event |
| Batcher.RunKeepsArrivalOrder | queue.go:58-101 | over any sequence of inputs, the batches handed on, followed by what is still queued, are exactly the arrived containers in arrival order |
| Batcher.RunKeepsConsistent | queue.go:58-101 | the critical flag stays truthful over any sequence of inputs |
| PositionStore.IndexOf | system_state.go:94-98 | the scan finds the first record with the id, and finds none exactly when no record has it |
| PositionStore.Find | system_state.go:93-108 | an existing id yields its first record with the list unchanged; an absent id appends one record with that id and offset 0 |
| PositionStore.FindIdempotent | system_state.go:93-108 | a second lookup of the same id finds the same record and adds nothing |
| PositionStore.RemoveExpired | system_state.go:71-86 | exactly the records updated after the cut-off thirty days back are kept |
| PositionStore.RemoveExpiredAppend | system_state.go:79-83 | the filter distributes over concatenation, so the kept records stay in order |
| PositionStore.RemoveExpiredIdempotent | system_state.go:71-86 | expiring twice at the same time is expiring once |
| PositionStore.ReadOriginalState | system_state.go:53-69 | the loaded records are all unexpired; with no stored file the list is empty |
| PositionStore.MergeOne | system_state.go:27-34 | one container's record is found or appended and updated in place; the first index of every other id is unchanged |
| PositionStore.MergeSpec | system_state.go:25-35 | after the batch, each id's first record holds its last container's offset and source and the stamp; other records are unchanged; every new id of the batch gets exactly one appended record, no other record is appended, and each starts at line 0 |
| PositionStore.Sync | system_state.go:17-40 | an empty batch saves nothing; otherwise the batch is merged into the freshly read, expiry-filtered stored list, not into the crawler's copy |
| Convert.ForceAtoi | util_convert.go:8-14 | the result is within int64 and is 0 for empty input, a non-digit after the first character, or a first character that is neither a digit nor a sign |
| Convert.ForceAtoui | util_convert.go:17-23 | the result is within uint64, is 0 when any character is not a digit, is the digits' value when they are all digits and in range, and is 0 when they are all digits but overflow uint64 |
| Convert.Itoa | util_convert.go:34-40 | a minus sign appears exactly for negatives, followed by the decimal digits of the magnitude, with no leading zero except in "0" itself |
| Convert.ForceAtoiItoa | util_convert.go:8-14 | formatting then leniently parsing any int64 gives it back |
| Convert.ForceAtoiItoaMin | util_convert.go:26-32 | the smallest int64 survives the round trip, although its magnitude does not fit in int64 |
| Convert.ForceAtoiOverflow | util_convert.go:26-32 | one past the largest int64 overflows and reads as 0 |
| Dates.DateToCustomLong | util_date.go:59-62 | the Unix second that contains the instant |
| Dates.CustomLongToTime | util_date.go:64-67 | the start of the given Unix second, which converts back to that second |
| Dates.YearlessLayout | util_date.go:69-75 | rewriting a year-free format prefixed with `YYYY ` gives `2006 ` followed by the rewritten format |
| Dates.ExYearParseInputs | util_date.go:78-86 | a format with `Y` is only rewritten and the value passed unchanged; otherwise the format gets the `YYYY ` prefix and the value gets the current UTC year and a space |
| Dates.ReplaceSplits | util_date.go:69-75 | spaces, colons and dashes belong to no placeholder, so the pieces between them are rewritten independently |
| Dates.LoneDayLetter | util_date.go:69-75 | a literal letter that coincides with a placeholder is rewritten too: a lone `D` becomes `2` |
| Dates.DefaultTimeLayout | util_date.go:88-91 | the default time format is Go's `15:04:05` |
| Dates.DefaultDateLayout | util_date.go:88-91 | the default date format is Go's `2006-01-02` |
| Dates.DefaultDateTimeLayout | util_date.go:88-91 | the default date-time format is Go's `2006-01-02 15:04:05` |
| FileNames.TrimSpaceSpec | file.go:24 | the result is the slice of the input between its leading and trailing white space, all of which is white space, and starts and ends with non-space |
| FileNames.UnifySlashesAt | file.go:22-23 | each character is kept, except that each slash of either kind becomes the separator |
| FileNames.ReplacementsUnify | file.go:22-23 | the two replace-all calls together turn every slash of either kind into the separator |
| FileNames.TrimCommutes | file.go:22-24 | unifying slashes creates and removes no white space, so trimming before or after gives the same name |
| FileNames.UnifyKeepsSpans | file.go:22-24 | unifying slashes leaves the leading and trailing white space where it was |
| FileNames.UnifySlice | file.go:22-23 | unifying a slice is slicing the unified name, because each character is rewritten on its own |
| FileNames.UnifyIdempotent | file.go:22-23 | unifying slashes twice is unifying them once |
| FileNames.UnifiedTrimmed | file.go:20-28 | a trimmed name stays trimmed once its slashes are unified |
| FileNames.NormalizeSpec | file.go:20-28 | the normalised name is the trimmed name with slashes unified, case kept, never longer than the input, and holds no slash other than the separator |
| FileNames.NormalizeIdempotent | file.go:20-28 | normalising twice is normalising once |
| Utf16.DecodeEncode | eventlogs_windows.go:13-26 | decoding UTF-16 (section 2.2 of RFC 2781) undoes encoding for every string |
| Utf16.UnpairedHighSurrogate | eventlogs_windows.go:21-25 | a high surrogate not followed by a low one decodes to U+FFFD and decoding resumes after it |
| Utf16.UnpairedLowSurrogate | eventlogs_windows.go:21-25 | a lone low surrogate decodes to U+FFFD |
| Utf16.UnitsLE | eventlogs_windows.go:174-177 | each code unit is the low byte plus 256 times the high byte |
| Utf16.BytesUnits | eventlogs_windows.go:174-177 | splitting units into little-endian bytes and reading them back gives the units |
| Utf16.IndexNullTerminator | eventlogs_windows.go:182-194 | the first even index holding two zero bytes, or -1 when there is none or the input is shorter than two |
| Utf16.BytesToString | eventlogs_windows.go:159-180 | odd length fails with the empty text and 0; otherwise the text is the decoding of the units before the first aligned two-zero-byte terminator (all of them when there is none), and the offset is just past that terminator when bytes follow it, else -1 |
| Utf16.TerminatorAfterText | eventlogs_windows.go:182-194 | encoded text without NUL has no aligned zero pair, so a terminator after it is the one found |
| Utf16.RoundTrip | eventlogs_windows.go:159-180 | encoded text without NUL and without terminator converts back to itself, with offset -1 |
| Utf16.RoundTripTerminated | eventlogs_windows.go:164-179 | with a terminator, only the text before it is decoded, and the offset points past the terminator exactly when bytes follow it |
| Utf8Probe.RuneLen | utf8.go:139-141 | the length of the well-formed UTF-8 character (section 4 of RFC 3629) the bytes start with, or 0 |
| Utf8Probe.ProbeEndStops | utf8.go:137-147 | the probe stops before the limit only at a byte sequence that is not a character, or at U+FFFD |
| Utf8Probe.Utf8Reader | utf8.go:70-177 | an empty first read returns the file as it is; a UTF-8 mark, read whole and skipped by a working seek, returns the file without transform |
| Utf8Probe.MarkedReaders | utf8.go:88-117 | after a clean first read with a mark: a UTF-8 mark is skipped exactly when the seek past it works, else the reader fails; any other mark with a failed rewind fails; with a working rewind the UTF-32LE, UTF-32BE and UTF-16 marks select their decoders, UTF-32LE taking precedence over UTF-16LE |
| Utf8Probe.ProbeDecides | utf8.go:122-159 | with no mark, a working rewind and no encoding name: an empty probe at end of file reads as is, any other probe error or a failed second rewind fails, and otherwise the file is read as is exactly when the probe looks like UTF-8 |
| Utf8Probe.Utf8FileAsIs | utf8.go:155-158 | an unmarked file whose first bytes are the UTF-8 encoding of text without replacement characters is read as is |
| Utf8Probe.HeadReadErrors | utf8.go:80-87 | a failed first read, other than an empty end of file, is an error |
| Utf8Probe.Utf32BeforeUtf16 | utf8.go:103-106 | `FF FE 00 00` also starts with the UTF-16LE mark, yet it is read as UTF-32LE |
| Utf8Probe.MarkBeatsName | utf8.go:88-118 | a UTF-8 or UTF-32 mark decides the reader whatever the encoding name and platform |
| Utf8Probe.NameUsedWithoutMark | utf8.go:161-176 | without a mark, a given name is used as it is, and an unknown name is an error |
| Utf8Probe.DefaultWhenProbeFails | utf8.go:161-168 | without a mark or a name, a file the probe rejects gets windows-1252 on Windows and utf-8 elsewhere |
| Utf8Probe.RuneLenOfEncoding | utf8.go:139-141 | an encoded character (section 3 of RFC 3629) is recognised whole, and reads as U+FFFD only when it is U+FFFD |
| Utf8Probe.EncodingWalks | utf8.go:139-141 | encoded text without U+FFFD is a run of whole characters, none of them U+FFFD |
| Utf8Probe.WalkProbe | utf8.go:137-147 | the probe passes over a run of whole characters other than U+FFFD that ends before the limit |
| Utf8Probe.ProbeThroughEncoding | utf8.go:137-147 | the probe walks over encoded text without U+FFFD, one character at a time |
| Utf8Probe.ProbeAcceptsEncodedText | utf8.go:155-158 | UTF-8 text without U+FFFD that fits the probe is taken as UTF-8 |
| Utf8Probe.ProbeRejectsStrayByte | utf8.go:137-159 | a byte that starts no character, early in the probe, makes the file count as not UTF-8 |
| Config.Ext | config.go:76 | the extension is empty or a suffix of the name starting with a dot |
| Config.ExtYml | config.go:76 | a name has extension `.yml` exactly when it ends with `.yml` |
| Config.YmlSuffixExt | config.go:76 | a name ending with `.yml` has that extension, whatever comes before the dot |
| Config.YmlNames | config.go:75-79 | exactly the entries with extension `.yml` are kept, in directory order; as the directory listing is sorted by name, so is the result |
| Config.YmlNamesAppend | config.go:75-79 | filtering a listing in two parts keeps the `.yml` names of the first part followed by those of the second |
| Config.DiscoverYamlConfigs | config.go:64-82 | fails exactly when the stat or the directory read fails; a plain file gives no rules; a directory gives its `.yml` entries joined to the directory |
| Config.RuleFileNameOfYml | config.go:117-119 | for any lower-casing that leaves `.`, `y`, `m` and `l` alone, the rule name of `dir/stem.yml` is the lower-cased stem |
| Config.BaseNameAfterSlash | config.go:117 | the last element of `dir/name` is the name |
| Config.ExcludeRegexes | config.go:163-173 | exactly the exclusion expressions that compile are kept, each under its own key; a failing one omits its key only |
| Config.CompileEventsSpec | config.go:146-176 | an unselected rule keeps no event; otherwise exactly the events whose regex compiles are kept, each with its compiled parts |
| Config.CompileEventsOrder | config.go:146-176 | events are compiled one at a time, so the kept ones stay in declaration order |
| Config.WithDefault | config.go:122-128 | a non-empty value is kept, and an empty one takes the non-empty default |
| Config.LoadRule | config.go:109-183 | a rule is unreadable exactly when its file is; for a readable file it fails on the dead time exactly when that (default-filled) duration does not parse, on the file filter exactly when the dead time parses and the filter does not compile, and is loaded exactly when both work and some selected event compiles; a loaded rule carries exactly those compiled events, the default-filled configuration, its compiled filter, its lower-cased stem as name and the parsed dead time |
| Config.LoadedRules | config.go:108-186 | a rule is kept exactly when some file's outcome is that rule, and no more rules than files are kept |
| Config.LoadRules | config.go:108-186 | the loop returns the loaded rules, and every one has at least one event |
| Config.UnselectedRuleDropped | config.go:156-160 | a rule the main configuration does not select never survives |
| Config.DefaultsApplied | config.go:122-128 | an empty dead time and file filter take the options defaults: `360h`, and the filter for archive extensions |
| Config.LoadedRulesSplit | config.go:109-184 | rule files are loaded independently, so loading distributes over concatenation |
| Config.BadLastDeadTimeFails | config.go:130-134 | as written: a last rule file whose dead time fails to parse is skipped, yet the loop reports an error |
| Config.LoadRulesSkipping | config.go:130-134 | as intended: the same rules are kept and no error is reported |
| Config.BadDeadTimeSkipped | config.go:130-134 | as intended: a file with a bad dead time changes nothing, wherever it stands |
| FilesCrawler.RulesFor | crawler_files.go:318-337 | the rules listed for a file are the claiming rules whose file filter does not exclude it |
| FilesCrawler.AssignClaims | crawler_files.go:318-337 | a file is in the map exactly when some rule claims it without excluding it, and it lists exactly those rules in claim order |
| FilesCrawler.FilesListMap | crawler_files.go:307-343 | every listed file has at least one rule, no listed rule excludes its file, and exactly the claimed unexcluded files are listed |
| FilesCrawler.RuleListedTwice | crawler_files.go:322-328 | the already-assigned check continues only its own loop: a rule whose two patterns match one file is listed twice for it |
| FilesCrawler.MaxDeadTime | crawler_files.go:73-79 | the effective dead time is at least one second and at least each rule's, and is one of them or the one-second floor |
| FilesCrawler.TooOldIff | crawler_files.go:83-87 | a file is skipped as stale exactly when its age exceeds one second and every claiming rule's dead time |
| FilesCrawler.ResumePoint | crawler_files.go:91-119 | skip exactly when the resume offset equals the size; a stored offset inside the file resumes there with the stored line; anything else restarts at offset 0, line 1 |
| FilesCrawler.RestartStopsLineCounting | crawler_files.go:93-96 | a stored record with line 0 resumes with the counter off |
| FilesCrawler.EncodingFor | crawler_files.go:130-138 | the first rule's encoding when `htmlindex` knows it, else none |
| FilesCrawler.LineTextSpec | crawler_files.go:161-168 | the line is a prefix of the segment: a final `\n` or `\r\n` is removed, and a segment without `\n` is kept whole |
| FilesCrawler.LineTextCrLf | crawler_files.go:163-168 | a line terminated by `\r\n` reads back as itself |
| FilesCrawler.LineTextLf | crawler_files.go:163-168 | a line terminated by `\n` alone reads back as itself when it does not end with `\r` |
| FilesCrawler.OneCarriageReturnRemoved | crawler_files.go:164-167 | only one `\r` before the `\n` is removed |
| FilesCrawler.Scan | crawler_files.go:157-206 | the reading loop processes a prefix of the reads, and a pass that processes nothing changes nothing |
| FilesCrawler.ScanPosition | crawler_files.go:184-187 | when some read is processed, the recorded position is the one the last processed read reported |
| FilesCrawler.ScanCounts | crawler_files.go:178-180 | a running counter advances exactly once per processed read that counts |
| FilesCrawler.ScanCountingOff | crawler_files.go:178-180 | a counter that is off stays off |
| FilesCrawler.ScanCompleteLines | crawler_files.go:157-206 | complete lines followed by the empty end-of-file read are all processed |
| FilesCrawler.LineCountAfterPass | crawler_files.go:178-180 | as written, n complete lines advance the counter by n + 1, because the empty end-of-file read counts; counting only non-empty reads, it advances by n |
| FilesCrawler.EmptyEofReadCounted | crawler_files.go:178-180 | as written, one line then end of file leaves the counter at 3 instead of 2 |
| FilesCrawler.CountedLines | crawler_files.go:178-180 | as intended, complete lines count one each |
| FilesCrawler.PartialLineDeferred | crawler_files.go:169-175 | an unterminated last read of a recently modified file is left for the next pass with nothing changed; otherwise it is processed |
| FilesCrawler.AuxFields | crawler_files.go:266-275 | the auxiliary fields are the other fields with their values, never `ip` or `eventTime`, and nil when there are none |
| FilesCrawler.Locator | crawler_files.go:284-287 | the source is the path alone when lines are not counted, else the path followed by a colon |
| FilesCrawler.LocatorLine | crawler_files.go:286 | the number after the colon reads back as the line minus one |
| FilesCrawler.ParseEventSpec | crawler_files.go:218-303 | no event exactly when the regex does not match, the time does not parse or exclusion fires; otherwise the event has the filter's ids and flag, the parsed time, the `ip` field, the locator and clean auxiliary fields |
| FilesCrawler.ExclusionIndependentOfOrder | crawler_files.go:264 | under honest map orders, a matching, time-parsed line is dropped exactly when some exclusion regex matches its field |
| FilesCrawler.ParseEventsMembers | crawler_files.go:218-304 | an event is produced for a line exactly when some filter yields it for that line |
| FilesCrawler.ParseEventsAppend | crawler_files.go:218-304 | filters are applied in declaration order, so the events of two runs of filters come one after the other |
| FilesCrawler.PassContainer | crawler_files.go:184-187 | after processing a read, the container carries the position and line recorded for it |
| FilesCrawler.CrawlFile | crawler_files.go:56-209 | a file without id or status, a directory, or a stale file is not read; otherwise only its record's offset and line change; a container is handed on exactly when the file is read, has something to resume, opens and its reader does not fail; it has the file's id and path, the recorded position, and as events the first occurrences of those the reading loop found |
| FilesCrawler.DeferredPassResetsOffset | crawler_files.go:151-186 | as written, a pass whose only read is deferred hands on a container with offset 0 |
| FilesCrawler.DeferredPassKeepsOffset | crawler_files.go:151-186 | as intended, such a pass hands on the offset and line reading resumed from |
| FilesCrawler.UnchangedFileSkipped | crawler_files.go:117-119 | a file that has not grown since the stored offset is not read and nothing is handed on |
| FilesCrawler.RunOnce | crawler_files.go:52-214 | at most one container per path, and no record is lost |
| WinEventLog.Entry | crawler_wineventlog_windows.go:67 | the search term is `EventID=` followed by the id |
| WinEventLog.EntryReadsBack | crawler_wineventlog_windows.go:67 | the id reads back from its term |
| WinEventLog.EntryInjective | crawler_wineventlog_windows.go:67-70 | two ids have the same term exactly when they are equal, so the list's duplicate check works on ids |
| WinEventLog.AllIds | crawler_wineventlog_windows.go:65-66 | exactly the ids of the rule's event filters |
| WinEventLog.SearchTerms | crawler_wineventlog_windows.go:64-72 | the list holds each id's term exactly once and nothing else, and is no longer than the ids |
| WinEventLog.SearchTermsPrefix | crawler_wineventlog_windows.go:64-72 | terms are added in first-occurrence order: the terms of a prefix stay in front |
| WinEventLog.SearchTermsOfDistinct | crawler_wineventlog_windows.go:64-72 | for distinct ids the list equals the term list of the ids: one term each, in the same order |
| WinEventLog.EmptySearchList | crawler_wineventlog_windows.go:64-76 | a pair is skipped exactly when no event filter of its rule names an id |
| WinEventLog.NoGapAfterQuery | crawler_wineventlog_windows.go:82-95 | after a stored query time, the next period reaches back to before it, by less than a second; the query, issued in truncated milliseconds, starts less than a millisecond after the period's start and less than a millisecond after the stored time |
| WinEventLog.LoadedRuleUsesDeadTime | crawler_wineventlog_windows.go:87-89 | a loaded rule always has a dead time, so without a stored time its dead time is used and the 30-day default never applies |
| WinEventLog.Millis | crawler_wineventlog_windows.go:95 | the period in whole milliseconds, truncated toward zero |
| WinEventLog.MillisTruncates | crawler_wineventlog_windows.go:95 | for every period, truncation agrees with floored division except on negative periods that are not whole milliseconds, which it rounds up |
| WinEventLog.FieldPrecedence | crawler_wineventlog_windows.go:139-156 | a field comes from the filter's capture if any, else its fixed fields, else the system capture, and is present exactly when one of them gives it |
| WinEventLog.AddressFromFilter | crawler_wineventlog_windows.go:150-156 | the system expression names no `ip`, so the address comes from the filter's fixed fields and captures only |
| WinEventLog.MessageChoice | crawler_wineventlog_windows.go:163-169 | without placeholders, the message is the filter's template when it has one, else the captured `message` |
| WinEventLog.AuxFields | crawler_wineventlog_windows.go:171-176 | every field except `ip`, `eventTime` and `_eventTime`, with its value |
| WinEventLog.ItemEventSpec | crawler_wineventlog_windows.go:137-205 | no event exactly when the item's id is not the filter's, exclusion fires, the creation time is not RFC 3339, or the address is empty; otherwise the event carries the filter's ids and flag, the address, the time and the path |
| WinEventLog.FilterEvents | crawler_wineventlog_windows.go:133-206 | a filter naming no id yields nothing; otherwise at most one event per item, each that item's event |
| WinEventLog.FilterEventsMembers | crawler_wineventlog_windows.go:137-206 | for a filter that names an id, an event is produced exactly when some item yields it |
| WinEventLog.FilterEventsAppend | crawler_wineventlog_windows.go:137-206 | items are processed in order: the events of two runs of items come one after the other |
| WinEventLog.RuleEventsMembers | crawler_wineventlog_windows.go:131-207 | an event is produced for the rule exactly when one of its filters produces it |
| WinEventLog.RuleEventsAppend | crawler_wineventlog_windows.go:131-207 | events are filter-major: all of one filter's events come before the next filter's |
| WinEventLog.ForeignItemIgnored | crawler_wineventlog_windows.go:144-147 | an item whose id no filter names adds no event |
| WinEventLog.CrawlPair | crawler_wineventlog_windows.go:64-210 | an empty list skips the pair; otherwise the record is found or created, and the container is sent exactly when the query succeeds; then the record's offset and the container's offset are the query second, and the container has the pair's id and path |
| WinEventLog.PairEvents | crawler_wineventlog_windows.go:131-209 | the events sent are the first occurrences of the filter-major events of the items, so no key repeats |
| WinEventLog.SecondQuerySince | crawler_wineventlog_windows.go:80-125 | crawling the pair again finds the updated record, whose period reaches back to the previous query |
| WinEventLog.PairKeepsRecords | crawler_wineventlog_windows.go:80-125 | crawling a pair keeps every stored record in place with its id, and the list never shrinks |
| WinEventLog.CrawlPaths | crawler_wineventlog_windows.go:62-211 | at most one container per path, each for one of the paths; no record is lost or renamed |
| WinEventLog.RunOnce | crawler_wineventlog_windows.go:58-214 | every container is for some rule and one of its paths; no record is lost or renamed |
| Gateway.AllEvents | http_gateway.go:139-145 | every container's events, concatenated in batch order |
| Gateway.AllEventsAppend | http_gateway.go:141-145 | the events of two batches sent together are the first's followed by the second's |
| Gateway.AllEventsPositions | http_gateway.go:141-145 | event k of container i sits at the number of events before container i, plus k |
| Gateway.LastServices | http_gateway.go:146-151 | the service list of the last container with an entry for the address |
| Gateway.IpServices | http_gateway.go:146-151 | the map stays nil exactly when every container's map is empty; otherwise the latest container wins per address |
| Gateway.MakeEnvelope | http_gateway.go:127-178 | token, key and local time always; version and offset exactly when the first message is not known to be sent; the events are present exactly when there are any |
| Gateway.Failed | http_gateway.go:186-219 | the send failed exactly when the reply is not accepted: transport error, non-200 status, unparseable body, or refusal with a code other than 1 |
| Gateway.Retry | http_gateway.go:155-174 | exactly the listed, readable spool files are posted, in name order |
| Gateway.RetrySpool | http_gateway.go:155-174 | a file leaves the spool exactly when it was listed, its post reached the server and its removal worked; every other envelope stays under its name |
| Gateway.RetryDeletes | http_gateway.go:165-172 | a spooled envelope leaves the spool exactly when its post reached the server, whatever the reply, and its removal worked |
| Gateway.SpoolName | http_gateway.go:225 | the spool name is the `.state/.net_` prefix followed by the Unix second |
| Gateway.SpoolNameTime | http_gateway.go:225 | the second reads back from the spool name |
| Gateway.SpoolNamesOfSeconds | http_gateway.go:225 | two spool names are equal exactly when the sends fall in the same second |
| Gateway.Send | http_gateway.go:121-239 | the envelope is assembled from the batch; the send failed exactly when the reply is not accepted; retries follow sorted names; as written the gateway's flag never changes, as intended it is set once a send is not failed |
| Gateway.SpoolWrittenIffFailedWithEvents | http_gateway.go:221-231 | the new envelope is spooled exactly when the send failed, it has events, and the write worked |
| Gateway.CodeOneNeverSpools | http_gateway.go:209-211 | a malformed-request refusal (code 1) is not a failure, and nothing is spooled |
| Gateway.SameSecondOverwrites | http_gateway.go:225 | as written, a failed send in the same second as a still-spooled envelope replaces it |
| Gateway.FreshName | http_gateway.go:225 | as intended, the spool name starts with the timestamp name and is not already taken |
| Gateway.SpoolKeepsEnvelopes | http_gateway.go:221-231 | as intended, every envelope the retry kept is still spooled after the send, under its name |
| Gateway.Run | http_gateway.go:108-119 | one envelope per batch, and every batch is forwarded to the state sync whatever the outcome |
| Gateway.EveryEnvelopeVersioned | http_gateway.go:121-136 | as written, every envelope of every run carries the version and time offset |
| Gateway.VersionUntilFirstAccepted | http_gateway.go:133-136 | as intended, an envelope carries the version exactly when no earlier send of the run was accepted |
| Gateway.NeverVersionedAgain | http_gateway.go:232-233 | as intended, once a send is accepted, no later envelope carries the version or offset |

## Left out

**I/O and concurrency**
- YAML and JSON (un)marshalling. This covers rule and main configuration files, the state file and the envelope bodies. A rule file is given as read, or as unreadable.
- HTTP and TLS client setup (the gateway's `Init`). A send's outcome is the `Reply` input.
- Goroutines, channels, the ticker and `AfterFunc`. Each of them is a sequence of inputs; a timer wake is `None`.
- Logging, including the `_firstRun` messages.
- `CreateDirIfNotExist`.
- `FileToUtf8`, and the decoders behind the chosen reader. The model decides which reader is chosen, not what it yields.

**Decisions delegated to oracles**
- File identity and shared open (file_windows.go, file_other.go). The file id is an opaque string, and stat/open are `FileView` fields.
- The Windows event API (`_ReadEventLogs`). The query is an oracle from path, search list and milliseconds to the items it returns, or to a failure.
- The XML query text.
- The read limit of 1000 items. It is a constant the query oracle is assumed to apply.

**Other parts of the agent**
- The network monitor, address enrichers, process manager, program wiring and command-line options. They are not part of this model.

**Reading and clocks**
- The position a read reports comes from a `Seek` beneath a buffered reader. That is the underlying read position, not the end of the line, so each segment carries it as an input.
- The `bufio.ErrBufferFull` branch, where a segment longer than the buffer is continued. Segments are given whole.
- Clock readings. The source reads `time.Now()` several times per pass. The file pass uses one reading; an event-log pair uses two, the period's and the query's. The queue uses two per input: the one the flush rule is tested at and the one read after a flushed batch has been handed on (`Batcher.Wake`). `PositionStore.Sync` stamps every record of a batch with one reading, where the source reads the clock again for each container (system_state.go:34); the readings differ by at most the time the loop takes.
- Nil containers in a gateway batch. The source would dereference nil in its address-map loop, so batches hold containers only.

**Behaviours of the code worth knowing**
- The file crawler's message is the filter's template only. Only the event-log crawler falls back to the captured `message`.
- The line counter advances once per read, including the empty end-of-file read (see Findings).
- A rule loaded by `LoadConfig` always has a dead time, so the event-log crawler's 30-day default period is never used for one (`WinEventLog.LoadedRuleUsesDeadTime`).
- `Sync` never stores the `Line` field the crawler keeps in memory. A restarted agent finds line 0 stored and stops counting lines for that file (`FilesCrawler.RestartStopsLineCounting`).

**Members whose contracts are deliberately weaker than the source's promise**
- FilesCrawler.RunOnce: states only the container bound and that no record is lost. Each path's pass is `FilesCrawler.CrawlFile`, which carries the full contract.
- WinEventLog.RunOnce: states only where containers come from and that records are kept. The per-pair behaviour is `WinEventLog.CrawlPair`'s contract.
- WinEventLog.CrawlPaths: same scope as `WinEventLog.RunOnce`, for one rule.
- Utils.RegexSplit: assumes the regex oracle reports ordered, non-overlapping matches inside the text, as Go's `FindAllStringIndex` does.
- Utf8Probe.Utf8Reader: its own contract covers the empty-file and UTF-8-mark branches only. The other marks and seek failures are stated by `Utf8Probe.MarkedReaders`, the probe branch by `Utf8Probe.ProbeDecides` and `Utf8Probe.Utf8FileAsIs`, and the encoding-name branch by `Utf8Probe.NameUsedWithoutMark`.
- Convert.ForceAtoi: overflow reads as 0 through the int64 bound and `Convert.ForceAtoiOverflow`, not through a general overflow clause. `int` and `int64` are one model, because Go's `int` is 64 bits wide on the agent's platforms.
- Dates.ExYearParseInputs: states what is handed to the time parser. The parse itself is an oracle.

## Findings

| source | as written | input that shows it | evidently intended | confidence | as-written member | corrected member |
|---|---|---|---|---|---|---|
| crawler_files.go:151-186 | the container starts with offset 0 and is updated only when a read is processed | a recently modified file whose only new bytes are an unterminated line: the container is sent with offset 0, and the state sync stores 0, so the next start re-reads the whole file | the container carries the position reading resumed from | not executed | FilesCrawler.DeferredPassResetsOffset | FilesCrawler.DeferredPassKeepsOffset |
| http_gateway.go:121-233 | `SendToServer` has a value receiver, so setting `_firstMessageSent` changes a copy | any run of sends, the first of them accepted: every later envelope still carries the version and time offset | only envelopes before the first accepted send carry them | not executed | Gateway.EveryEnvelopeVersioned | Gateway.VersionUntilFirstAccepted |
| config.go:130-134 | the dead-time parse assigns the function's named result `err`, which the skip leaves set | a last rule file with `deadTime: "abc"`: the rule is skipped, yet `LoadConfig` returns an error | a rule with a bad dead time is skipped and nothing is reported | not executed | Config.BadLastDeadTimeFails | Config.LoadRulesSkipping |
| crawler_files.go:178-180 | the counter advances for every read, including the empty read at end of file | a file holding one line `a\n`, read from line 1: the counter ends at 3, so the next pass's first locator is off by one | the counter advances once per line | not executed | FilesCrawler.EmptyEofReadCounted | FilesCrawler.CountedLines |
| http_gateway.go:225 | the spool file name has one-second resolution | two failed sends in the same second while the first's resend did not reach the server: the second envelope overwrites the first | each failed envelope gets its own spool file | not executed | Gateway.SameSecondOverwrites | Gateway.FreshName |
