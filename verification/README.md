# A Dafny model of the launcher's configuration, INI parser and logger

The program is a small launcher with five parts, and this project models the logic of each:

- **INI parser.** It reads `config.ini` with a C++ port of the inih parser.
- **`process_config`.** It checks the configuration file and turns parse errors into one exception message.
- **Settings callback.** It maps `[settings]` entries onto a logging level and an "accept ordinal".
- **Logger.** It filters messages by severity, labels them, and sends the severe ones to `syslog`.
- **`find_program_path`.** It looks up a program along a `PATH`-style variable.

Characters stand for C `char` bytes. `isspace`, `tolower` and `toupper` follow the "C" locale. A line holds what the C string holds, so it is cut at its first NUL.

I/O becomes data:

- A file is the list of lines `fgets` returns, plus the `errno` values of `fopen` and `fclose` (`Ini.FileAccess`).
- `stat` is the mode it reports, or `None` on failure.
- `getenv` is an `Option<string>`.
- The parser's handler is a pure function from (section, name, value) to `int`.

Each effect of a run is recorded in order as a trace of events:

- every handler call;
- every `error_code(code, __func__, __LINE__)` notification, which carries the C source line it comes from.

Modules follow the source files:

| module | models |
|---|---|
| `Text` | `rstrip`, `lskip`, the logger's `trim`, `strncpy0`, case mapping, `%d` |
| `FileModes` | the `S_IFMT` file-type bits |
| `Ini` | `find_char_or_comment`, the `ini_parse_file_core` state machine, `ini_parse(filename)` |
| `IniProperties` | what the parse loop guarantees: the first error line, handler calls, notifications, buffer bounds |
| `CfgParse` | `process_config` and the message it throws |
| `Logger` | `str_to_level`, level get/set, `vlog`/`log` line assembly, stream and syslog choice |
| `Settings` | `ACCEPT_ORDINAL`, `main`'s defaults, and the `prs_cfg_callback` lambda, both as written and as intended |
| `Locator` | `find_program_path` with its `strtok_r` split |

Three modelling choices need stating:

- **Line numbers.** Notifications carry the C `__LINE__` values of `ini.cpp` (118, 135, 165, 196, 203, 207). `EILSEQ` is 84, its Linux value.
- **Path separator.** `kPathSeparator` is taken to be `/`. The header that defines it is not part of this model.
- **Level order.** The order of `LOGGING_LEVEL` is taken to be TRACE < DEBUG < INFO < WARN < ERR < FATAL, which is the order the logger's `switch` and the default INFO imply. `log.h` is not part of this model.

Two facts about the code shape the model:

- **Symbolic links.** The test at `cfgparse.cpp:32-33` rejects a mode whose type is `S_IFLNK`. That test cannot fire, because it looks at the mode `stat` reports and `stat` follows links. So a link to a regular file is accepted. The model takes the mode as given. `CfgParse.Rejected` states that the test rejects exactly a failed `stat` or a non-regular type.
- **Buffer copies.** `strncpy0` is called with the buffer's own size as the length. It therefore always keeps at most 49 characters of a section or name (`Text.CopyTruncated`).

## Model

| member | source | states |
|---|---|---|
| `Text.StripRight` | ini.cpp:30-37 | `rstrip` keeps a prefix, removes only whitespace, and leaves no trailing whitespace |
| `Text.SkipLeft` | ini.cpp:40-46 | `lskip` keeps a suffix, removes only whitespace, and leaves no leading whitespace |
| `Text.Trim` | log.cpp:73-87 | trimming both ends yields the slice between the outermost non-space characters, which begins and ends with a non-space |
| `Text.TrimUnique` | log.cpp:73-87 | any slice obtained by removing whitespace from both ends that leaves none at either end is exactly the trimmed text |
| `Text.TrimIsSkipStrip` | ini.cpp:105 | the two-ended trim equals `lskip(rstrip(...))`, so the logger's `trim` and the parser's line stripping agree on every text |
| `Text.TrimOfTrimmed` | log.cpp:73-87 | trimming any text padded with whitespace on both sides gives the same result as trimming the text itself |
| `Text.TrimKeepsNoNul` | ini.cpp:105 | stripping a NUL-free line leaves it NUL-free |
| `Text.CString` | ini.cpp:94-105 | the text a `char` buffer holds is its longest NUL-free prefix |
| `Text.CopyTruncated` | ini.cpp:65-72 | `strncpy0` into a buffer of `n` bytes keeps a prefix of the source: all of it when it fits, and exactly `n - 1` characters otherwise |
| `Text.LowerIdempotent` | main.cpp:127-129 | lower-casing twice is the same as lower-casing once |
| `Text.DecimalRoundTrip` | cfgparse.cpp:26 | reading back the digits `%d` prints for a non-negative number gives the number |
| `Text.IntToDecimal` | cfgparse.cpp:26 | `%d` prints a minus sign exactly for a negative number, followed by a non-empty run of digits whose value is the number's magnitude. Reading the text back gives the number |
| `Ini.FindCharOrComment` | ini.cpp:48-59 | the result is the first position holding the wanted character or a `;` preceded by whitespace, or the end of the string |
| `IniProperties.FindAt` | ini.cpp:48-59 | any position that stops the scan, with none before it, is the position returned |
| `Ini.ScanLine` | ini.cpp:97-105 | the text is the C string, without the BOM on line 1, trimmed of whitespace at both ends; `start > line` holds exactly when the BOM was skipped or leading whitespace was removed |
| `IniProperties.PaddingOnlyIndents` | ini.cpp:97-111 | a non-empty stripped text padded with whitespace yields exactly that text. It counts as indented exactly when there was padding on the left, and its shape depends on the text alone |
| `Ini.Shape` | ini.cpp:107-166 | an empty text is blank, a `;` or `#` start is a comment, and a `[` start is a section line. A section's name is the text between `[` and the first `]`, which it does not contain. The shape alone never makes a continuation |
| `Ini.Classify` | ini.cpp:107-122 | a line is read as a continuation exactly when multi-line support is on, a previous name is set, and the line is non-empty, indented and not a comment. Otherwise it keeps its own shape |
| `IniProperties.UnclosedSectionShape` | ini.cpp:121-135 | a line is an unclosed section exactly when it starts with `[` and no `]` comes before the first inline comment, that is, a `;` after whitespace |
| `IniProperties.NoDelimiterShape` | ini.cpp:138-165 | a line is a pair line without a delimiter exactly when it is non-empty, does not start with `;`, `#` or `[`, and every `=` and every `:` in it comes after an inline comment |
| `Ini.Fault` | ini.cpp:130-136 | a malformed line records its own number as the error when none is recorded yet, and otherwise notifies `EILSEQ` and keeps the first error |
| `Ini.Continue` | ini.cpp:110-120 | as corrected: a successful continuation changes nothing, and a failing one is a fault like a malformed line. It becomes the first error, or is notified as `EILSEQ` from line 118 |
| `IniProperties.ContinuationAgrees` | ini.cpp:110-120 | under the corrected rule, a continuation line makes one handler call with the current section and previous name, and keeps both. It notifies exactly when its call fails after an earlier error |
| `Ini.Apply` | ini.cpp:107-166 | each branch keeps the line count and only appends events. It adds at most two, and at most one unless the line is a pair or a continuation. It keeps a recorded error and can record only the current line |
| `Ini.Step` | ini.cpp:94-171 | one loop iteration counts the line and only appends events. It keeps the first error and can record only the new line's number |
| `Ini.Run` | ini.cpp:94-172 | without stop-on-first-error the loop reads every line. With it, it stops after the line that records the first error. A recorded error is kept, and a new one lies among the lines read |
| `Ini.ParseLines` | ini.cpp:79-175 | the returned error is 0 or a line that was read. Without stop-on-first-error every line is read. With it, reading ends exactly at the error line, or runs to the end when there is none |
| `Ini.ParseFile` | ini.cpp:184-211 | the result is 0 or -1, and an open failure is one notification from line 196. Otherwise the parse's events come first. They are followed by the line-203 report of the error line, or the line-207 report of the `fclose` errno, or nothing when the result is 0 |
| `IniProperties.CommentLineIsSilent` | ini.cpp:107-109 | blank lines and lines starting with `;` or `#` only advance the line count |
| `IniProperties.SectionLine` | ini.cpp:122-129 | a `[name]` line sets the section to at most 49 characters of `name`, clears the previous name, and calls nothing |
| `IniProperties.PairLine` | ini.cpp:138-158 | a name/value line calls the handler once, remembers the name, and records this line as the error when the handler returns 0 and no error is recorded |
| `IniProperties.EqualsPair` | ini.cpp:140-152 | with an `=` before any comment, the name is the stripped text before the first `=` and the value the stripped text after it |
| `IniProperties.ColonPair` | ini.cpp:140-152 | with no usable `=`, the first `:` before any comment splits name from value |
| `IniProperties.PairShape` | ini.cpp:144-153 | a parsed name and value have no whitespace at either end, the name has no `=`, and the value holds no inline comment |
| `IniProperties.StepAgrees` | ini.cpp:94-171 | one line advances the count, updates the section and previous name, keeps the first error, and adds exactly one handler call or notification as the line's kind dictates |
| `IniProperties.ReturnsFirstErrorLine` | ini.cpp:79-175 | the parse returns the number of the first line that is malformed or whose handler call fails, or 0 when there is none |
| `IniProperties.HandlerCallsIgnoreErrors` | ini.cpp:110-172 | without stop-on-first-error, the handler is called for every pair and continuation line, in order, including lines after an error |
| `IniProperties.LaterErrorsAreNotified` | ini.cpp:114-166 | without stop-on-first-error, the notifications are exactly one `EILSEQ` from `ini_parse_file_core` per malformed line after the first error. They come in file order, each from line 135, 165 or 118 as its branch dictates |
| `IniProperties.CleanParseNotifiesNothing` | ini.cpp:114-166 | a parse with no failing line notifies nothing, with or without stop-on-first-error |
| `IniProperties.NoFailureNoLateFaults` | ini.cpp:130-166 | a parse with no error line notifies nothing |
| `IniProperties.StopOnFirstErrorNeverNotifies` | ini.cpp:94-171 | with stop-on-first-error, the loop reads up to and including the first failing line, or all lines when none fails. The handler is called for exactly the pair and continuation lines among them, and nothing is notified |
| `IniProperties.BuffersStayShort` | ini.cpp:83-84 | the section and previous-name buffers never hold more than 49 characters |
| `IniProperties.ReportsOnlyParserNames` | ini.cpp:118-207 | every notification names `ini_parse_file_core` or `ini_parse` |
| `IniProperties.ParseFileOutcome` | ini.cpp:194-210 | `ini_parse` returns 0 exactly when the file opens, no line fails and it closes cleanly. A failing line is reported from line 203 with its number, and otherwise a failing close is reported from line 207 with its errno |
| `IniProperties.ContinuationFinding` | ini.cpp:114-119 | as written, a continuation line whose handler succeeds still notifies `EILSEQ`, while the corrected rule changes nothing |
| `CfgParse.ProcessConfig` | cfgparse.cpp:29-59 | the result is `false` exactly for a path `stat` rejects, `true` exactly when the parse returns 0, and otherwise an error whose message starts with the load-error line |
| `CfgParse.Rejected` | cfgparse.cpp:32-33 | the file test rejects exactly a failed `stat` or a non-regular file type, so its `S_IFLNK` half never decides anything |
| `CfgParse.LocatorAcceptsMore` | main.cpp:69-71 | the program search accepts exactly what `process_config` accepts, plus a mode whose type is a symbolic link |
| `CfgParse.ParseErrorLine` | cfgparse.cpp:26 | a parse-error report starts with "config file parsing error " and ends with a newline. It has one more line break than the operation name |
| `CfgParse.ParseErrorLineReadBack` | cfgparse.cpp:26 | the code, the operation and the line can be read back from a parse-error report. The code's decimal text follows the head, then " in ", the operation and "() at line ", and the line's decimal text fills the rest up to the newline. Both decimal texts read back as the numbers printed |
| `CfgParse.LoadErrorLine` | cfgparse.cpp:27 | the load-error line is 26 characters longer than the path. The path can be read back from between the quotes, and the line ends with a quote and a newline |
| `CfgParse.AcceptsCleanFile` | cfgparse.cpp:45-58 | the configuration is accepted exactly when the file is regular, opens, has no failing line and closes cleanly |
| `CfgParse.FailedParseMessage` | cfgparse.cpp:40-55 | for an opened file whose first failing line is `k`, the message is the load-error line, one report per notification of the loop in order, and the line-203 report of `k`. A clean parse whose close fails gives the load-error line and the line-207 report of the errno |
| `CfgParse.OpenFailureMessage` | cfgparse.cpp:26-55 | an open failure throws the load-error line followed by the open `errno` reported from `ini_parse()` at line 196 |
| `CfgParse.StopOnFirstErrorMessage` | cfgparse.cpp:26-55 | with stop-on-first-error, a failing line yields the load-error line and exactly one parse-error line giving the line number |
| `CfgParse.MessageLines` | cfgparse.cpp:26-53 | the message has one line per notification plus the load-error line |
| `Logger.StrToLevel` | log.cpp:89-100 | the result is the level whose name equals the trimmed, upper-cased text, and INFO when no name matches |
| `Logger.LevelNameRoundTrip` | log.cpp:93-98 | every level's name is read back as that level |
| `Logger.NearMissesAreDefault` | log.cpp:93-99 | "ERROR", "WARNING" and the empty string fall back to INFO |
| `Logger.StrToLevelIgnoresCase` | log.cpp:92 | texts that differ only in letter case read as the same level |
| `Logger.StrToLevelIgnoresSpace` | log.cpp:91 | surrounding whitespace does not change the level read |
| `Logger.SetLevel` | log.cpp:102-104 | after setting a level, `get_level` returns it, and nothing else changes |
| `Logger.SetProgname` | log.cpp:53-58 | the program name stored is the C string passed, and the level and syslog switch are unchanged |
| `Logger.SetSyslogging` | log.cpp:60-68 | syslog stays enabled only if it was enabled and is enabled again |
| `Logger.SyslogOffIsPermanent` | log.cpp:65-67 | once syslog is disabled, enabling it again sends nothing to syslog |
| `Logger.VLog` | log.cpp:111-177 | a message is dropped exactly below the threshold, and otherwise the line starts with the program name and level label, goes to stderr exactly from WARN up, and goes to syslog exactly from ERR up while syslog is enabled |
| `Logger.LineRoundTrip` | log.cpp:148-175 | the written line decodes back to its level and message |
| `Logger.Log` | log.cpp:179-188 | `log` emits exactly what `vlog` emits, because its own threshold test is the one `vlog` makes |
| `Logger.FilterMonotone` | log.cpp:112-114 | a level that passes the filter makes every more severe level pass, and keeps passing when the threshold is lowered |
| `Logger.DefaultThreshold` | log.cpp:36-38 | at the default threshold INFO and WARN are written, while DEBUG and TRACE are not |
| `Settings.Callback` | main.cpp:124-182 | as written, the callback warns and returns 1 for `[settings]`, and handles every other section as a setting and returns 0 |
| `Settings.Interpret` | main.cpp:131-180 | as intended, a warning leaves the settings unchanged. A non-`settings` section, an unknown name and an unknown ordinal are ignored with a warning. `logging_level` is set from the lower-cased value, with INFO when the value is unknown |
| `Settings.IntendedCallback` | main.cpp:124-182 | as intended, the callback always returns 1. It warns unless the section is `settings` and the name is `logging_level`, or `accept_ordinal` with a known value. A warning leaves the settings unchanged, and a changed level or ordinal comes from the lower-cased value of that very name |
| `Settings.IntendedReadsEverySetting` | main.cpp:138-168 | as intended, every level word except "fatal" and every ordinal word is read as its value |
| `Settings.IntendedIgnoresCase` | main.cpp:127-137 | as intended, the outcome does not depend on letter case |
| `Settings.AsWrittenReach` | main.cpp:133-176 | as written, no sequence of calls can set WARN, ERR or any ordinal other than FIRST_FOUND and LAST_FOUND |
| `Settings.InvertedComparisons` | main.cpp:133-143 | as written, `[settings] logging_level=debug` is ignored, and `[x] anything=info` sets TRACE |
| `Settings.CompareFixedFailsOnValidSetting` | main.cpp:181 | with the comparisons corrected but `return 0` kept, a valid setting counts as a parse error |
| `Settings.AsWrittenFailsOutsideSettings` | main.cpp:177-181 | as written, every name/value line outside `[settings]` counts as a parse error |
| `Settings.IntendedNeverFails` | main.cpp:124-182 | the intended callback never makes a line fail |
| `Locator.Tokens` | main.cpp:58-75 | the `strtok_r` split yields only non-empty fields free of `:` |
| `Locator.TokensKeepCharacters` | main.cpp:58-75 | joined together, the fields are the variable's text with every `:` removed |
| `Locator.SplitJoin` | main.cpp:58-75 | joining non-empty, colon-free names with `:` and splitting again gives the names back |
| `Locator.DoubledDelimiter` | main.cpp:58-75 | a doubled `:` produces no extra field |
| `Locator.LeadingDelimiter` | main.cpp:58-60 | a `:` at the start produces no empty first field |
| `Locator.TrailingDelimiter` | main.cpp:58-75 | a `:` at the end produces no empty last field |
| `Locator.Candidate` | main.cpp:64-66 | the candidate is the directory, then a `/` only when the directory does not already end in one, then the program name |
| `Locator.ExtraDelimiter` | main.cpp:58-75 | a `:` immediately before another `:` never changes the fields, wherever it stands |
| `Locator.Search` | main.cpp:60-76 | the probes are a prefix of the candidates in field order, all but the last are rejected, a find ends on an accepted probe, and a miss has tried and rejected every candidate |
| `Locator.FindProgramPath` | main.cpp:48-80 | an unset or empty variable throws "there is no ... defined"; otherwise candidates are tried in field order, the first regular file or link is returned and nothing after it is tried, and when none is found every candidate has been tried and "could not locate program ..." is thrown |

## Left out

- File reading. `fgets` with `INI_MAX_LINE` is not modelled: the file is given as its lines, so a line longer than the buffer is not split.
- Program start-up. `one_time_init_main`, `basename` and `getpid` are process state and are not modelled.
- Composition in `main`. The `main` body that wires these parts together is not modelled. The `process_config` overload it calls with a directory and file name is not part of this model. The lookup of `java` and the log line that reports the outcome are not modelled either.
- `process_cfg_exception` in `main`. This exception is not caught in `main`. The model returns it as a `Failure` and does not model process termination.
- Logger side effects. The `openlog` and `syslog` calls, `set_to_unbuffered`, and `logm` are outside the model.
- Logger formatting. `vsnprintf` with `alloca` and the retry after truncation are outside the model. The message is given already formatted, and the model writes it in full, which is what the retry achieves.
- TRACE logging in `find_program_path`. Only its filtering is covered, through `Logger.VLog`.
- Logger.VLog: the `%s` of a message holding NUL is not modelled. The message is assumed NUL-free, as a C string is.
- Logger.VLog: the `assert(n > 0)` after `vsnprintf` (log.cpp:161) aborts a build without `NDEBUG` when the formatted message is empty. The model writes that line like any other and does not model the abort.
- `close_file`. Its `fclose` error (line 207) is modelled as a given `errno`. The `unique_ptr` machinery is not modelled.
- The callback's warnings. They are returned as text. Whether the logger then writes them depends on the level, and that is covered by `Logger.VLog`.
- Ini.Step: the fold (`Step`, `Run`, `ParseLines`) uses the corrected continuation rule `Ini.Continue`, not the branch as written at ini.cpp:114-119. `IniProperties.ContinuationFinding` states how the two differ. The correction treats a failing continuation like a malformed line, so after the first error it is notified as `EILSEQ`. The pair branch (ini.cpp:156-158) notifies nothing for a later failing handler call, so reading the continuation branch that way would be equally plausible.

## Findings

| source | as written | input that shows it | evidently intended | confidence | as-written member | corrected member |
|---|---|---|---|---|---|---|
| main.cpp:133-176 | every `std::string::compare` result is used as a boolean, and it is nonzero on a mismatch, so each branch runs when the strings differ | `[settings]` `logging_level=debug` is ignored with "unrecognized config section"; `[x]` `anything=info` sets TRACE | branches taken when the strings are equal | not executed | `Settings.InvertedComparisons` | `Settings.IntendedCallback` |
| main.cpp:181 | the callback returns 0 after accepting a setting, and the parser counts 0 as a handler failure | with the comparisons corrected, `[settings]` `logging_level=debug` makes `ini_parse` fail and `process_config` throw | nonzero for an accepted setting, as for the ignored ones | not executed | `Settings.CompareFixedFailsOnValidSetting` | `Settings.IntendedNeverFails` |
| ini.cpp:114-119 | the `else` of the continuation branch runs whenever the handler succeeds or an error is already recorded, and it notifies `EILSEQ` | an indented line after `a=1` whose handler call succeeds | notify only when the handler fails and an error is already recorded | not executed; the branch also contains a stray `size` token at line 115 and builds only with multi-line support switched off | `IniProperties.ContinuationFinding` | `Ini.Continue` |
