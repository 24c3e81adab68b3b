# simple-web-host: a Dafny model of the static file server

The server is a single Go program, `main.go`. It serves the files that sit
directly in one root directory. It refuses any path with a separator or a
`..`, and it serves only allowlisted extensions, `.log` never. It records
the status and byte count of every response in an hourly log file named
`YYYY-MM-DDTHH.log`. A retention sweep deletes the hourly files that are
older than seven days.

The model follows the program's parts, one module for each:

- `Strings`: the few `strings` functions the server uses (`TrimPrefix`, `Contains`, `HasPrefix`, `HasSuffix`).
- `Paths`: `sanitizePath`, with `filepath.Clean`, `Join` and `Abs` on clean absolute paths.
- `Extensions`: `filepath.Ext`, `strings.ToLower` and the two extension lists.
- `Recorder`: the `responseRecorder` class.
- `LogNames`: the hour buckets, the file name the writer formats, and Go's parse of that name.
- `Retention`: wall-clock arithmetic, the cutoff, and the `cleanupOldLogs` loop.
- `LogWriter`: `logRequest` and `currentLogFile`, over a directory modelled as a map from paths to entries.
- `Handler`: the decision chain of `handleRequest` and the method that runs it against the recorder and the log.

Things the model makes explicit:

- The served root is taken to be clean and absolute (`IsCleanAbs`). On such paths `filepath.Abs` returns its argument. `filepath.Join(root, name)` is then `root + "/" + name`, or `"/" + name` when the root is `/`.
- With the root `/`, the final prefix check looks for `//`, so every request is refused (`Paths.SlashRootRejectsEverything`). The model keeps this behaviour.
- Go's layout element `15` (the hour) reads one digit or two. So `2025-03-10T5.log` parses as 05h and can be swept, although the writer never makes such a name.
- Go checks the day against the month's length after parsing. So `2025-02-29T00.log` does not parse and is never swept.
- Time is the wall clock of the log zone, in hours since 0000-01-01T00 of the proleptic Gregorian calendar, plus nanoseconds within the hour.
- A removal that fails is reported and the loop goes on; the name is tried again on the next sweep.

## Model

| member | source | states |
|---|---|---|
| Strings.TrimPrefix | main.go:192 | one leading "/" is removed when present, and the string is unchanged otherwise |
| Strings.ContainsAt | main.go:200-207 | `strings.Contains` holds exactly when the substring occurs at some position |
| Strings.ContainsChar | main.go:200 | containing a one-character string is membership of that character |
| Strings.DotDot | main.go:205 | containing ".." is having two adjacent dots |
| Paths.JoinClean | main.go:217-218 | joining a clean absolute root and one element gives a clean absolute path whose directory is the root and whose base is the element |
| Paths.CleanName | main.go:209-210 | Clean of a separator-free name is never empty: "" and "." become ".", and any other name is kept as it is |
| Paths.Join | main.go:218 | the joined path starts with the root and ends with "/" and the name; its length is the root's, one separator and the name's, the root "/" adding no second slash |
| Paths.Sanitize | main.go:190-235 | an accepted path never lies under the root "/", and it is the root, a separator and the request's remainder after one "/", unchanged |
| Paths.SanitizeAccepts | main.go:190-235 | a path is accepted exactly when the root is not "/" and the remainder after one "/" is non-empty, not ".", free of "/" and "\\", and has no two adjacent dots |
| Paths.SanitizeContained | main.go:217-234 | an accepted path is root + "/" + the unchanged remainder; it starts with root + "/", differs from the root, and its directory is the root |
| Paths.EmptyOrDotRejected | main.go:192-197 | "", "/", "." and "/." are refused as directory access |
| Paths.SeparatorRejected | main.go:199-202 | any "/" or "\\" left after the one stripped slash is refused |
| Paths.DoubleSlashRejected | main.go:192-202 | "//x" keeps a "/" after stripping one and is refused as a subdirectory |
| Paths.TraversalRejected | main.go:199-207 | two adjacent dots anywhere in the remainder get the request refused |
| Paths.CleanCheckRedundant | main.go:212-215 | the ".." check repeated after Clean never fires |
| Paths.SlashRootRejectsEverything | main.go:220-232 | with the root "/" no request is accepted |
| Extensions.Ext | main.go:176 | the extension is "" or a suffix that starts with the last "." and holds no "/" or other "."; "" means the last element has no "." |
| Extensions.ToLower | main.go:176 | lowercasing keeps the length and leaves no ASCII capital; each ASCII capital becomes its small letter, U+0130 becomes "i", U+212A becomes "k", and every other character is kept |
| Extensions.ToLowerIdempotent | main.go:176 | lowercasing twice is lowercasing once |
| Extensions.ExtOfLower | main.go:176 | the extension of the lowercased path is the lowercased extension |
| Extensions.ExtOfChild | main.go:176 | the directory part of a joined path plays no part in its extension |
| Extensions.ExtOfDotted | main.go:176 | the extension of "base.word" is ".word" when the word has no "." or "/" |
| Extensions.ExtOfSuffix | main.go:176 | a name ending in "." and a word without "." or "/" has that suffix as its extension, whatever precedes it |
| Extensions.ToLowerAppend | main.go:176 | lowercasing a string and one more character lowercases each separately |
| Extensions.Lookup | main.go:177-184 | served exactly when in the allowlist and not in the blocklist; blocked exactly when in the blocklist |
| Extensions.CheckIgnoresCase | main.go:176-184 | a path and its lowercase form get the same decision |
| Extensions.LogAlwaysBlocked | main.go:176-180 | ".log", in any case, is blocked whatever the allowlist holds |
| Extensions.NoDotRefused | main.go:176-184 | a last element without a "." has the empty extension and is refused |
| Extensions.LogExtension | main.go:33-34 | ".log" is a well-formed extension and is in the blocklist |
| Extensions.HtmlExtension | main.go:15-16 | ".html" lowercases to itself and is allowlisted |
| Extensions.UpperLogExtension | main.go:33-34 | ".LOG" lowercases into the blocklist |
| Extensions.ExeExtension | main.go:15-35 | ".exe" lowercases to itself, which is in neither list |
| Extensions.CheckExtension | main.go:176-184 | the extension check passes exactly when the lowercased extension is allowlisted, and reports a block exactly when it is blocklisted |
| Extensions.CapitalDottedIExtension | main.go:15-26 | ".\u0130co" (capital I with a dot above) is a well-formed extension that lowercases to the allowlisted ".ico" |
| Recorder.FirstStatusWins | main.go:54-60 | once any call was made, later calls leave the recorded status as it was |
| Recorder.WriteFirstRecords200 | main.go:62-65 | a write before any header records 200 |
| Recorder.WriteAddsCount | main.go:66-67 | each write adds exactly the count the wrapped writer returned; a header adds nothing |
| Recorder.RecordedBytesAppend | main.go:67 | the byte count of two runs of calls is the sum of their counts |
| Recorder.RecordedBytesBounds | main.go:66-67 | the count lies between 0 and the number of bytes handed over |
| Recorder.OneHeaderForwarded | main.go:54-66 | the wrapped writer gets one header, the recorded one, and then only writes |
| Recorder.Writes | main.go:66 | every forwarded call after the header is a write |
| Recorder.WritesMember | main.go:66 | a call is forwarded as a write exactly when it is a write made on the recorder |
| Recorder.WritesOfWrites | main.go:66 | when only writes were made, all of them are forwarded |
| Recorder.WritesAppend | main.go:66 | writes are forwarded in the order they were made: those of a first run of calls, then those of the rest |
| Recorder.HeaderAddsNoWrite | main.go:54-60 | a header call forwards no write |
| Recorder.ResponseRecorder.constructor | main.go:130 | a fresh recorder reports 200, no header and no bytes |
| Recorder.ResponseRecorder.WriteHeader | main.go:54-60 | the first call sets the status and is forwarded; later calls change nothing |
| Recorder.ResponseRecorder.Write | main.go:62-69 | a write first sets 200 if no header was set, forwards the data, and adds and returns the count |
| LogNames.DaysIn | main.go:279 | months have 28 to 31 days; 29 exactly for February of a leap year |
| LogNames.Pad2 | main.go:255 | two digits whose value is the number |
| LogNames.Pad4 | main.go:255 | four digits whose value is the number |
| LogNames.Stamp | main.go:255 | the hour's stamp has thirteen characters, '-' at positions 4 and 7 and 'T' at position 10 |
| LogNames.StampDigits | main.go:255 | every other character of the stamp is a digit |
| LogNames.BucketName | main.go:255 | the file name is the stamp followed by ".log", seventeen characters with no "/" |
| LogNames.ReadYear | main.go:279 | the year element reads exactly when four digits come first; it gives a value in 0..9999 and leaves the text after them |
| LogNames.GetNum | main.go:279 | a number reads exactly when a digit comes first and, for a fixed-width element, a second digit follows; its value is below 100 |
| LogNames.GetNumRest | main.go:279 | the number reader consumes one or two digits and leaves the rest of the text untouched |
| LogNames.Skip | main.go:279 | a literal of the layout matches exactly when the text starts with it |
| LogNames.SkipRest | main.go:279 | a matched literal is followed by exactly what Skip leaves |
| LogNames.ParseBucket | main.go:279 | whatever parses is a valid calendar hour |
| LogNames.ParseBucketName | main.go:253-282 | parsing the name formatted for an hour gives back that hour |
| LogNames.ParseFields | main.go:253-282 | fields written in the layout's widths parse back exactly when they form a valid hour, with a one- or two-digit hour |
| LogNames.ParsedNameShape | main.go:279 | every parsed name is the writer's name for its hour, or that name with a one-digit hour |
| LogNames.ParsedNameEndsInLog | main.go:274-282 | every name that parses ends in ".log" |
| LogNames.ExampleName | main.go:255 | the name of 2025-03-10, 14h is "2025-03-10T14.log" |
| LogNames.LeapDayName | main.go:279 | "2024-02-29T00.log" parses |
| LogNames.NonLeapDayName | main.go:279 | "2025-02-29T00.log" does not parse |
| LogNames.OneDigitHourName | main.go:279 | "2025-03-10T5.log" parses as 05h |
| LogNames.HourOutOfRangeName | main.go:279 | "2025-03-10T24.log" does not parse |
| Retention.NextHour | main.go:266 | the hour after a valid hour is valid; it has no counterpart in the source and serves only to check the hour numbering that the retention arithmetic rests on (with NextHourNumber) |
| Retention.YearLength | main.go:266 | the months of a year add up to 366 days in a leap year and 365 otherwise |
| Retention.NextHourNumber | main.go:266 | consecutive calendar hours have consecutive numbers |
| Retention.Cutoff | main.go:266 | the cutoff lies exactly the retention window before now, and not after now for a non-negative window |
| Retention.ExpiredInHours | main.go:266-284 | "before the cutoff" in whole hours: more than the retention window older than the current hour, or exactly that much once the hour has begun |
| Retention.CurrentBucketNotExpired | main.go:266-284 | with a window of an hour or more, the current hour never expires |
| Retention.CleanupOldLogs | main.go:259-293 | a failed listing removes nothing; otherwise the names tried are the selected ones, in listing order and whichever removals fail, and the removed ones are those whose removal succeeded |
| Retention.SelectedExactly | main.go:268-291 | a name is tried exactly when an entry of that name is not a directory, ends in ".log", parses, and lies before the cutoff |
| Retention.Untouched | main.go:268-282 | directories, names without ".log", names that do not parse, and recent hours are never tried |
| Retention.SucceededExactly | main.go:286-290 | a name is removed exactly when it was tried and its removal succeeded |
| Retention.RemainingExactly | main.go:286 | an entry remains exactly when its name was not removed |
| Retention.SecondSweep | main.go:259-293 | a second sweep with the same now tries only names whose removal failed |
| Retention.SweepIdempotent | main.go:259-293 | once the selected names are gone, a second sweep with the same now selects nothing |
| Retention.CurrentFileKept | main.go:253-291 | the file of the current hour is never swept |
| LogWriter.BucketNameIsElement | main.go:255-256 | an hour's file name is a single path element |
| LogWriter.CurrentLogFile | main.go:253-257 | the log file lies directly in the log directory, and its name parses back to the current hour |
| LogWriter.BucketNameInjective | main.go:255 | two hours have the same file name exactly when they are the same hour |
| LogWriter.SameFileIffSameHour | main.go:237-257 | two entries go to the same file exactly when they are written in the same hour |
| LogWriter.AppendEntry | main.go:240-250 | the entry becomes the last line of its file, a missing file is created, and every other file is unchanged |
| LogWriter.CreateIfMissing | main.go:240 | opening with O_CREATE makes the name exist, empty if it was missing, and leaves every file as it was |
| LogWriter.LogDirectory.LogRequest | main.go:237-251 | if the current hour's file does not open, nothing changes; if it opens and encoding fails, the file exists and holds what it held; if the entry is written, it becomes the last line of that file |
| Handler.ServedFilesAreSafe | main.go:146-187 | a served file was asked for by GET or HEAD, is the root plus "/" plus the request name, is not a directory, and has an allowlisted, unblocked extension |
| Handler.ServedIff | main.go:146-187 | a request is served exactly when it is GET or HEAD, the root is not "/", the name is acceptable, the joined path is not a directory, and its lowercased extension is allowlisted |
| Handler.Decide | main.go:146-187 | a file is handed to http.ServeFile only for GET or HEAD, only as the sanitiser's path, only when os.Stat finds no directory there and its extension check passes |
| Handler.DecideFile | main.go:159-187 | on a sanitised path, the path itself is served exactly when it is no directory and its extension passes; exactly the other non-directories are refused for their extension, with the check's decision |
| Handler.ErrorStatus | main.go:147-183 | every refusal has a 4xx or 5xx status, 5xx exactly when os.Stat failed otherwise than with not-exist, and 403 exactly for a refused path, a directory or a refused extension |
| Handler.ErrorText | main.go:148-182 | each refusal's message is the standard reason phrase of its status, never empty |
| Handler.ResponseCalls | main.go:148-187 | a served file makes the calls of http.ServeFile; a refusal makes two calls, the status of its outcome and one write of its message with a newline |
| Handler.StatusTable | main.go:146-184 | 405 exactly for other methods; 404 exactly for a missing file; 500 exactly for another stat error; 403 exactly for a refused path, a directory, or a refused extension |
| Handler.MissingIsNotFound | main.go:159-168 | a missing file is 404, whatever its extension |
| Handler.RefusalsLookAlike | main.go:152-184 | every policy refusal answers 403 "Forbidden" |
| Handler.SanitizedExt | main.go:176 | the sanitised path has the request path's extension |
| Handler.RefusedExtensionNotServed | main.go:175-184 | anything but a directory whose extension the policy refuses is refused for it and not served |
| Handler.LogFilesNeverServed | main.go:176-180 | a request for a name ending in ".log" is never served |
| Handler.HourFilesNeverServed | main.go:176-180 | the hourly log files are never served, even when the log directory is the root |
| Handler.DefaultRootIsClean | main.go:80 | the default root "/var/www" is clean and absolute |
| Handler.NameAccepted | main.go:190-234 | "/" + an acceptable name resolves to root + "/" + name, which has the name's extension |
| Handler.NameDecided | main.go:146-187 | for a GET or HEAD of an acceptable name only the stat and extension checks remain |
| Handler.HtmlServed | main.go:146-187 | GET of an existing non-directory whose name ends in ".html", such as "/about.html", is handed to http.ServeFile |
| Handler.CapitalDottedIServed | main.go:146-187 | GET of an existing non-directory whose extension is ".\u0130co" is handed to http.ServeFile, as its lowercased extension is ".ico" |
| Handler.PostExample | main.go:146-150 | POST and DELETE are 405 before the path is looked at |
| Handler.TraversalExample | main.go:199-202 | "/../etc/passwd" is refused for its separator |
| Handler.UpperLogRefused | main.go:176-180 | an existing file whose name ends in ".LOG", such as "/App.LOG", is refused by the blocklist |
| Handler.MissingExeNotFound | main.go:159-184 | a missing file whose name ends in ".exe", such as "/gone.exe", is 404 for HEAD, although the extension check would refuse ".exe" |
| Handler.ErrorBody | main.go:148 | the error body is one byte per character of the message, the character's code modulo 256, followed by a newline |
| Handler.ErrorRecorded | main.go:148-184 | after an error response the recorder holds the error's status and the count the writer took for its message |
| Handler.Error | main.go:148 | http.Error on the recorder: the status, then the message |
| Handler.Refuse | main.go:148-184 | a refusal makes exactly the status and message calls of its outcome |
| Handler.Replay | main.go:187 | the calls of http.ServeFile reach the recorder in order |
| Handler.Respond | main.go:146-187 | the outcome is the decision chain's, and the recorder holds exactly the calls for that outcome |
| Handler.RespondFile | main.go:159-187 | the stat, directory and extension checks and their refusals, then the file |
| Handler.HandleRequest | main.go:125-188 | the outcome is the decision chain's; one log entry carries the method, path, recorded status and byte count; an error entry has that error's status; a served entry has the file server's status and count; the log directory then changes as LogRequest states for the way the write ended |

## Left out

- `main`, `getEnv` and `init`: they read the environment, set up the mux, listen on the network and set the umask.
- `http.ServeFile` is a library call. Its effect is the sequence of calls it makes on the recorder, taken as an input. Range requests, HEAD bodies and content types are not modelled. Nor is its redirect: a request path ending in "/index.html" is redirected to "./", and that request is then refused as directory access, so a file called `index.html` is handed to http.ServeFile but never served with its contents.
- Containment is a property of the path string only. `os.Stat` and `http.ServeFile` follow symbolic links, so a link in the root pointing elsewhere is served from wherever it points. The stat result `NotDirectory` stands for whatever `os.Stat` reports that is not a directory, the target of a link included.
- `http.Error` headers (Content-Type, X-Content-Type-Options, the cleared Content-Length) are not modelled; only its status and body are.
- The wrapped `http.ResponseWriter` is a sink. It reports how many bytes each write took, and that number is an input. Write errors are not modelled.
- `os.Stat`, `os.OpenFile`, `os.ReadDir` and `os.Remove` are inputs: a stat result, how the log write ended, a listing or its failure, and which removals succeed.
- The JSON encoding of an entry, its RFC 3339 timestamp and its floating-point duration are left out. The log entry holds the method, path, status and byte count.
- `time.Now`, `time.LoadLocation`, the fixed-offset fallback and daylight saving time are left out. `now` is an input on a wall clock without DST.
- `periodicCleanup` is left out because it is a goroutine driven by a ticker. The sweep it runs is `Retention.CleanupOldLogs`.
- `filepath.Abs` depends on the working directory, and its error branch is not modelled. The root is assumed clean and absolute.
- `LogWriter.CurrentLogFile`: the log directory is required to be clean and absolute, as the served root is, because `filepath.Join` cleans its result and cleaning is modelled only for such paths. `LogWriter.SameFileIffSameHour`, `LogWriter.LogDirectory.LogRequest` and `Handler.HandleRequest` carry the same requirement. A relative or unclean log directory, such as one given as "./logs", is not covered; the default "/var/log/app" is clean and absolute.
- `LogWriter.LogDirectory.LogRequest`: when encoding or the write fails after the file was opened, the model creates the file if it was missing and adds nothing to it. A write that fails part of the way through can leave a partial line in the file; the model does not capture that.
- `Extensions.ToLower`: models ASCII letters, U+0130 (to "i") and U+212A KELVIN SIGN (to "k"), the only characters whose lower case is an ASCII letter, so the lowercased extension is in either list exactly when Go's is. Other non-ASCII letters are kept as they are, while Go lowers them too; this changes no decision, as every listed extension is ASCII.
- `Recorder.ResponseRecorder.Write`: `bytesWritten` is an unbounded integer here. The source's `int64` could overflow only after 2^63 bytes.
- `LogNames.ParseBucket`: years are limited to 0..9999, the years the four-digit layout element "2006" prints in exactly four digits.
- `Retention.CleanupOldLogs`: the path handed to `os.Remove` is the log directory joined with the name; the model names the removed file by its name alone.
