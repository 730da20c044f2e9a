# RustScan Go bindings: a Dafny model of the scan core

This project models the core of a set of Go bindings for the RustScan port scanner.
The model covers four parts:

- **The command line a scanner builds.** Each option appends arguments to the scanner. The ports option merges its comma-joined list into an existing "-p" argument, or appends its own flag and list. Running a fresh scan adds the XML-to-stdout triad unless "--resume" is present.
- **One scan run, as a method.** It reads stdout in 1024-byte buffers and counts the reads that hold "Open ". It aborts with the CDN error when that count exceeds the caller's limit. It then either times out or goes on: stderr becomes warnings, a "Malloc Failed!" warning is fatal, and the XML payload is chosen from the "[~]" sections of the output. The parse result and the report's own error message then decide the outcome. On success the port filter runs first and the host filter second.
- **The result filters.** They rewrite the report object in place and keep the order of what they keep.
- **The synthesised report.** When no port is open, the run uses a fixed nmap XML document. It has four placeholder slots: two host addresses, the scan comment and the args attribute. Each holds "rustscan_info", which is then replaced by the fixed host "www.baidu.com".

The files are:

- `wrappers.dfy`: Option and Result.
- `text.dfy`: the Go string operations the core uses (`Split`, `Join`, `Trim`, `ReplaceAll`, `Contains`, `fmt.Sprint` of an int) and their laws.
- `sequences.dfy`: order-keeping filters and first-index search.
- `errors.dfy`: the error values.
- `report.dfy`: the report and its two filters.
- `pipeline.dfy`: the steps of a run that only compute.
- `scanner.dfy`: the options, the scanner class, `NewScanner`, `AddOptions` and `Run`.

Where the code keeps state it is modelled with state:

- The scanner is a class with the fields the options and `Run` use: `args`, `binaryPath`, `ctx`, `portFilter` and `hostFilter`.
- The value captured by each ports option is a class with a mutable `portList`. When a "-p" is present, re-applying the same option value therefore merges its already merged list again, as the Go closure does.
- The report object is a class whose `Hosts` the filters overwrite.
- The read loop, the section loop, the filters and the option loop are methods with loops. Each is proved against a function that specifies it.

Options are also given a value semantics: `Step` and `Replay` apply options to a `Configured` value. `AddOptions` is proved to end in exactly the state `Replay` gives. `NewScanner` is proved to end in `Replay`'s state with the path and context defaults applied.

The model keeps these behaviours of the code:

- The CDN test runs once, after the read loop has ended.
- The count is of reads whose buffer holds "Open ". A read holding several notices counts once.
- The payload is the last "[~]" section that holds "<?xml " or the no-open-ports notice. An XML section loses its first byte.
- The filters overwrite the hosts of the report object they are given.
- The synthesised report's host is the fixed "www.baidu.com". Its elapsed time is 0.25 seconds.

Go strings are byte strings. In the model a string is a `seq<char>`, and each `char` stands for one byte. This matters for the 1024-byte read buffer and for dropping the first byte of an XML section.

## Model

| member | source | states |
|---|---|---|
| Pipeline.FilledTemplate | rustscan.go:424 | Whatever text surrounds the four placeholder slots, replacing the placeholder leaves none behind and puts the fixed host in |
| Pipeline.FilledTemplateExactly | rustscan.go:424 | When the text around the four slots holds no placeholder, replacing puts the fixed host in exactly those slots and changes nothing else |
| Pipeline.TemplateFilled | rustscan.go:398-427 | The template with its four slots filled by the placeholder, after replacing, holds no "rustscan_info" and names "www.baidu.com" |
| Pipeline.Structure | rustscan.go:398-427 | The synthesised report holds no "rustscan_info" and names "www.baidu.com" |
| Pipeline.StructureFilled | rustscan.go:398-427 | When the text around the slots holds no "rustscan_info" of its own, the synthesised report is the template with "www.baidu.com" in each of the four slots |
| Pipeline.Buffer | rustscan.go:107-109 | Every read contributes a whole 1024-byte buffer, however few bytes it read |
| Pipeline.BufferKeepsMarker | rustscan.go:107-110 | The zero padding of a read buffer neither creates nor hides an "Open " notice |
| Pipeline.OpenCount | rustscan.go:104-116 | The counter never exceeds the number of reads, the last read (the one that returned the error) included |
| Pipeline.OpenCountCountsReads | rustscan.go:104-116 | The counter is the number of reads whose data holds "Open "; a read with several notices counts once |
| Pipeline.Accumulated | rustscan.go:102-116 | The accumulated output is 1024 bytes per read |
| Pipeline.DrainStdout | rustscan.go:102-116 | The read loop, stopping after the read that fails, leaves the reads-with-a-notice count and the concatenated buffers |
| Pipeline.Warnings | rustscan.go:143-145 | Empty stderr gives no warnings; otherwise the warnings are non-empty, none holds a newline, and joined with newlines they give stderr trimmed of newlines |
| Pipeline.AnalyzeWarnings | rustscan.go:248-259 | The out-of-memory error exactly when some warning holds "Malloc Failed!", and nothing otherwise (so nothing for no warnings) |
| Pipeline.AnalyzeWarningsOrderFree | rustscan.go:248-259 | Reordering the warnings does not change the verdict |
| Pipeline.MallocFoundAnywhere | rustscan.go:143-150 | From raw stderr: the out-of-memory error exactly when "Malloc Failed!" occurs anywhere in it |
| Pipeline.Extract | rustscan.go:158-161 | A section with "<?xml " gives itself without its first byte, and keeps the declaration unless it starts the section; a section with only the notice gives the synthesised report |
| Pipeline.Payload | rustscan.go:155-164 | The payload is empty or what some matching section gives |
| Pipeline.PayloadIsLastMatch | rustscan.go:155-164 | The last section holding "<?xml " or the notice decides the payload: an XML section (at least 6 bytes long) without its first byte, XML checked first, else the synthesised report |
| Pipeline.PayloadWithoutMatch | rustscan.go:155-164 | With no matching section the payload is empty |
| Pipeline.Selected | rustscan.go:155-164 | Output without "<?xml " gives the synthesised report or nothing; output with neither "<?xml " nor the notice gives nothing |
| Pipeline.PayloadFromOutput | rustscan.go:155-164 | A section holds what the whole output holds, so the same two facts hold for any synthesised report |
| Pipeline.SelectPayload | rustscan.go:155-164 | The section loop leaves the payload of the sections of the output split at "[~]" |
| Report.NmapRun.constructor | rustscan.go:166 | The report object holds the decoded hosts and statistics |
| Report.PortsFiltered | rustscan.go:232-246 | Port filtering keeps the number and order of hosts and gives each host its accepted ports in order |
| Report.PortsFilteredKeepsAll | rustscan.go:232-246 | A port filter accepting everything leaves every host unchanged |
| Report.PortsFilteredDropsAll | rustscan.go:232-246 | A port filter accepting nothing leaves every host with no ports |
| Report.ChooseHosts | rustscan.go:218-230 | The same report object now holds the accepted hosts in order; its statistics are unchanged |
| Report.ChoosePorts | rustscan.go:232-246 | The same report object now holds each host with its accepted ports; its statistics are unchanged |
| Sequences.Filter | rustscan.go:219-225 | Filtering keeps only accepted elements of the input and never lengthens it |
| Sequences.FilterAppend | rustscan.go:219-225 | Filtering distributes over concatenation, which is what keeping the order means |
| Sequences.FilterKeepsAll | rustscan.go:219-225 | A filter accepting every element returns the sequence unchanged |
| Sequences.FilterKeepsAccepted | rustscan.go:219-225 | Every accepted element survives the filter |
| Sequences.FilterDropsAll | rustscan.go:219-225 | A filter accepting no element returns nothing |
| Sequences.FilterIdempotent | rustscan.go:219-225 | Filtering a second time with the same predicate changes nothing |
| Sequences.KeepMatching | rustscan.go:219-225 | The append loop builds the filtered sequence |
| Sequences.FirstIndex | rustscan.go:336-342 | The index found holds "-p" with none before it, and -1 means there is none |
| Sequences.FirstIndexAt | rustscan.go:336-342 | An occurrence with none before it is the one the search finds |
| Sequences.IndexOf | rustscan.go:336-342 | The loop that breaks at the first "-p" finds the first index |
| Sequences.Occurs | rustscan.go:74-79 | The resume loop reports true exactly when "--resume" is among the arguments |
| Text.Contains | rustscan.go:110 | The empty pattern is in every text, and a pattern longer than the text is in none |
| Text.ContainsDropFirst | rustscan.go:159 | Dropping the first byte keeps every occurrence that does not start there |
| Text.Split | rustscan.go:144 | A split has at least one piece, and its first piece is a prefix of the text |
| Text.Join | rustscan.go:325 | A join of at least one part starts with the first part |
| Text.Trim | rustscan.go:144 | Trimming never lengthens; a non-empty result neither starts nor ends with the trimmed byte; the result is empty exactly when the text is only that byte |
| Text.TrimLeft | rustscan.go:144 | The result is a suffix of the text, and everything cut off is the trimmed byte |
| Text.TrimRight | rustscan.go:144 | The result is a prefix of the text, and everything cut off is the trimmed byte |
| Text.ContainsAround | rustscan.go:144 | Text free of the separator's bytes occurs in two pieces glued by the separator exactly when it occurs in one of them |
| Text.JoinSplit | rustscan.go:144 | Joining the pieces of a split with the separator gives the text back |
| Text.SplitPartsFree | rustscan.go:144 | No piece of a split holds the separator |
| Text.ContainsJoin | rustscan.go:144 | A non-empty text sharing no byte with a non-empty separator occurs in a join exactly when it occurs in one of the parts |
| Text.ContainsTrim | rustscan.go:144 | Trimming a character never removes text that does not hold it |
| Text.SplitAtChar | rustscan.go:346 | Splitting a text glued with a comma gives the pieces of each side in order |
| Text.SplitWithoutChar | rustscan.go:325 | A text without the separator character is a single piece |
| Text.SplitJoin | rustscan.go:325 | Comma-free ports joined with commas split back into the same ports |
| Text.CharInJoin | rustscan.go:325-332 | A character is in a join exactly when it is in a part, or there are two or more parts and it is in the separator |
| Text.ReplaceAll | rustscan.go:424 | Text without the pattern is returned unchanged |
| Text.ReplaceAllAtFirst | rustscan.go:424 | The first occurrence of the pattern is replaced, and what comes before it is kept |
| Text.ReplaceAllSlots | rustscan.go:424 | Four occurrences of a pattern that cannot overlap itself, between pieces that do not hold it, are each replaced and nothing else changes |
| Text.ReplaceAllClears | rustscan.go:424 | When the replacement cannot make the pattern, no pattern is left after replacing |
| Text.ReplaceAllInserts | rustscan.go:424 | When the pattern occurs, the replacement appears in the result |
| Text.Decimal | rustscan.go:362 | fmt.Sprint of an int is non-empty, starts with a minus sign exactly for negatives, and is digits after that |
| Text.DigitsRoundTrip | rustscan.go:362 | The decimal digits of a natural number read back as that number |
| Text.DecimalRoundTrip | rustscan.go:362 | fmt.Sprint of an int is non-empty, is digits after an optional minus sign present exactly for negatives, and reads back as the int |
| RustScan.FlagFor | rustscan.go:325-332 | The flag is "-p" exactly when the joined list holds a comma, else "-r" |
| RustScan.PortFlagChoice | rustscan.go:325-332 | Given the ports one by one, "-p" exactly when there are two or more or one already holds a comma |
| RustScan.PortsOption.constructor | rustscan.go:324-332 | The option captures the comma-joined list and the flag that list calls for |
| RustScan.NumericOptionReadsBack | rustscan.go:356-390 | Batch size, timeout and ulimit append exactly their flag and a number that reads back as the value given |
| RustScan.Configure | rustscan.go:262-390 | Every option other than ports keeps the arguments already given at the front; the context, path and filter options add none and set exactly their own field; every other field is unchanged |
| RustScan.MergePorts | rustscan.go:334-353 | The ports option panics exactly when the first "-p" is the last argument |
| RustScan.MergeKeepsEarlierPorts | rustscan.go:345-347 | Merging changes only the argument after the first "-p", keeps the length, and that argument's ports are the old ones followed by the option's |
| RustScan.MergeAppendsFresh | rustscan.go:348-351 | Without a "-p" the option's flag and list are appended after the untouched arguments |
| RustScan.PortListFollowsFlag | rustscan.go:345-351 | After a "-p" option is applied, its captured list is the argument right after the first "-p" |
| RustScan.ReapplyDoublesPorts | rustscan.go:346-347 | Applying the same "-p" option value twice merges its merged list into itself: the ports come out twice |
| RustScan.ReapplyRangeAppendsTwice | rustscan.go:348-351 | Applying the same "-r" option value twice with no "-p" appends flag and list twice |
| RustScan.Step | rustscan.go:46-48 | Applying an option tracks the same captured cells |
| RustScan.Replay | rustscan.go:46-48 | Applying options in order tracks the same captured cells |
| RustScan.ReplayConcat | rustscan.go:212-216 | Applying options in two batches is applying their concatenation |
| RustScan.PanicIsFinal | rustscan.go:46-48 | Once an option panics, the options after it are never applied |
| RustScan.ReplayWithoutPorts | rustscan.go:261-390 | Options without a ports option never panic, never rewrite an existing argument, and leave the captured lists alone |
| RustScan.FilteredHosts | rustscan.go:183-189 | No host is added, none is dropped without a host filter, every host returned passes the host filter and each of its ports the port filter |
| RustScan.HostFilterSeesFilteredPorts | rustscan.go:183-189 | The host filter runs after the port filter: a port filter that drops all ports and a host filter that wants a port leave no host |
| RustScan.Invocation | rustscan.go:72-87 | The process gets the scanner's arguments as a prefix, plus exactly "--", "-oX", "-" when "--resume" is absent, and nothing more when it is present |
| RustScan.ClassifyReportError | rustscan.go:172-181 | The name-resolution error exactly when the message holds "Error resolving name", otherwise an error carrying the message |
| RustScan.Scanner.constructor | rustscan.go:44 | A new scanner has no arguments, no path, no context and no filters |
| RustScan.Scanner.Apply | rustscan.go:261-390 | Each option changes the scanner as its Go closure does; a ports option that panics changes nothing |
| RustScan.Scanner.AddOptions | rustscan.go:211-216 | The options applied in order leave exactly the state the value semantics gives, and it panics exactly when that does |
| RustScan.Scanner.Run | rustscan.go:66-194 | The early returns in the source's order (start failure, CDN abort after the loop, timeout, out-of-memory warning, parse failure with its text appended to the warnings, report error unfiltered), else the report with ports then hosts filtered |
| RustScan.NewScanner | rustscan.go:42-63 | Options applied to a zero scanner; with no path and none found the not-installed error; else the looked-up path when none was given and the background context when none was set |

## Left out

- Process I/O becomes inputs to `Run`. These are the start error, the data of each stdout read (the reads without an error, then the one that returned it) and the stderr text. Killing the process and the goroutine that waits for it are not modelled.
- The select race between the context and the process exit is the input `WaitArm`. The background context is never done, so `Run` requires a cancellable context when that arm is chosen.
- RustScan.Scanner.Run: requires a context on the paths that reach the select, that is, with no start error and the count within the limit. There a nil context would make Go's select panic; `NewScanner` always sets one.
- RustScan.Scanner.Run: requires each read to return at most 1024 bytes, which is what reading into a 1024-byte buffer guarantees.
- The XML decoder `Parse` is a foreign call. It is the parameter `parse`, which returns the decoded report or an error text. The report keeps only the fields the bindings read. The elapsed time (floating point) and the other XML attributes are left out.
- `exec.LookPath` is a host lookup. It is the parameter `lookPath` of `NewScanner`. `context.Background` is the `Background` context value.
- RustScan.ClassifyReportError: `fmt.Errorf` treats the report's message as a format string. The model keeps the message verbatim in `ScanFailed`, so verbs such as "%d" in a message are not expanded.
- The accessors `Wait`, `GetStdout`, `GetStderr` and `Args` are not modelled, nor are the struct fields `cmd`, `stdout` and `stderr` they read. They only return fields, and `Wait` uses the `cmd` field, which is never set.
- Go slice aliasing is not modelled. The arguments `Run` passes to the process are a new sequence, so the spare capacity that Go's `append` can share with `s.args` is not represented.
- A panic in a ports option is an outcome: `Apply` returns `panicked` and changes nothing, and `AddOptions` and `NewScanner` stop there. What a caller recovering from the panic would see is not modelled.
- Pipeline.Extract and Pipeline.Payload: they take the synthesised report as a parameter instead of calling `Structure` themselves. `Selected` and `SelectPayload` pass `Structure()`, so the payload `Run` parses is the one the source chooses.
- Pipeline.StructureFilled: the equality with the filled template is proved only under the hypothesis that the fixed template text around the four slots holds no "rustscan_info". The text is a constant of about 1.3 kB, and checking it byte by byte is beyond what the solver does at a reasonable cost. `Structure` itself is proved free of "rustscan_info" and to name "www.baidu.com" without that hypothesis.
- A nil argument to `WithContext`, `WithFilterPort` or `WithFilterHost` is the option's `None` payload. A nil filter switches that filter off. A nil context leaves the scanner without one, and `Run` requires a context.
- The two demo programs of the repository are not modelled. They print results, and one calls functions that the bindings do not define.
