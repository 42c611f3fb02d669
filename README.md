# `.li` domain scanner — a Dafny model of its core

`li-domain-checker` looks for unregistered short `.li` domain names. It
builds a list of candidate labels. In the default mode these are every
admissible label of 1 to 3 characters, followed by the 4-character labels
made of at most two different symbols ("repeat patterns"). In full-scan
mode they are every admissible label of 1 to 4 characters. The scanner
then sends `<label>.li\n` to the registry's whois service for each
candidate, reads the reply `<code>:<message>`, and classifies the code.
It records one result per label and keeps the set of domains found
available.

This project models the deterministic part of that program, `src/main.rs`:

- **`Status`**: the `DomainStatus` enum, `from_reply_code` and `as_str`.
- **`Labels`**: `is_valid_domain` and the Rust string primitives it is
  written with. This includes `str::len`, which counts UTF-8 bytes, not
  characters.
- **`Reply`**: the reading of a registry reply.
  - Rust's `str::trim` is modelled over the full Unicode White_Space set,
    as Rust defines it.
  - `str::split_once` and `i32::from_str` are modelled too.
  - Unparseable codes fall back to the sentinel -99.
- **`Alphabet`**: the two alphabets. The symbols are `a`-`z`, or `a`-`z`
  and `0`-`9`. `generate_domains` also uses the hyphen.
- **`Generator`**: `generate_domains`.
  - Length 1 is a plain loop.
  - Lengths 2 to 4 use a depth-first search over an explicit stack. It
    pops the last entry, emits a full-length entry when it passes the
    filter, and otherwise pushes one extension per character. It never
    appends a hyphen after a hyphen.
  - `Dfs` gives the exact output order of that search. `SearchLabels` is
    the stack loop, proved equal to it.
- **`RepeatPatterns`**: `generate_repeat_pattern_domains`. It lists three
  groups: four equal characters, three plus one in four arrangements, and
  two plus two in three arrangements.
- **`Scanner`**: the candidate assembly of `run` and the record that
  `query_domain_check` builds from a reply. The class `LiDomainScanner`
  holds the shared `available_domains` set and the `results` log.
  - `scan_domains` runs the queries one after another.
  - The registry is a parameter, `Registry`. It is a function from the
    dispatch index and the query line to the reply text.

The imperative parts of the source stay imperative: the generators' loops,
the stack search and the scanner's state updates. Each method is proved
equal to a specification function, and the properties are proved as
lemmas about those functions.

## Model

| member | source | states |
|---|---|---|
| `Status.FromReplyCode` | src/main.rs:65-72 | total table: Available exactly for code 1, Registered exactly for 0, RateLimited exactly for -95, Error exactly for every other `i32` |
| `Status.AsStr` | src/main.rs:74-81 | every status has a non-empty name |
| `Status.AsStrInjective` | src/main.rs:74-81 | two statuses with the same name are the same status |
| `Status.SentinelIsError` | src/main.rs:141-145 | the fallback code -99 is classified as Error |
| `Labels.Utf8Width` | src/main.rs:116 | a character takes 1 to 4 bytes, 1 exactly when it is ASCII |
| `Labels.Utf8Len` | src/main.rs:116 | the byte length is at least the character count, and equal to it exactly for ASCII strings |
| `Labels.ContainsDoubleHyphen` | src/main.rs:119 | `contains("--")` holds exactly when two adjacent positions both hold `-` |
| `Labels.ValidDomainIff` | src/main.rs:115-123 | `is_valid_domain` holds exactly for 1 to 4 characters, first and last not `-`, no adjacent hyphens, each character an ASCII letter, digit or `-` |
| `Labels.HyphenPairInvalid` | src/main.rs:119 | a string with adjacent hyphens is rejected |
| `Reply.TrimStartFacts` | src/main.rs:138 | `trim_start` keeps a suffix, drops only whitespace and leaves no leading whitespace |
| `Reply.TrimEndFacts` | src/main.rs:138 | `trim_end` keeps a prefix, drops only whitespace and leaves no trailing whitespace |
| `Reply.TrimFacts` | src/main.rs:138 | the trim is a middle slice with only whitespace cut at both ends, and no whitespace at its ends |
| `Reply.TrimOfTrimmed` | src/main.rs:138 | trimming a string with no whitespace at its ends leaves it unchanged |
| `Reply.TrimIdempotent` | src/main.rs:138-141 | trimming twice (the message is trimmed again) equals trimming once |
| `Reply.SplitOnceFacts` | src/main.rs:140 | `split_once(':')` is None exactly when there is no `:`, otherwise it cuts at a `:` with none before it |
| `Reply.SplitUnique` | src/main.rs:140 | the cut at the first separator is the only cut whose left part has no separator |
| `Reply.NatDigitsValue` | src/main.rs:141 | the decimal digits of `n` read back as `n` |
| `Reply.ParseShowI32` | src/main.rs:141 | `parse::<i32>` of a printed `i32` gives that number back |
| `Reply.ParseI32Accepts` | src/main.rs:141 | a successful parse saw an optional sign followed by digits only, so it accepts no surrounding whitespace |
| `Reply.ParseReplyNoColon` | src/main.rs:138-142 | a trimmed reply without `:` yields code -99 with the whole trimmed reply as message, and is classified Error |
| `Reply.ParseReplyTrimmedNoColon` | src/main.rs:138-142 | the same for a reply that is already trimmed: (-99, reply) |
| `Reply.ParseReplyFirstColon` | src/main.rs:140-141 | with a `:`, the code is the text before the first one parsed as `i32` (or -99), the message the trimmed text after it |
| `Reply.ParseFormatReply` | src/main.rs:138-143 | reading `<code>:<message>` gives back the code and message, for any `i32` code and any message without whitespace at its ends, further colons included |
| `Reply.ParseReplyCodeSource` | src/main.rs:140-142 | a code other than -99 only comes from a reply that contains `:` |
| `Reply.GarbageReply` | src/main.rs:142 | `"garbage"` reads as (-99, `"garbage"`) |
| `Reply.OkReply` | src/main.rs:141 | `"1:ok"` reads as (1, `"ok"`) |
| `Reply.TakenReply` | src/main.rs:141 | `"0:taken"` reads as (0, `"taken"`) |
| `Reply.RateLimitedReply` | src/main.rs:141 | `"-95:slow"` reads as (-95, `"slow"`) |
| `Alphabet.AlphabetLiterals` | src/main.rs:163-166 | the letters are `"abcdefghijklmnopqrstuvwxyz"` and the digits `"0123456789"`, as spelled in the source |
| `Alphabet.SymbolsFacts` | src/main.rs:209-212 | the repeat-pattern alphabet has 26 or 36 symbols, all distinct, none `-`, all ASCII letters or digits |
| `Alphabet.CharsFacts` | src/main.rs:163-166 | the `generate_domains` alphabet is the symbols plus `-`, all distinct and all admitted by the filter |
| `Alphabet.SymbolStringIsValid` | src/main.rs:115-123 | any string of 1 to 4 symbols passes `is_valid_domain` |
| `Generator.PushExtensions` | src/main.rs:193-198 | the inner loop pushes the extension by each character in alphabet order, leaving out a hyphen after a hyphen |
| `Generator.SingleCharacters` | src/main.rs:177-183 | the length-1 arm lists each non-hyphen character as a one-character label, in alphabet order |
| `Generator.SearchStep` | src/main.rs:193-198 | replacing a short popped entry by its extensions keeps the output still owed and lowers the termination measure |
| `Generator.EmitStep` | src/main.rs:187-191 | emitting a full-length entry when it passes the filter accounts exactly for that entry's output |
| `Generator.SearchPass` | src/main.rs:186-198 | one pass of the `while let` loop moves output from the stack to `domains` without loss or gain, and the measure drops |
| `Generator.SearchLabels` | src/main.rs:184-199 | the stack search returns exactly `Dfs` from the empty prefix, in the same order |
| `Generator.GenerateDomains` | src/main.rs:162-205 | `generate_domains` returns the single characters for length 1, the search for lengths 2 to 4, nothing otherwise |
| `Generator.DfsSound` | src/main.rs:184-199 | every emitted string has the requested length, extends the popped prefix, uses only alphabet characters and passes the filter |
| `Generator.DfsComplete` | src/main.rs:184-199 | every full-length extension over the alphabet that passes the filter is emitted |
| `Generator.DfsDistinct` | src/main.rs:184-199 | over an alphabet without repeats no label is emitted twice |
| `Generator.PruningIsSound` | src/main.rs:194 | the hyphen cut discards only strings the final filter rejects: the output with and without it is identical |
| `Generator.GeneratedFacts` | src/main.rs:162-205 | for length 1 to 4, a string is returned exactly when it has that length, is over the alphabet and passes the filter; no duplicates |
| `Generator.SingleCharacterFacts` | src/main.rs:176-183 | length 1 returns exactly the admissible one-character labels, each once |
| `Generator.SingleCharacterCount` | src/main.rs:176-183 | length 1 returns 26 labels letters-only and 36 otherwise, none `-` |
| `RepeatPatterns.AllSameLoop` | src/main.rs:217-219 | the first loop lists `cccc` for each symbol, in order |
| `RepeatPatterns.ThreeOneRow` | src/main.rs:223-232 | the inner loop appends the four three-plus-one labels of `c1` and each different `c2`, in order |
| `RepeatPatterns.ThreeOneLoop` | src/main.rs:222-233 | the first pair loop appends the rows of every symbol as `c1` |
| `RepeatPatterns.TwoTwoRow` | src/main.rs:237-245 | the inner loop appends the three two-plus-two labels of `c1` and each different `c2`, in order |
| `RepeatPatterns.TwoTwoLoop` | src/main.rs:236-246 | the second pair loop appends the rows of every symbol as `c1` |
| `RepeatPatterns.GenerateRepeatPatternDomains` | src/main.rs:208-249 | the generator returns the three groups in order over the hyphen-free symbols |
| `RepeatPatterns.RowsStep` | src/main.rs:222-246 | appending one row extends the list by one outer-loop iteration |
| `RepeatPatterns.PatternShape` | src/main.rs:225-243 | a pattern label has 4 characters from its pair and at most two different ones; its group and pair can be read back from it |
| `RepeatPatterns.PatternDistinct` | src/main.rs:225-243 | the arrangements of one pair are pairwise different |
| `RepeatPatterns.RowMember` | src/main.rs:223-232 | a label is in the row of `c1` exactly when it is a pattern of `c1` and some different `c2` |
| `RepeatPatterns.RowsMember` | src/main.rs:222-246 | a label is in a pair group exactly when it is in the row of some `c1` |
| `RepeatPatterns.PairGroupMember` | src/main.rs:222-246 | a label is in a pair group exactly when it is a pattern of some ordered pair of different symbols |
| `RepeatPatterns.RowDistinct` | src/main.rs:223-232 | a row lists no label twice |
| `RepeatPatterns.RowsDistinct` | src/main.rs:222-246 | a pair group lists no label twice |
| `RepeatPatterns.RowsShape` | src/main.rs:222-246 | a pair-group label has 4 symbols, at most two different ones, and a first-character count that tells the groups apart |
| `RepeatPatterns.RepeatPatternDomainsMember` | src/main.rs:208-248 | the list holds exactly the 4-character strings over the symbols with at most two different characters |
| `RepeatPatterns.RepeatPatternDomainsComplete` | src/main.rs:208-248 | every 4-character string over the symbols with at most two different characters is listed |
| `RepeatPatterns.RepeatPatternDomainsDistinct` | src/main.rs:208-248 | no label is listed twice |
| `RepeatPatterns.RowLength` | src/main.rs:223-232 | a row has 4 or 3 labels per symbol other than `c1` |
| `RepeatPatterns.RowsLength` | src/main.rs:222-246 | a pair group has N·4·(N-1) or N·3·(N-1) labels |
| `RepeatPatterns.RepeatPatternDomainsLength` | src/main.rs:208-248 | N + 4N(N-1) + 3N(N-1) labels: 4576 letters-only, 8856 with digits |
| `RepeatPatterns.RepeatPatternDomainsValid` | src/main.rs:208-248 | every listed label passes `is_valid_domain` |
| `Scanner.ResultOfFormatted` | src/main.rs:138-158 | a well-formed reply is recorded as `<label>.li` with its own code, its message and the status of its code |
| `Scanner.ResultOfGarbage` | src/main.rs:142-158 | a reply without `:` is recorded as Error with code -99 and the trimmed reply as message |
| `Scanner.ResultAvailable` | src/main.rs:145-147 | a record is Available exactly when the parsed code is 1 |
| `Scanner.QueryStep` | src/main.rs:264-291 | one more query extends the records by its record, and the available set by its domain when available |
| `Scanner.AvailableOfMember` | src/main.rs:147-150 | a domain is in the set exactly when some record of it is Available |
| `Scanner.AvailableOfAppend` | src/main.rs:147-150 | the available set of two record lists is the union of theirs |
| `Scanner.AvailableOfRepeated` | src/main.rs:147-150 | recording the same results twice adds nothing to the set |
| `Scanner.AvailableIff` | src/main.rs:147-150 | `<label>.li` is in the set after a scan exactly when some query of that label got code 1 |
| `Scanner.ThreeRepliesScenario` | src/main.rs:140-150 | replies with codes 1, 0 and -95 are recorded Available, Registered and RateLimited, and only the first domain enters the set |
| `Scanner.LiDomainScanner.constructor` | src/main.rs:103-111 | a new scanner has an empty set and an empty log, which agree |
| `Scanner.LiDomainScanner.QueryDomainCheck` | src/main.rs:133-158 | returns the record of the reply and inserts `<label>.li` into the set exactly when it is Available; nothing else changes |
| `Scanner.LiDomainScanner.QueryAll` | src/main.rs:262-285 | the `n`-th domain's reply is the registry's answer to the `n`-th query; the records come back in dispatch order and the set gains their available domains |
| `Scanner.LiDomainScanner.AppendResults` | src/main.rs:287-291 | the log gains the records, in order, one entry per scanned domain |
| `Scanner.LiDomainScanner.ScanDomains` | src/main.rs:252-295 | the log gains one record per domain in order, the set gains exactly their available domains, and a set that agreed with the log still agrees |
| `Scanner.LiDomainScanner.Run` | src/main.rs:330-346 | `run` scans exactly the candidate list, with the same effect on the log and the set |
| `Scanner.CollectCandidates` | src/main.rs:331-343 | lengths 1 to 4 in full-scan mode; lengths 1 to 3 followed by the repeat patterns otherwise |
| `Scanner.UpToMember` | src/main.rs:334-338 | the labels of lengths 1 to n are exactly the admissible labels of 1 to n characters over the alphabet |
| `Scanner.UpToDistinct` | src/main.rs:334-338 | no label appears twice among lengths 1 to n |
| `Scanner.FullScanCandidates` | src/main.rs:334-338 | full-scan mode scans exactly the admissible labels of 1 to 4 characters, each once |
| `Scanner.DefaultScanCandidates` | src/main.rs:334-343 | default mode scans exactly the admissible labels of 1 to 3 characters and the 4-symbol labels with at most two different symbols, each once |
| `Scanner.CandidatesValid` | src/main.rs:331-343 | every scanned label passes `is_valid_domain` |

## Left out

- The TCP exchange with `whois.nic.ch:4343` (lines 127-137) is network I/O. It is replaced by `Registry`, a function from the dispatch index and the query line to the reply text. A connection or read failure is not modelled, because the source turns it into a panic (`?` followed by `unwrap()` at lines 271 and 290) and has no error result for it.
- The Tokio tasks, the `Semaphore`, `join_all` and the `sleep` between dispatches (lines 261-285) are concurrency, wall-clock time and a floating-point delay. The scan is a sequential loop in dispatch order. `join_all` returns results in that order, so the log order matches. The set is order-independent.
- The progress bar and the coloured console output (lines 254-259, 273-279, 293, 336-352) are user interface.
- Creating the timestamped output directory in `new` (lines 97-101) and `save_results` (lines 298-327) are file I/O, clock and `serde_json` calls. So are the `workers`, `delay`, `output_dir`, `host` and `port` fields.
- The `timestamp` field of `DomainResult` is a clock value, so records carry no timestamp.
- Command-line parsing with clap (lines 20-43) and `main` are library glue.
- The `Clone` impl (lines 358-370) only shares the `Arc` handles. The model has one scanner object.
- The `Vec::with_capacity` size hints (lines 168-174, 214) are not behaviour.
- Rust strings are UTF-8 byte strings; here they are sequences of Unicode scalar values. Only the byte length that `str::len` reports is modelled, by `Labels.Utf8Len`.
- Status.AsStr: its own contract says only that each name is non-empty; that the names tell the statuses apart is the separate lemma `Status.AsStrInjective`, and the exact strings are left to the definition.
