# Map-reduce word count, modelled in Dafny

The system counts words with a small map-reduce pipeline of three C
programs that talk over pipes:

- **The coordinator (`main.c`)** reads its standard input with `fgets`
  and deals the lines round-robin to four mappers. It then reads the
  mappers' output and parses every `"word count"` line with `sscanf`.
  Each record goes to one of two reducers, chosen by `hash_word`.
  Finally it copies the reducers' output to its own standard output.
- **A mapper (`mapper.c`)** reads its input in pieces and glues them
  into lines in an 8192-byte accumulator. Each line is handed to
  `extract_words`, which normalizes it with `clean_smart_quotes` and
  `normalize_string`. It then prints `"<token> 1"` for every `strtok`
  token that holds a letter. The file also holds word helpers
  (`normalize_word`, `is_hyphenated`, `process_*`, ...) and
  `preprocess_line`.
- **A reducer (`reducer.c`)** appends each read to a 4096-byte
  `partial_line` buffer. Each complete line is split at its last space
  into a word and a count, and `add_word` folds the pair into a linked
  list. At end of input, `output_results` sorts the list with a
  top-down merge sort, in descending `strcmp` order, and prints it.

The model keeps each program's own shape:

- Buffers the C code edits in place are `array<Byte>`, and each loop is
  a `while` loop proved against a function on sequences:
  - the `memmove`-based rewrites of `normalize_string`;
  - `preprocess_line`;
  - the reducer's `partial_line`;
  - `merge` and `mergeSort` on the pointer array.
- The reducer's state is a class:
  - the word list is a class whose sequence field `add_word` updates;
  - the class `Reducer` holds `partial_line`, `partial_len`,
    `eof_reached` and the table.
- System calls become inputs: a read returns one of the results in a
  given sequence, and a `write` returns one of a sequence of replies.

The modules are:

- `Bytes`: bytes, C strings, `strchr`/`strstr`/`strtok`.
- `Records`: line framing, `%d`, `atoi`, `sscanf("%255s %d")`.
- `Routing` and `Coordinator`: the coordinator.
- `WordHelpers`, `TextNormalize` and `Mapper`: the mapper.
- `Aggregate`, `Sorting`, `Reassembly` and `Reducer`: the reducer.

## Model

| member | source | states |
|---|---|---|
| Bytes.ToLower | mapper.c:34 | C-locale `tolower`: an upper-case letter becomes its lower-case partner, every other byte is unchanged, and being a letter is preserved |
| Bytes.CStr | mapper.c:469 | the C string in a terminated buffer is its longest NUL-free prefix, stopping at the first NUL |
| Bytes.FirstIndex | mapper.c:476 | `strchr` finds the first occurrence, with none before it |
| Bytes.StrChrAt | reducer.c:191 | `strchr(start, c)` finds the first `c` of the C string from `start`, and reports none exactly when the string holds no `c` |
| Bytes.StrRChrAt | reducer.c:193 | `strrchr` finds the last occurrence inside the C string from `start` (none later in that string), and reports none exactly when the string holds none |
| Bytes.Find | mapper.c:255 | `strstr` returns the first position where the pattern matches, with no match before it |
| Bytes.RunEnd | mapper.c:433 | a `strtok` token runs up to the next delimiter, which ends it |
| Bytes.TokensAreTokens | mapper.c:433-449 | every `strtok` token is non-empty and holds no delimiter |
| Bytes.TokensSkipDelims | mapper.c:449 | leading delimiters yield no token |
| Bytes.TokensSplit | main.c:216-226 | tokenizing around a delimiter is tokenizing each side, in order |
| Bytes.TokensOfToken | main.c:216 | a string that is one token yields exactly itself |
| Records.FramingRoundTrip | reducer.c:188-208 | the complete lines of a text, each with its newline, followed by the unterminated tail, give back the text |
| Records.FramingParts | reducer.c:191-201 | no complete line and no tail holds a newline |
| Records.LinesOfUnlines | reducer.c:136-139 | newline-free lines joined with newlines split back into the same lines |
| Records.LinesAppend | reducer.c:184-208 | the lines of two reads together are the first read's lines, then the lines of its tail joined with the second read |
| Records.DigitValueOfDigits | reducer.c:137 | the decimal digits printed for `n` read back as `n` |
| Records.AtoiDecimal | reducer.c:196 | `atoi` of the text `%d` prints for `n` is `n`, negative numbers included |
| Records.ScanIntDecimal | main.c:219 | the `%d` conversion of `sscanf` reads back what `%d` printed |
| Records.ScanRecordProperties | main.c:219 | a `%255s` word that `sscanf` matches is non-empty, at most 255 bytes and free of white space and NUL |
| Records.ScanEncodedRecord | main.c:219-223 | `sscanf("%255s %d")` of `snprintf("%s %d")` of a valid word and count gives back both |
| Routing.SignedChar | main.c:27 | a `char` added to the hash is the byte sign-extended: in [-128, 128) and equal to the byte modulo 256 |
| Routing.PolyHashIsPolynomial | main.c:24-30 | the 32-bit wrapping loop `hash = hash * 31 + c` equals the polynomial sum of the signed bytes taken modulo 2^32 |
| Routing.HashWord | main.c:24-30 | `hash_word` hashes the bytes up to the first NUL and returns the 32-bit hash modulo the reducer count, which is below that count |
| Routing.HashOfEmpty | main.c:24-30 | the empty word hashes to reducer 0 |
| Routing.RouteChunk | main.c:212-227 | the records forwarded for one read are exactly those its lines give, in line order |
| Routing.RouteSegment | main.c:219-224 | one NUL-free line forwards its `%255s %d` record to the reducer its word hashes to, or nothing when `sscanf` does not match both fields |
| Routing.RouteAllAppend | main.c:218-227 | forwarding is line by line: the records for two runs of lines are those of the first followed by those of the second |
| Routing.RouteAllWellFormed | main.c:219-224 | every forwarded record carries a valid word of at most 255 bytes and goes to reducer `hash_word(word, 2)` |
| Routing.ChunkForwardsWellFormed | main.c:212-227 | every record forwarded for one read is well formed and routed by its word's hash |
| Routing.RouteEncodedRecord | main.c:219-224 | a mapper line `"word count"` is forwarded unchanged to the reducer its word hashes to |
| Routing.ChunkSplitAtNewline | main.c:216-226 | a read is parsed line by line: splitting it at a newline splits its records |
| Routing.RecordChunk | main.c:212-224 | a read holding one whole record forwards exactly that record |
| Routing.FragmentDropped | main.c:212-219 | a read holding only the first part of a record (word, no count) forwards nothing |
| Routing.SplitRecordIsMisrouted | main.c:212-216 | with no carry-over between reads, a record split across two reads is lost or forwarded under the wrong word |
| Coordinator.WriteCall | main.c:36 | one `write` returns -1 on failure, otherwise between 0 and the bytes requested |
| Coordinator.WriteAll | main.c:33-45 | `write_all`'s loop returns what the specification function gives for the replies `write` makes |
| Coordinator.WriteAllOutcomes | main.c:33-45 | `write_all` never reports more than `count` bytes; it returns -1 only after a failing write, and a short count only after a 0-byte write |
| Coordinator.WriteAllCompletes | main.c:35-44 | when every write accepts some bytes and there is room for all of them, `write_all` returns `count` |
| Coordinator.WithoutInterrupts | main.c:38 | the replies with the interrupted ones removed hold no interruption |
| Coordinator.WriteAllRetriesInterrupts | main.c:37-38 | writes interrupted by EINTR are retried and change nothing |
| Coordinator.FgetsLength | main.c:171 | one `fgets` consumes at least one and at most 1023 bytes |
| Coordinator.FgetsChunksConcat | main.c:171 | the `fgets` buffers concatenate back to the whole input |
| Coordinator.FgetsChunksBounded | main.c:169-171 | each `fgets` buffer is non-empty, below 1024 bytes, and can only end with a newline |
| Coordinator.EveryFourth | main.c:170-174 | mapper `m`'s share is the chunks at positions `m`, `m + 4`, `m + 8`, ... |
| Coordinator.DealtIsRoundRobin | main.c:169-175 | what mapper `m` receives is the C strings of exactly those chunks, in input order |
| Coordinator.Distribute | main.c:169-175 | the distribution loop sends each mapper exactly its round-robin share of the `fgets` chunks |
| Coordinator.CountOpen | main.c:186 | the number of open descriptors is zero exactly when all are closed |
| Coordinator.CountOpenAllOpen | main.c:186 | with every descriptor open, the count is the number of workers |
| Coordinator.CountOpenClose | main.c:228-232 | closing one open descriptor lowers the count by exactly one |
| Coordinator.AfterCloses | main.c:228-232 | a descriptor is closed exactly when it started closed or a read reported its end of file; an open one keeps its value |
| Coordinator.Shuffle | main.c:186-235 | the mapper-output loop: descriptors are closed by end of file, `active_mappers` equals the open count, and the forwarded records are those of the data read from open descriptors, in order; the loop stops when all are closed or no read is left |
| Coordinator.Drain | main.c:244-278 | the reducer-output loop copies the data of every read from an open reducer to standard output, in order, and keeps `active_reducers` equal to the open count |
| WordHelpers.EndsWithSuffix | mapper.c:15-20 | `ends_with(w, p)` holds exactly when `p` is a suffix of `w` |
| WordHelpers.NormalizeWord | mapper.c:22-65 | `normalize_word` writes the result its specification function gives |
| WordHelpers.NormalFormProperties | mapper.c:22-65 | the normalized word holds only lower-case letters, is at most 255 bytes, and is empty exactly when the input has no letter |
| WordHelpers.HyphenatedFirst | mapper.c:67-71 | `is_hyphenated` holds exactly when the first `-` has a letter on both sides |
| WordHelpers.PossessiveEndsWith | mapper.c:73-76 | `is_possessive(w)` holds exactly when `w` is longer than 2 bytes and ends with `'s` |
| WordHelpers.ContractionInside | mapper.c:78-88 | a contraction's first apostrophe is neither its first nor its last byte |
| WordHelpers.ContractionOfStem | mapper.c:78-88 | a stem followed by `'t` or `'s` is a contraction |
| WordHelpers.WordCharIsPrintable | mapper.c:141-143 | a word character is neither white space nor NUL |
| WordHelpers.HasContractionIff | mapper.c:146-153 | `has_contraction` holds exactly when one of the six endings occurs somewhere, so the word then holds an apostrophe |
| WordHelpers.ProcessHyphenated | mapper.c:90-99 | `process_hyphenated` removes every `-` and lower-cases the rest |
| WordHelpers.HyphenatedForm | mapper.c:90-99 | its result is no longer than the word and holds neither a hyphen nor an upper-case letter |
| WordHelpers.ProcessPossessive | mapper.c:101-108 | `process_possessive` writes the lower-cased text before the first apostrophe, then `s` |
| WordHelpers.PossessiveDropsApostrophe | mapper.c:101-108 | for `stem's` the word is possessive and the result is the lower-cased `stems` |
| WordHelpers.ProcessContraction | mapper.c:110-127 | `process_contraction` writes the word lower-cased without its first apostrophe |
| WordHelpers.ContractionDropsApostrophe | mapper.c:110-127 | for `stem'rest` the result is the lower-cased `stemrest` |
| TextNormalize.DeleteRun | mapper.c:283 | `memmove` down by `n` removes those bytes and shifts the rest of the string, terminator included, leaving the bytes past the old end alone |
| TextNormalize.CleanSmartQuotes | mapper.c:212-230 | `clean_smart_quotes` compacts the string in place to what the specification function gives, still terminated |
| TextNormalize.CleanDropsSingleQuote | mapper.c:216-219 | the sequences `E2 80 98` and `E2 80 99` are deleted |
| TextNormalize.CleanDropsDashWindow | mapper.c:219-220 | by operator precedence, any three bytes whose third is `0x94` are deleted too |
| TextNormalize.CleanDropsLetterBeforeDash | mapper.c:216-220 | so `x` followed by `C3 94` disappears entirely |
| TextNormalize.CleanPlain | mapper.c:225-227 | a string without `E2` and `94` bytes is copied unchanged |
| TextNormalize.CleanNoNul | mapper.c:212-230 | cleaning never brings a NUL into the string |
| TextNormalize.LowerInPlace | mapper.c:238-240 | the lower-casing loop lower-cases the string and touches nothing else |
| TextNormalize.ReplaceQuotes | mapper.c:242-252 | the curly-quote loop replaces `E2 80 99`, `E2 80 9C` and `E2 80 9D` with `'` as the specification function says |
| TextNormalize.QuotesPlain | mapper.c:242-252 | a string without `E2` is left unchanged |
| TextNormalize.QuotesNoUpper | mapper.c:242-252 | replacing quotes brings in no upper-case letter |
| TextNormalize.FoldMarks | mapper.c:255-277 | the `strstr("'x")` loop ends with the string's fold |
| TextNormalize.FoldDelete | mapper.c:255-265 | deleting the apostrophe of any `'x` leaves the fold unchanged |
| TextNormalize.FoldFixed | mapper.c:256-264 | a string holding no `'x` is its own fold, so the loop stops there |
| TextNormalize.FoldNoMark | mapper.c:255-277 | no `'x` is left after the loop |
| TextNormalize.FoldDropsOnlyApostrophes | mapper.c:255-277 | the loop deletes apostrophes and nothing else |
| TextNormalize.DeleteAll | mapper.c:280-288 | one `strchr` deletion loop removes every occurrence of its byte and keeps the others in order |
| TextNormalize.RemoveAllTwice | mapper.c:280-418 | deleting one set of bytes, then another, is deleting their union |
| TextNormalize.StripPunctuation | mapper.c:280-418 | the fourteen deletion loops remove every byte of `- < > . * ( ) " : / { } , '` and keep the rest in order |
| TextNormalize.FoldPasses | mapper.c:234-277 | cleaning, lower-casing, quote replacement and the `'s` and `'t` folds compose |
| TextNormalize.NormalizeString | mapper.c:233-419 | `normalize_string` leaves the normalized string in the buffer, still terminated |
| TextNormalize.NormalizedProperties | mapper.c:233-419 | the normalized string is no longer than its input and holds no upper-case letter and none of the deleted punctuation |
| TextNormalize.StrLen | mapper.c:178 | `strlen` finds the string's length |
| TextNormalize.MarkPass | mapper.c:181-198 | one `'s` or `'t` loop of `preprocess_line` leaves what the specification function gives |
| TextNormalize.MarksDropOnlyApostrophes | mapper.c:181-198 | such a loop deletes apostrophes and nothing else |
| TextNormalize.HyphenPass | mapper.c:201-208 | the hyphen loop deletes every `-` between two letters |
| TextNormalize.KeptFromDropsOnlyHyphens | mapper.c:201-208 | the hyphen loop deletes hyphens and nothing else |
| TextNormalize.PreprocessLine | mapper.c:177-209 | `preprocess_line` runs the `'s`, `'t` and hyphen passes in order |
| TextNormalize.PreprocessedProperties | mapper.c:177-209 | `preprocess_line` never lengthens the line and deletes only apostrophes and hyphens |
| Mapper.StrNCopy | mapper.c:427 | `strncpy(buffer, line, 4095)` copies the string cut to 4095 bytes, zero-pads up to 4095 and leaves the last byte alone |
| Mapper.ExtractWords | mapper.c:424-451 | `extract_words` prints, for the normalized first 4095 bytes of the line, each `strtok` token that holds a letter, followed by ` 1\n` |
| Mapper.PrintTokens | mapper.c:433-450 | the `strtok` loop prints exactly the tokens with a letter, left to right |
| Mapper.FindLetter | mapper.c:437-443 | the letter scan reports whether the token holds a letter |
| Mapper.EmitLines | mapper.c:445-447 | the printed text is one `"<token> 1"` line per token with a letter, in order |
| Mapper.WithLetterTokens | mapper.c:435-447 | every printed token is non-empty, holds no delimiter and holds a letter |
| Mapper.ExtractWordsLines | mapper.c:424-451 | `extract_words` prints whole lines only, each a non-empty, white-space-free token holding a letter, followed by ` 1` |
| Mapper.HandChunk | mapper.c:469-496 | processing one read hands over the read's complete lines (the first one completing the accumulated line) and keeps its tail |
| Mapper.Run | mapper.c:460-502 | the mapper's `main` prints `extract_words` of each line its read loop hands over, and reports whether the loop ended |
| Mapper.FirstLineHanded | mapper.c:476-488 | the first line a read completes is the accumulated line plus the read's first segment, unless together they reach 8191 bytes: the segment is then dropped |
| Mapper.LinesStayShort | mapper.c:480-496 | the accumulated line and every handed line stay below 8191 bytes |
| Mapper.StepWhole | mapper.c:469-496 | when nothing overflows, one read hands over exactly the complete lines of the accumulated line joined with the read, and keeps the tail |
| Mapper.FeedAllReassembles | mapper.c:460-497 | over any split of a NUL-free stream into reads, the handed lines are the stream's lines and the accumulated line is its tail |
| Mapper.ReadLoopFeeds | mapper.c:460-502 | a run of reads followed by end of input hands over the reads' lines, then the accumulated line if it is non-empty |
| Mapper.MapperHandsEveryLine | mapper.c:460-502 | the mapper hands every line of its input to `extract_words` exactly once, in order, and a non-empty unterminated tail last |
| Aggregate.TrimTrailingSpace | reducer.c:31-35 | the trimmed word is a prefix that ends in no white space, and only white space was cut |
| Aggregate.TrimLength | reducer.c:31-35 | the trimming loop stops exactly at the length of the word without its trailing white space |
| Aggregate.KeyIsValid | reducer.c:27-40 | a stored key is non-empty, at most 255 bytes, NUL-free and without trailing white space |
| Aggregate.KeyIdempotent | reducer.c:27-35 | normalizing a key again changes nothing |
| Aggregate.KeyIsPrefix | reducer.c:27-35 | the key is a prefix of the word |
| Aggregate.KeyOfBlank | reducer.c:31-40 | a word made only of white space gives no key, so `add_word` ignores it |
| Aggregate.IndexOf | reducer.c:42-49 | the list walk stops at the first entry whose word matches, with none before it |
| Aggregate.UniqueIndex | reducer.c:42-49 | in a table with unique keys the walk finds the one entry with that word |
| Aggregate.AddedIsTable | reducer.c:42-56 | `add_word` keeps keys unique and well formed |
| Aggregate.AddedCounts | reducer.c:20-57 | a null, empty or blank word leaves the table unchanged; otherwise the word's count grows by `count`, and every other count stays the same |
| Aggregate.AddedKeys | reducer.c:42-56 | `add_word` adds the word's key to the key set and no other key |
| Aggregate.AddedCommutes | reducer.c:20-57 | two `add_word` calls give the same counts in either order |
| Aggregate.WordCounts.constructor | reducer.c:18 | the list starts empty |
| Aggregate.WordCounts.AddWord | reducer.c:20-57 | `add_word` updates the list as the specification function says and keeps the table invariant |
| Sorting.StrCmp | reducer.c:59-61 | `compare` returns a sign |
| Sorting.StrCmpAntisymmetric | reducer.c:59-61 | swapping the arguments negates the comparison |
| Sorting.StrCmpZero | reducer.c:59-61 | the comparison is zero exactly for equal words |
| Sorting.StrCmpTransitive | reducer.c:59-61 | the order is transitive |
| Sorting.MergeDescPermutes | reducer.c:63-104 | merging keeps exactly the elements of both runs |
| Sorting.MergeDescSorted | reducer.c:78-100 | merging two runs in descending order gives a run in descending order |
| Sorting.MergeDescPrefersLeft | reducer.c:80-82 | on a tie the left run's element comes first |
| Sorting.SortDescSorted | reducer.c:106-113 | merge sort yields a descending sequence |
| Sorting.SortDescPermutes | reducer.c:106-113 | merge sort yields a permutation of its input |
| Sorting.SortDescStrict | reducer.c:106-113 | with unique words, the sorted words strictly decrease |
| Sorting.MergeHeads | reducer.c:78-88 | the first merge loop writes the larger head each time, left first on ties, until one run is used up, touching only the range it writes |
| Sorting.CopyRest | reducer.c:90-100 | the copy loops write what is left of a run behind the merged part and nothing else |
| Sorting.Merge | reducer.c:63-104 | `merge` replaces `arr[left..right]` with the merge of its two halves and leaves every other slot alone |
| Sorting.MergeSort | reducer.c:106-113 | `mergeSort` replaces `arr[left..right]` with its sorted permutation, and is a no-op when `left >= right` |
| Sorting.SortShort | reducer.c:107 | with `left >= right` nothing changes |
| Reassembly.LineRecord | reducer.c:191-200 | a line without a space gives no record; otherwise the word is a prefix of the line of at most 255 bytes |
| Reassembly.AddLinesCounts | reducer.c:188-202 | after a run of lines each word's count is its old count plus the counts its lines carry |
| Reassembly.AddLinesAppend | reducer.c:188-202 | folding two runs of lines is folding the first, then the second |
| Reassembly.AddLinesLineFree | reducer.c:188-202 | no key ever holds a newline |
| Reassembly.Joined | reducer.c:168-186 | after the append, the buffer ends with the read and its length is where the terminator goes |
| Reassembly.FullReadOverruns | reducer.c:159-186 | a full 4096-byte read puts the terminator at index 4096, past the end of `partial_line`, whatever was retained |
| Reassembly.ShortReadFits | reducer.c:168-186 | a read of at most 4095 bytes keeps the terminator inside the buffer |
| Reassembly.FedRetains | reducer.c:184-208 | what a read leaves behind is a tail of the buffer, shorter than 4096 bytes, with no newline in its C string |
| Reassembly.FedAllReassembles | reducer.c:158-208 | over any split of a NUL-free stream into fitting reads, the reducer folds in exactly the stream's complete lines and retains its tail |
| Reassembly.TailBlocksExit | reducer.c:158-222 | with bytes retained, no run of end-of-input or retry results lets the reducer finish |
| Reassembly.LoopOverReads | reducer.c:158-209 | a run of reads before end of input acts as feeding them all in turn |
| Reassembly.StreamCounted | reducer.c:158-225 | a stream of complete records ends the loop, and every word's count is the total its lines carry |
| Reassembly.RenderIsUnlines | reducer.c:136-139 | the output is one line per entry, `word count` |
| Reassembly.DecimalIsPlain | reducer.c:137 | `%d` writes digits and at most a minus sign |
| Reassembly.ReadBackRecord | reducer.c:136-139 | an output line read back by the reducer's own line parser gives the entry back |
| Reassembly.OutputListsEntries | reducer.c:115-142 | `output_results` prints each entry exactly once, in sorted order, as a complete line that parses back to it |
| Reducer.Reducer.constructor | reducer.c:152-156 | the buffer starts zeroed and empty, nothing retained, the table empty |
| Reducer.Reducer.Feed | reducer.c:161-209 | a read either overruns `partial_line` (exactly when the terminator index reaches 4096) or leaves the retained bytes and table that feeding the read gives |
| Reducer.Reducer.Append | reducer.c:168-186 | the overflow branch drops the retained bytes (it never finds a newline there), then appends and terminates the read |
| Reducer.Reducer.Drain | reducer.c:188-208 | every complete line goes to `add_word`, and the unconsumed tail is moved to the front |
| Reducer.Reducer.ConsumeLines | reducer.c:188-202 | the line loop folds in every complete line and stops at the tail |
| Reducer.Reducer.ConsumeLine | reducer.c:191-200 | one line goes to `add_word`, and the only bytes changed are NULs written inside that line |
| Reducer.Reducer.CopyIn | reducer.c:184 | `memcpy` puts the read behind the retained bytes |
| Reducer.Reducer.MoveTail | reducer.c:205-208 | `memmove` moves the tail to the front |
| Reducer.Reducer.Step | reducer.c:159-222 | one loop pass acts on one read result as the specification loop does, exits on a hard read error, and keeps the state valid |
| Reducer.Reducer.OutputResults | reducer.c:115-142 | `output_results` prints the table sorted by the merge sort, one line per entry |
| Reducer.PrintEntries | reducer.c:136-139 | the print loop renders the array in order |
| Reducer.NoLineFound | reducer.c:168-181 | when the overflow branch runs, `strchr` finds no newline in `partial_line` |
| Reducer.SpaceSplit | reducer.c:193-199 | cutting at the last space gives the word and `atoi` of the text after it |
| Reducer.Run | reducer.c:144-227 | the reducer's `main`, reading at most 4095 bytes at a time, ends as the specification loop does: it prints the sorted table, exits after a read error, or is still waiting |

## Left out

- Process plumbing is not modelled: `pipe`, `fork`, `dup2`, `execlp`, the closing of unused pipe ends and `waitpid` (main.c:57-165, 177-180, 237-240, 280-287).
- `select` multiplexing and the concurrency between the processes are not modelled. The two read loops take a given sequence of ready reads, so interleavings and pipe backpressure are outside the model.
- A failing `select` (`error_exit`) is not modelled, and neither is `perror`/`exit` after a failed `fork` or `pipe`.
- Logging, buffering and memory ownership are not modelled: `fprintf(stderr, ...)`, `setvbuf`, `fflush` and `malloc`/`free`.
- The reducer's non-blocking `fcntl` and its `no_data_count`/`usleep` back-off (reducer.c:146-147, 217-221) are not modelled. A read that would block is the `Retry` result.
- `process_regular` (mapper.c:129-138) is not modelled: it leaves the bytes at non-letter positions unwritten, so its result is undefined.
- `process_word` (mapper.c:155-174) is not modelled: it computes a value and discards it.
- Characters are classified in the C locale, on bytes. The undefined behaviour of `isalpha` on a negative `char` (mapper.c:36) is not modelled.
- `atoi` and `sscanf` are modelled only for what the pipeline feeds them: optional white space, a sign and decimal digits. Out-of-range numbers are not modelled.
- Aggregate.WordCounts.AddWord: counts are unbounded integers, so the signed overflow of `curr->count += count` is not modelled.
- Routing.HashWord: the 32-bit wrap-around is modelled explicitly, with the `char` sign-extended as on x86.
- Coordinator.Distribute: assumes each `write_all` of a line completes. Partial and failed writes are modelled only by `Coordinator.WriteAll`, whose result `main.c` ignores.
- Coordinator.Shuffle: a failed read (`n < 0`) does nothing, as in the source. Reads are at most 4095 bytes.
- Coordinator.Drain: the bytes are delivered as one output sequence; the `write_all` result is ignored, as in the source.
- TextNormalize.CleanSmartQuotes: requires the buffer to be zero-padded after the string, which `extract_words`' `strncpy` guarantees. Its reads of `str[i + 1]` and `str[i + 2]` past the terminator then see zeros, and reads past the array are not modelled.
- TextNormalize.NormalizeString: inherits the zero-padding requirement of `clean_smart_quotes`.
- TextNormalize.StripPunctuation: the fourteen textually identical deletion loops are run as one loop over the list of their bytes, in the source's order.
- Mapper.PrintTokens: `strtok` writes a NUL over the delimiter after each token. The model walks the normalized string's value, so what the buffer holds afterwards is not modelled.
- Mapper.HandChunk: the 8192-byte `line` buffer and `strcat` are modelled as a sequence the method reassigns, not as an array.
- Mapper.Run: works on a finite sequence of read results. `finished == false` means the mapper is still waiting for input.
- Mapper.FeedAllReassembles: proved for NUL-free streams whose lines and tail are all below 8191 bytes. For longer lines the model states only the drop (`Mapper.FirstLineHanded`) and the length bound (`Mapper.LinesStayShort`).
- Mapper.MapperHandsEveryLine: proved under the same hypothesis.
- WordHelpers.ProcessContraction: requires the word to hold an apostrophe. Without one, the C code's `i++` steps past the terminator and reads beyond the string.
- Reducer.Reducer.Feed: after an overrun the state is left unspecified, as the C behaviour is undefined.
- Reducer.Reducer.Step: requires each read to hold at most 4095 bytes, the corrected size (see Findings), like `Reducer.Run`. The source's 4096-byte read is modelled by `Reducer.Reducer.Feed`.
- Reducer.Run: reads at most 4095 bytes at a time, the corrected size (see Findings). The source's 4096-byte read is modelled by `Reducer.Reducer.Feed`.

## Findings

| source | as written | input that shows it | evidently intended | confidence | as-written member | corrected member |
|---|---|---|---|---|---|---|
| reducer.c:159-186 | `read(STDIN_FILENO, buffer, sizeof(buffer))` may return 4096 bytes. The overflow branch then empties `partial_line`, copies all 4096 bytes in, and `partial_line[partial_len] = '\0'` writes `partial_line[4096]`, one byte past the end. | a single read that returns 4096 bytes, with any number of bytes retained before it | read at most `sizeof(buffer) - 1` bytes, as the mapper does (mapper.c:461), so the terminator always fits | high (not executed) | Reducer.Reducer.Feed, Reducer.Reducer.Append, Reassembly.FullReadOverruns | Reassembly.ShortReadFits |

Two further defects are modelled as written and not corrected:

- There is no carry-over between reads from a mapper (main.c:212-216). Each read is split into lines on its own, so a record cut by a read boundary is dropped or forwarded under a truncated word. `Routing.SplitRecordIsMisrouted` exhibits such a pair of reads.
- The reducer never exits when its input ends with an unterminated record (reducer.c:158, 210-211). The loop condition needs end of input with nothing retained, so retained bytes without a newline keep it reading for ever; only a hard read error ends it. `Reassembly.TailBlocksExit` states this.
