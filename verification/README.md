# EerieLeapRT: models and proofs

Dafny models of five parts of EerieLeapRT, with proofs of what they guarantee:

- the **syntax highlighter** behind the configuration editor (Prism): tokenizing a text into a
  linked list of plain pieces and tokens, with greedy matches that swallow earlier tokens and
  rematch the earlier patterns; encoding and rendering the tokens; the editor's update;
- the **log parser**: CRC-32, the header and record readers, the CSV and JSON conversions;
- the **CAN scheduler**: its calls interleaved with the work queue;
- the **configuration upload**: a request body put together from chunks in a shared buffer;
- the **display, the log writer's status, and the dot-path animation**.

`dafny verify dfyconfig.toml` checks everything.

## How it is laid out

| file | content |
|---|---|
| `PrismTokens.dfy`, `PrismGrammar.dfy` | token streams and their text; grammars, the order of patterns, the regular-expression engine as an oracle |
| `PrismWalk.dfy` | what tokenizing computes, on plain sequences, with the invariant every step keeps |
| `PrismList.dfy`, `PrismTokenizer.dfy` | the doubly linked list and the program on it, proved to compute what `PrismWalk` says |
| `PrismTheorems.dfy`, `PrismComplete.dfy`, `PrismReach.dfy` | what follows for every text, grammar and oracle; that no reported match is passed over; what a rematch leaves alone |
| `PrismRender.dfy`, `PrismSpans.dfy` | rendering and the editor: the text shown, and the spans read back |
| `Crc32.dfy`, `CrcPolynomial.dfy` | the checksum; that it is the remainder of the message polynomial |
| `LogFormat.dfy`, `LogReader.dfy`, `LogTheorems.dfy`, `LogSample.dfy` | the file format, the readers, round trips, truncation and damage; a known log |
| `LogFile.dfy`, `LogTable.dfy`, `LogJson.dfy` | the conversions, and reading the table and the JSON back |
| `CanbusTasks.dfy`, `CanbusProtocol.dfy`, `CanbusScheduler.dfy` | which tasks there are and what one run does; the interleaved protocol; the scheduler's methods, whose steps are a run of it |
| `ConfigUpload.dfy` | the chunked body |
| `DisplayLogging.dfy`, `DotPath.dfy` | status line and log writer; the animation over the reals |

Where a program changes things in place, a class or a method with loops does so in the model too,
and its contract ties the result to a function; the properties are then proved of the function. In
the tokenizer the two differ most: the program follows `prev` and `next` and counts positions up,
the function has neither, and a position is simply the offset of a piece.

## Assumptions

- **Regular expressions.** A match lies at or after the position asked for, within the text, and
  its first group is a prefix of it (`PrismGrammar.InRange`). Nothing else is assumed: the oracle
  need not be a regular expression, and may match the empty string.
- **Grammars** are finite trees. Hooks, languages registered at run time and web workers are absent.
- **Browser.** `PrismRender.TextContent` stands for what is shown of a piece of HTML: tags, read as
  section 13.2.5 of the HTML standard reads them, fall away; `&amp;` and `&lt;` are decoded.
- **Tables** are read with double quotes around fields: a comma within them does not separate.
- **JSON.** The library spells a header and a record each as one object: a text in braces whose
  brackets and quotes close (`LogJson.Objects`).
- **Streams** return fewer bytes than asked for only at the end of the file.
- **Work queue.** One thread runs one task at a time. Canceling takes a task out of the queue and
  reports whether its run is still in progress; a run may queue its task again. One thread calls
  the scheduler.
- **Log writer.** Result code 0 means that the writer has changed state.

## Findings

- The body buffer of the upload is shared by all clients. The body handed on is a client's own
  exactly when nothing was held as the first of its chunks that brings bytes came (its last chunk, if
  none before it brings any) and since then no other client has sent any bytes, aborted, or sent a
  last chunk (`ConfigUpload.OwnBodyIff`). Another client's abort, or its empty last chunk, cuts a body
  short (`ConfigUpload.CutShort`).
- A record, or a header, whose checksum happens to be 0 is taken for the end of the file
  (`LogTheorems.RecordRoundTrip`, `LogTheorems.HeaderRoundTrip`). For every sensor and data there is
  exactly one time with such a checksum (`LogTheorems.ZeroChecksumIff`), and for every other content
  of a header exactly one version (`LogTheorems.ZeroHeaderIff`).
- A file cut within the mark of a record, or between two fields before the end of its data, ends
  quietly; cut within another field, or just before the checksum, it raises an exception
  (`LogTheorems.RecordsCut`).
- With metadata, the title line of the CSV reads as the sensors' titles and has as many columns as
  the rows exactly when there is a sensor and no label, the name and unit together, upsets the quotes
  (`LogTable.ColumnsAgreeIff`); names and units without quotes never do
  (`LogTable.QuoteFreeNeutral`). Without sensors it has one column and the rows two; a name such as
  `a","b` makes three columns over rows of two (`LogTable.QuotedNameSplits`).
- "log" is shown exactly while the writer runs, but not when the writer starts before the display
  is initialised (`DisplayLogging.StartedTooEarly`), or when somebody else clears the statuses
  (`DisplayLogging.AnnouncedIff`).
- Along an axis, the dot path keeps to the margins for all random draws exactly when the axis, less
  its margins, is at least 80 long (`DotPath.JumpsStayIff`); both are when the shorter side of the
  screen is at least 100 (`DotPath.RoomIff`). On a display of 128 by 32 pixels, such as that of
  esp32s3_pm_hw_02, the path keeps to the margins along the rows but can leave the screen across
  them, by at most 51.2 pixels (`DotPath.NarrowDisplay`, `DotPath.AnimationStays`).
- The highlighter's guard against a runaway list never fires on a nonempty text when no pattern
  matches the empty string (`PrismTheorems.AbortNeverFires`). A pattern reported to match the empty
  string wherever it is asked for makes it fire in every walk, a rematch's too, that meets a plain
  piece within its reach (`PrismTheorems.EmptyMatchAborts`); one that does so only here and there
  need not (`PrismTheorems.EmptyMatchHarmless`). On an empty text it fires at the first pattern,
  harmlessly (`PrismTheorems.EmptyText`).
- A `rest` inside a `rest` is lost when grammars are merged; all names survive exactly when those
  further down are also among the grammar's own or its `rest`'s (`PrismGrammar.RestInRestLost`).
- A `"` in the name or alias of a pattern can break out of the class attribute
  (`PrismRender.QuoteInAliasShows`). Exactly when the tag read is not the tag written is
  `PrismRender.TagWholeIff`; exactly when what is shown changes is `PrismRender.TagShownIff`. A grammar
  without `"` in its names and aliases is safe (`PrismRender.QuoteFreeClean`).

## Model

| member | source | states |
|---|---|---|
| PrismTokenizer.Tokenize | app/src/domain/http_domain/static_resources/configuration/scripts/prism.js:1 | `tokenize` on the linked list returns exactly the reference token stream, for every text, grammar tree and in-range oracle, and terminates |
| PrismTokenizer.MatchGrammar | app/src/domain/http_domain/static_resources/configuration/scripts/prism.js:1 | the loop over the patterns (`o`): the list and the rematch reach end as the reference says, a rematch handles only patterns before its cause, and the nodes up to the start, with the token that caused the rematch, stay in place |
| PrismTokenizer.WalkPattern | app/src/domain/http_domain/static_resources/configuration/scripts/prism.js:1 | the walk of one pattern: list, reach and abort as the reference says; the position counted up is always the offset of the current node; ends by text left, list slack, nodes left |
| PrismTokenizer.Turn | app/src/domain/http_domain/static_resources/configuration/scripts/prism.js:1 | one turn of that loop, with its three ways out: continue, break, abort |
| PrismTokenizer.LookGreedy | app/src/domain/http_domain/static_resources/configuration/scripts/prism.js:1 | a greedy pattern at a plain node: no match ends the pattern, a match that begins in a token is skipped, any other yields the nodes it touches and their text |
| PrismTokenizer.LookWithin | app/src/domain/http_domain/static_resources/configuration/scripts/prism.js:1 | any other pattern looks at the text of its node alone, from position 0 |
| PrismTokenizer.FindContaining | app/src/domain/http_domain/static_resources/configuration/scripts/prism.js:1 | the search for the node that holds the start of a match finds it, with its position, and never reads the tail sentinel |
| PrismTokenizer.CountAffected | app/src/domain/http_domain/static_resources/configuration/scripts/prism.js:1 | the nodes counted as affected are those that begin before the end of the match, and plain nodes behind them |
| PrismTokenizer.Replace | app/src/domain/http_domain/static_resources/configuration/scripts/prism.js:1 | a match put in place, with the rematch it calls for and the reach it raises |
| PrismTokenizer.PutToken | app/src/domain/http_domain/static_resources/configuration/scripts/prism.js:1 | the text before the match, the token and the text behind it stand where the affected nodes stood |
| PrismTokenizer.RematchFrom | app/src/domain/http_domain/static_resources/configuration/scripts/prism.js:1 | the nested call: the patterns before the cause, from the new token on; that token's node is still in the list on return |
| PrismTokenizer.MakeToken | app/src/domain/http_domain/static_resources/configuration/scripts/prism.js:1 | the token of a match, its content tokenized in turn when the pattern has a grammar inside |
| PrismList.TokenList.constructor | app/src/domain/http_domain/static_resources/configuration/scripts/prism.js:1 | an empty list: two sentinels that point at each other |
| PrismList.TokenList.AddAfter | app/src/domain/http_domain/static_resources/configuration/scripts/prism.js:1 | `u`: the new node stands behind the given one, `prev` and `next` stay inverse, `length` stays the node count |
| PrismList.TokenList.RemoveRange | app/src/domain/http_domain/static_resources/configuration/scripts/prism.js:1 | `c`: exactly the next `count` nodes are gone, or all up to the tail |
| PrismList.TokenList.ToArray | app/src/domain/http_domain/static_resources/configuration/scripts/prism.js:1 | the values between the sentinels, in order |
| PrismGrammar.MatchPattern | app/src/domain/http_domain/static_resources/configuration/scripts/prism.js:1 | `l`: a match lies within the text, at or after the position asked for; it ends where the raw match ends, and begins behind the first group exactly under lookbehind |
| PrismGrammar.MergedStepsDepth | app/src/domain/http_domain/static_resources/configuration/scripts/prism.js:1 | grammars inside patterns, merged ones included, are shallower than the grammar: nested tokenizing terminates |
| PrismGrammar.MergedStepsWords | app/src/domain/http_domain/static_resources/configuration/scripts/prism.js:1 | merging `rest` brings in no name with aliases that is not in the grammar |
| PrismGrammar.MergedLookup | app/src/domain/http_domain/static_resources/configuration/scripts/prism.js:1 | after a merge a name stands for the patterns `rest` has for it, or else for the grammar's own |
| PrismGrammar.RestInRestLost | app/src/domain/http_domain/static_resources/configuration/scripts/prism.js:1 | the merge ignores a `rest` inside `rest`; all names on the chain survive exactly when those further down are among the grammar's own or its `rest`'s |
| PrismGrammar.RematchStopsAtCause | app/src/domain/http_domain/static_resources/configuration/scripts/prism.js:1 | with distinct names the text of a cause picks out one pattern, commas in names notwithstanding, and a rematch stops exactly there |
| PrismGrammar.StepAt | app/src/domain/http_domain/static_resources/configuration/scripts/prism.js:1 | patterns are tried entry by entry, and in an entry in the order of its array |
| PrismWalk.Tokenize | app/src/domain/http_domain/static_resources/configuration/scripts/prism.js:1 | flattening the result gives back the text; every token at every depth has the length of its text and takes its kind with its aliases from the grammar; the result keeps the list invariant |
| PrismWalk.MatchAll | app/src/domain/http_domain/static_resources/configuration/scripts/prism.js:1 | the invariant of the list (text kept, no two plain pieces adjacent, lengths right, every token a reported match) is kept, what precedes the start is untouched, the reach never falls, an abort means more pieces than characters |
| PrismWalk.Walk | app/src/domain/http_domain/static_resources/configuration/scripts/prism.js:1 | the same for one pattern from any piece on, with its lexicographic termination measure |
| PrismWalk.Rematched | app/src/domain/http_domain/static_resources/configuration/scripts/prism.js:1 | a rematch leaves everything up to and including its token in place and never lowers the reach |
| PrismReach.RematchedBehind | app/src/domain/http_domain/static_resources/configuration/scripts/prism.js:1 | a rematch also leaves alone every piece that begins at or behind the position it reports, with all that follow |
| PrismReach.MatchAllBehind | app/src/domain/http_domain/static_resources/configuration/scripts/prism.js:1 | so does any loop over the patterns within a rematch, for the reach it ends with |
| PrismReach.BeyondReach | app/src/domain/http_domain/static_resources/configuration/scripts/prism.js:1 | a rematch does not look at a piece that begins at or behind its reach |
| PrismReach.RematchedIs | app/src/domain/http_domain/static_resources/configuration/scripts/prism.js:1 | with distinct names, a match that takes out a token has exactly the patterns before its own tried again, from its token on and with the end of what it took out as reach; any other match has none |
| PrismWalk.Decide | app/src/domain/http_domain/static_resources/configuration/scripts/prism.js:1 | a piece is passed over, or the pattern ended, exactly when nothing is reported or the report begins in a token; anything else cuts out exactly the reported match, which begins in a plain piece and ends before a token or the end, and takes out a second piece only when it runs into a token |
| PrismWalk.Containing | app/src/domain/http_domain/static_resources/configuration/scripts/prism.js:1 | the piece found is the one whose stretch of the text holds the character |
| PrismWalk.AffectedEnd | app/src/domain/http_domain/static_resources/configuration/scripts/prism.js:1 | the pieces taken cover the match, and each begins before its end or is plain text |
| PrismWalk.SplicedTiles | app/src/domain/http_domain/static_resources/configuration/scripts/prism.js:1 | replacing the affected pieces keeps the whole invariant: text, lengths, no adjacent plain pieces, and the place of every other token |
| PrismWalk.CutProgress | app/src/domain/http_domain/static_resources/configuration/scripts/prism.js:1 | a replacement moves on in the text or makes the list longer: the walk cannot go on for ever |
| PrismTheorems.TokensAreReported | app/src/domain/http_domain/static_resources/configuration/scripts/prism.js:1 | every piece at every depth of nesting covers its own stretch of the whole text, no two plain pieces touch, and each token stands where the oracle reported a match of the pattern it is named after, in the grammar of its depth |
| PrismTheorems.TilesAtEveryDepth | app/src/domain/http_domain/static_resources/configuration/scripts/prism.js:1 | the invariant of one list carries down to every token inside a token |
| PrismComplete.NoMatchPassedOver | app/src/domain/http_domain/static_resources/configuration/scripts/prism.js:1 | over every walk from the first piece that runs to its end: where a pattern without `greedy` is reported to match the text of a plain piece, the result holds that token in its place, with its content tokenized in turn; where it is not, the piece; and every token is kept |
| PrismComplete.WalkWorks | app/src/domain/http_domain/static_resources/configuration/scripts/prism.js:1 | such a walk works on every piece from where it begins: text before the match, token, and the same for the text behind |
| PrismComplete.TokenizeWorks | app/src/domain/http_domain/static_resources/configuration/scripts/prism.js:1 | tokenizing with patterns without `greedy` works through them one after the other, each on every plain piece the ones before have left |
| PrismComplete.TokenizeOne | app/src/domain/http_domain/static_resources/configuration/scripts/prism.js:1 | with a single pattern, the exact pieces for every text |
| PrismComplete.GreedyNowhere | app/src/domain/http_domain/static_resources/configuration/scripts/prism.js:1 | a greedy pattern that is reported nowhere is done |
| PrismComplete.GreedyInToken | app/src/domain/http_domain/static_resources/configuration/scripts/prism.js:1 | when its match begins in a token, the walk goes on behind that token |
| PrismComplete.GreedyInPlain | app/src/domain/http_domain/static_resources/configuration/scripts/prism.js:1 | when it begins in a plain piece, the result of the walk holds the token of the match, in its place |
| PrismTheorems.AbortNeverFires | app/src/domain/http_domain/static_resources/configuration/scripts/prism.js:1 | the `n.length>e.length` guard never fires on a nonempty text when no pattern matches the empty string, in rematches neither |
| PrismTheorems.EmptyMatchAborts | app/src/domain/http_domain/static_resources/configuration/scripts/prism.js:1 | over every nonempty text, a pattern reported to match the empty string wherever it is asked for makes the guard fire in every walk, a rematch's too, that meets a plain piece within its reach |
| PrismTheorems.EmptyMatchHarmless | app/src/domain/http_domain/static_resources/configuration/scripts/prism.js:1 | a single empty match inside a text of three characters ends without an abort |
| PrismTheorems.EmptyText | app/src/domain/http_domain/static_resources/configuration/scripts/prism.js:1 | an empty text stays one empty piece; the guard fires at the first pattern, if there is one |
| PrismTheorems.RematchOnlyAfterLostToken | app/src/domain/http_domain/static_resources/configuration/scripts/prism.js:1 | a match affects more than one piece exactly when a token is among them, so rematching is entered only then |
| PrismTheorems.SwallowedThenFound | app/src/domain/http_domain/static_resources/configuration/scripts/prism.js:1 | for every text and any grammar of two greedy patterns that match nothing beyond the three matches given, nor the empty string: when the second's match runs into the token of the first, that token is swallowed, and the rematch finds the first pattern's match behind it; the whole result is given |
| PrismTheorems.RematchFinds | app/src/domain/http_domain/static_resources/configuration/scripts/prism.js:1 | the rematch passes the token that caused it and puts the next match behind it in place, with the reach it was given |
| PrismRender.EscapedTextShown | app/src/domain/http_domain/static_resources/configuration/scripts/editor.js:1-3 | decoding `escapeHTML(t)` gives exactly `t`, in any context |
| PrismRender.TagWholeIff | app/src/domain/http_domain/static_resources/configuration/scripts/prism.js:1 | the opening tag written for a token is the tag that is read, whatever follows, if and only if its class string lets no `>` end the tag and leaves no value open |
| PrismRender.TagShownIff | app/src/domain/http_domain/static_resources/configuration/scripts/prism.js:1 | nothing of an opening tag is shown and nothing behind it is lost, whatever follows, if and only if reading its class string on, through tags it may open, shows nothing and ends where the attribute does |
| PrismRender.UnquotedContained | app/src/domain/http_domain/static_resources/configuration/scripts/prism.js:1 | names and aliases without a `"` never break out, whatever else they hold |
| PrismRender.QuoteFreeClean | app/src/domain/http_domain/static_resources/configuration/scripts/prism.js:1 | a grammar whose names and aliases hold no `"` gives rise to no class string that is seen |
| PrismRender.PiecesShown | app/src/domain/http_domain/static_resources/configuration/scripts/prism.js:1 | the text content of `stringify(encode(tokens))` is the text of the tokens with no-break spaces made plain, at every depth of nesting, when no class string is seen |
| PrismRender.HighlightShowsCode | app/src/domain/http_domain/static_resources/configuration/scripts/prism.js:1 | highlighting shows all of the code, in order |
| PrismRender.UpdateShowsText | app/src/domain/http_domain/static_resources/configuration/scripts/editor.js:5-10 | through escaping, reading back, tokenizing and rendering, the pane shows exactly what was typed, with the space added behind a final line break |
| PrismRender.PaddedEnds | app/src/domain/http_domain/static_resources/configuration/scripts/editor.js:6 | the padded text never ends with a line break, and nothing but one space is added |
| PrismSpans.PiecesRead | app/src/domain/http_domain/static_resources/configuration/scripts/prism.js:1 | a reader of tags, classes and entities finds in the HTML written for tokens exactly their tree: a span for every token, with its kind and aliases as classes, around its content, at every depth |
| PrismSpans.HighlightReads | app/src/domain/http_domain/static_resources/configuration/scripts/prism.js:1 | highlighting writes that tree for every text, for a grammar whose names and aliases hold no `"` and no white space |
| PrismSpans.UpdateReads | app/src/domain/http_domain/static_resources/configuration/scripts/editor.js:5-10 | after an update the pane reads as the tree of the tokens of what was typed; without a grammar as one text |
| PrismRender.QuoteInAliasShows | app/src/domain/http_domain/static_resources/configuration/scripts/prism.js:1 | the alias `">` breaks out of its attribute: the rest of the tag shows |
| Crc32.ChainIsOneShot | scripts/logs_parser/src/log_data_record.py:37-71 | the checksum chained field by field is that of all bytes at once, for every split into fields |
| Crc32.StepIsShift8 | scripts/logs_parser/src/log_data_record.py:37 | a table lookup of section 8 of RFC 1952 is eight shifts of the register with the byte mixed in |
| CrcPolynomial.ShiftIsTimesX | scripts/logs_parser/src/log_data_record.py:37 | one shift of the register is a multiplication by x modulo the CRC-32 polynomial, given by its exponents |
| CrcPolynomial.RegisterIsRemainder | scripts/logs_parser/src/log_data_record.py:37-71 | after any bits the register is what is left of the message polynomial when some multiple of that polynomial is taken away |
| CrcPolynomial.CrcIsRemainder | scripts/logs_parser/src/log_data_record.py:37-71 | the checksum is the remainder of the message with thirty-two ones in front, with thirty-two ones added, as in section 8 of RFC 1952 |
| CrcPolynomial.RemainderUnique | scripts/logs_parser/src/log_data_record.py:37-71 | no polynomial has two remainders |
| LogSample.CheckValue | scripts/logs_parser/src/log_data_record.py:37-71 | the digits from 1 to 9 have the checksum 0xcbf43926 |
| Crc32.RunInjective | scripts/logs_parser/src/log_data_record.py:37-71 | two registers that differ still differ after any common bytes |
| Crc32.BurstChangesRegister | scripts/logs_parser/src/log_data_record.py:37-71 | any change within four consecutive bytes changes the final register |
| Crc32.BitBurstChangesRegister | scripts/logs_parser/src/log_data_record.py:37-71 | any change within 32 consecutive bits, in the order the register takes them and wherever in a byte they begin, changes the final register |
| Crc32.ResidueIffChecksum | scripts/logs_parser/src/log_data_record.py:64-71 | a message and four bytes match exactly when the register ends on one fixed residue |
| Crc32.ChecksumReached | scripts/logs_parser/src/log_data_record.py:64-71 | between any two byte strings there is exactly one word with which the checksum is a given one |
| LogReader.Stream.Read | scripts/logs_parser/src/log_data_record.py:34 | a read returns the next bytes, fewer only at the end, and moves past them |
| LogReader.ReadPrefix | scripts/logs_parser/src/log_data_record.py:31-56 | mark, time, sensor and length read in turn, with every early end and every short field |
| LogReader.ReadData | scripts/logs_parser/src/log_data_record.py:86-90 | the analog reader refuses any length but four without reading |
| LogReader.CreateRecord | scripts/logs_parser/src/log_data_record.py:31-73 | the field-by-field reader returns exactly what the bytes at the front hold (a record, nothing, or an exception) and takes exactly the bytes it says, for every data length |
| LogReader.ReadVersions | scripts/logs_parser/src/log_data_header.py:25-43 | file type, version and metadata version, with undecodable bytes, early ends and the one field that may be short |
| LogReader.CreateHeader | scripts/logs_parser/src/log_data_header.py:21-64 | the same for the 32-byte header |
| LogTheorems.RecordRoundTrip | scripts/logs_parser/src/log_data_record.py:31-73 | an encoded record reads back as it was written exactly when its checksum is not 0, whatever follows it |
| LogTheorems.ZeroChecksumIff | scripts/logs_parser/src/log_data_record.py:64-73 | for every sensor and data there is exactly one time at which the record's checksum is 0 |
| LogTheorems.AcceptedIsEncoded | scripts/logs_parser/src/log_data_record.py:31-73 | the reader accepts nothing but encodings: what it returns, encoded again, is what it read |
| LogTheorems.BurstRejected | scripts/logs_parser/src/log_data_record.py:31-73 | a valid analog record changed anywhere within 32 consecutive bits, wherever in a byte they begin, across the data/checksum boundary or the record's end too, is always rejected |
| LogTheorems.RecordsRoundTrip | scripts/logs_parser/src/log_file.py:61-72 | any list of encoded records reads back in order, up to the first whose checksum is 0 |
| LogTheorems.RecordsCut | scripts/logs_parser/src/log_file.py:61-72 | a list of records cut at any byte yields exactly the whole records before the cut, up to the first whose checksum is 0, and an exception exactly when reading gets to the cut and it is within a field or before a checksum |
| LogTheorems.RecordsDamaged | scripts/logs_parser/src/log_file.py:61-72 | a list of records damaged within 32 consecutive bits, across two records or not, yields exactly the records before the first one changed, up to the first whose checksum is 0 |
| LogTheorems.HeaderRoundTrip | scripts/logs_parser/src/log_data_header.py:21-64 | an encoded header reads back exactly when its checksum is not 0 |
| LogTheorems.ZeroHeaderIff | scripts/logs_parser/src/log_data_header.py:57-64 | for every other content of a header there is exactly one version with which its checksum is 0 |
| LogTheorems.LogRoundTrip | scripts/logs_parser/src/log_file.py:57-72 | a whole log reads back as it was written: header, and records in order up to the first whose checksum is 0; nothing when the header's is 0 |
| LogTheorems.LogCut | scripts/logs_parser/src/log_file.py:57-72 | a whole log cut anywhere behind its header yields the header and the whole records before the cut, up to the first whose checksum is 0 |
| LogTheorems.HeaderBurst | scripts/logs_parser/src/log_data_header.py:57-64 | a header changed within 32 consecutive bits is never accepted |
| LogTheorems.LogDamaged | scripts/logs_parser/src/log_file.py:57-72 | a whole log damaged within 32 consecutive bits is not taken for a log when its header is changed; otherwise it yields the header and the records before the first one changed, up to the first whose checksum is 0 |
| LogTheorems.HeaderCut | scripts/logs_parser/src/log_data_header.py:57-64 | fewer than 32 bytes are never a header |
| LogSample.HeaderSample | scripts/logs_parser/tests/test_log_file.py:49-57 | the header of the log the tests read is accepted, with the fields they expect |
| LogSample.RecordSample | scripts/logs_parser/tests/test_log_file.py:63-66 | so is its first record |
| LogFile.HeaderLine | scripts/logs_parser/src/log_file.py:44-51 | the title line, and the sensors' hashes in column order |
| LogFile.RecordLine | scripts/logs_parser/src/log_file.py:63-70 | the line for one record |
| LogFile.ToCsv | scripts/logs_parser/src/log_file.py:40-74 | all that is written, line by line, and the result, for every input: no header, an exception in the header or in a record, a quiet end |
| LogFile.ToJson | scripts/logs_parser/src/log_file.py:15-38 | all that is written, commas included, and the result, for every input |
| LogJson.JsonReads | scripts/logs_parser/src/log_file.py:15-38 | what is written when the conversion returns true is one object with exactly the members `header` and `records`; the first is the header as spelled, the second an array whose elements are exactly the records as spelled, in order |
| LogJson.JsonUnfinished | scripts/logs_parser/src/log_file.py:15-38 | what is written is one object if and only if the conversion returns true |
| LogFile.ResultMeans | scripts/logs_parser/src/log_file.py:20-38 | true when record after record is read and then none is found, false when there is no header, an exception exactly when the reader raises one |
| LogTable.RowSplit | scripts/logs_parser/src/log_file.py:63-68 | with k >= 1 sensors a row splits into exactly k+1 cells; cell i holds the value exactly when the record is sensor i's |
| LogTable.OneCellFilled | scripts/logs_parser/src/log_file.py:65-68 | with distinct hashes at most one value cell is filled |
| LogTable.HeaderReads | scripts/logs_parser/src/log_file.py:44-51 | the title line, cut at the commas outside quotes, gives exactly the titles it was made from if and only if in every label, the name and unit together, the quotes come in pairs with no comma between the two of a pair |
| LogTable.ColumnsAgreeIff | scripts/logs_parser/src/log_file.py:43-70 | the title line reads as its titles and has as many columns as every row if and only if there is a sensor and no label, the name and unit together, upsets the quotes |
| LogTable.QuoteFreeNeutral | scripts/logs_parser/src/log_file.py:49-50 | a name and a unit without quotes upset nothing, whatever commas they hold |
| LogTable.ColumnsAgreeBare | scripts/logs_parser/src/log_file.py:53-70 | without metadata the title line has two columns, and a row is the time and the value |
| LogTable.QuotedNameSplits | scripts/logs_parser/src/log_file.py:49-50 | one sensor named `a","b` makes a title line of three columns |
| LogTable.ColumnIsSeries | scripts/logs_parser/src/log_file.py:61-72 | column i read back is exactly sensor i's time series |
| LogTable.TableReadsBack | scripts/logs_parser/src/log_file.py:40-74 | from the text alone: one line per record behind the title line, and every sensor's series in its column |
| LogTable.SeriesDetermines | scripts/logs_parser/src/log_file.py:63-68 | when numbers are spelled one to one, equal series mean equal recordings |
| CanbusScheduler.CanbusSchedulerService.CreateTask | app/src/domain/canbus_domain/services/canbus_scheduler_service.cpp:75-102 | a task for a message with a bus, a DBC entry and a send interval, and for no other |
| CanbusTasks.WantedIff | app/src/domain/canbus_domain/services/canbus_scheduler_service.cpp:75-125 | there is a job exactly for the messages with a bus, a DBC entry and a send interval |
| CanbusTasks.WantedInOrder | app/src/domain/canbus_domain/services/canbus_scheduler_service.cpp:114-125 | jobs stand in the order of the configuration |
| CanbusScheduler.CanbusSchedulerService.StartTasks | app/src/domain/canbus_domain/services/canbus_scheduler_service.cpp:104-109 | its steps, and whatever the queue does between them, are a run of the protocol; every task is queued, and nothing else changes when the queue does nothing of its own |
| CanbusScheduler.CanbusSchedulerService.Start | app/src/domain/canbus_domain/services/canbus_scheduler_service.cpp:111-129 | a run of the protocol, for whatever the queue does meanwhile; tasks for exactly the eligible messages are added behind the old ones in configuration order, and all are queued |
| CanbusScheduler.CanbusSchedulerService.Pause | app/src/domain/canbus_domain/services/canbus_scheduler_service.cpp:138-147 | a run of the protocol, for whatever the queue does meanwhile; when it returns no task is queued or running, and the tasks are the same |
| CanbusScheduler.CanbusSchedulerService.Resume | app/src/domain/canbus_domain/services/canbus_scheduler_service.cpp:149-154 | a run of the protocol; every task is queued again |
| CanbusScheduler.CanbusSchedulerService.Restart | app/src/domain/canbus_domain/services/canbus_scheduler_service.cpp:131-136 | a run of the protocol, for whatever the queue does meanwhile; when it returns the tasks are exactly those of the configuration |
| CanbusTasks.ProcessCanbusWorkTask | app/src/domain/canbus_domain/services/canbus_scheduler_service.cpp:37-73 | one run sends at most one frame: the one that comes out of the processors, each handed what the ones before made of it, if it is not empty and the bus takes it; none after an exception; it is repeated unless the bus is invalid |
| CanbusTasks.ProcessedIff | app/src/domain/canbus_domain/services/canbus_scheduler_service.cpp:51-59 | a frame comes out of the processors exactly when each is handed what the ones before made of the frame and none throws; what one returns replaces the frame unless it is empty |
| CanbusTasks.NothingSentIff | app/src/domain/canbus_domain/services/canbus_scheduler_service.cpp:37-73 | nothing is sent exactly when the bus is invalid, building fails, a processor throws, the last frame is empty, or the bus does not take it |
| CanbusTasks.FrameSurvives | app/src/domain/canbus_domain/services/canbus_scheduler_service.cpp:51-59 | a frame is never lost to a processor that returns nothing |
| CanbusProtocol.InvKept | app/src/domain/canbus_domain/services/canbus_scheduler_service.cpp:104-154 | every step of the calls and of the queue keeps the invariant: canceled tasks stay quiet, one run at a time, tasks match the configurations started |
| CanbusProtocol.PausedUntilStarted | app/src/domain/canbus_domain/services/canbus_scheduler_service.cpp:138-147 | over every run: once Pause has returned nothing is queued, runs or sends until Start, Resume or Restart |
| CanbusProtocol.ClearedWhenQuiet | app/src/domain/canbus_domain/services/canbus_scheduler_service.cpp:131-136 | Restart destroys the tasks only when none is queued or running |
| CanbusProtocol.JobsBetweenCalls | app/src/domain/canbus_domain/services/canbus_scheduler_service.cpp:111-154 | over every run: between calls the tasks are exactly those of the configurations started since the last clear, in order |
| CanbusProtocol.RestartedJobs | app/src/domain/canbus_domain/services/canbus_scheduler_service.cpp:131-136 | after a Restart there is exactly one task per eligible message, in configuration order, whatever went before |
| CanbusProtocol.StartsAddUp | app/src/domain/canbus_domain/services/canbus_scheduler_service.cpp:111-136 | over every run: k starts with one configuration since the tasks were last cleared leave k tasks for every job between calls |
| ConfigUpload.SensorsApiController.SensorsConfigPostHandler | app/src/domain/http_domain/controllers/api/sensors_api_controller.cpp:70-109 | cursor and buffer together hold exactly the chunks of the body so far; reply, body handed on and error answer for every status |
| ConfigUpload.HeldIsJoined | app/src/domain/http_domain/controllers/api/sensors_api_controller.cpp:70-109 | over every sequence of calls the bytes held are the chunks since the last abort, overflow or final chunk, and never exceed the buffer |
| ConfigUpload.RepliesToBody | app/src/domain/http_domain/controllers/api/sensors_api_controller.cpp:78-108 | -ENOMEM exactly when the next chunk would not fit into 24576 bytes, 0 otherwise; the final chunk hands on exactly the concatenation; an exception is answered with what it says |
| ConfigUpload.CallsAre | app/src/domain/http_domain/controllers/api/sensors_api_controller.cpp:70-109 | the bytes held are those of the calls since anybody ended a body; a client's own body is that of its calls since it itself aborted, was refused or sent a last chunk |
| ConfigUpload.OwnBodyIff | app/src/domain/http_domain/controllers/api/sensors_api_controller.cpp:71-106 | the body handed on at a client's last chunk is made up of exactly its own chunks, by call and not by content, if and only if nothing was held when the first of them that brings bytes came (the last, if none before it does) and no other client has sent bytes, aborted or sent a last chunk since |
| ConfigUpload.CutShort | app/src/domain/http_domain/controllers/api/sensors_api_controller.cpp:71-106 | another client's abort, or its empty last chunk, takes away what a client has sent |
| DisplayLogging.DisplayController.StartAnimation | app/src/controllers/display_controller.cpp:25-58 | a valid or negative number starts an animation and is remembered, any other changes nothing |
| DisplayLogging.InitializedOnce | app/src/controllers/display_controller.cpp:15-23 | initialising a display with a frame buffer for the first time runs animation 0; otherwise nothing changes |
| DisplayLogging.AnimationCalls | app/src/controllers/display_controller.cpp:25-82 | halting and printing stop the animation, a valid number starts the one it names, a negative one the last |
| DisplayLogging.DisplayController.StopAnimation | app/src/controllers/display_controller.cpp:60-71 | the animation object goes, and the frame buffer stops calling it |
| DisplayLogging.DisplayController.AddStatus | app/src/controllers/display_controller.cpp:84-90 | the status is shown and the animation stops, on an initialised display |
| DisplayLogging.DisplayController.RemoveStatus | app/src/controllers/display_controller.cpp:92-98 | the status goes, and the animation starts again when none is left |
| DisplayLogging.DisplayController.ClearStatuses | app/src/controllers/display_controller.cpp:100-106 | all statuses go, and the animation starts again |
| DisplayLogging.DisplayController.PrintStringLine | app/src/controllers/display_controller.cpp:73-82 | printing a line stops the animation on an initialised display |
| DisplayLogging.AnimatedIffNoStatus | app/src/controllers/display_controller.cpp:84-116 | over every sequence of calls: after a status call an animation runs exactly when no status is left, and it is the one last validly asked for |
| DisplayLogging.StatusShownIff | app/src/controllers/display_controller.cpp:84-106 | over every sequence of calls, a status is shown exactly when the last call that put it there or took it away put it there |
| DisplayLogging.LoggingController.LogWriterStart | app/src/controllers/logging_controller.cpp:39-49 | starting a running writer does nothing; a start that succeeds shows "log" |
| DisplayLogging.LoggingController.LogWriterStop | app/src/controllers/logging_controller.cpp:51-61 | stopping a stopped writer does nothing; a stop that succeeds takes "log" away |
| DisplayLogging.AnnouncedIff | app/src/controllers/logging_controller.cpp:39-61 | a call keeps "log is shown exactly while the writer runs" if and only if it is not one of the calls named in `Breaks` |
| DisplayLogging.LogShownIffRunning | app/src/controllers/logging_controller.cpp:39-61 | over every run without such a call, initialisations of the display included, "log" is shown exactly while the writer runs |
| DisplayLogging.StartedTooEarly | app/src/controllers/logging_controller.cpp:39-49 | a writer started before the display is initialised stays unannounced, after the initialisation too, until it stops or somebody else puts "log" there |
| DotPath.JumpsStayIff | app/src/views/animations/dot_path_animation.cpp:107-134 | along an axis, jump and bounce keep every point within the margins for all draws if and only if that axis is at least 80 long between them |
| DotPath.RoomIff | app/src/views/animations/dot_path_animation.cpp:15-18 | that is so along both axes if and only if the shorter side of the screen is at least 100 |
| DotPath.NarrowDisplay | boards/eerieleap/esp32s3_pm_hw_02/esp32s3_pm_hw_02_procpu.dts:188-189 | on the 128 by 32 display it is so along the rows and not across them |
| DotPath.EightDirections | app/src/views/animations/dot_path_animation.cpp:107-120 | steps along the axes by the whole length, along the diagonals by 0.707106781 of it on both |
| DotPath.DirectionsDiffer | app/src/views/animations/dot_path_animation.cpp:107-120 | no two of the eight directions are the same |
| DotPath.PathSteps | app/src/views/animations/dot_path_animation.cpp:87-134 | every point of a path is one jump from the one before: the step drawn, and two lengths back on an axis whose margin this has crossed |
| DotPath.EaseShape | app/src/views/animations/utilities/animation_math_helpers.h:15-20 | easing maps 0 to 0 and 1 to 1, never falls, and E(1-p) = 1-E(p), for every whole exponent from 1 on |
| DotPath.EasePower | app/src/views/animations/utilities/animation_math_helpers.h:15-20 | up to the middle easing goes by the power: at the fraction c of the way it is at the fraction c to the exponent; in the middle it is in the middle |
| DotPath.LookupInRange | app/src/views/animations/dot_path_animation.cpp:56-69 | both points looked up are among the 91 generated |
| DotPath.AlongAll | app/src/views/animations/dot_path_animation.cpp:56-60 | the way is 90 jumps long but for its ten-thousandth part, and the last jump is travelled |
| DotPath.DotOnPath | app/src/views/animations/dot_path_animation.cpp:56-76 | a dot that has come a whole number of jumps lies on its path point, with the size given there |
| DotPath.DotHalfway | app/src/views/animations/dot_path_animation.cpp:56-76 | one that has come half a jump more lies in the middle between two |
| DotPath.DotDrawnIff | app/src/views/animations/dot_path_animation.cpp:38-49 | a dot of a frame is drawn, in its turn, exactly when it is on the screen and large enough |
| DotPath.FiftyFramesAreATurn | app/src/views/animations/dot_path_animation.cpp:51-53 | time goes round once in fifty frames |
| DotPath.DotsFollow | app/src/views/animations/dot_path_animation.cpp:39 | in one turn every dot comes to where the next one was |
| DotPath.DotPathAnimation.Initialize | app/src/views/animations/dot_path_animation.cpp:15-29 | ninety jumps from the start, the sizes drawn, and nothing at both ends |
| DotPath.DotPathAnimation.GetPositionAndSize | app/src/views/animations/dot_path_animation.cpp:56-76 | the dot lies the eased fraction between two neighbouring points |
| DotPath.DotPathAnimation.Animate | app/src/views/animations/dot_path_animation.cpp:31-54 | the dots of a frame, and the time kept within one turn |
| DotPath.AnimationStays | app/src/views/animations/dot_path_animation.cpp:15-76 | on every screen, along each axis, all 91 path points and all drawn dots of every frame stay within reach: the margins of an axis long enough, and no farther than 80 from the other margin of one that is not |

## Left out

- PrismSpans.HighlightReads: needs names and aliases free of `"` and white space, without which the classes of an attribute cannot be told apart; empty ones leave no class.
- PrismComplete.GreedyInPlain: speaks of one match of a walk; which later matches a greedy pattern has is told by the same lemma from the piece behind the token on, as its contract on the walk is for every piece.
- PrismTheorems.SwallowedThenFound: gives the whole result for grammars of two patterns, neither of which matches anything further or the empty string; with more, what each step does is `PrismTokenizer.Replace` and `PrismWalk.Rematched`.
- PrismTokenizer.Tokenize: grammars are trees; one that refers to itself is not modelled, and two grammars sharing a `rest` object, which the first use changes for both, are modelled as if each had its own copy.
- PrismTokenizer.MatchGrammar: the entries of a grammar and their arrays of patterns are one sequence of steps in the order the two loops visit them; names that look like array indices, which JavaScript visits first, keep their written order.
- PrismTokenizer.MakeToken: the length of a token is not cut to 32 bits; no text is that long.
- PrismRender.UpdateShowsText: needs that no class attribute of the grammar is seen, as none without a `"` is, since `PrismRender.QuoteInAliasShows` breaks out; a `<` that neither a letter nor a slash follows, which only such an alias could bring in, is read as a tag too; a browser's handling of carriage returns and null characters is not modelled.
- LogFile.ToCsv: numbers are spelled by functions of the library; that spellings hold no comma, quote or line break is an assumption of the theorems about the table, and sensor names must hold no line break.
- CanbusProtocol.PausedUntilStarted: rests on the stated behaviour of canceling, since the work queue is not part of the repository; that Pause returns at all is not claimed, because a task with a short interval can start again between two attempts to cancel it.
- CanbusScheduler.CanbusSchedulerService.Pause: gives up after a given number of attempts to cancel, with the call still under way, so that the method ends; what it does in that time, and afterwards if it returns, is not limited by that.
- DotPath.JumpsStayIff: over real numbers; rounding of floats and the conversion of a point outside the screen to pixels are not modelled, and the exponent of the easing is a whole number (the animation uses 4).
- Hooks, language registration, DOM access and web workers of Prism; the rest of the editor (loading, saving, menus): calls into the browser.
- The contents of the JSON a log is written as, the CBOR metadata reader, the parsing of uploaded configurations: library code.
- The GET handler of the upload controller, and the layout of the statuses on the screen: no property beyond their bodies.
- The other animations, Wi-Fi, HTTP server, SD card, device tree, board files and `main.cpp`: input, output and configuration.
- Everything in the core module that the repository imports but does not hold (order resolver, interpolators, MDF writer, work queue) is not part of this model.
