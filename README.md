# vigil core in Dafny

vigil is a small Wake-on-LAN server. It keeps a table of hosts (name, IP
address, MAC address) in SQLite and sends a magic packet to a host's MAC.
This project models its two core files and proves properties of the model:

- `src/net.rs`:
  - parsing a colon-separated MAC address (`MacAddress::from_str`), with
    `u8::from_str_radix(…, 16)` from Rust's standard library written out as a
    function;
  - indexing an address;
  - building the 102-byte magic packet (`MagicPacket::for_mac_address`,
    `MagicPacket::bytes`).
- `src/db.rs`:
  - the `Host` and `HostUpdate` records;
  - `Host::get_by_id`, `create`, `update` and `delete`;
  - the query-and-argument builder inside `update`.

Files:

| file | module | contents |
|---|---|---|
| `types.dfy` | `Types` | `u8`, `i32`, `Option`, `Result` |
| `hex.dfy` | `Hex` | `from_str_radix` for radix 16 into a byte, with a reference description of the texts it accepts |
| `text.dfy` | `Text` | `str::split` on a character, its inverse `Join`, counting a character |
| `net.dfy` | `Net` | MAC parsing and magic packets |
| `net_tests.dfy` | `SplitExamples`, `NetTests` | the unit tests of `src/net.rs` as lemmas |
| `db.dfy` | `Db` | host records, the database as an oracle, the four operations |

How the source is modelled:

- **Imperative code becomes methods proved against functions.**
  - `Net.FromStr` keeps the source's loop over the segments. It writes into a six-byte `array` and counts with `n`. It is proved equal to the function `Net.ParseMac`.
  - `Net.ForMacAddress` fills a 102-byte `array` with the same three loops as the source. It is proved equal to the reference layout `Net.MagicBytes`.
  - `Db.BuildUpdate` appends to `query` and `args` under the same three conditionals as the source. It is proved equal to `Db.UpdateQuery` and `Db.UpdateArgs`.
  - The properties the source promises are lemmas about those functions.
- **A panic is an outcome.** Writing a seventh segment to `bytes[6]` panics in Rust. `ParseOutcome.IndexPanic(6)` models that panic.
- **Rust's `?` on the assignment evaluates the right-hand side first.** A seventh segment that is not hex therefore returns its parse error and never reaches the write. A seventh segment that is valid hex panics.
- **`MacAddress` indexing** (`Index<usize>`, src/net.rs:29-35) is `Net.MacAddress.Index`. Its precondition `index < 6` stands for the array bound, which panics in Rust. The packet builder reads the address only through it, so every read there is proved in bounds.
- **The database is an oracle.** A `Db.Db` object holds three functions:
  - `fetchId`, the id row an insert returns;
  - `fetchHost`, the host row a select returns, or an error such as "no row";
  - `execute`, the row count a statement reports.

  Each function is applied to the list of requests served so far and the new query. The object records every request in `served`, so each operation's contract can say exactly which queries it sends, with which bound arguments, in which order, and what it returns for each answer.

Where the code behaves differently from what its names and messages suggest, the model follows the code:

- Parsing does not first check for six segments:
  - a segment that does not parse is reported, with the standard library's error text, before the count is checked;
  - more than six valid segments panic instead of giving "Invalid number of octets".
- A segment may have any number of hex digits, leading zeros and an optional leading `+`, as long as its value fits a byte: `00ff` and `+f` are accepted.
- `update` on an id with no row gives the generic error "Failed to update host"; nothing distinguishes a missing host from any other zero-row outcome. Its query has no commas between the SET clauses. With no field present it reads `UPDATE hosts SET WHERE id = ?`. The id is never bound to the final `?`. All of this is reproduced and stated as lemmas: `Db.UpdateQueryHasNoComma`, `Db.EmptyUpdate`, `Db.FullUpdate` and `Db.UpdatePlaceholdersOutnumberArgs`.
- The database, not the code, hands out ids: `create` returns whatever id the insert reports.

## Model

| member | source | states |
|---|---|---|
| Hex.Message | src/net.rs:17 | the `to_string` texts of the three error kinds, none empty |
| Hex.MessagesDistinct | src/net.rs:17 | different error kinds have different texts, so the text `from_str` returns identifies the kind |
| Hex.FromStrRadix16 | src/net.rs:17 | the byte parser reports `Empty` exactly for the empty string |
| Hex.Accumulate | src/net.rs:17 | the digit loop never reports `Empty` (which kind it reports is `Hex.AccumulateFailure`) |
| Hex.ToDigit | src/net.rs:17 | a character is a digit exactly when it is a hex digit of either case, and its value is below 16 |
| Hex.DigitValueOfLower | src/net.rs:17 | a digit is worth the value whose lower-case digit is its lower-case form, so `A`..`F` read as `a`..`f` |
| Hex.ToDigitIgnoresCase | src/net.rs:17 | lower-casing any character changes neither whether it is a digit nor its value |
| Hex.HexValue | src/net.rs:17 | the reference value of a digit string, most significant digit first, is zero exactly when every digit is `0` |
| Hex.IsByteText | src/net.rs:17 | an accepted text is never empty, never a lone `+` and never starts with `-` |
| Hex.AppendDigit | src/net.rs:17 | appending a digit multiplies the value by 16 and adds the digit |
| Hex.FirstNonDigit | src/net.rs:17 | the position of the first non-digit, with every character before it a digit |
| Hex.AccumulateFailure | src/net.rs:17 | after some digits, the loop overflows exactly when the digits before the first non-digit are worth more than 255, and reports an invalid digit exactly when they fit and a non-digit follows |
| Hex.FromStrRadix16Failure | src/net.rs:17 | `from_str_radix` gives `PosOverflow` exactly when the digits before the first non-digit exceed 255, and `InvalidDigit` exactly on a lone `+` or a non-digit after digits that fit |
| Hex.AccumulateIgnoresCase | src/net.rs:17 | the digit loop gives the same result on the lower-cased text |
| Hex.FromStrRadix16IgnoresCase | src/net.rs:17 | `from_str_radix` gives the same result on the lower-cased text |
| Hex.AccumulateMeansHexValue | src/net.rs:17 | after some digits, the digit loop succeeds exactly when all the text is hex digits with value at most 255, and then yields that value |
| Hex.HexValueMonotone | src/net.rs:17 | appending digits never lowers the value, so an overflow is final |
| Hex.FromStrRadix16Accepts | src/net.rs:17 | `from_str_radix(s, 16)` into `u8` succeeds exactly on an optional `+` then one or more hex digits of value at most 255, and yields their value |
| Hex.TwoDigitsParse | src/net.rs:17 | any two hex digits of either case parse to 16 times the first plus the second |
| Hex.HexChar | src/net.rs:17 | the digit for d < 16 is a lower-case hex digit that reads back as d |
| Hex.FormatOctet | src/net.rs:17 | a byte is written as two lower-case hex digits |
| Hex.FormatOctetRoundTrip | src/net.rs:17 | a byte written as two lower-case digits parses back to the same byte |
| Hex.FromStrRadix16Examples | src/net.rs:17 | "" is Empty, "+" and "-1" and "eg" are InvalidDigit, "+fF" and "00ff" are 255, "100" overflows |
| Text.IndexOf | src/net.rs:16 | the result is the position of the first separator, or the length when there is none |
| Text.Split | src/net.rs:16 | splitting always gives at least one piece, and no piece holds the separator |
| Text.JoinSplit | src/net.rs:16 | joining the pieces of a split with the separator restores the text |
| Text.SplitJoin | src/net.rs:16 | splitting the join of separator-free pieces gives those pieces back |
| Text.SplitCount | src/net.rs:16 | a split has one more piece than the text has separators |
| Text.JoinAll | src/net.rs:16 | a join holds only characters allowed by a property that the separator and every piece's characters have |
| Text.LowerChar | src/net.rs:17 | ASCII lower-casing maps `A`..`Z` to `a`..`z` in order and leaves every other character alone |
| Text.LowerAll | src/net.rs:16 | each piece lower-cased, piece by piece |
| Text.IndexOfLower | src/net.rs:16 | lower-casing does not move the first separator when the separator is not a letter |
| Text.LowerSlices | src/net.rs:16 | lower-casing commutes with cutting the text around a position |
| Text.SplitLower | src/net.rs:16 | splitting the lower-cased text gives the lower-cased pieces |
| Text.OccurrencesAppend | src/db.rs:83-101 | the count of a character in a concatenation is the sum of the counts |
| Text.OccurrencesOnlyLast | src/db.rs:87 | a text whose only occurrence of a character is its last holds that character once |
| Net.FirstRejected | src/net.rs:16-18 | every segment before the result parses as a byte, and the segment at the result, if any, does not |
| Net.ByteValues | src/net.rs:13-19 | for segments that all parse, one byte per segment, each the parsed value of its segment |
| Net.MacAddress.Index | src/net.rs:29-35 | byte `index` of the address is the result: the address is the bytes before it, the result, and the bytes after it |
| Net.ParseSegments | src/net.rs:13-25 | the outcome of the segment loop: a panic only at index 6 and only with more than six segments, an address only from six segments, and an error only as the octet-count error or after a rejected segment |
| Net.ParseMac | src/net.rs:12-26 | `from_str` as a function of the text; an accepted text has exactly five colons |
| Net.FromStr | src/net.rs:12-26 | the segment loop writing into six bytes gives exactly `ParseMac`, and when it panics the index is 6 |
| Net.ParseAcceptsExactly | src/net.rs:13-22 | parsing succeeds exactly when there are six segments and each parses, and then byte i of the address is the value of segment i |
| Net.ParseTooFewOctets | src/net.rs:21-25 | fewer than six valid segments give `Err("Invalid number of octets")` |
| Net.ParseStopsAtFirstRejected | src/net.rs:16-18 | the first rejected segment among the first seven ends parsing with its error text, whatever follows it |
| Net.ParseTooManyOctets | src/net.rs:16-18 | more than six segments never give an address, and they panic at index 6 exactly when the first seven all parse |
| Net.TwoDigitOctetsParse | src/net.rs:13-22 | six two-digit hex octets of either case joined by colons always parse, each byte being its octet's value |
| Net.ParseMacIgnoresCase | src/net.rs:12-26 | parsing the lower-cased text gives the same outcome, so hex letters of either case are read alike |
| Net.FormatMac | src/net.rs:12-26 | the canonical text of an address holds only colons and lower-case hex digits |
| Net.FormatParseRoundTrip | src/net.rs:12-26 | an address written as six lower-case octets parses back to the same address |
| Net.MagicBytes | src/net.rs:41-53 | the reference packet is 102 bytes and starts with six 0xff |
| Net.Repeat | src/net.rs:49-53 | n copies of s are n times as long as s |
| Net.RepeatAt | src/net.rs:49-53 | byte j of copy i of a six-byte address is at offset 6i + j |
| Net.MagicBytesLayout | src/net.rs:41-53 | the packet is 102 bytes, the first six are 0xff, and for i < 16 and j < 6 byte 6 + 6i + j is byte j of the address |
| Net.SlotsInBounds | src/net.rs:37-53 | every write of the repetition loops lands in 6..101, the last at 101, no two on the same byte |
| Net.SlotCovers | src/net.rs:44-53 | every byte from 6 to 101 is written by the repetition loops |
| Net.MagicBytesDetermineMac | src/net.rs:40-56 | bytes 6..12 of the packet are the address, so different addresses give different packets |
| Net.MagicPacket.Bytes | src/net.rs:58-60 | `bytes()` returns the very buffer the packet holds |
| Net.ForMacAddress | src/net.rs:40-60 | filling the zeroed 102-byte buffer in place gives exactly `MagicBytes(mac)`, which `bytes()` returns |
| SplitExamples.ValidTextSplits | src/net.rs:81 | "01:23:45:ab:cd:ef" splits into its six octets |
| SplitExamples.ShortTextSplits | src/net.rs:88 | "01:23:45:ab" splits into four octets |
| SplitExamples.LongTextSplits | src/net.rs:94 | "01:23:45:ab:cd:ef:45" splits into seven octets |
| SplitExamples.InvalidTextSplits | src/net.rs:100 | "01:23:45:ab:cd:eg" splits into six segments, the last "eg" |
| NetTests.ValidSegmentsParse | src/net.rs:80-83 | the six test octets parse to 01 23 45 ab cd ef |
| NetTests.ParseValidExample | src/net.rs:80-83 | "01:23:45:ab:cd:ef" parses to the bytes [0x01, 0x23, 0x45, 0xab, 0xcd, 0xef] |
| NetTests.ShortSegmentsFail | src/net.rs:86-89 | four valid octets give the octet-count error |
| NetTests.ParseTooFewExample | src/net.rs:86-89 | "01:23:45:ab" fails with "Invalid number of octets" |
| NetTests.LongSegmentsPanic | src/net.rs:92-95 | seven valid octets panic at index 6 |
| NetTests.ParseTooManyExample | src/net.rs:92-95 | "01:23:45:ab:cd:ef:45" panics writing index 6, as the test expects |
| NetTests.InvalidSegmentsParse | src/net.rs:98-101 | the segments ending in "eg" fail with "invalid digit found in string" |
| NetTests.ParseInvalidHexExample | src/net.rs:98-101 | "01:23:45:ab:cd:eg" fails with "invalid digit found in string" |
| Db.Db.constructor | src/db.rs:8 | a connection starts with the given oracles and no request served |
| Db.Db.FetchOneId | src/db.rs:61-72 | `fetch_one` of an id row answers what the oracle says for the history so far, and appends the request to the history |
| Db.Db.FetchOneHost | src/db.rs:51-55 | `fetch_one` of a host row answers what the oracle says for the history so far, and appends the request to the history |
| Db.Db.Execute | src/db.rs:103 | `execute` answers the oracle's row count for the history so far, and appends the request to the history |
| Db.AppendClauses | src/db.rs:86-99 | appending clauses only extends the query: the starting text stays a prefix |
| Db.UpdateQuery | src/db.rs:83-101 | the built query begins with "UPDATE hosts SET" and ends with " WHERE id = ?" |
| Db.UpdateArgs | src/db.rs:84-99 | one argument per present field, all of them strings |
| Db.AppendClausesAppend | src/db.rs:86-99 | appending the clauses of two lists in turn is appending the clauses of their concatenation |
| Db.AppendEntry | src/db.rs:86-99 | an optional field appends its clause exactly when it is present |
| Db.AppendFragment | src/db.rs:86-99 | an optional field's clauses are its fragment: its clause when present, nothing when absent |
| Db.UpdateFragments | src/db.rs:83-101 | the query is "UPDATE hosts SET", then the fragments of the present fields in the order name, ip_address, mac_address with no separator, then " WHERE id = ?"; the arguments are the present values in the same order |
| Db.UpdateArgsArePresentFields | src/db.rs:84-99 | there is one argument per present field, all strings, the name first and the MAC address last when present, and none is the id |
| Db.ClauseShape | src/db.rs:87-97 | each SET clause ends in its one `?` |
| Db.ClauseHasNoComma | src/db.rs:87-97 | no SET clause holds a comma |
| Db.AppendClausesText | src/db.rs:86-99 | each appended clause adds exactly one `?` and no comma |
| Db.PrefixHasNoPlaceholder | src/db.rs:83 | "UPDATE hosts SET" holds no `?` |
| Db.SuffixShape | src/db.rs:101 | " WHERE id = ?" ends in its one `?` |
| Db.FixedTextPlaceholders | src/db.rs:83-101 | the prefix holds no `?` and the suffix holds one |
| Db.FixedTextHasNoComma | src/db.rs:83-101 | neither the prefix nor the suffix holds a comma |
| Db.QueryPlaceholders | src/db.rs:83-101 | the prefix, the clauses of some assignments and the suffix hold one `?` per assignment plus one |
| Db.UpdatePlaceholdersOutnumberArgs | src/db.rs:84-103 | the query has one `?` more than there are bound arguments, and there are as many arguments as present fields: the id is never bound |
| Db.UpdateQueryHasNoComma | src/db.rs:83-101 | the update query never holds a comma, so two or more fields run together |
| Db.EmptyUpdate | src/db.rs:83-101 | with no field present the query is "UPDATE hosts SET WHERE id = ?" and nothing is bound |
| Db.FullUpdate | src/db.rs:83-101 | with every field present the three clauses follow each other directly and the three values are bound in order |
| Db.BuildUpdate | src/db.rs:82-101 | the step-by-step builder produces exactly `UpdateQuery(update)` and `UpdateArgs(update)` |
| Db.GetById | src/db.rs:50-58 | one `fetch_one` of the select by id, with the id bound; its answer is the result |
| Db.Create | src/db.rs:60-80 | one insert with name, ip_address and mac_address bound in that order; on success the host has the reported id and the three arguments verbatim, otherwise the error propagates |
| Db.Update | src/db.rs:82-109 | the built statement is executed once; an engine error propagates; zero rows gives `Err("Failed to update host")` with no second request; otherwise the result is exactly the answer of `get_by_id(id)` after the update |
| Db.Delete | src/db.rs:111-118 | one delete by id; the result is `Ok(())` whatever the row count, and only an engine error propagates |

## Left out

- `MagicPacket::broadcast` (src/net.rs:62-72): UDP socket I/O to a fixed broadcast address.
- `Host::get_all` (src/db.rs:41-47): a plain `fetch_all`, not part of the modelled operations.
- `connect` and `Db::close` (src/db.rs:10-24): pool and schema set-up.
- What SQLite does with the queries: the table contents, id allocation by `last_insert_rowid`, and whether a malformed statement fails. These are the `Db.Db` oracle's answers, so no lemma relates the answers to one another.
- `Db.Update`: the model does not say that the stored row changes, nor which fields change. That depends on how SQLite treats the statement, and the statement is malformed for zero or several fields.
- The HTTP handlers in src/api.rs, the wiring in src/main.rs and the React client: these are glue around the core.
- Asynchrony and concurrent requests: each operation is modelled as one sequential run.
- `Hex.FromStrRadix16`: returns the error kinds of current Rust releases. Older releases report `Empty` instead of `InvalidDigit` for a lone `+`; a lone `-` is `InvalidDigit` for an unsigned byte in every release. Which texts are accepted, and their values, are the same in every release.
- `Net.MacAddress.Index`: an index of 6 or more panics in Rust. The model makes it a precondition instead of an outcome, because no caller in the core indexes out of range.
