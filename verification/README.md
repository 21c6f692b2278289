# ticktock collector: a verified model of its decision logic

ticktock polls a list of configured targets for a "last processed block height"
and publishes each reading as the `last_block_height` gauge, labelled by the
target's network, app, component and source label. There are four kinds of target:

- a chain node, asked over JSON-RPC with `eth_getBlockByNumber`;
- a GraphQL dictionary endpoint, asked for `_metadata.lastProcessedHeight`;
- a Kubernetes config-map entry, read through `kubectl`;
- a Redis key, read through `redis-cli`.

This project models in Dafny the pure logic around that I/O:

- the two comma-separated argument parsers;
- what each kind of target does with the reply or command output it gets back;
- the dispatch on the target kind (`emit_target`);
- the fold of one cycle's outcomes into the gauge vector.

The reply of an HTTP exchange, or the standard output of a command, is an input.
The gauge vector is a `map` from the four label values to an `i64`.

Modules, one file each:

- `Wrappers` (`wrappers.dfy`): `Option` and `Result`.
- `Int64` (`int64.dfy`): the `i64` range and two's-complement wrap-around.
- `Text` (`text.dfy`): the Rust string operations the code uses, with their exact behaviour:
  - `split(',')`, and `Join`, which it inverts;
  - `trim()`, with Unicode White_Space;
  - `replace("\"", "")`;
  - the byte slice `&s[2..]`, with UTF-8 widths and its char-boundary panic.
- `ParseInt` (`parse_int.dfy`): `i64::from_str_radix`, digit by digit with checked arithmetic.
  - It gives `Empty`, `InvalidDigit`, `PosOverflow` or `NegOverflow`, and the first failure wins.
  - It is proved equal to an independent description: an optional sign, then at least one digit, denoting a number in `i64`.
  - It is proved to invert decimal and hexadecimal rendering.
- `Json` (`json.dfy`): a JSON value.
  - Indexing by member name gives `Null` for anything missing, as serde_json does.
  - `as_str` and `as_i64` are modelled.
- `Targets` (`targets.dfy`): `RPCType`, `Target` and `MError`.
- `Args` (`args.dfy`): `parse_gq_target` and `parse_node_target`.
- `Fetchers` (`fetchers.dfy`): the pure tails of `node_rpc`, `graphql_rpc`, `uploaded` and `uploaded_in_redis`, plus `emit_target`.
- `Cycle` (`cycle.dfy`): one pass of the loop in `main`.
  - The reads complete in an arbitrary order: any permutation of the targets.
  - Each outcome is applied as it arrives. A reading overwrites its series; an error changes nothing.

Behaviour of the code worth noting:

- The chain-node reader does not check the `0x` prefix. It drops the first two
  bytes of `result.number`, whatever they are. `from_str_radix` then accepts a
  sign, so `"0x-10"` reads as -16 (`Fetchers.NodeHeightSignedHex`).
- The Redis reader trims whitespace first and then removes every `"`, wherever it
  is. Whitespace inside the quotes is kept, so any quoted text that starts with whitespace, such as `" 5"` with its quotes, reads 0
  (`Fetchers.UploadedInRedisInnerSpace`).
- Only a failure to spawn `/bin/sh` itself panics, at the `.output().unwrap()`.
  `kubectl` and `redis-cli` run inside that shell. When either is missing or fails,
  the shell writes the error to stderr, and `output()` still succeeds with empty
  standard output. Empty output reads 0 (`Fetchers.ShellReadersDefaultToZero`), and
  that 0 is written into the target's series over its last good value.

## Model

| member | source | states |
|---|---|---|
| Text.Split | src/main.rs:83 | `split(',')` gives one more piece than there are commas, no piece holds a comma, and joining the pieces with commas gives back the input |
| Text.SplitJoin | src/main.rs:83 | splitting inverts joining whenever no piece holds the separator |
| Args.ParseGqTarget | src/main.rs:82-89 | `Ok` exactly when the text has one comma; the label and URL hold no comma and rebuild the input around the comma; otherwise the fixed usage message |
| Args.GqTargetRoundTrip | src/main.rs:82-89 | any comma-free label and URL joined by a comma parse back to that label and URL |
| Args.ParseNodeTarget | src/main.rs:92-104 | `Ok` exactly when the text has three commas; its fields are label, block label, the decimal value of the third field, and URL, in order, and they rebuild the input; otherwise the fixed usage message |
| Args.NodeTargetRoundTrip | src/main.rs:92-104 | comma-free labels and URL, with any `i64` offset written in decimal, parse back to the same four values |
| ParseInt.FromStrRadix | src/main.rs:303 | `from_str_radix` succeeds exactly on an optional sign followed by at least one digit of the radix whose value fits in `i64`, and returns that value; `Empty` exactly for empty text |
| ParseInt.DigitOf | src/main.rs:303 | a character is a digit of the radix only with a value below the radix; with `ParseInt.DigitChar` it inverts the rendering of every digit value |
| ParseInt.DigitOfSpec | src/main.rs:303 | a character is a digit exactly when, folded to lower case, it renders some value below the radix, and it then stands for that value |
| ParseInt.Accumulate | src/main.rs:303 | the checked digit loop succeeds exactly when every remaining digit is valid and the final value is in range, and then yields the positional value with the sign applied |
| ParseInt.AccumulateOverflow | src/main.rs:303 | the loop reports the overflow of its sign exactly when the digits before the first invalid character already leave `i64`; a bad digit reached while still in range is `InvalidDigit` |
| ParseInt.FromStrRadixErrorKind | src/main.rs:303 | a text that does not parse gives `PosOverflow` or `NegOverflow` exactly when its leading digits leave `i64`, and `InvalidDigit` otherwise, a lone sign included |
| ParseInt.ParseFormatDecimal | src/main.rs:100 | parsing the decimal rendering of any `i64` gives that number back |
| ParseInt.ParseDigitsHex | src/main.rs:303 | parsing the hexadecimal rendering of any non-negative `i64` gives that number back |
| Text.Trim | src/main.rs:166 | the trimmed text neither starts nor ends with whitespace |
| Text.TrimPadded | src/main.rs:166 | trimming removes any whitespace padding around a text that has no whitespace at its ends, and nothing else |
| Text.RemoveAll | src/main.rs:191 | removing `"` leaves no `"` and keeps every other character exactly as often as it occurred |
| Text.RemoveAllConcat | src/main.rs:191 | removal works piece by piece: removing from a concatenation concatenates the removals, so the kept characters stay in their original order |
| Text.DropTwoBytes | src/main.rs:303 | `&hex[2..]` is a suffix of the text whose dropped prefix is exactly two UTF-8 bytes long |
| Text.CanDropTwoBytesIffBoundary | src/main.rs:303 | the slice is defined exactly when byte 2 is a character boundary, which is when `&hex[2..]` does not panic |
| Json.Member | src/main.rs:299 | `v[key]` is the member when `v` is an object that has it, and `Null` in every other case |
| Json.AsStr | src/main.rs:299 | `as_str()` gives a text exactly for a JSON string, and then that string |
| Json.AsI64 | src/main.rs:264 | `as_i64()` gives a number exactly for an integer in `i64`, and then that integer; floats, larger integers and non-numbers give nothing |
| Json.AtNest | src/main.rs:264 | indexing along a path finds the value nested along that path |
| Json.AtMissing | src/main.rs:299 | a document that lacks a member somewhere along the path yields `Null` at the path |
| Fetchers.NodeHeight | src/main.rs:296-318 | transport, status and decoding failures give `REQWEST`; a missing or non-string `result.number` gives `PARSEJSON(".result.number", reply)`; success exactly when the text after the first two bytes is a hexadecimal `i64`, and then the reading is that value less the offset; any other text gives `PARSEHEX` carrying the parse's own error kind |
| Fetchers.NodeHeightOfHex | src/main.rs:299-307 | for any two ASCII characters followed by the hex digits of `v`, the reading is `v - offset`, wrapped into `i64`, so the prefix is never checked |
| Fetchers.NodeHeightExample | src/main.rs:299-307 | `"0x10"` with offset 2 reads 14 |
| Fetchers.NodeHeightSignedHex | src/main.rs:303 | `"0x-10"` reads -16, because the hex parse accepts a sign |
| Fetchers.NodeHeightMissingNumber | src/main.rs:309-314 | a reply whose `result` lacks `number` is the shape error carrying that reply |
| Fetchers.GraphqlHeight | src/main.rs:260-272 | transport, status and decoding failures give `REQWEST`; success exactly when `data._metadata.lastProcessedHeight` is an integer in `i64`, with that value; any other decoded reply gives `PARSEJSON(".data._metadata.lastProcessedHeight", reply)` |
| Fetchers.GraphqlHeightOfNest | src/main.rs:264-265 | a reply holding `n` at `data._metadata.lastProcessedHeight` reads `n` |
| Fetchers.GraphqlHeightFloat | src/main.rs:264-269 | a height stored as a float, such as `-0`, is the shape error carrying the reply |
| Fetchers.GraphqlHeightMissingData | src/main.rs:264-269 | a reply without `data` is the shape error carrying that reply |
| Fetchers.Uploaded | src/main.rs:166-170 | the reading is the trimmed output's decimal value when it is a well-formed `i64`, and 0 otherwise; it never fails |
| Fetchers.UploadedRoundTrip | src/main.rs:166-170 | any `i64` printed with whitespace around it reads as itself |
| Fetchers.UploadedInRedis | src/main.rs:191-195 | the reading is the decimal value of the trimmed output without its quotes when that is a well-formed `i64`, and 0 otherwise; it never fails |
| Fetchers.UploadedInRedisRoundTrip | src/main.rs:191-195 | any quoted `i64` with whitespace around the quotes reads as itself |
| Fetchers.UploadedInRedisInnerSpace | src/main.rs:191-195 | whitespace inside the quotes is not trimmed: any quoted text that starts with whitespace, such as `" 5"` with its quotes, reads 0 |
| Fetchers.QuotedNumberUnquotes | src/main.rs:191 | removing the quotes around a decimal rendering gives the rendering back |
| Fetchers.ShellReadersDefaultToZero | src/main.rs:166-170 | empty or all-whitespace output reads 0 from both shell readers, not an error |
| Fetchers.Fetch | src/main.rs:199-234 | each kind goes to its own reader: a chain node to the `node_rpc` tail with its offset, a dictionary to the `graphql_rpc` tail, a config-map key to `uploaded`, a Redis key to `uploaded_in_redis`, and the last two never fail |
| Fetchers.EmitTarget | src/main.rs:198-235 | succeeds exactly when the kind's reader does, then attaches that reader's value as `result` and changes no other field; otherwise returns the reader's error unchanged; config-map and Redis targets always succeed |
| Fetchers.EmitTargetShellReading | src/main.rs:220-233 | a config-map or Redis target whose lookup printed a number (quoted, for Redis) with whitespace around it gets exactly that number attached |
| Fetchers.EmitTargetEmptyOutput | src/main.rs:220-233 | a config-map or Redis target whose command printed nothing succeeds with reading 0, not an error |
| Int64.Wrap | src/main.rs:301-306 | the subtraction of the offset is the exact difference whenever that is in `i64`, and otherwise agrees with it modulo 2^64 |
| Cycle.Apply | src/main.rs:133-149 | a success with a reading sets its own series to that reading and leaves every other series as it was; an error leaves the gauges unchanged |
| Cycle.Drain | src/main.rs:132-150 | the drain loop ends with all outcomes applied in arrival order |
| Cycle.ApplyAllUntouched | src/main.rs:146-148 | a series that no outcome writes keeps its previous value, or stays absent |
| Cycle.ApplyAllLastWrite | src/main.rs:135-144 | a series ends with the reading of the last outcome that wrote it (last write wins) |
| Cycle.ArrivalOrderCoversAll | src/main.rs:128-132 | a completion order of `n` distinct target indices below `n` contains every target |
| Cycle.EveryTargetArrivesOnce | src/main.rs:129-132 | every target contributes exactly one outcome, which is its own `emit_target` result |
| Cycle.CollectOnce | src/main.rs:128-150 | one loop pass applies the outcomes of all targets' reads in their completion order |
| Cycle.CycleKeepsFailedSeries | src/main.rs:146-148 | failure isolation: a series whose targets all failed keeps its previous value, whatever the others do |
| Cycle.CycleSetsEveryReading | src/main.rs:128-150 | when series are distinct, every successful read ends the cycle in its own series, whatever the completion order |
| Cycle.CycleOrderIrrelevant | src/main.rs:128-132 | when series are distinct, any two completion orders give the same gauges |
| Cycle.TwoTargetScenario | src/main.rs:128-150 | a chain node at `0x3e8` with offset 0 and a dictionary at 500: one cycle from empty gauges shows exactly those two series, at 1000 and 500 |

## Left out

- HTTP: the requests are not modelled, and the reply is an input. That covers the `eth_getBlockByNumber` and GraphQL bodies, their headers, sending, and the status check. Every failure in that exchange becomes `REQWEST` with a message that is also an input.
- The `label` arguments (`"sss"`, `"label"`) passed to `node_rpc` and `graphql_rpc` are discarded by `emit_target`, so they are not modelled.
- `Url::parse`: URLs are opaque strings. Its normalisation is not modelled, and neither is its panic on an invalid URL.
- Shell commands are not modelled. That covers building the `kubectl` and `redis-cli` command lines, spawning them, and the `from_utf8_lossy` decoding. The standard output is an input string, and the stderr and stdout logging is dropped.
- A failure to spawn `/bin/sh` (`.output().unwrap()`) panics in the source. The model always supplies the shell's standard output, so this case never arises. A missing or failing `kubectl` or `redis-cli` is not this case: it gives empty output, which the model covers.
- Other `unwrap` panics are preconditions:
  - the optional fields of `emit_target` (`Targets.Configured`);
  - the offset parse in `parse_node_target`;
  - `&hex[2..]` on a text whose byte 2 is not a character boundary (`Fetchers.HexSliceable`).
- `PARSEJSON` carries the reply's `to_string()` text in the source. The model carries the JSON value itself, because serde_json's serialisation is not modelled.
- JSON floats keep only their text, because nothing reads them. A reply supplies as `Float` every number that serde_json stores as an `f64`: fractions, exponents, `-0`, integers below `i64::MIN` and integers above `u64::MAX`. `as_i64` rejects all of them, so `lastProcessedHeight: -0` gives `PARSEJSON`.
- Concurrency: `FuturesUnordered` becomes an arbitrary completion order, a permutation of the targets. There are no timing claims. The `interval.tick()` scheduling and the endless repetition of the loop are not modelled. Each pass starts again from the configured targets, since they are cloned.
- The Prometheus registry, the exporter and the bind address are replaced by a `map` from label values to `i64`.
- Configuration loading (`structopt`, the file read, `serde_yaml`) is not modelled.
- Error logging (`eprintln!`, `println!("HEX ...")`) is not modelled.
- Int64.Wrap: `v - offset` wraps as in a release build. A debug build panics on overflow instead.
