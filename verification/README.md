# rust-multithread-server: command-line validation and log lines, in Dafny

This project models the two pieces of sequential logic in the server's
source.

**The command-line validator** is `parse` in `src/interfaces/cli/utils.rs`.
The argument parser hands over a name, a host, a `u16` port and a log file
path. The validator then does four things:

- it splits the host at every `'.'` and requires exactly four parts;
- it refuses port 0;
- it refuses the ports 80 and 8080;
- it reads each part, left to right, with Rust's `u8::from_str`, and stops at
  the first part that does not parse.

On success it returns `(name, [u8; 4], port, log_file_path)`. On failure it
returns one of three fixed texts, or `Uncorrect part of host: ` followed by
the first bad part.

**The logger** is `src/logger/components.rs`. It maps each `LogLevel` to its
label. A line is written as `[timestamp] [LABEL] message`. It goes to stderr
for `Error` and to stdout for every other level. The same line is then
appended to the log file. `info`, `warn`, `error` and `debug` each call
`write_with_level` with their own level.

The modules follow that split:

- `Results` (results.dfy): `Option` and `Result`.
- `Text` (text.dfy): `str::split(char)` as `Split`. `Join` is its inverse.
- `U8Parse` (u8_parse.dfy): `u8::from_str` as `ParseU8`. It reads the digits
  left to right as `acc * 10 + digit` and fails as soon as the value passes
  255, which agrees with the standard library's parser on every input.
  `IsU8Literal` and `DecimalValue` are an independent reference definition of
  the accepted texts and their values. `DecimalText` is the decimal text that
  `Display` writes for a `u8`.
- `Cli` (cli.dfy): the argument record, the validator `Validate` with a typed
  error, and `Parse`, which has the source's signature (errors as text).
- `Logging` (logger.dfy): levels and labels, the line layout, a reader
  `ParseLine` that inverts the layout, and `WriteWithLevel`. The console
  streams and the log file are strings that each write appends to.

Inputs from outside the program are parameters:

- the arguments that the argument parser produces (`Cli.Args`);
- the formatted clock reading (`timestamp`);
- whether the log file can be opened, written and flushed (`fileWritable`).

The write returns the new stream contents together with the `io::Result`
status.

`Server::run` (src/core/server.rs) has no worker pool: it only polls a
Ctrl+C flag in a sleep loop.

## Model

| member | source | states |
|---|---|---|
| Text.JoinSplit | src/interfaces/cli/utils.rs:23 | Joining the parts of a split with the separator gives back the host text exactly, so splitting loses nothing |
| Text.SplitJoin | src/interfaces/cli/utils.rs:23 | Splitting the join of a non-empty list of parts that contain no separator gives back those parts |
| Text.SplitCount | src/interfaces/cli/utils.rs:23 | The split yields one part more than the host has dots, so "four parts" means "exactly three dots" |
| Text.SplitPartsExcludeSep | src/interfaces/cli/utils.rs:23 | No part produced by the split contains a dot |
| U8Parse.ParseU8 | src/interfaces/cli/utils.rs:38 | `part.parse::<u8>()` succeeds exactly on an optional single '+' followed by one or more ASCII digits whose value is at most 255 (leading zeros allowed), and then returns that value |
| U8Parse.AccumulateMeaning | src/interfaces/cli/utils.rs:38 | The left-to-right digit loop, which stops as soon as the value passes 255, accepts exactly when all characters are digits and the whole number fits in a `u8`. So stopping early agrees with the full decimal value |
| U8Parse.ParseU8Examples | src/interfaces/cli/utils.rs:38 | "+7" and "007" give 7 and "255" gives 255; "", "+", "-", "-0", "++1", "1 " and "256" are all rejected |
| U8Parse.DecimalTextMeaning | src/core/components.rs:21 | The decimal text written for an octet is a non-empty run of digits that denotes the octet, with no leading zero: the only text that starts with '0' is "0" itself |
| U8Parse.ParseDecimalText | src/core/components.rs:21 | Reading back the decimal text of any octet gives that octet |
| Cli.ParseOctets | src/interfaces/cli/utils.rs:36-42 | Parts are read left to right. The result is Ok exactly when every part is a `u8` literal, and then holds each part's value in order. Otherwise the error is the text of the first bad part, and every earlier part was valid |
| Cli.Validate | src/interfaces/cli/utils.rs:44 | On success, name, port and log file path are returned exactly as given |
| Cli.Parse | src/interfaces/cli/utils.rs:19-45 | "Host must be an octets splieted by dots like 0.0.0.0" comes back exactly when the host does not split into four parts. "Port mustn't be zero" comes back exactly for four parts and port 0. "Cann't bind system port" comes back exactly for four parts and port 80 or 8080. Otherwise "Uncorrect part of host: " followed by the first bad part is returned whenever some part is bad, and every error at that stage is of that form. Ok comes back exactly when all checks pass; it then holds each part's value, with name, port and log path unchanged |
| Cli.MessageInjective | src/interfaces/cli/utils.rs:25-41 | The four error texts never coincide, and "Uncorrect part of host: " followed by the part determines the part, so the text form loses nothing |
| Cli.HostShapeFirst | src/interfaces/cli/utils.rs:23-27 | A host that does not split into exactly four parts (equivalently, does not hold exactly three dots) is refused with the host error whatever the port, and only such a host is |
| Cli.ZeroPortRejected | src/interfaces/cli/utils.rs:29-31 | With a four-part host, the zero-port error is reported exactly when the port is 0 |
| Cli.SystemPortRejected | src/interfaces/cli/utils.rs:32-34 | With a four-part host, the system-port error is reported exactly for ports 80 and 8080. Every other non-zero port gets past both port checks |
| Cli.ErrorPrecedence | src/interfaces/cli/utils.rs:25-42 | Each error is reported exactly when its own check fails and every earlier check passed. The order is part count, port zero, system port, then the first bad octet, named by its text |
| Cli.ValidateSucceedsIff | src/interfaces/cli/utils.rs:19-45 | Soundness and completeness: the result is Ok if and only if there are four parts, the port is not 0, 80 or 8080, and every part is a `u8` literal |
| Cli.OctetValues | src/interfaces/cli/utils.rs:36-39 | On success, octet i is the decimal value of the i-th part, after its optional '+' |
| Cli.ValidateDottedQuad | src/interfaces/cli/utils.rs:19-45 | For any four octets and any allowed port, the dotted-decimal text of the octets validates to exactly those octets, with the other fields passed through |
| Cli.EmptyPartExample | src/interfaces/cli/utils.rs:23-41 | "1..2.3" has four parts and is refused at its empty second part |
| Cli.TrailingDotExample | src/interfaces/cli/utils.rs:23-27 | "1.2.3.4." has five parts and fails the count check |
| Cli.HostBeforePortExample | src/interfaces/cli/utils.rs:25-31 | A three-part host with port 0 reports the host error, not the port error |
| Logging.LabelInjective | src/logger/components.rs:15-22 | Distinct levels never share a label. Each label reads back as its own level |
| Logging.FormatParse | src/logger/components.rs:66-67 | Reading a formatted line back gives its timestamp, level and message unchanged, as long as the timestamp holds no ']' |
| Logging.ParseFormat | src/logger/components.rs:66-67 | Every line that reads back is exactly `"[" + ts + "] [" + LABEL + "] " + message` for what it read, so layout and reader are inverse |
| Logging.WriteWithLevel | src/logger/components.rs:65-76 | An `Error` line plus a newline goes to stderr and stdout is untouched; every other level goes to stdout and stderr is untouched. The console write happens even when the file fails. The same line and newline are appended to the file exactly when the status is Ok; otherwise the file is unchanged |
| Logging.LogInfo | src/logger/components.rs:49-51 | `info` puts `[ts] [INFO] message` with the message unchanged on stdout, and in the file when it can be written; otherwise the file is unchanged. It leaves stderr alone |
| Logging.LogWarn | src/logger/components.rs:53-55 | `warn` puts `[ts] [WARN] message` with the message unchanged on stdout, and in the file when it can be written; otherwise the file is unchanged. It leaves stderr alone |
| Logging.LogError | src/logger/components.rs:57-59 | `error` puts `[ts] [ERROR] message` with the message unchanged on stderr, and in the file when it can be written; otherwise the file is unchanged. It leaves stdout alone |
| Logging.LogDebug | src/logger/components.rs:61-63 | `debug` puts `[ts] [DEBUG] message` with the message unchanged on stdout, and in the file when it can be written; otherwise the file is unchanged. It leaves stderr alone |
| Logging.WriteAllAppends | src/logger/components.rs:68-74 | After a run of successful writes, the file holds its old text followed by every line in call order. stderr gained exactly the `Error` lines, and stdout exactly the others, each in order |
| Logging.ConsolePartition | src/logger/components.rs:68-71 | Every entry goes to exactly one console stream: the `Error` entries and the other entries together are exactly the entries written, as a multiset, and each list holds only its own levels |

## Left out

- `Server::run` (src/core/server.rs:11-40) starts no worker thread and uses no job queue. Its only other thread is the one `ctrlc::set_handler` (server.rs:20) starts for the Ctrl+C handler. That thread logs through the same `Mutex`-guarded logger (server.rs:17-18, 21-22), so log writes never interleave, and `WriteAll` models them one after another.
- The Ctrl+C handler and the `AtomicBool` polling loop of `Server::run` (src/core/server.rs): signal handling, sleeping and shared atomics are concurrency plumbing with no sequential logic.
- `Server` and `Monitor` in src/core/components.rs: TCP binding, the nonblocking switches, stream reading, UUID generation and the `Display` impls are I/O or library calls. Only the dotted-decimal address text is used, as a partner for the validator.
- src/core/utils.rs and src/main.rs: one-line orchestration wrappers with no logic of their own.
- The argument parser itself, including the `"app.log"` default: its output is the input `Cli.Args`.
- `Logger::new` (directory creation and file opening) and the two path accessors: file-system I/O and a field read.
- The clock: `Utc::now()` formatted as "%Y-%m-%d %H:%M:%S" is the `timestamp` parameter, and its format is not modelled.
- U8Parse.ParseU8: returns no error kind (empty, invalid digit, overflow). The source discards the kind with `Err(_)`.
- Logging.WriteWithLevel: one flag, `fileWritable`, stands for the file open, the `writeln!` and the `flush` together. A partly written line and failures between those steps are not modelled.
- A failing `println!`/`eprintln!` panics in Rust. The model treats the console writes as always succeeding.
- Logging.ParseLine: a reading aid that states the line layout is invertible. The logger never reads its own file. Messages that contain newlines (main.rs logs some) make the file's lines differ from its entries, so no file-level reader is claimed.
