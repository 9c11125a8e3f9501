/** The file logger of `src/logger/components.rs`: level labels, the layout
    of a log line, the console stream each level goes to, and the append to
    the log file. The clock reading is a timestamp parameter, and the three
    output channels are strings that writes append to. */
module Logging {
  import opened Results

  datatype LogLevel = Info | Warn | Error | Debug

  /** The upper-case tag written between the second pair of brackets. */
  function Label(level: LogLevel): (tag: string) {
    match level
    case Info => "INFO"
    case Warn => "WARN"
    case Error => "ERROR"
    case Debug => "DEBUG"
  }

  /** The level a tag stands for, if any. */
  function LevelOfLabel(s: string): (r: Option<LogLevel>)
    ensures r.Some? ==> Label(r.value) == s
  {
    if s == "INFO" then Some(Info)
    else if s == "WARN" then Some(Warn)
    else if s == "ERROR" then Some(Error)
    else if s == "DEBUG" then Some(Debug)
    else None
  }

  /** Every level has its own tag, and the tag names it back. */
  lemma LabelInjective(a: LogLevel, b: LogLevel)
    ensures LevelOfLabel(Label(a)) == Some(a)
    ensures Label(a) == Label(b) ==> a == b
  {
  }

  /** A log line: `[timestamp] [LABEL] message`. */
  function FormatLine(timestamp: string, level: LogLevel, message: string): (line: string) {
    "[" + timestamp + "] [" + Label(level) + "] " + message
  }

  /** What one log line records. */
  datatype Entry = Entry(timestamp: string, level: LogLevel, message: string)

  /** The position of the first `c` in `s`. */
  function IndexOf(s: string, c: char): (r: Option<nat>)
    ensures r.Some? ==> r.value < |s| && s[r.value] == c && c !in s[..r.value]
    ensures r.None? ==> c !in s
  {
    if |s| == 0 then None
    else if s[0] == c then Some(0)
    else
      match IndexOf(s[1..], c)
      case None => None
      case Some(i) =>
        assert s[..i + 1] == [s[0]] + s[1..][..i];
        Some(i + 1)
  }

  /** The first `c` of `a + [c] + b` is the one right after `a`, when `a`
      holds none. */
  lemma {:induction false} IndexAfterPrefix(a: string, c: char, b: string)
    requires c !in a
    ensures IndexOf(a + [c] + b, c) == Some(|a|)
    ensures (a + [c] + b)[..|a|] == a && (a + [c] + b)[|a| + 1..] == b
  {
    var s := a + [c] + b;
    assert s[..|a|] == a;
    if |a| == 0 {
      assert s[0] == c;
    } else {
      assert s[1..] == a[1..] + [c] + b;
      assert c !in a[1..] by {
        forall k | 0 <= k < |a[1..]| ensures a[1..][k] != c {
          assert a[1..][k] == a[k + 1];
        }
      }
      IndexAfterPrefix(a[1..], c, b);
      assert s[0] == a[0] != c;
    }
  }

  /** Reads `LABEL] message`, the part of a line after the second '['. */
  function ParseLevelAndMessage(rest: string): (r: Option<(LogLevel, string)>) {
    match IndexOf(rest, ']')
    case None => None
    case Some(j) =>
      match LevelOfLabel(rest[..j])
      case None => None
      case Some(level) =>
        if j + 1 < |rest| && rest[j + 1] == ' ' then Some((level, rest[j + 2..])) else None
  }

  /** Reads ` [LABEL] message`, what follows the timestamp's closing ']'. */
  function ParseAfterStamp(timestamp: string, after: string): (r: Option<Entry>) {
    if |after| < 2 || after[0] != ' ' || after[1] != '[' then None
    else
      match ParseLevelAndMessage(after[2..])
      case None => None
      case Some((level, message)) => Some(Entry(timestamp, level, message))
  }

  /** Reads a log line back into the entry it records: the timestamp up to the
      first ']', then " [", a label the logger writes, "] " and the rest as
      the message. */
  function ParseLine(line: string): (r: Option<Entry>) {
    if |line| == 0 || line[0] != '[' then None
    else
      var body := line[1..];
      match IndexOf(body, ']')
      case None => None
      case Some(i) => ParseAfterStamp(body[..i], body[i + 1..])
  }

  lemma LabelHasNoBracket(level: LogLevel)
    ensures ']' !in Label(level)
  {
  }

  lemma LevelAndMessageRoundTrip(level: LogLevel, message: string)
    ensures ParseLevelAndMessage(Label(level) + "] " + message) == Some((level, message))
  {
    var tag := Label(level);
    var rest := Label(level) + "] " + message;
    assert rest == tag + [']'] + (" " + message);
    LabelHasNoBracket(level);
    IndexAfterPrefix(tag, ']', " " + message);
    LabelInjective(level, level);
    assert rest[|tag| + 1] == ' ';
    assert rest[|tag| + 2..] == message;
  }

  lemma LevelAndMessageRead(rest: string)
    requires ParseLevelAndMessage(rest).Some?
    ensures var (level, message) := ParseLevelAndMessage(rest).value;
      rest == Label(level) + "] " + message
  {
    var j := IndexOf(rest, ']').value;
    var (level, message) := ParseLevelAndMessage(rest).value;
    assert rest[..j] == Label(level);
    assert rest == rest[..j] + [rest[j]] + [rest[j + 1]] + rest[j + 2..];
  }

  /** A line records its timestamp, level and message: reading it back gives
      them unchanged, provided the timestamp holds no ']' (the clock's
      "%Y-%m-%d %H:%M:%S" text never does). */
  lemma FormatParse(timestamp: string, level: LogLevel, message: string)
    requires ']' !in timestamp
    ensures ParseLine(FormatLine(timestamp, level, message)) == Some(Entry(timestamp, level, message))
  {
    var rest := Label(level) + "] " + message;
    var after := " [" + rest;
    var line := FormatLine(timestamp, level, message);
    FormatLineShape(timestamp, Label(level), message);
    assert line == "[" + (timestamp + [']'] + after);
    assert line[1..] == timestamp + [']'] + after;
    IndexAfterPrefix(timestamp, ']', after);
    assert after[2..] == rest;
    LevelAndMessageRoundTrip(level, message);
  }

  lemma AfterStampRead(timestamp: string, after: string)
    requires ParseAfterStamp(timestamp, after).Some?
    ensures var e := ParseAfterStamp(timestamp, after).value;
      e.timestamp == timestamp && after == " [" + (Label(e.level) + "] " + e.message)
  {
    LevelAndMessageRead(after[2..]);
    assert after == " [" + after[2..];
  }

  /** Conversely, every line that reads back is the layout of what it read,
      so the layout and the reader are inverse on well-formed lines. */
  lemma ParseFormat(line: string)
    requires ParseLine(line).Some?
    ensures var e := ParseLine(line).value;
      ']' !in e.timestamp && line == FormatLine(e.timestamp, e.level, e.message)
  {
    var e := ParseLine(line).value;
    var body := line[1..];
    var i := IndexOf(body, ']').value;
    AfterStampRead(body[..i], body[i + 1..]);
    HeadAndTail(line);
    SplitAround(body, i);
    FormatLineShape(e.timestamp, Label(e.level), e.message);
  }

  /** A non-empty string is its first character followed by the rest. */
  lemma HeadAndTail(s: string)
    requires |s| > 0
    ensures s == [s[0]] + s[1..]
  {
  }

  /** A string is what precedes position `i`, the character there, and what follows. */
  lemma SplitAround(s: string, i: nat)
    requires i < |s|
    ensures s == s[..i] + [s[i]] + s[i + 1..]
  {
  }

  /** The line layout regrouped around the ']' that closes the timestamp, the
      split point of the reader. Kept apart so that the round-trip proofs do
      not have to find this regrouping among their other facts. */
  lemma FormatLineShape(timestamp: string, tag: string, message: string)
    ensures "[" + timestamp + "] [" + tag + "] " + message
         == "[" + (timestamp + [']'] + (" [" + (tag + "] " + message)))
  {
  }

  /** The console streams and the log file, as the text written to each. */
  datatype Sinks = Sinks(stdout: string, stderr: string, file: string)

  /** Opening or writing the log file failed. */
  datatype IoError = FileUnavailable

  /** The channels after a write, and what the write returned. */
  datatype Written = Written(sinks: Sinks, status: Result<(), IoError>)

  /** `write_with_level`: the line goes to stderr for `Error` and to stdout
      otherwise, then the same line is appended to the log file. Both writes
      end the line with a newline. The console write comes first, so it
      happens even when the file cannot be opened; `fileWritable` stands for
      whether opening, writing and flushing the file succeed. */
  function WriteWithLevel(s: Sinks, level: LogLevel, timestamp: string, message: string,
                          fileWritable: bool): (w: Written)
    ensures level == Error ==>
      w.sinks.stderr == s.stderr + FormatLine(timestamp, level, message) + "\n" && w.sinks.stdout == s.stdout
    ensures level != Error ==>
      w.sinks.stdout == s.stdout + FormatLine(timestamp, level, message) + "\n" && w.sinks.stderr == s.stderr
    ensures w.status.Ok? <==> fileWritable
    ensures fileWritable ==> w.sinks.file == s.file + FormatLine(timestamp, level, message) + "\n"
    ensures !fileWritable ==> w.sinks.file == s.file
  {
    var line := FormatLine(timestamp, level, message) + "\n";
    var console := match level
      case Error => s.(stderr := s.stderr + line)
      case _ => s.(stdout := s.stdout + line);
    if fileWritable then Written(console.(file := console.file + line), Ok(()))
    else Written(console, Err(FileUnavailable))
  }

  /** `info`: an `INFO` line on stdout with the message unchanged. */
  function LogInfo(s: Sinks, timestamp: string, message: string, fileWritable: bool): (w: Written)
    ensures w.sinks.stdout == s.stdout + "[" + timestamp + "] [INFO] " + message + "\n"
    ensures w.sinks.stderr == s.stderr
    ensures w.status.Ok? <==> fileWritable
    ensures fileWritable ==> w.sinks.file == s.file + "[" + timestamp + "] [INFO] " + message + "\n"
    ensures !fileWritable ==> w.sinks.file == s.file
  {
    WriteWithLevel(s, Info, timestamp, message, fileWritable)
  }

  /** `warn`: a `WARN` line on stdout with the message unchanged. */
  function LogWarn(s: Sinks, timestamp: string, message: string, fileWritable: bool): (w: Written)
    ensures w.sinks.stdout == s.stdout + "[" + timestamp + "] [WARN] " + message + "\n"
    ensures w.sinks.stderr == s.stderr
    ensures w.status.Ok? <==> fileWritable
    ensures fileWritable ==> w.sinks.file == s.file + "[" + timestamp + "] [WARN] " + message + "\n"
    ensures !fileWritable ==> w.sinks.file == s.file
  {
    WriteWithLevel(s, Warn, timestamp, message, fileWritable)
  }

  /** `error`: an `ERROR` line on stderr with the message unchanged. */
  function LogError(s: Sinks, timestamp: string, message: string, fileWritable: bool): (w: Written)
    ensures w.sinks.stderr == s.stderr + "[" + timestamp + "] [ERROR] " + message + "\n"
    ensures w.sinks.stdout == s.stdout
    ensures w.status.Ok? <==> fileWritable
    ensures fileWritable ==> w.sinks.file == s.file + "[" + timestamp + "] [ERROR] " + message + "\n"
    ensures !fileWritable ==> w.sinks.file == s.file
  {
    WriteWithLevel(s, Error, timestamp, message, fileWritable)
  }

  /** `debug`: a `DEBUG` line on stdout with the message unchanged. */
  function LogDebug(s: Sinks, timestamp: string, message: string, fileWritable: bool): (w: Written)
    ensures w.sinks.stdout == s.stdout + "[" + timestamp + "] [DEBUG] " + message + "\n"
    ensures w.sinks.stderr == s.stderr
    ensures w.status.Ok? <==> fileWritable
    ensures fileWritable ==> w.sinks.file == s.file + "[" + timestamp + "] [DEBUG] " + message + "\n"
    ensures !fileWritable ==> w.sinks.file == s.file
  {
    WriteWithLevel(s, Debug, timestamp, message, fileWritable)
  }

  /** An entry as one newline-terminated line. */
  function Rendered(e: Entry): (line: string) {
    FormatLine(e.timestamp, e.level, e.message) + "\n"
  }

  /** Entries rendered one after another, in order. */
  function RenderAll(es: seq<Entry>): (text: string) {
    if |es| == 0 then "" else RenderAll(es[..|es| - 1]) + Rendered(es[|es| - 1])
  }

  /** The entries at `Error` level, in order. */
  function Errors(es: seq<Entry>): (errs: seq<Entry>) {
    if |es| == 0 then []
    else Errors(es[..|es| - 1]) + (if es[|es| - 1].level == Error then [es[|es| - 1]] else [])
  }

  /** The entries at every other level, in order. */
  function NonErrors(es: seq<Entry>): (others: seq<Entry>) {
    if |es| == 0 then []
    else NonErrors(es[..|es| - 1]) + (if es[|es| - 1].level != Error then [es[|es| - 1]] else [])
  }

  /** A run of successful writes, one per entry, in order. */
  function WriteAll(s: Sinks, es: seq<Entry>): (after: Sinks) {
    if |es| == 0 then s
    else
      var e := es[|es| - 1];
      WriteWithLevel(WriteAll(s, es[..|es| - 1]), e.level, e.timestamp, e.message, true).sinks
  }

  lemma RenderSnoc(es: seq<Entry>, e: Entry)
    ensures RenderAll(es + [e]) == RenderAll(es) + Rendered(e)
  {
    assert (es + [e])[..|es|] == es;
  }

  lemma FilterLast(es: seq<Entry>)
    requires |es| > 0
    ensures var init, e := es[..|es| - 1], es[|es| - 1];
      && (e.level == Error ==> Errors(es) == Errors(init) + [e] && NonErrors(es) == NonErrors(init))
      && (e.level != Error ==> NonErrors(es) == NonErrors(init) + [e] && Errors(es) == Errors(init))
  {
  }

  lemma WriteOne(before: Sinks, e: Entry)
    ensures var after := WriteWithLevel(before, e.level, e.timestamp, e.message, true).sinks;
      && after.file == before.file + Rendered(e)
      && (e.level == Error ==> after.stderr == before.stderr + Rendered(e) && after.stdout == before.stdout)
      && (e.level != Error ==> after.stdout == before.stdout + Rendered(e) && after.stderr == before.stderr)
  {
  }

  /** Regrouping one stream's text as old contents, earlier lines, new line;
      stated on its own for the same reason as `FormatLineShape`. */
  lemma Associative(a: string, b: string, c: string)
    ensures a + b + c == a + (b + c)
  {
  }

  /** The log file is append-only: after a run of writes it holds what it held
      before followed by every entry's line in call order, while stderr gained
      exactly the `Error` lines and stdout exactly the others, each in order. */
  lemma {:induction false} WriteAllAppends(s: Sinks, es: seq<Entry>)
    ensures WriteAll(s, es).file == s.file + RenderAll(es)
    ensures WriteAll(s, es).stderr == s.stderr + RenderAll(Errors(es))
    ensures WriteAll(s, es).stdout == s.stdout + RenderAll(NonErrors(es))
  {
    if |es| > 0 {
      var init := es[..|es| - 1];
      var e := es[|es| - 1];
      WriteAllAppends(s, init);
      var before := WriteAll(s, init);
      var after := WriteAll(s, es);
      assert after == WriteWithLevel(before, e.level, e.timestamp, e.message, true).sinks;
      WriteOne(before, e);
      assert RenderAll(es) == RenderAll(init) + Rendered(e);
      Associative(s.file, RenderAll(init), Rendered(e));
      FilterLast(es);
      if e.level == Error {
        RenderSnoc(Errors(init), e);
        Associative(s.stderr, RenderAll(Errors(init)), Rendered(e));
      } else {
        RenderSnoc(NonErrors(init), e);
        Associative(s.stdout, RenderAll(NonErrors(init)), Rendered(e));
      }
    }
  }

  /** Every entry reaches exactly one console stream. */
  lemma {:induction false} ConsolePartition(es: seq<Entry>)
    ensures multiset(Errors(es)) + multiset(NonErrors(es)) == multiset(es)
    ensures |Errors(es)| + |NonErrors(es)| == |es|
    ensures forall i :: 0 <= i < |Errors(es)| ==> Errors(es)[i].level == Error
    ensures forall i :: 0 <= i < |NonErrors(es)| ==> NonErrors(es)[i].level != Error
  {
    FiltersKeepEntries(es);
    FiltersSortLevels(es);
    assert |multiset(Errors(es))| == |Errors(es)| && |multiset(NonErrors(es))| == |NonErrors(es)|;
    assert |multiset(es)| == |es|;
  }

  /** Between them the two filters hold every entry once. */
  lemma {:induction false} FiltersKeepEntries(es: seq<Entry>)
    ensures multiset(Errors(es)) + multiset(NonErrors(es)) == multiset(es)
  {
    if |es| > 0 {
      var init := es[..|es| - 1];
      var e := es[|es| - 1];
      FiltersKeepEntries(init);
      FilterLast(es);
      MultisetLast(es);
      if e.level == Error {
        MultisetSnoc(Errors(init), e);
      } else {
        MultisetSnoc(NonErrors(init), e);
      }
    }
  }

  /** Each filter holds only entries of its own levels. */
  lemma {:induction false} FiltersSortLevels(es: seq<Entry>)
    ensures forall i :: 0 <= i < |Errors(es)| ==> Errors(es)[i].level == Error
    ensures forall i :: 0 <= i < |NonErrors(es)| ==> NonErrors(es)[i].level != Error
  {
    if |es| > 0 {
      FiltersSortLevels(es[..|es| - 1]);
    }
  }

  lemma MultisetLast<T>(xs: seq<T>)
    requires |xs| > 0
    ensures multiset(xs) == multiset(xs[..|xs| - 1]) + multiset{xs[|xs| - 1]}
  {
    assert xs == xs[..|xs| - 1] + [xs[|xs| - 1]];
  }

  lemma MultisetSnoc<T>(xs: seq<T>, x: T)
    ensures multiset(xs + [x]) == multiset(xs) + multiset{x}
  {
  }
}
