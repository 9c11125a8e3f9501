/** The command-line validator of `src/interfaces/cli/utils.rs`: after the
    argument parser has produced the raw arguments, the host is split into
    dotted parts, the port is checked, and each part is read as a `u8`. */
module Cli {
  import opened Results
  import opened Text
  import opened U8Parse

  /** A value of Rust's `u16`. */
  type Port = x: int | 0 <= x < 65536

  /** The four octets of an IPv4 address, as `[u8; 4]`. */
  type Octets = s: seq<Octet> | |s| == 4 witness [0, 0, 0, 0]

  /** The raw arguments as the argument parser hands them over. */
  datatype Args = Args(name: string, host: string, port: Port, logFilePath: string)

  /** What a successful validation returns: `(name, octets, port, log_file_path)`. */
  datatype Config = Config(name: string, octets: Octets, port: Port, logFilePath: string)

  /** The four ways validation can fail, in the order they are checked. */
  datatype CliError =
    | MalformedHost
    | ZeroPort
    | SystemPort
    | BadOctet(part: string)

  const HostSeparator: char := '.'

  /** Ports that the validator refuses to bind. */
  const SystemPorts: set<Port> := {80, 8080}

  /** The host error text. It is written as two literals only so that the
      verifier can look inside it; its value is the source's single literal. */
  const HostMessage: string := "Host must be an octets splieted by dots " + "like 0.0.0.0"
  const ZeroPortMessage: string := "Port mustn't be zero"
  const SystemPortMessage: string := "Cann't bind system port"
  /** The bad-octet error text is this prefix followed by the part. */
  const BadPartPrefix: string := "Uncorrect part of host: "

  /** The error text the source returns for each failure. */
  function Message(e: CliError): (text: string) {
    match e
    case MalformedHost => HostMessage
    case ZeroPort => ZeroPortMessage
    case SystemPort => SystemPortMessage
    case BadOctet(part) => BadPartPrefix + part
  }

  /** Index `i` holds the first part that is not a `u8` literal. */
  predicate FirstBadPart(parts: seq<string>, i: int) {
    && 0 <= i < |parts|
    && !IsU8Literal(parts[i])
    && forall j :: 0 <= j < i ==> IsU8Literal(parts[j])
  }

  /** The octet loop: parts are read left to right and the first one that is
      not a `u8` is returned as the error, without looking at later parts. */
  function ParseOctets(parts: seq<string>): (r: Result<seq<Octet>, string>)
    ensures r.Ok? <==> forall i :: 0 <= i < |parts| ==> IsU8Literal(parts[i])
    ensures r.Ok? ==> |r.value| == |parts|
    ensures r.Ok? ==> forall i :: 0 <= i < |parts| ==> r.value[i] == DecimalValue(Digits(parts[i]))
    ensures r.Err? ==> exists i :: FirstBadPart(parts, i) && r.error == parts[i]
  {
    if |parts| == 0 then Ok([])
    else
      match ParseU8(parts[0])
      case None =>
        assert FirstBadPart(parts, 0);
        Err(parts[0])
      case Some(v) =>
        match ParseOctets(parts[1..])
        case Err(p) =>
          var k :| FirstBadPart(parts[1..], k) && p == parts[1..][k];
          assert FirstBadPart(parts, k + 1);
          Err(p)
        case Ok(rest) =>
          assert forall i :: 0 < i < |parts| ==> parts[i] == parts[1..][i - 1];
          Ok([v] + rest)
  }

  /** The validator proper: part count, then port zero, then system ports,
      then the octets. */
  function Validate(args: Args): (r: Result<Config, CliError>)
    ensures r.Ok? ==> r.value.name == args.name
    ensures r.Ok? ==> r.value.port == args.port
    ensures r.Ok? ==> r.value.logFilePath == args.logFilePath
  {
    var parts := Split(args.host, HostSeparator);
    if |parts| != 4 then Err(MalformedHost)
    else if args.port == 0 then Err(ZeroPort)
    else if args.port == 8080 || args.port == 80 then Err(SystemPort)
    else
      match ParseOctets(parts)
      case Err(part) => Err(BadOctet(part))
      case Ok(octets) => Ok(Config(args.name, octets, args.port, args.logFilePath))
  }

  /** `parse` with the source's signature: the error is the message text.
      Which text comes back is fixed by the checks in source order. */
  function Parse(args: Args): (r: Result<Config, string>)
    ensures var parts := Split(args.host, HostSeparator);
      r == Err(HostMessage) <==> |parts| != 4
    ensures var parts := Split(args.host, HostSeparator);
      r == Err(ZeroPortMessage) <==> |parts| == 4 && args.port == 0
    ensures var parts := Split(args.host, HostSeparator);
      r == Err(SystemPortMessage) <==> |parts| == 4 && args.port in SystemPorts
    ensures var parts := Split(args.host, HostSeparator);
      forall i :: FirstBadPart(parts, i) && |parts| == 4 && args.port != 0 && args.port !in SystemPorts ==>
        r == Err(BadPartPrefix + parts[i])
    ensures var parts := Split(args.host, HostSeparator);
      r.Err? && |parts| == 4 && args.port != 0 && args.port !in SystemPorts ==>
        exists i :: FirstBadPart(parts, i) && r.error == BadPartPrefix + parts[i]
    ensures var parts := Split(args.host, HostSeparator);
      r.Ok? <==>
        && |parts| == 4 && args.port != 0 && args.port !in SystemPorts
        && forall i :: 0 <= i < 4 ==> IsU8Literal(parts[i])
    ensures var parts := Split(args.host, HostSeparator);
      r.Ok? ==>
        && r.value.name == args.name && r.value.port == args.port && r.value.logFilePath == args.logFilePath
        && forall i :: 0 <= i < 4 ==> r.value.octets[i] == DecimalValue(Digits(parts[i]))
  {
    ValidateSucceedsIff(args);
    match Validate(args)
    case Ok(c) =>
      OctetValues(args);
      Ok(c)
    case Err(e) =>
      MessageInjective(e, MalformedHost);
      MessageInjective(e, ZeroPort);
      MessageInjective(e, SystemPort);
      ErrorPrecedence(args, e);
      Err(Message(e))
  }

  /** Distinct failures have distinct messages, so the text loses nothing. */
  lemma MessageInjective(e1: CliError, e2: CliError)
    ensures Message(e1) == Message(e2) ==> e1 == e2
  {
    if Message(e1) == Message(e2) && e1.BadOctet? && e2.BadOctet? {
      assert (BadPartPrefix + e1.part)[|BadPartPrefix|..] == e1.part;
      assert (BadPartPrefix + e2.part)[|BadPartPrefix|..] == e2.part;
    } else if Message(e1) == Message(e2) {
      MessageStartsWith(e1);
      MessageStartsWith(e2);
    }
  }

  /** The letter each message starts with; no two kinds of failure share one. */
  function FirstLetter(e: CliError): (c: char) {
    match e
    case MalformedHost => 'H'
    case ZeroPort => 'P'
    case SystemPort => 'C'
    case BadOctet(_) => 'U'
  }

  lemma MessageStartsWith(e: CliError)
    ensures |Message(e)| > 0 && Message(e)[0] == FirstLetter(e)
  {
    match e
    case BadOctet(part) =>
      assert (BadPartPrefix + part)[0] == BadPartPrefix[0];
    case MalformedHost =>
      assert HostMessage[0] == 'H';
    case ZeroPort =>
      assert ZeroPortMessage[0] == 'P';
    case SystemPort =>
      assert SystemPortMessage[0] == 'C';
  }

  /** A host that is not four dotted parts is refused with the host error,
      whatever the port; equivalently, it does not hold exactly three dots. */
  lemma HostShapeFirst(args: Args)
    ensures |Split(args.host, HostSeparator)| != 4 <==> Validate(args) == Err(MalformedHost)
    ensures multiset(args.host)[HostSeparator] != 3 <==> Validate(args) == Err(MalformedHost)
  {
    SplitCount(args.host, HostSeparator);
  }

  /** Port zero is refused with the zero-port error once the host has four parts. */
  lemma ZeroPortRejected(args: Args)
    requires |Split(args.host, HostSeparator)| == 4
    ensures args.port == 0 <==> Validate(args) == Err(ZeroPort)
  {
  }

  /** Ports 80 and 8080 are refused with the system-port error; every other
      non-zero port gets past both port checks. */
  lemma SystemPortRejected(args: Args)
    requires |Split(args.host, HostSeparator)| == 4
    ensures args.port in SystemPorts <==> Validate(args) == Err(SystemPort)
    ensures args.port != 0 && args.port !in SystemPorts ==>
      Validate(args) != Err(ZeroPort) && Validate(args) != Err(SystemPort)
  {
  }

  /** Which error is reported, exactly: part count before port zero before
      system port before the first bad octet, named by its text. */
  lemma ErrorPrecedence(args: Args, e: CliError)
    ensures Validate(args) == Err(e) <==>
      var parts := Split(args.host, HostSeparator);
      match e
      case MalformedHost => |parts| != 4
      case ZeroPort => |parts| == 4 && args.port == 0
      case SystemPort => |parts| == 4 && args.port in SystemPorts
      case BadOctet(p) =>
        && |parts| == 4 && args.port != 0 && args.port !in SystemPorts
        && exists i :: FirstBadPart(parts, i) && p == parts[i]
  {
    var parts := Split(args.host, HostSeparator);
    if e.BadOctet? && |parts| == 4 && args.port != 0 && args.port !in SystemPorts {
      var r := ParseOctets(parts);
      if exists i :: FirstBadPart(parts, i) && e.part == parts[i] {
        var i :| FirstBadPart(parts, i) && e.part == parts[i];
        assert r.Err?;
        var j :| FirstBadPart(parts, j) && r.error == parts[j];
        FirstBadPartUnique(parts, i, j);
      }
    }
  }

  lemma FirstBadPartUnique(parts: seq<string>, i: int, j: int)
    requires FirstBadPart(parts, i) && FirstBadPart(parts, j)
    ensures i == j
  {
  }

  /** Soundness and completeness: validation succeeds exactly when the host
      has four parts, the port is neither zero nor a system port, and every
      part is a `u8` literal. */
  lemma ValidateSucceedsIff(args: Args)
    ensures Validate(args).Ok? <==>
      var parts := Split(args.host, HostSeparator);
      && |parts| == 4
      && args.port != 0 && args.port !in SystemPorts
      && forall i :: 0 <= i < 4 ==> IsU8Literal(parts[i])
  {
  }

  /** On success each octet is the value of the matching dotted part. */
  lemma OctetValues(args: Args)
    requires Validate(args).Ok?
    ensures var parts := Split(args.host, HostSeparator);
      |parts| == 4 &&
      forall i :: 0 <= i < 4 ==> Validate(args).value.octets[i] == DecimalValue(Digits(parts[i]))
  {
  }

  /** The dotted-decimal text of four octets, as written when the listener
      address is formatted. */
  function DottedQuad(o: Octets): (host: string) {
    Join([DecimalText(o[0]), DecimalText(o[1]), DecimalText(o[2]), DecimalText(o[3])], HostSeparator)
  }

  /** Validation reads back the octets of a dotted-decimal host, so every
      address the validator can return is reachable. */
  lemma {:induction false} ValidateDottedQuad(name: string, o: Octets, port: Port, logFilePath: string)
    requires port != 0 && port !in SystemPorts
    ensures Validate(Args(name, DottedQuad(o), port, logFilePath)) == Ok(Config(name, o, port, logFilePath))
  {
    var parts := [DecimalText(o[0]), DecimalText(o[1]), DecimalText(o[2]), DecimalText(o[3])];
    forall i | 0 <= i < 4
      ensures HostSeparator !in parts[i]
      ensures ParseU8(parts[i]) == Some(o[i])
    {
      DecimalTextMeaning(o[i]);
      ParseDecimalText(o[i]);
    }
    SplitJoin(parts, HostSeparator);
    var r := ParseOctets(parts);
    assert r.Ok?;
    assert forall i :: 0 <= i < 4 ==> r.value[i] == o[i];
    assert r.value == o;
  }

  /** "1..2.3" has four parts; the empty second part is the one refused. */
  lemma EmptyPartExample()
    ensures Validate(Args("srv", "1..2.3", 7878, "app.log")) == Err(BadOctet(""))
  {
    SplitJoin(["1", "", "2", "3"], HostSeparator);
    assert Join(["1", "", "2", "3"], HostSeparator) == "1..2.3";
    assert FirstBadPart(["1", "", "2", "3"], 1);
  }

  /** "1.2.3.4." has five parts and fails the count check. */
  lemma TrailingDotExample()
    ensures Validate(Args("srv", "1.2.3.4.", 7878, "app.log")) == Err(MalformedHost)
  {
    SplitJoin(["1", "2", "3", "4", ""], HostSeparator);
    assert Join(["1", "2", "3", "4", ""], HostSeparator) == "1.2.3.4.";
  }

  /** A three-part host with port zero reports the host error, not the port. */
  lemma HostBeforePortExample()
    ensures Validate(Args("srv", "1.2.3", 0, "app.log")) == Err(MalformedHost)
  {
    SplitJoin(["1", "2", "3"], HostSeparator);
    assert Join(["1", "2", "3"], HostSeparator) == "1.2.3";
  }
}
