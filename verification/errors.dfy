/**
 * The error bridge: how a script-engine exception is captured (message plus
 * a "script() LINE n: source" detail whose line number is corrected for the
 * one-line wrapper header), how a message is cleaned before it is handed
 * back to scripts as an Error object, how both failure domains are reported
 * to the host, and how SPI status codes are rendered as text.
 */
module ErrorBridge {
  import opened Base
  import opened Decimal
  import opened Text

  /** Location data the engine may attach to an exception. */
  datatype MessageInfo = MessageInfo(scriptName: Option<string>, lineNumber: int, sourceLine: Option<string>)

  /**
   * An exception caught from the engine: its string form and an optional
   * location. The string form is None when converting the exception to a
   * string itself fails (a nested error, which the capture swallows).
   */
  datatype ScriptException = ScriptException(text: Option<string>, message: Option<MessageInfo>)

  /** A missing script name or source line prints as "?". */
  function Label(s: Option<string>): (r: string)
    ensures s.Some? ==> r == s.value
    ensures s.None? ==> r == "?"
  {
    s.GetOr("?")
  }

  /**
   * The detail line of a captured exception. The wrapper source puts the
   * user's code on its second line, so the engine's line number is
   * reported minus one.
   */
  function FormatDetail(m: MessageInfo): (r: string)
    ensures |r| >= |Label(m.scriptName)| + 8
    ensures r[..|Label(m.scriptName)|] == Label(m.scriptName)
    ensures r[|Label(m.scriptName)|..|Label(m.scriptName)| + 8] == "() LINE "
  {
    Label(m.scriptName) + "() LINE " + IntToString(m.lineNumber - 1) + ": " + Label(m.sourceLine)
  }

  datatype DetailParts = DetailParts(script: string, line: int, source: string)

  /**
   * Reads a detail line back into its script name, reported line and
   * source text. The script name is taken to end at the first '('.
   */
  function ParseDetail(d: string): Option<DetailParts> {
    match FirstIndex(d, '(')
    case None => None
    case Some(k) =>
      match ParseLineAndSource(d[k..])
      case None => None
      case Some(p) => Some(DetailParts(d[..k], p.0, p.1))
  }

  function ParseLineAndSource(rest: string): Option<(int, string)> {
    if |rest| < 8 || rest[..8] != "() LINE " then None else ParseNumberAndSource(rest[8..])
  }

  function ParseNumberAndSource(tail: string): Option<(int, string)> {
    match FirstIndex(tail, ':')
    case None => None
    case Some(j) =>
      if |tail| < j + 2 || tail[j..j + 2] != ": " then None
      else match ParseInt(tail[..j])
        case None => None
        case Some(n) => Some((n, tail[j + 2..]))
  }

  lemma NumberAndSourceRoundTrip(i: int, src: string)
    ensures ParseNumberAndSource(IntToString(i) + ": " + src) == Some((i, src))
  {
    var num := IntToString(i);
    var tail := num + ": " + src;
    assert tail == num + (": " + src);
    assert ':' !in num;
    FirstIndexAfterPrefix(num, ": " + src, ':');
    assert FirstIndex(tail, ':') == Some(|num|);
    assert tail[..|num|] == num;
    assert tail[|num|..|num| + 2] == ": ";
    assert tail[|num| + 2..] == src;
    IntToStringRoundTrip(i);
  }

  /** A name free of '(' followed by text starting with '(' splits at that parenthesis. */
  lemma ParseDetailSplit(name: string, rest: string)
    requires '(' !in name
    requires |rest| > 0 && rest[0] == '('
    ensures ParseDetail(name + rest)
         == match ParseLineAndSource(rest)
            case None => None
            case Some(p) => Some(DetailParts(name, p.0, p.1))
  {
    var d := name + rest;
    FirstIndexAfterPrefix(name, rest, '(');
    assert d[|name|..] == rest;
    assert d[..|name|] == name;
  }

  /** The part after the script name reads back as the line number and source text. */
  lemma LineAndSourceRoundTrip(n: int, src: string)
    ensures ParseLineAndSource("() LINE " + (IntToString(n) + ": " + src)) == Some((n, src))
  {
    var tail := IntToString(n) + ": " + src;
    var rest := "() LINE " + tail;
    assert rest[..8] == "() LINE ";
    assert rest[8..] == tail;
    NumberAndSourceRoundTrip(n, src);
  }

  /** The detail line carries the script name, the corrected line number and the source text, recoverably. */
  lemma DetailRoundTrip(m: MessageInfo)
    requires '(' !in Label(m.scriptName)
    ensures ParseDetail(FormatDetail(m))
         == Some(DetailParts(Label(m.scriptName), m.lineNumber - 1, Label(m.sourceLine)))
  {
    var name := Label(m.scriptName);
    var rest := "() LINE " + (IntToString(m.lineNumber - 1) + ": " + Label(m.sourceLine));
    assert FormatDetail(m) == name + rest;
    LineAndSourceRoundTrip(m.lineNumber - 1, Label(m.sourceLine));
    ParseDetailSplit(name, rest);
  }

  /**
   * js_error built from a caught exception: the message, and a detail line
   * when a location is known. A nested failure while reading the message
   * leaves both message and detail missing.
   */
  function CaptureException(ex: ScriptException): (e: JsError)
    ensures e.msg == ex.text
    ensures e.detail.Some? <==> ex.text.Some? && ex.message.Some?
    ensures e.detail.Some? ==> e.detail == Some(FormatDetail(ex.message.value))
  {
    match ex.text
    case None => JsError(None, None)
    case Some(t) => JsError(Some(t), if ex.message.Some? then Some(FormatDetail(ex.message.value)) else None)
  }

  /** What the host's error report carries after `rethrow`. */
  datatype Report = Report(message: Option<string>, detail: Option<string>)

  /**
   * `rethrow`: a script error is raised through the host's error channel
   * with its message and detail; a host error is re-raised unchanged.
   */
  function Rethrow(f: Failure): (r: Report)
    ensures f.ScriptError? ==> r.message == f.js.msg && r.detail == f.js.detail
    ensures f.HostError? ==> r.message == Some(f.message) && r.detail == f.detail
  {
    match f
    case ScriptError(js) => Report(js.msg, js.detail)
    case HostError(message, detail) => Report(Some(message), detail)
  }

  /**
   * An exception thrown inside a call reaches the host with the thrown text
   * as its message and a detail line reporting one line less than the
   * engine's raw line number.
   */
  lemma ExceptionReportsCorrectedLine(ex: ScriptException)
    requires ex.text.Some? && ex.message.Some?
    requires '(' !in Label(ex.message.value.scriptName)
    ensures Rethrow(ScriptError(CaptureException(ex))).message == ex.text
    ensures Rethrow(ScriptError(CaptureException(ex))).detail.Some?
    ensures ParseDetail(Rethrow(ScriptError(CaptureException(ex))).detail.value)
         == Some(DetailParts(Label(ex.message.value.scriptName), ex.message.value.lineNumber - 1,
                             Label(ex.message.value.sourceLine)))
  {
    DetailRoundTrip(ex.message.value);
  }

  const ErrorPrefix: string := "Error: "

  predicate HasErrorPrefix(m: string) {
    |m| >= |ErrorPrefix| && m[..|ErrorPrefix|] == ErrorPrefix
  }

  /**
   * `error_object`: the message given to a new script Error. A missing
   * message reads "unknown exception"; one leading "Error: " is removed.
   */
  function ErrorObjectMessage(msg: Option<string>): (r: string)
    ensures var m := msg.GetOr("unknown exception");
      && |r| <= |m|
      && m[|m| - |r|..] == r
      && (|m| - |r| == |ErrorPrefix| <==> HasErrorPrefix(m))
      && (|r| == |m| <==> !HasErrorPrefix(m))
  {
    var m := msg.GetOr("unknown exception");
    if HasErrorPrefix(m) then m[|ErrorPrefix|..] else m
  }

  /** The string form of a script Error with the given message. */
  function ErrorToString(message: string): string {
    if message == "" then "Error" else ErrorPrefix + message
  }

  /** Exactly one prefix is stripped, whatever follows it. */
  lemma {:induction false} StripsOnePrefix(x: string)
    ensures ErrorObjectMessage(Some(ErrorPrefix + x)) == x
  {
    var m := ErrorPrefix + x;
    assert m[..|ErrorPrefix|] == ErrorPrefix;
    assert m[|ErrorPrefix|..] == x;
  }

  /**
   * An Error built by `error_object` and caught again yields the same
   * message: the prefix its string form adds is the one stripped.
   */
  lemma ErrorObjectRecapture(msg: Option<string>)
    requires ErrorObjectMessage(msg) != ""
    ensures ErrorObjectMessage(Some(ErrorToString(ErrorObjectMessage(msg)))) == ErrorObjectMessage(msg)
  {
    StripsOnePrefix(ErrorObjectMessage(msg));
  }

  /**
   * An exception whose message could not be read is reported without
   * message or detail, and becomes an Error reading "unknown exception".
   */
  lemma NestedCaptureReadsUnknown(ex: ScriptException)
    requires ex.text.None?
    ensures Rethrow(ScriptError(CaptureException(ex))) == Report(None, None)
    ensures ErrorObjectMessage(CaptureException(ex).msg) == "unknown exception"
  {
    var m := "unknown exception";
    assert m[..|ErrorPrefix|][0] != ErrorPrefix[0];
  }

  // SPI status codes, as defined by PostgreSQL's executor/spi.h.
  const SPI_ERROR_CONNECT: int := -1
  const SPI_ERROR_COPY: int := -2
  const SPI_ERROR_OPUNKNOWN: int := -3
  const SPI_ERROR_UNCONNECTED: int := -4
  const SPI_ERROR_CURSOR: int := -5
  const SPI_ERROR_ARGUMENT: int := -6
  const SPI_ERROR_PARAM: int := -7
  const SPI_ERROR_TRANSACTION: int := -8
  const SPI_ERROR_NOATTRIBUTE: int := -9
  const SPI_ERROR_NOOUTFUNC: int := -10
  const SPI_ERROR_TYPUNKNOWN: int := -11

  const AbortedText: string := "current transaction is aborted, " + "commands ignored until end of transaction block"
  const UnknownStatusPrefix: string := "SPI_ERROR: "

  /** The fixed text of a named error status, if `status` has one. */
  function NamedStatusText(status: int): Option<string> {
    if status == SPI_ERROR_CONNECT then Some("SPI_ERROR_CONNECT")
    else if status == SPI_ERROR_COPY then Some("SPI_ERROR_COPY")
    else if status == SPI_ERROR_OPUNKNOWN then Some("SPI_ERROR_OPUNKNOWN")
    else if status == SPI_ERROR_UNCONNECTED || status == SPI_ERROR_TRANSACTION then Some(AbortedText)
    else if status == SPI_ERROR_CURSOR then Some("SPI_ERROR_CURSOR")
    else if status == SPI_ERROR_ARGUMENT then Some("SPI_ERROR_ARGUMENT")
    else if status == SPI_ERROR_PARAM then Some("SPI_ERROR_PARAM")
    else if status == SPI_ERROR_NOATTRIBUTE then Some("SPI_ERROR_NOATTRIBUTE")
    else if status == SPI_ERROR_NOOUTFUNC then Some("SPI_ERROR_NOOUTFUNC")
    else if status == SPI_ERROR_TYPUNKNOWN then Some("SPI_ERROR_TYPUNKNOWN")
    else None
  }

  /** `FormatSPIStatus`: "OK" for every positive status, a name for known errors, else the number. */
  function FormatSPIStatus(status: int): (r: string)
    ensures r == "OK" <==> status > 0
    ensures status <= 0 && NamedStatusText(status).None? ==> r == UnknownStatusPrefix + IntToString(status)
  {
    if status > 0 then "OK"
    else match NamedStatusText(status)
      case Some(t) => t
      case None => UnknownStatusPrefix + IntToString(status)
  }

  /** The status whose fixed text `r` is, if any. */
  function ParseNamedStatus(r: string): Option<int> {
    if r == "SPI_ERROR_CONNECT" then Some(SPI_ERROR_CONNECT)
    else if r == "SPI_ERROR_COPY" then Some(SPI_ERROR_COPY)
    else if r == "SPI_ERROR_OPUNKNOWN" then Some(SPI_ERROR_OPUNKNOWN)
    else if r == AbortedText then Some(SPI_ERROR_TRANSACTION)
    else if r == "SPI_ERROR_CURSOR" then Some(SPI_ERROR_CURSOR)
    else if r == "SPI_ERROR_ARGUMENT" then Some(SPI_ERROR_ARGUMENT)
    else if r == "SPI_ERROR_PARAM" then Some(SPI_ERROR_PARAM)
    else if r == "SPI_ERROR_NOATTRIBUTE" then Some(SPI_ERROR_NOATTRIBUTE)
    else if r == "SPI_ERROR_NOOUTFUNC" then Some(SPI_ERROR_NOOUTFUNC)
    else if r == "SPI_ERROR_TYPUNKNOWN" then Some(SPI_ERROR_TYPUNKNOWN)
    else None
  }

  /** Reads an error status back from its text. */
  function ParseSPIStatus(r: string): Option<int> {
    match ParseNamedStatus(r)
    case Some(status) => Some(status)
    case None =>
      if |r| >= |UnknownStatusPrefix| && r[..|UnknownStatusPrefix|] == UnknownStatusPrefix
      then ParseInt(r[|UnknownStatusPrefix|..])
      else None
  }

  /**
   * A text starting "S" with a colon at index 9 is no fixed text: the
   * named ones have an underscore there, and the aborted-transaction
   * message starts with "c".
   */
  lemma ColonTextIsUnnamed(r: string)
    requires |r| > 9 && r[0] == 'S' && r[9] == ':'
    ensures ParseNamedStatus(r).None?
  {
    assert r != AbortedText by { assert AbortedText[0] == 'c'; }
    // one text at a time, each told apart by its character at index 9
    assert r != "SPI_ERROR_CONNECT" by { assert "SPI_ERROR_CONNECT"[9] == '_'; }
    assert r != "SPI_ERROR_COPY" by { assert "SPI_ERROR_COPY"[9] == '_'; }
    assert r != "SPI_ERROR_OPUNKNOWN" by { assert "SPI_ERROR_OPUNKNOWN"[9] == '_'; }
    assert r != "SPI_ERROR_CURSOR" by { assert "SPI_ERROR_CURSOR"[9] == '_'; }
    assert r != "SPI_ERROR_ARGUMENT" by { assert "SPI_ERROR_ARGUMENT"[9] == '_'; }
    assert r != "SPI_ERROR_PARAM" by { assert "SPI_ERROR_PARAM"[9] == '_'; }
    assert r != "SPI_ERROR_NOATTRIBUTE" by { assert "SPI_ERROR_NOATTRIBUTE"[9] == '_'; }
    assert r != "SPI_ERROR_NOOUTFUNC" by { assert "SPI_ERROR_NOOUTFUNC"[9] == '_'; }
    assert r != "SPI_ERROR_TYPUNKNOWN" by { assert "SPI_ERROR_TYPUNKNOWN"[9] == '_'; }
  }

  /** The text of a named status other than SPI_ERROR_UNCONNECTED reads back as that status. */
  lemma NamedStatusRoundTrip(status: int)
    requires NamedStatusText(status).Some? && status != SPI_ERROR_UNCONNECTED
    ensures ParseSPIStatus(NamedStatusText(status).value) == Some(status)
  {
    // one case per named status, so that each text is compared on its own
    if status == SPI_ERROR_CONNECT {
    } else if status == SPI_ERROR_COPY {
    } else if status == SPI_ERROR_OPUNKNOWN {
    } else if status == SPI_ERROR_CURSOR {
    } else if status == SPI_ERROR_ARGUMENT {
    } else if status == SPI_ERROR_PARAM {
    } else if status == SPI_ERROR_TRANSACTION {
    } else if status == SPI_ERROR_NOATTRIBUTE {
    } else if status == SPI_ERROR_NOOUTFUNC {
    }
  }

  /** The text of a status with no name reads back as its number. */
  lemma UnknownStatusRoundTrip(status: int)
    requires status <= 0 && NamedStatusText(status).None?
    ensures ParseSPIStatus(UnknownStatusPrefix + IntToString(status)) == Some(status)
  {
    var num := IntToString(status);
    var r := UnknownStatusPrefix + num;
    assert r[9] == ':';
    assert r[0] == 'S';
    ColonTextIsUnnamed(r);
    assert r[..|UnknownStatusPrefix|] == UnknownStatusPrefix;
    assert r[|UnknownStatusPrefix|..] == num;
    IntToStringRoundTrip(status);
  }

  /**
   * Every non-positive status can be told back from its text, except that
   * SPI_ERROR_UNCONNECTED and SPI_ERROR_TRANSACTION share one message.
   */
  lemma SPIStatusRoundTrip(status: int)
    requires status <= 0
    ensures status != SPI_ERROR_UNCONNECTED ==> ParseSPIStatus(FormatSPIStatus(status)) == Some(status)
    ensures FormatSPIStatus(SPI_ERROR_UNCONNECTED) == FormatSPIStatus(SPI_ERROR_TRANSACTION)
  {
    if status != SPI_ERROR_UNCONNECTED {
      if NamedStatusText(status).Some? {
        NamedStatusRoundTrip(status);
      } else {
        UnknownStatusRoundTrip(status);
      }
    }
  }
}
