/** `report_status`: the line the shell prints once a child has terminated.

    The wait status is given already decoded, as an Outcome; the characters
    written to standard output are returned as a string. */
module Status {
  import opened Optional
  import opened Decimal

  /** How a child terminated: normally with an exit code, by a signal, or neither. */
  datatype Outcome = Exited(code: Int32) | Signaled(sig: Int32) | Unknown

  const ExitedText: string := "Command executed successfully. Return code: "
  const SignaledText: string := "Command terminated by signal: "
  const UnknownText: string := "Command finished. (unknown status)\n"

  /** `report_status`: the message for an outcome. */
  function ReportStatus(o: Outcome): (m: string)
  {
    match o
    case Exited(code) => ExitedText + Dec(code) + "\n"
    case Signaled(sig) => SignaledText + Dec(sig) + "\n"
    case Unknown => UnknownText
  }

  /** s starts with p. */
  predicate HasPrefix(s: string, p: string)
  {
    |p| <= |s| && s[..|p|] == p
  }

  /** The number printed between the text p and the final newline of m, if it is a 32-bit int. */
  function NumberAfter(m: string, p: string): (r: Option<Int32>)
    requires HasPrefix(m, p)
  {
    if |m| > |p| && m[|m| - 1] == '\n' then
      match ParseDec(m[|p|..|m| - 1])
      case Some(v) => if -0x8000_0000 <= v < 0x8000_0000 then Some(v as Int32) else None
      case None => None
    else None
  }

  /** Reads an outcome back from a message: the inverse of ReportStatus. */
  function ParseReport(m: string): (r: Option<Outcome>)
  {
    if HasPrefix(m, ExitedText) then
      match NumberAfter(m, ExitedText)
      case Some(v) => Some(Exited(v))
      case None => None
    else if HasPrefix(m, SignaledText) then
      match NumberAfter(m, SignaledText)
      case Some(v) => Some(Signaled(v))
      case None => None
    else if m == UnknownText then Some(Unknown)
    else None
  }

  /** The number is read back from the text that follows p. */
  lemma NumberAfterDec(p: string, x: Int32)
    ensures HasPrefix(p + Dec(x) + "\n", p)
    ensures NumberAfter(p + Dec(x) + "\n", p) == Some(x)
  {
    var m := p + Dec(x) + "\n";
    DecShape(x);
    DecRoundTrip(x);
    assert m[..|p|] == p;
    assert m[|p|..|m| - 1] == Dec(x);
  }

  /** Every outcome is read back from its message. */
  lemma ReportRoundTrip(o: Outcome)
    ensures ParseReport(ReportStatus(o)) == Some(o)
  {
    match o {
      case Exited(code) => ExitedRoundTrip(code);
      case Signaled(sig) => SignaledRoundTrip(sig);
      case Unknown => UnknownRoundTrip();
    }
  }

  lemma ExitedRoundTrip(code: Int32)
    ensures ParseReport(ReportStatus(Exited(code))) == Some(Exited(code))
  {
    NumberAfterDec(ExitedText, code);
  }

  lemma SignaledRoundTrip(sig: Int32)
    ensures ParseReport(ReportStatus(Signaled(sig))) == Some(Signaled(sig))
  {
    var m := ReportStatus(Signaled(sig));
    NumberAfterDec(SignaledText, sig);
    assert m[8] == 't' != ExitedText[8];
    assert !HasPrefix(m, ExitedText);
  }

  lemma UnknownRoundTrip()
    ensures ParseReport(ReportStatus(Unknown)) == Some(Unknown)
  {
    var m := ReportStatus(Unknown);
    assert m[8] == 'f' != ExitedText[8];
    assert m[8] != SignaledText[8];
  }

  /** Different outcomes give different messages. */
  lemma ReportInjective(o1: Outcome, o2: Outcome)
    requires ReportStatus(o1) == ReportStatus(o2)
    ensures o1 == o2
  {
    ReportRoundTrip(o1);
    ReportRoundTrip(o2);
  }

  /** Each message is one line: it ends with its only newline. */
  lemma ReportIsOneLine(o: Outcome)
    ensures var m := ReportStatus(o);
      |m| > 0 && m[|m| - 1] == '\n' && '\n' !in m[..|m| - 1]
  {
    match o {
      case Exited(code) => NumberLine(ExitedText, code);
      case Signaled(sig) => NumberLine(SignaledText, sig);
      case Unknown =>
        var m := UnknownText;
        assert m[..|m| - 1] == "Command finished. (unknown status)";
    }
  }

  /** A text without newline, a number and a newline form one line. */
  lemma NumberLine(p: string, x: Int32)
    requires '\n' !in p
    ensures var m := p + Dec(x) + "\n";
      |m| > 0 && m[|m| - 1] == '\n' && '\n' !in m[..|m| - 1]
  {
    var m := p + Dec(x) + "\n";
    DecChars(x);
    assert m[..|m| - 1] == p + Dec(x);
    assert '\n' !in Dec(x);
  }
}
