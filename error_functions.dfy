/** The decision logic of the TLPI error functions, without I/O: which name an
    errno value gets, how the diagnostic line is composed and cut to the buffer
    size, how the process ends, and which parameters each public entry point
    passes to that machinery. */
module ErrorFunctions {
  import opened CStrings

  datatype Option<T> = None | Some(value: T)

  /** Printed in place of a symbolic name the table does not have. */
  const UNKNOWN_NAME: string := "?UNKNOWN?"

  /** The process status passed to `exit` and `_exit`. POSIX only requires
      it to be non-zero; it is 1 on glibc, the value used here. */
  const EXIT_FAILURE: int := 1

  /** The collaborators `outputError` consults: the `ename` table and its
      largest index `MAX_ENAME` (defined by `ename.c.inc`), and `strerror`.
      Their contents are not part of this model. */
  datatype ErrnoTable = ErrnoTable(ename: seq<string>, maxEname: int, strerror: int -> string) {
    /** `ename` has an entry for every index from 0 to `MAX_ENAME` inclusive. */
    predicate WellFormed() { maxEname >= 0 && |ename| == maxEname + 1 }
  }

  /** The range check `outputError` applies before indexing `ename`. */
  predicate InTable(t: ErrnoTable, err: int) { err > 0 && err <= t.maxEname }

  function ErrorName(t: ErrnoTable, err: int): string
    requires t.WellFormed()
  {
    if InTable(t, err) then t.ename[err] else UNKNOWN_NAME
  }

  /** The complete output of `snprintf(errText, ...)` before truncation. */
  function ErrTextFormatted(t: ErrnoTable, useErr: bool, err: int): string
    requires t.WellFormed()
  {
    if useErr then " [" + UpToNul(ErrorName(t, err)) + " " + UpToNul(t.strerror(err)) + "]"
    else ":"
  }

  /** The contents of the `errText` buffer. */
  function ErrText(t: ErrnoTable, useErr: bool, err: int): (r: string)
    requires t.WellFormed()
    ensures |r| <= BUF_SIZE - 1
    ensures NUL !in r
    ensures r <= ErrTextFormatted(t, useErr, err)
    ensures !useErr ==> r == ":"
    ensures useErr ==> |r| >= 2 && r[..2] == " ["
  {
    var s := ErrTextFormatted(t, useErr, err);
    if useErr then
      BracketFacts(UpToNul(ErrorName(t, err)), UpToNul(t.strerror(err)));
      TruncateKeepsPrefix(s, 2);
      NulFreePrefix(Truncate(s), s);
      Truncate(s)
    else
      Truncate(s)
  }

  /** The bracketed suffix of C-string parts is NUL-free and starts with `" ["`. */
  lemma BracketFacts(name: string, desc: string)
    requires NUL !in name && NUL !in desc
    ensures var s := " [" + name + " " + desc + "]";
            NUL !in s && |s| >= 2 && s[..2] == " ["
  {
    var s := " [" + name + " " + desc + "]";
    assert s == [' ', '['] + name + [' '] + desc + [']'];
  }

  /** The complete output of `snprintf(buf, BUF_SIZE, "ERROR%s %s\n", ...)`
      over the `errText` and `userMsg` buffers, before truncation. */
  function Composed(errText: string, userMsg: string): (r: string)
    ensures NUL !in r
    ensures |r| >= 7 && r[..5] == "ERROR" && r[|r| - 1] == '\n'
  {
    var e, m := UpToNul(errText), UpToNul(userMsg);
    LineFacts(e, m);
    "ERROR" + e + " " + m + "\n"
  }

  /** A line composed of C-string parts is NUL-free, starts with `ERROR` and ends in a newline. */
  lemma LineFacts(e: string, m: string)
    requires NUL !in e && NUL !in m
    ensures var r := "ERROR" + e + " " + m + "\n";
            NUL !in r && |r| >= 7 && r[..5] == "ERROR" && r[|r| - 1] == '\n'
  {
    var r := "ERROR" + e + " " + m + "\n";
    assert r == ['E', 'R', 'R', 'O', 'R'] + e + [' '] + m + ['\n'];
  }

  /** The untruncated composition of the (truncated) parts `outputError` has:
      the line it would write if `buf` were large enough. */
  function Untruncated(t: ErrnoTable, useErr: bool, err: int, formatted: string): string
    requires t.WellFormed()
  {
    Composed(ErrText(t, useErr, err), Truncate(formatted))
  }

  /** The text `outputError` hands to `fputs` when the user's format and
      arguments expand to `formatted`. */
  function ErrorLine(t: ErrnoTable, useErr: bool, err: int, formatted: string): (line: string)
    requires t.WellFormed()
    ensures |line| <= BUF_SIZE - 1
    ensures NUL !in line
    ensures line <= Untruncated(t, useErr, err, formatted)
    ensures |line| >= 5 && line[..5] == "ERROR"
    ensures |Untruncated(t, useErr, err, formatted)| < BUF_SIZE ==>
              line == Untruncated(t, useErr, err, formatted) && line[|line| - 1] == '\n'
    ensures |Untruncated(t, useErr, err, formatted)| >= BUF_SIZE ==> |line| == BUF_SIZE - 1
  {
    var u := Untruncated(t, useErr, err, formatted);
    var b := Truncate(u);
    NulFreePrefix(b, u);
    TruncateKeepsPrefix(u, 5);
    UpToNul(b)
  }

  /** When the name and description are C strings that fit the buffer,
      `errText` is `" [" + name + " " + description + "]"` in full. */
  lemma BracketedErrText(t: ErrnoTable, err: int)
    requires t.WellFormed()
    requires NUL !in ErrorName(t, err) && NUL !in t.strerror(err)
    requires |" [" + ErrorName(t, err) + " " + t.strerror(err) + "]"| < BUF_SIZE
    ensures ErrText(t, true, err) == " [" + ErrorName(t, err) + " " + t.strerror(err) + "]"
  {
    assert ErrTextFormatted(t, true, err) == " [" + ErrorName(t, err) + " " + t.strerror(err) + "]";
  }

  /** Regrouping the literal pieces of a line with a bracketed suffix; it only
      spares the solver an associativity step. */
  lemma BracketAssoc(name: string, desc: string, msg: string)
    ensures "ERROR" + (" [" + name + " " + desc + "]") + " " + msg + "\n"
         == "ERROR [" + name + " " + desc + "] " + msg + "\n"
  {
  }

  /** When the user message is a C string that fits its buffer, the untruncated
      line is `"ERROR" + errText + " " + message + "\n"`. */
  lemma UntruncatedShape(t: ErrnoTable, useErr: bool, err: int, userMsg: string)
    requires t.WellFormed()
    requires NUL !in userMsg && |userMsg| < BUF_SIZE
    ensures Untruncated(t, useErr, err, userMsg) == "ERROR" + ErrText(t, useErr, err) + " " + userMsg + "\n"
  {
  }

  /** Without an error code the line is `"ERROR: " + userMsg + "\n"`. */
  lemma NoErrorCodeLine(t: ErrnoTable, err: int, userMsg: string)
    requires t.WellFormed()
    requires NUL !in userMsg && |userMsg| < BUF_SIZE
    ensures Untruncated(t, false, err, userMsg) == "ERROR: " + userMsg + "\n"
    ensures |userMsg| < BUF_SIZE - 8 ==> ErrorLine(t, false, err, userMsg) == "ERROR: " + userMsg + "\n"
  {
    UntruncatedShape(t, false, err, userMsg);
  }

  /** With an error code in the table, the one bracketed suffix holds the
      table entry and the `strerror` text, and comes before the message. */
  lemma KnownErrorLine(t: ErrnoTable, err: int, userMsg: string)
    requires t.WellFormed() && InTable(t, err)
    requires NUL !in userMsg && |userMsg| < BUF_SIZE
    requires NUL !in t.ename[err] && NUL !in t.strerror(err)
    requires |" [" + t.ename[err] + " " + t.strerror(err) + "]"| < BUF_SIZE
    ensures Untruncated(t, true, err, userMsg)
         == "ERROR [" + t.ename[err] + " " + t.strerror(err) + "] " + userMsg + "\n"
  {
    BracketedErrText(t, err);
    UntruncatedShape(t, true, err, userMsg);
    BracketAssoc(t.ename[err], t.strerror(err), userMsg);
  }

  /** With an error code outside `1..MAX_ENAME` (zero and negative codes
      included) the name is the sentinel; the description is still
      `strerror(err)`. */
  lemma UnknownErrorLine(t: ErrnoTable, err: int, userMsg: string)
    requires t.WellFormed() && !InTable(t, err)
    requires NUL !in userMsg && |userMsg| < BUF_SIZE
    requires NUL !in t.strerror(err)
    requires |" [" + UNKNOWN_NAME + " " + t.strerror(err) + "]"| < BUF_SIZE
    ensures Untruncated(t, true, err, userMsg)
         == "ERROR [" + UNKNOWN_NAME + " " + t.strerror(err) + "] " + userMsg + "\n"
  {
    assert NUL !in UNKNOWN_NAME;
    BracketedErrText(t, err);
    UntruncatedShape(t, true, err, userMsg);
    BracketAssoc(UNKNOWN_NAME, t.strerror(err), userMsg);
  }

  /** Reading a line back: when it has the shape `"ERROR" + errText + " " ... "\n"`,
      the user message between the two. */
  function MessageOf(line: string, errText: string): (r: Option<string>)
    ensures r.Some? ==> line == "ERROR" + errText + " " + r.value + "\n"
  {
    var head := "ERROR" + errText + " ";
    if |line| >= |head| + 1 && line[..|head|] == head && line[|line| - 1] == '\n' then
      assert line == head + line[|head|..|line| - 1] + "\n";
      Some(line[|head|..|line| - 1])
    else None
  }

  /** A line that was not cut gives back exactly the user message that
      `outputError` formatted into it. */
  lemma {:induction false} MessageRecovered(t: ErrnoTable, useErr: bool, err: int, formatted: string)
    requires t.WellFormed()
    requires |Untruncated(t, useErr, err, formatted)| < BUF_SIZE
    ensures MessageOf(ErrorLine(t, useErr, err, formatted), ErrText(t, useErr, err))
         == Some(UpToNul(Truncate(formatted)))
  {
    var e := ErrText(t, useErr, err);
    var m := UpToNul(Truncate(formatted));
    assert UpToNul(e) == e;
    MessageOfLine(e, m);
  }

  /** `MessageOf` inverts the composition of a line. */
  lemma MessageOfLine(e: string, m: string)
    ensures MessageOf("ERROR" + e + " " + m + "\n", e) == Some(m)
  {
    var line := "ERROR" + e + " " + m + "\n";
    var head := "ERROR" + e + " ";
    assert line == head + m + "\n";
    assert line[..|head|] == head;
    assert line[|head|..|line| - 1] == m;
  }

  /** How `terminate` ends the process. */
  datatype Outcome =
    | Abort               // abort(3): SIGABRT and a core image
    | Exit3(status: int)  // exit(3): runs exit handlers and flushes stdio
    | Exit2(status: int)  // _exit(2): ends at once, stdio buffers are lost

  /** `getenv("EF_DUMPCORE")` returned a string whose first character is not NUL. */
  predicate DumpCoreRequested(dumpCore: Option<string>)
  {
    dumpCore.Some? && |dumpCore.value| > 0 && dumpCore.value[0] != NUL
  }

  /** The decision of `terminate`: a core dump when asked for, whatever
      `useExit3` says; otherwise `exit` or `_exit` with `EXIT_FAILURE`. */
  function TerminationOutcome(dumpCore: Option<string>, useExit3: bool): (o: Outcome)
    ensures o.Abort? <==> DumpCoreRequested(dumpCore)
    ensures o.Exit3? <==> !DumpCoreRequested(dumpCore) && useExit3
    ensures o.Exit2? <==> !DumpCoreRequested(dumpCore) && !useExit3
    ensures !o.Abort? ==> o.status == EXIT_FAILURE
  {
    if DumpCoreRequested(dumpCore) then Abort
    else if useExit3 then Exit3(EXIT_FAILURE)
    else Exit2(EXIT_FAILURE)
  }

  /** The public entry points built on `outputError` and `terminate`. */
  datatype Entry =
    | ErrMsg            // errMsg
    | ErrExit           // errExit
    | ErrExitNoFlush    // err_exit
    | ErrExitEN(errnum: int)  // errExitEN
    | Fatal             // fatal

  /** The arguments an entry point passes to `outputError` and `terminate`;
      `useExit3` is `None` for the one that does not terminate. */
  datatype Params = Params(useErr: bool, err: int, flushStdout: bool, useExit3: Option<bool>)

  /** The fixed parameters of each entry point, given the caller's `errno`. */
  function ParamsOf(e: Entry, errno: int): (p: Params)
    ensures p.useErr <==> !e.Fatal?
    ensures p.err == (if e.ErrExitEN? then e.errnum else if e.Fatal? then 0 else errno)
    ensures p.flushStdout <==> !e.ErrExitNoFlush?
    ensures p.useExit3.None? <==> e.ErrMsg?
    ensures p.useExit3 == Some(false) <==> e.ErrExitNoFlush?
  {
    match e
    case ErrMsg => Params(true, errno, true, None)
    case ErrExit => Params(true, errno, true, Some(true))
    case ErrExitNoFlush => Params(true, errno, false, Some(false))
    case ErrExitEN(n) => Params(true, n, true, Some(true))
    case Fatal => Params(false, 0, true, Some(true))
  }

  /** The observable effects of the library, in order. */
  datatype Event =
    | FlushStdout
    | WriteStderr(text: string)
    | FlushStderr
    | Terminated(outcome: Outcome)

  /** The stream operations of `outputError` for a composed line. */
  function OutputEvents(flushStdout: bool, line: string): seq<Event>
  {
    (if flushStdout then [FlushStdout] else []) + [WriteStderr(line), FlushStderr]
  }

  /** Everything a call of entry point `e` does, given the environment's
      `EF_DUMPCORE`, the caller's `errno` and the formatted message. */
  function Effects(t: ErrnoTable, dumpCore: Option<string>, e: Entry, errno: int, formatted: string): seq<Event>
    requires t.WellFormed()
  {
    var p := ParamsOf(e, errno);
    OutputEvents(p.flushStdout, ErrorLine(t, p.useErr, p.err, formatted))
      + (if p.useExit3.Some? then [Terminated(TerminationOutcome(dumpCore, p.useExit3.value))] else [])
  }

  /** The order `outputError` and `terminate` promise for a sequence of
      events: stdout is flushed exactly when asked, and then first; the one
      write to stderr, of `line`, is immediately followed by the stderr flush;
      a termination can only be the last event, and is there exactly when
      `terminates`; there are no other events. */
  predicate ReportOrder(es: seq<Event>, flushStdout: bool, line: string, terminates: bool)
  {
    var w := if flushStdout then 1 else 0;
    && (FlushStdout in es <==> flushStdout)
    && (flushStdout ==> es[0] == FlushStdout)
    && w + 1 < |es|
    && es[w] == WriteStderr(line)
    && es[w + 1] == FlushStderr
    && (forall i :: 0 <= i < |es| && i != w ==> !es[i].WriteStderr?)
    && (forall i :: 0 <= i < |es| && es[i].Terminated? ==> i == |es| - 1)
    && (es[|es| - 1].Terminated? <==> terminates)
    && |es| == w + 2 + (if terminates then 1 else 0)
  }

  /** The stream operations of `outputError`, followed by at most one
      termination, are in report order. */
  lemma {:induction false} EventOrder(flushStdout: bool, line: string, tail: seq<Event>)
    requires |tail| <= 1 && forall i :: 0 <= i < |tail| ==> tail[i].Terminated?
    ensures ReportOrder(OutputEvents(flushStdout, line) + tail, flushStdout, line, tail != [])
  {
    var es := OutputEvents(flushStdout, line) + tail;
    if flushStdout {
      assert es == [FlushStdout, WriteStderr(line), FlushStderr] + tail;
    } else {
      assert es == [WriteStderr(line), FlushStderr] + tail;
    }
  }

  /** Every entry point reports in that order, with the composed line as the
      write, and all of them but `errMsg` terminate. */
  lemma EffectOrder(t: ErrnoTable, dumpCore: Option<string>, e: Entry, errno: int, formatted: string)
    requires t.WellFormed()
    ensures var p := ParamsOf(e, errno);
            ReportOrder(Effects(t, dumpCore, e, errno, formatted), p.flushStdout,
                        ErrorLine(t, p.useErr, p.err, formatted), !e.ErrMsg?)
  {
    var p := ParamsOf(e, errno);
    var tail: seq<Event> := if p.useExit3.Some? then [Terminated(TerminationOutcome(dumpCore, p.useExit3.value))] else [];
    EventOrder(p.flushStdout, ErrorLine(t, p.useErr, p.err, formatted), tail);
  }

  /** No event of `es` ends the process. */
  predicate NoTermination(es: seq<Event>)
  {
    forall ev :: ev in es ==> !ev.Terminated?
  }

  /** `errMsg` reports and never terminates. */
  lemma ErrMsgOnlyReports(t: ErrnoTable, dumpCore: Option<string>, errno: int, formatted: string)
    requires t.WellFormed()
    ensures Effects(t, dumpCore, ErrMsg, errno, formatted) == OutputEvents(true, ErrorLine(t, true, errno, formatted))
    ensures NoTermination(Effects(t, dumpCore, ErrMsg, errno, formatted))
  {
    var es := OutputEvents(true, ErrorLine(t, true, errno, formatted));
    assert es + [] == es;
    OutputNeverTerminates(true, ErrorLine(t, true, errno, formatted));
  }

  /** The stream operations of `outputError` never end the process. */
  lemma OutputNeverTerminates(flushStdout: bool, line: string)
    ensures NoTermination(OutputEvents(flushStdout, line))
  {
    var es := OutputEvents(flushStdout, line);
    if flushStdout {
      assert es == [FlushStdout, WriteStderr(line), FlushStderr];
    } else {
      assert es == [WriteStderr(line), FlushStderr];
    }
  }

  /** Every entry point but `errMsg` ends in `terminate`, and its outcome is
      `abort` when a core dump is requested; only `err_exit` uses `_exit`. */
  lemma EntryOutcome(t: ErrnoTable, dumpCore: Option<string>, e: Entry, errno: int, formatted: string)
    requires t.WellFormed() && !e.ErrMsg?
    ensures var es := Effects(t, dumpCore, e, errno, formatted);
            && |es| > 0
            && es[|es| - 1] == Terminated(TerminationOutcome(dumpCore, !e.ErrExitNoFlush?))
            && (DumpCoreRequested(dumpCore) ==> es[|es| - 1] == Terminated(Abort))
            && (!DumpCoreRequested(dumpCore) ==>
                  es[|es| - 1] == Terminated(if e.ErrExitNoFlush? then Exit2(EXIT_FAILURE) else Exit3(EXIT_FAILURE)))
  {
  }

  /** `fatal` never writes a bracketed error suffix: its line is
      `"ERROR: " + message + "\n"` whenever that fits the buffer. */
  lemma FatalLine(t: ErrnoTable, dumpCore: Option<string>, errno: int, message: string)
    requires t.WellFormed()
    requires NUL !in message && |message| < BUF_SIZE - 8
    ensures WriteStderr("ERROR: " + message + "\n") in Effects(t, dumpCore, Fatal, errno, message)
  {
    NoErrorCodeLine(t, 0, message);
    EffectOrder(t, dumpCore, Fatal, errno, message);
  }

  /** With errno ENOENT (2 on Linux), `errText` is
      `" [ENOENT No such file or directory]"`. */
  lemma EnoentExample(t: ErrnoTable)
    requires t.WellFormed() && t.maxEname >= 2
    requires t.ename[2] == "ENOENT" && t.strerror(2) == "No such file or directory"
    ensures ErrText(t, true, 2) == " [" + "ENOENT" + " " + "No such file or directory" + "]"
  {
    BracketedErrText(t, 2);
  }
}
