/** The error functions as operations on the calling process: the global
    `errno`, the environment (`EF_DUMPCORE`), and the ordered trace of what
    the process has done to its standard streams and how it ended. */
module ErrorProcess {
  import opened CStrings
  import opened ErrorFunctions

  /** Appending the stream operations of `outputError` one by one gives
      `OutputEvents`; it only spares the solver an associativity step. */
  lemma AppendEvents(before: seq<Event>, flushStdout: bool, line: string)
    ensures (if flushStdout then before + [FlushStdout] else before) + [WriteStderr(line)] + [FlushStderr]
         == before + OutputEvents(flushStdout, line)
  {
  }

  /** A report followed by a termination, appended to a trace; it only spares
      the solver an associativity step. */
  lemma ReportThenTerminate(before: seq<Event>, report: seq<Event>, last: Event)
    ensures before + report + [last] == before + (report + [last])
  {
  }

  /** Two traces without a termination make one. */
  lemma NoTerminationAppend(a: seq<Event>, b: seq<Event>)
    requires NoTermination(a) && NoTermination(b)
    ensures NoTermination(a + b)
  {
  }

  /** A termination appended to a trace without one is its only termination,
      and the last event. */
  lemma TerminatedLast(before: seq<Event>, last: Event)
    requires NoTermination(before)
    ensures |before + [last]| > 0 && (before + [last])[|before + [last]| - 1] == last
    ensures NoTermination((before + [last])[..|before + [last]| - 1])
  {
    assert (before + [last])[..|before|] == before;
  }

  /** `o` ended the process: it is the last event of `tr`, and nothing before
      it ended the process. */
  predicate EndedBy(tr: seq<Event>, o: Outcome)
  {
    |tr| > 0 && tr[|tr| - 1] == Terminated(o) && NoTermination(tr[..|tr| - 1])
  }

  /** The trace a terminating entry point leaves: `outputError`'s events for
      the entry's parameters, then the termination, which is the only one. */
  lemma TerminatingTrace(t: ErrnoTable, dumpCore: Option<string>, e: Entry, errno: int, formatted: string,
                         before: seq<Event>, o: Outcome)
    requires t.WellFormed() && !e.ErrMsg? && NoTermination(before)
    requires o == TerminationOutcome(dumpCore, !e.ErrExitNoFlush?)
    ensures var p := ParamsOf(e, errno);
            var tr := before + OutputEvents(p.flushStdout, ErrorLine(t, p.useErr, p.err, formatted)) + [Terminated(o)];
            && tr == before + Effects(t, dumpCore, e, errno, formatted)
            && EndedBy(tr, o)
  {
    var p := ParamsOf(e, errno);
    var report := OutputEvents(p.flushStdout, ErrorLine(t, p.useErr, p.err, formatted));
    ReportThenTerminate(before, report, Terminated(o));
    OutputNeverTerminates(p.flushStdout, ErrorLine(t, p.useErr, p.err, formatted));
    NoTerminationAppend(before, report);
    TerminatedLast(before + report, Terminated(o));
  }

  class Process {
    /** `ename`, `MAX_ENAME` and `strerror`, fixed for the life of the process. */
    const table: ErrnoTable
    /** What `getenv("EF_DUMPCORE")` returns in this process. */
    const dumpCore: Option<string>
    /** The global `errno`. */
    var errno: int
    /** Everything done so far to stdout, stderr and the process itself. */
    var trace: seq<Event>

    /** The process is still running: the table is well formed and nothing in
        the trace has ended the process. Every operation needs it, since the
        C functions that end the process never return to a caller. */
    predicate Live()
      reads this
    {
      table.WellFormed() && NoTermination(trace)
    }

    constructor (table: ErrnoTable, dumpCore: Option<string>, errno: int)
      requires table.WellFormed()
      ensures Live()
      ensures this.table == table && this.dumpCore == dumpCore
      ensures this.errno == errno && trace == []
    {
      this.table := table;
      this.dumpCore := dumpCore;
      this.errno := errno;
      trace := [];
    }

    /** `terminate`: records how the process ends. The C function never
        returns; here the outcome is returned and is the last event. */
    method Terminate(useExit3: bool) returns (o: Outcome)
      requires Live()
      modifies this`trace
      ensures o == TerminationOutcome(dumpCore, useExit3)
      ensures trace == old(trace) + [Terminated(o)]
    {
      var s := dumpCore;
      if s.Some? && |s.value| > 0 && s.value[0] != NUL {
        o := Abort;
      } else if useExit3 {
        o := Exit3(EXIT_FAILURE);
      } else {
        o := Exit2(EXIT_FAILURE);
      }
      trace := trace + [Terminated(o)];
    }

    /** `outputError`: fills the three buffers, then flushes stdout if asked,
        writes the line to stderr and flushes stderr. `formatted` is what the
        user's format expands to; `stdioErrno` is the value the stdio calls
        leave in `errno`, or `None` when they succeed without touching it. */
    method OutputError(useErr: bool, err: int, flushStdout: bool, formatted: string, stdioErrno: Option<int>)
      requires Live()
      modifies this
      ensures Live()
      ensures trace == old(trace) + OutputEvents(flushStdout, ErrorLine(table, useErr, err, formatted))
      ensures errno == (if stdioErrno.Some? then stdioErrno.value else old(errno))
    {
      var userMsg := Truncate(formatted);
      var errText := ErrText(table, useErr, err);
      var buf := Truncate(Composed(errText, userMsg));
      var line := UpToNul(buf);
      assert line == ErrorLine(table, useErr, err, formatted);
      ghost var before := trace;
      if flushStdout {
        trace := trace + [FlushStdout];
      }
      trace := trace + [WriteStderr(line)];
      trace := trace + [FlushStderr];
      AppendEvents(before, flushStdout, line);
      OutputNeverTerminates(flushStdout, line);
      NoTerminationAppend(before, OutputEvents(flushStdout, line));
      if stdioErrno.Some? {
        errno := stdioErrno.value;
      }
    }

    /** `errMsg`: reports the current `errno` and gives the caller back the
        `errno` it had, whatever the stdio calls did to it. The process goes
        on running. */
    method ErrMsg(formatted: string, stdioErrno: Option<int>)
      requires Live()
      modifies this
      ensures Live()
      ensures errno == old(errno)
      ensures trace == old(trace) + Effects(table, dumpCore, Entry.ErrMsg, old(errno), formatted)
      ensures NoTermination(trace[|old(trace)|..])
    {
      var savedErrno := errno;
      OutputError(true, errno, true, formatted, stdioErrno);
      errno := savedErrno;
      ErrMsgOnlyReports(table, dumpCore, savedErrno, formatted);
      assert trace[|old(trace)|..] == Effects(table, dumpCore, Entry.ErrMsg, savedErrno, formatted);
    }

    /** `errExit`: reports the current `errno`, then `terminate(TRUE)`. */
    method ErrExit(formatted: string, stdioErrno: Option<int>) returns (o: Outcome)
      requires Live()
      modifies this
      ensures o == TerminationOutcome(dumpCore, true)
      ensures trace == old(trace) + Effects(table, dumpCore, Entry.ErrExit, old(errno), formatted)
      ensures EndedBy(trace, o)
      ensures errno == (if stdioErrno.Some? then stdioErrno.value else old(errno))
    {
      ghost var before := trace;
      ghost var entryErrno := errno;
      OutputError(true, errno, true, formatted, stdioErrno);
      o := Terminate(true);
      assert ParamsOf(Entry.ErrExit, entryErrno) == Params(true, entryErrno, true, Some(true));
      TerminatingTrace(table, dumpCore, Entry.ErrExit, entryErrno, formatted, before, o);
    }

    /** `err_exit`: like `errExit`, but without flushing stdout first and
        ending with `_exit`, so no stdio buffer is flushed twice after a fork. */
    method ErrExitNoFlush(formatted: string, stdioErrno: Option<int>) returns (o: Outcome)
      requires Live()
      modifies this
      ensures o == TerminationOutcome(dumpCore, false)
      ensures trace == old(trace) + Effects(table, dumpCore, Entry.ErrExitNoFlush, old(errno), formatted)
      ensures EndedBy(trace, o)
      ensures errno == (if stdioErrno.Some? then stdioErrno.value else old(errno))
    {
      ghost var before := trace;
      ghost var entryErrno := errno;
      OutputError(true, errno, false, formatted, stdioErrno);
      o := Terminate(false);
      assert ParamsOf(Entry.ErrExitNoFlush, entryErrno) == Params(true, entryErrno, false, Some(false));
      TerminatingTrace(table, dumpCore, Entry.ErrExitNoFlush, entryErrno, formatted, before, o);
    }

    /** `errExitEN`: like `errExit`, for the error number `errnum` the caller
        supplies (as the pthreads functions return it) instead of `errno`. */
    method ErrExitEN(errnum: int, formatted: string, stdioErrno: Option<int>) returns (o: Outcome)
      requires Live()
      modifies this
      ensures o == TerminationOutcome(dumpCore, true)
      ensures trace == old(trace) + Effects(table, dumpCore, Entry.ErrExitEN(errnum), old(errno), formatted)
      ensures EndedBy(trace, o)
      ensures errno == (if stdioErrno.Some? then stdioErrno.value else old(errno))
    {
      ghost var before := trace;
      ghost var entryErrno := errno;
      OutputError(true, errnum, true, formatted, stdioErrno);
      o := Terminate(true);
      assert ParamsOf(Entry.ErrExitEN(errnum), entryErrno) == Params(true, errnum, true, Some(true));
      TerminatingTrace(table, dumpCore, Entry.ErrExitEN(errnum), entryErrno, formatted, before, o);
    }

    /** `fatal`: for failures without an error number; no bracketed suffix. */
    method Fatal(formatted: string, stdioErrno: Option<int>) returns (o: Outcome)
      requires Live()
      modifies this
      ensures o == TerminationOutcome(dumpCore, true)
      ensures trace == old(trace) + Effects(table, dumpCore, Entry.Fatal, old(errno), formatted)
      ensures EndedBy(trace, o)
      ensures errno == (if stdioErrno.Some? then stdioErrno.value else old(errno))
    {
      ghost var before := trace;
      ghost var entryErrno := errno;
      OutputError(false, 0, true, formatted, stdioErrno);
      o := Terminate(true);
      assert ParamsOf(Entry.Fatal, entryErrno) == Params(false, 0, true, Some(true));
      TerminatingTrace(table, dumpCore, Entry.Fatal, entryErrno, formatted, before, o);
    }
  }
}
