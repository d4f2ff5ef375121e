# TLPI error functions, modelled in Dafny

This project models `src/lib/error_functions.c` from *The Linux Programming
Interface* examples. That file is the diagnostic helper which the book's
programs call when something fails. It writes one line to standard error and,
except in `errMsg`, ends the process.

The model has three layers:

- `cstrings.dfy` (module `CStrings`) covers the two pieces of C string
  behaviour the code relies on. The first is `snprintf` truncation into a
  buffer of `BUF_SIZE` = 500 bytes. Only `BUF_SIZE - 1` characters survive,
  as section 7.21.6.5 of ISO C11 says. The second is that a `%s` conversion and
  `fputs` read a character array only up to its first NUL.
- `error_functions.dfy` (module `ErrorFunctions`) holds the pure decisions:
  - `ErrText` picks the error name: the `ename` entry when
    `0 < err <= MAX_ENAME`, otherwise `"?UNKNOWN?"`. It then builds the
    `" [NAME description]"` or `":"` text and truncates it.
  - `ErrorLine` builds the truncated `"ERROR%s %s\n"` line.
  - `TerminationOutcome` is the decision inside `terminate`.
  - `ParamsOf` gives the fixed arguments each public entry point passes.
  - `Effects` gives the ordered events each entry point produces.
  The lemmas in this module state the line shapes, the bounds, how a line
  reads back, the order of the events and the outcome of each entry point.
- `process.dfy` (module `ErrorProcess`) has a class `Process`. It holds the
  global `errno`, the value of `getenv("EF_DUMPCORE")` and a trace of stream
  events. Its methods `OutputError`, `Terminate`, `ErrMsg`, `ErrExit`,
  `ErrExitNoFlush` (for `err_exit`), `ErrExitEN` and `Fatal` follow the C
  functions step by step. `OutputError` is proved to append exactly
  `OutputEvents` for its line, and `Terminate` exactly `[Terminated(o)]`.
  The five entry points `ErrMsg`, `ErrExit`, `ErrExitNoFlush`, `ErrExitEN`
  and `Fatal` are proved to append exactly the events `Effects` specifies.
  `ErrMsg` is also proved to leave `errno` as it found it. Every method
  requires the invariant `Live()`: the table is well formed and no event so
  far has ended the process. The constructor establishes it, and
  `OutputError` and `ErrMsg` keep it. The terminating entry points leave
  their outcome as the one termination, at the end of the trace, so no
  further call is possible.

`fatal` passes `useErr = FALSE` (line 115), so `errText` is `":"` (line 42)
and the line it writes is `ERROR: <message>\n`, with a colon; see
`FatalLine`.

Calls into libc and into files this model does not include become parameters:
- `ename` (the table, from `ename.c.inc`), its largest index `MAX_ENAME`, and
  `strerror` are carried by an `ErrnoTable` value. Its only requirements are
  `MAX_ENAME >= 0` and `|ename| == MAX_ENAME + 1`.
- `vsnprintf` becomes its full formatted output, the string `formatted`.
- The `errno` value that the stdio calls may leave behind is the
  `stdioErrno` argument.
- `getenv("EF_DUMPCORE")` is the process constant `dumpCore`.
- `abort`, `exit` and `_exit` become the `Outcome` values `Abort`,
  `Exit3(EXIT_FAILURE)` and `Exit2(EXIT_FAILURE)`. The outcome is recorded
  as the last event of the trace.

## Model

| member | source | states |
|---|---|---|
| `CStrings.Truncate` | src/lib/error_functions.c:32-35 | What a 500-byte `snprintf` buffer holds is a prefix of the full output and at most 499 characters long. It is the whole output when that is shorter than 500, and exactly 499 characters otherwise. |
| `CStrings.UpToNul` | src/lib/error_functions.c:38-46 | What `%s` or `fputs` reads is a NUL-free prefix of the array. It stops at a NUL or at the end, and it is the whole array when there is no NUL. |
| `CStrings.UpToNulUnique` | src/lib/error_functions.c:43 | Those contract clauses determine the string read: any NUL-free prefix that stops at a NUL or at the end is it. |
| `CStrings.TruncateUpToNulCommute` | src/lib/error_functions.c:35-43 | Reading the truncated `userMsg` buffer as a C string gives the truncated C string of the formatted message. |
| `ErrorFunctions.ErrText` | src/lib/error_functions.c:37-42 | `errText` has at most 499 characters and no NUL. When `useErr`, it starts with `" ["` and is a prefix of `" [" + UpToNul(name) + " " + UpToNul(strerror(err)) + "]"`, the two C strings as `%s` reads them. It is exactly `":"` otherwise. |
| `ErrorFunctions.BracketedErrText` | src/lib/error_functions.c:38-40 | When the name and description are C strings that fit, `errText` is the whole bracketed pair. |
| `ErrorFunctions.Composed` | src/lib/error_functions.c:43 | The untruncated line starts with `ERROR`, ends in a newline and has no NUL. |
| `ErrorFunctions.ErrorLine` | src/lib/error_functions.c:43-46 | The written line has at most 499 characters and no NUL, and starts with `ERROR`. It is a prefix of `Untruncated`, the untruncated composition of the truncated parts. It equals that composition, newline included, when the composition is under 500 characters. Otherwise it is cut to exactly 499. |
| `ErrorFunctions.NoErrorCodeLine` | src/lib/error_functions.c:41-43 | Without an error code the untruncated line is `"ERROR: " + userMsg + "\n"`. It is also the written line when the message is short enough. |
| `ErrorFunctions.KnownErrorLine` | src/lib/error_functions.c:38-43 | For `1 <= err <= MAX_ENAME`, where `ErrorName` picks `ename[err]`, the untruncated line is `"ERROR [" + ename[err] + " " + strerror(err) + "] " + userMsg + "\n"`. This holds when name, description and message are C strings without NUL that fit their buffers. |
| `ErrorFunctions.UnknownErrorLine` | src/lib/error_functions.c:38-43 | For `err <= 0` or `err > MAX_ENAME`, where `ErrorName` falls back to `"?UNKNOWN?"`, the untruncated line is `"ERROR [?UNKNOWN? " + strerror(err) + "] " + userMsg + "\n"`. This holds when description and message are C strings without NUL that fit their buffers. |
| `ErrorFunctions.MessageOf` | src/lib/error_functions.c:43 | When it finds a message, the line is exactly `"ERROR" + errText + " " + message + "\n"`. |
| `ErrorFunctions.MessageRecovered` | src/lib/error_functions.c:35-43 | From a line that was not cut, `MessageOf` recovers exactly the user message that was formatted into it. |
| `ErrorFunctions.EnoentExample` | src/lib/error_functions.c:38-40 | With `ename[2] = "ENOENT"` and the matching `strerror` text, `errText` is `" [ENOENT No such file or directory]"`. |
| `ErrorFunctions.TerminationOutcome` | src/lib/error_functions.c:10-26 | The result is `abort` exactly when `DumpCoreRequested` holds, that is when `EF_DUMPCORE` is set and its first character is not NUL, whatever `useExit3` is. Otherwise it is `exit` when `useExit3` is set and `_exit` when it is not, both with `EXIT_FAILURE`. |
| `ErrorFunctions.ParamsOf` | src/lib/error_functions.c:57-118 | Only `fatal` omits the error code, and it passes 0. `errExitEN` passes its `errnum`; the others pass `errno`. Only `err_exit` skips the stdout flush, and only `err_exit` passes `FALSE` to `terminate`. Only `errMsg` does not terminate. |
| `ErrorFunctions.EventOrder` | src/lib/error_functions.c:44-47 | `OutputEvents`, then at most one termination, is in report order. The stdout flush happens exactly when asked for, and then first. There is one stderr write, of the line, immediately followed by the stderr flush. A termination can only be the last event. There are no other events. |
| `ErrorFunctions.EffectOrder` | src/lib/error_functions.c:44-118 | Every entry point's `Effects` follow that order, with the composed line as the write. Every entry point except `errMsg` terminates. |
| `ErrorFunctions.ErrMsgOnlyReports` | src/lib/error_functions.c:51-63 | `errMsg` produces only the stream events of `outputError` and never a termination. |
| `ErrorFunctions.EntryOutcome` | src/lib/error_functions.c:67-119 | Each terminating entry point ends with `terminate`'s outcome. That outcome is `abort` when a core dump is requested; otherwise `_exit` for `err_exit` and `exit` for the rest. |
| `ErrorFunctions.FatalLine` | src/lib/error_functions.c:110-119 | `fatal` writes `"ERROR: " + message + "\n"` when the message fits, with no bracketed suffix. |
| `ErrorProcess.TerminatingTrace` | src/lib/error_functions.c:67-119 | A trace with no termination yet, extended by a terminating entry point's report and then its outcome is the trace extended by that entry's `Effects`, and the outcome is its only termination and its last event. |
| `ErrorProcess.Process.Terminate` | src/lib/error_functions.c:10-26 | On a live process, the method returns `TerminationOutcome` for the process's `EF_DUMPCORE` value and appends exactly `[Terminated(o)]`. |
| `ErrorProcess.Process.OutputError` | src/lib/error_functions.c:28-48 | The trace is extended by exactly `OutputEvents(flushStdout, ErrorLine(...))`, and the process stays live. `errno` becomes whatever the stdio calls left. |
| `ErrorProcess.Process.ErrMsg` | src/lib/error_functions.c:51-63 | `errno` afterwards equals `errno` on entry. The trace is extended by `errMsg`'s `Effects` for the entry `errno`. None of them is a termination, and the process stays live. |
| `ErrorProcess.Process.ErrExit` | src/lib/error_functions.c:67-77 | The trace is extended by `errExit`'s `Effects`: a report with the entry `errno` and a stdout flush, then `terminate(TRUE)`'s outcome, which the method returns. That outcome is the only termination and the last event. `errno` is what the stdio calls left. |
| `ErrorProcess.Process.ErrExitNoFlush` | src/lib/error_functions.c:82-92 | The trace is extended by `err_exit`'s `Effects`: a report without a stdout flush, then `terminate(FALSE)`'s outcome, which the method returns. That outcome is the only termination and the last event. `errno` is what the stdio calls left. |
| `ErrorProcess.Process.ErrExitEN` | src/lib/error_functions.c:96-106 | The trace is extended by `errExitEN`'s `Effects`: a report of `errnum` instead of `errno`, then `terminate(TRUE)`'s outcome, which the method returns. That outcome is the only termination and the last event. `errno` is what the stdio calls left. |
| `ErrorProcess.Process.Fatal` | src/lib/error_functions.c:110-119 | The trace is extended by `fatal`'s `Effects`: a report without an error code, then `terminate(TRUE)`'s outcome, which the method returns. That outcome is the only termination and the last event. `errno` is what the stdio calls left. |

## Left out

- The printf-style expansion done by `vsnprintf` (line 35). It is a libc call over a `va_list`. The model takes its complete output as the string `formatted`.
- The contents of the `ename` table, the value of `MAX_ENAME` (both from `ename.c.inc`, which is not part of this model) and the texts `strerror` returns. They are parameters.
- The real effects of `fflush`, `fputs`, `getenv`, `abort`, `exit` and `_exit`. They become trace events and outcomes. The model does not cover what `exit` itself flushes, which exit handlers run, or how a write can fail. Such failures are not reported by the source either.
- Characters are Dafny `char`s, not C `char` bytes. No encoding of the text is modelled.
- `usageErr` and `cmdLineErr` (lines 121-153). They only flush, print a fixed prefix and the formatted message, flush again and call `exit`. They contain no decision logic.
- Thread safety and whether a stderr write is atomic. The source does nothing about either.
- That the terminating calls never return. In C they do not return. In the model, `ErrExit`, `ErrExitNoFlush`, `ErrExitEN` and `Fatal` return the outcome and record it as the last event of the trace. After that `Live()` no longer holds, so no method can be called on the process again.
