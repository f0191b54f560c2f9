# Session table of the HTTP terminal server

This project models the session table of `TerminalServer` in the
jupyter-http-terminal server, and proves properties of it in Dafny. The server
keys terminal sessions by a client-supplied `session_id`. Each session is a PTY
attached to a tmux client. HTTP handlers do the following:

- create a session (idempotently);
- write a client's input to a session;
- resize a session's window;
- poll a session for output;
- on shutdown, close every session.

Below the table, everything is operating-system plumbing. The model replaces
it with an abstract session:

- `pending`: a queue of events that stands for what `select` and `os.read`
  will show on the PTY's primary side;
- `exited`: stands for `process.poll()` returning an exit status;
- `closed`: set by `close()`;
- `written`: every byte written to the PTY;
- `rows`, `cols`: the window size.

Files:

- `utf8.dfy` (module `Utf8`): bytes, and the UTF-8 encoding that `str.encode()`
  applies to input text. It also proves that only `"\r"` encodes to the single
  byte CR.
- `pty.dfy` (module `Pty`): the event queue, one `select` and one 4096-byte read
  as functions on it, and the drain loop as the function `Drain`. `Drain` is
  proved equal to an event-by-event reference description (`Pieces`, `StopOf`,
  `AfterStop`, `Available`).
- `server.dfy` (module `Server`): two classes with methods that update fields.
  - `TerminalSession` holds the abstract session state.
  - `TerminalServer` holds `sessions: map<string, TerminalSession>` and the
    handlers.
  - `PollOutcome` is the specification of one poll on one session. Lemmas about
    it state what a poll returns and does.
- `scenarios.dfy` (module `Scenarios`): request sequences whose outcomes follow
  from the contracts alone. Examples: creating an id twice gives one session;
  a lone `"\r"` reaches the terminal as LF; a poll after the process exits
  reports closed, and the next poll finds no session.

### How the event queue works

- `Idle`: at this moment `select` finds the descriptor not readable. Observing
  it uses it up, so output that arrives later can be read by a later drain.
- `Bytes(data)`: the kernel holds `data`. A read hands over at most 4096 bytes
  of it and keeps the rest at the head of the queue. `Bytes([])` is a read that
  returns no bytes.
- `Fault`: `os.read` raises `OSError`.

The first drain of a poll runs outside any `try`. A `Fault` there makes the
poll fail with `ReadError`, and the session stays in the table. The final drain
after an exit treats a `Fault` as the end of output.

### Environment steps and parameters

`TerminalSession.EnvOutput` and `TerminalSession.EnvExit` stand for the
terminal producing output and the tmux client exiting. They are not server
code. The scenarios use them to drive the server.

Decoding (`decode('utf-8', errors='ignore')`) is a parameter
`decode: seq<byte> -> string` of the poll. It is applied to each chunk on its
own, as the server does.

## Model

| member | source | states |
|---|---|---|
| `Utf8.EncodeChar` | jupyter_http_terminal/server.py:149 | Each character encodes to 1 to 4 bytes. It is a single byte equal to its code exactly when it is ASCII; otherwise it is a lead byte of at least 0xC0 followed by continuation bytes in 0x80..0xBF. |
| `Utf8.Encode` | jupyter_http_terminal/server.py:149 | Encoding a string gives at least one byte per character, and gives no bytes only for the empty string. |
| `Utf8.EncodesToCarriageReturn` | jupyter_http_terminal/server.py:149-150 | The encoding of a string is the single byte CR if and only if the string is exactly `"\r"`. |
| `Pty.ReadStep` | jupyter_http_terminal/server.py:169 | One read returns at most 4096 bytes and strictly decreases what the queue holds, so a drain cannot run forever. |
| `Pty.ReadTakesPiece` | jupyter_http_terminal/server.py:169 | A read that returns bytes takes the next 4096-byte piece of what is readable. It changes neither where nor why the drain will stop. |
| `Pty.Drain` | jupyter_http_terminal/server.py:165-172 | The drain loop terminates (measure `Weight`). Every chunk it reads is non-empty and at most 4096 bytes. |
| `Pty.Split` | jupyter_http_terminal/server.py:169 | Cutting a burst into 4096-byte pieces gives pieces of 1 to 4096 bytes whose concatenation is the burst. |
| `Pty.DrainReadsPieces` | jupyter_http_terminal/server.py:165-172 | A drain returns, in order, the bursts held before the first "not ready", empty read or failing read, each cut into pieces. It stops for the reason that event gives and leaves every later event unread. |
| `Pty.PiecesAreAvailable` | jupyter_http_terminal/server.py:165-174 | The pieces laid end to end are exactly the bytes held before the first stopping event: nothing is lost, duplicated or reordered. |
| `Server.TerminalSession.constructor` | jupyter_http_terminal/server.py:66-89 | A new session has the given name, 24 rows and 80 columns, nothing pending, a live process, is open, and has nothing written. |
| `Server.TerminalSession.Resize` | jupyter_http_terminal/server.py:91-99 | If both values pack as unsigned shorts, the size becomes exactly `(rows, cols)`. Otherwise the packing error is reported and nothing changes. No other state changes. |
| `Server.TerminalSession.Close` | jupyter_http_terminal/server.py:106-112 | Closing sets `closed` and changes nothing else. |
| `Server.TerminalSession.Write` | jupyter_http_terminal/server.py:151 | One write appends exactly the given bytes to what was written, and changes nothing else. |
| `Server.TerminalSession.Select` | jupyter_http_terminal/server.py:166 | A zero-timeout select reports readable exactly when the next event is not `Idle`. An observed `Idle` is used up. |
| `Server.TerminalSession.Read` | jupyter_http_terminal/server.py:169 | One read of a readable descriptor returns the result of `ReadStep` and advances the queue to match. |
| `Server.TerminalSession.PollProcess` | jupyter_http_terminal/server.py:175 | Reports whether the process has exited, and changes nothing. |
| `Server.Translate` | jupyter_http_terminal/server.py:150 | The written bytes are never a lone CR. They have the input's length. Any input other than a lone CR, including longer ones that contain CR, is written unchanged. |
| `Server.InputBytes` | jupyter_http_terminal/server.py:149-150 | Input exactly `"\r"` is written as one LF. Any other input text is written as its encoding. A missing `input` field writes nothing. |
| `Server.PollReportsExit` | jupyter_http_terminal/server.py:175-192 | A poll fails if and only if the first drain hits a failing read. Otherwise it removes the session if and only if the process has exited. The session is closed afterwards exactly when it already was or the poll removes it. A read error in the final drain only ends the output. Only `pending` and `closed` change. |
| `Server.PollLeavesLaterOutput` | jupyter_http_terminal/server.py:163-190 | A poll uses up events only up to the first stopping event, or after an exit up to the second one. Later events stay queued. |
| `Server.PollOutputIsPieces` | jupyter_http_terminal/server.py:163-189 | A poll's output is the first drain's pieces, each decoded on its own and joined in order. After an exit, the final drain's pieces follow. |
| `Server.PollOfQuietSession` | jupyter_http_terminal/server.py:163-177 | Polling a live session with nothing readable returns `""` and `closed=false` without blocking. It uses up only the stopping event. |
| `Server.PollOfOneRead` | jupyter_http_terminal/server.py:165-174 | A live session holding one burst of at most 4096 bytes returns exactly that burst, decoded, and is left with nothing pending. |
| `Server.ReadAvailable` | jupyter_http_terminal/server.py:165-172 | The `while` loop (used for both drains) returns the decoded chunks of `Drain` and its stop reason. It leaves the session's queue at `Drain`'s remainder and changes nothing else. |
| `Server.PollSession` | jupyter_http_terminal/server.py:163-191 | Drain, exit check, final drain and close, acting on one session. The reply and the new session state are exactly `PollOutcome` of the old state. |
| `Server.TerminalServer.constructor` | jupyter_http_terminal/server.py:116-118 | The server starts with an empty table. |
| `Server.TerminalServer.HandleNew` | jupyter_http_terminal/server.py:131-138 | A missing or empty id is refused and the table is unchanged. A known id leaves the table, and that session's object, unchanged. A new id adds exactly one entry, a freshly launched session, and every other entry stays the same object. |
| `Server.TerminalServer.GetSession` | jupyter_http_terminal/server.py:140-144 | A lookup succeeds if and only if the id is present, non-empty and in the table, and then returns that id's session. Otherwise it fails with `InvalidSessionId`. |
| `Server.TerminalServer.HandleInput` | jupyter_http_terminal/server.py:146-152 | An unknown id fails and nothing changes. Otherwise exactly one write of the translated encoding of the input (`""` if absent) goes to that session, and nothing else changes. |
| `Server.TerminalServer.HandleResize` | jupyter_http_terminal/server.py:154-158 | An unknown id fails and nothing changes. Otherwise the session's size becomes the given `(rows, cols)`, with defaults 24 and 80. A size that does not pack fails and changes nothing. No other session changes. |
| `Server.TerminalServer.HandlePoll` | jupyter_http_terminal/server.py:160-198 | An unknown id fails before any state changes. Otherwise the reply and the session's new state are `PollOutcome` of its old state. The table loses that one entry exactly when the reply says closed; otherwise it keeps it. Every other session is unchanged. |
| `Server.TerminalServer.Cleanup` | jupyter_http_terminal/server.py:200-204 | Every session that was in the table is closed, with nothing else about it changed, and the table is empty. |

The table invariant `TerminalServer.Valid()` states:

- every key is non-empty;
- every key is its session's `name`, so distinct keys never share a session;
- every registered session is open.

Every handler preserves it.

## Left out

- HTTP transport: aiohttp routing, JSON bodies, status codes, the static `index.html` response (lines 121-129). Errors are returned as `Error` values, not HTTP 400 or 500 responses.
- PTY, `tty.setraw`, `fcntl.ioctl`, process groups and `SIGWINCH` (lines 68-69, 89, 94, 100-104): these are operating-system calls. They appear only as the abstract state described above.
- Launching tmux (lines 72-86, 112): these are external commands. `TerminalSession.Close` records only that the session was closed. It does not record whether the process had exited by the end of the one-second wait.
- Server.TerminalServer.HandleNew: assumes launching a session always succeeds. The model does not represent an exception from `pty.openpty` or `subprocess` (for example, tmux missing), which would make the request fail without registering anything.
- Server.TerminalServer.HandleResize: reports success once the size packs. It does not model the failure of `os.getpgid` (line 101), where the handler at line 104 reads an unbound `pgid` and raises after the size was set. Nor does it model `int()` raising on a non-numeric field: sizes arrive already converted, as `Option<int>`.
- Server.TerminalServer.HandleInput: input arrives as a `string` of Unicode scalar values. The model does not represent a non-string `input` field or a lone surrogate, which make `.encode()` raise. It also does not model an `os.write` that raises, or one that writes only part of the bytes (line 151 makes a single call and ignores the count).
- UTF-8 decoding with `errors='ignore'` (lines 172, 189) is Python's codec, so it is a parameter applied per chunk. The model makes no claim that multi-byte characters split across chunks are put back together.
- Server.TerminalServer.Cleanup: Python closes sessions in the table's insertion order. The model closes them in an unspecified order, and no property depends on the order.
- asyncio and concurrency: handlers run one at a time, to completion. There is no per-session lock in the source, so interleavings of requests on one session are not modelled.
- `main`, argparse, logging configuration and the Jupyter proxy settings (lines 19-59, 207-224), and setup.py (packaging metadata only).
