/**
 * The terminal server's session table (jupyter_http_terminal/server.py): a map
 * from session id to a terminal session, with the handlers that create, look
 * up, write to, resize and poll sessions, and the shutdown cleanup.
 *
 * A terminal session stands for a PTY plus its tmux client. It is reduced to
 * the state the handlers can observe or change: the output the descriptor will
 * show (a queue of Pty events), whether the process has exited, whether the
 * session was closed, the bytes written to it and its size.
 */
module Server {
  import opened Utf8
  import opened Pty

  datatype Option<T> = None | Some(value: T)
  {
    function GetOr(default: T): T
    {
      if Some? then value else default
    }
  }

  /** Why a request is refused. */
  datatype Error =
    | MissingSessionId   // create without a session id
    | InvalidSessionId   // missing session id, or one not in the table
    | SizeOutOfRange     // a size that does not pack as an unsigned short
    | ReadError          // a read raised OSError during the first drain of a poll

  datatype Result<T> = Success(value: T) | Failure(error: Error)

  /** Size of a new terminal, and of a resize that leaves a field out. */
  const DefaultRows: int := 24
  const DefaultCols: int := 80

  /** The window size is packed as unsigned shorts. */
  predicate Packable(n: int)
  {
    0 <= n < 0x1_0000
  }

  /** What a poll reports. */
  datatype PollReply = PollReply(output: string, closed: bool)

  /** The observable state of one terminal session. */
  datatype SessionView = SessionView(
    rows: int, cols: int,
    pending: seq<Event>,
    exited: bool,
    closed: bool,
    written: seq<byte>)

  /** A session just launched: default size, nothing to read yet, nothing written. */
  const Launched := SessionView(DefaultRows, DefaultCols, [], false, false, [])

  class TerminalSession {
    const name: string
    var rows: int
    var cols: int
    var pending: seq<Event>
    var exited: bool
    var closed: bool
    var written: seq<byte>

    ghost function View(): SessionView
      reads this
    {
      SessionView(rows, cols, pending, exited, closed, written)
    }

    /** Opens the PTY at the default size and attaches a tmux client to it. */
    constructor (name: string)
      ensures this.name == name && View() == Launched
    {
      this.name := name;
      rows, cols := DefaultRows, DefaultCols;
      pending, exited, closed, written := [], false, false, [];
    }

    /** Sets the window size; sizes that do not pack as unsigned shorts are refused
        before anything changes. */
    method Resize(rows: int, cols: int) returns (ok: bool)
      modifies this
      ensures ok <==> Packable(rows) && Packable(cols)
      ensures View() == if ok then old(View()).(rows := rows, cols := cols) else old(View())
    {
      ok := Packable(rows) && Packable(cols);
      if ok {
        this.rows, this.cols := rows, cols;
      }
    }

    /** Terminates the tmux client and kills the tmux session. */
    method Close()
      modifies this
      ensures View() == old(View()).(closed := true)
    {
      closed := true;
    }

    /** One write of `buf` to the descriptor. */
    method Write(buf: seq<byte>)
      modifies this
      ensures View() == old(View()).(written := old(written) + buf)
    {
      written := written + buf;
    }

    /** Select on the descriptor with timeout 0. */
    method Select() returns (ready: bool)
      modifies this
      ensures (ready, pending) == SelectStep(old(pending))
      ensures View() == old(View()).(pending := pending)
    {
      ready, pending := SelectStep(pending).0, SelectStep(pending).1;
    }

    /** One read of at most ChunkSize bytes from a readable descriptor. */
    method Read() returns (r: ReadResult)
      requires pending != [] && !pending[0].Idle?
      modifies this
      ensures (r, pending) == ReadStep(old(pending))
      ensures View() == old(View()).(pending := pending)
    {
      r, pending := ReadStep(pending).0, ReadStep(pending).1;
    }

    /** Whether the process has exited (its poll returns an exit status). */
    method PollProcess() returns (done: bool)
      ensures done == exited
    {
      done := exited;
    }

    /** Environment step, not server code: the terminal produces `e`. */
    method EnvOutput(e: Event)
      modifies this
      ensures View() == old(View()).(pending := old(pending) + [e])
    {
      pending := pending + [e];
    }

    /** Environment step, not server code: the tmux client exits. */
    method EnvExit()
      modifies this
      ensures View() == old(View()).(exited := true)
    {
      exited := true;
    }
  }

  /** The carriage-return rule for input: a lone CR is sent as LF, anything else as
      it is. No write is ever a lone CR. */
  function Translate(buf: seq<byte>): (out: seq<byte>)
    ensures out != [CR]
    ensures |out| == |buf|
    ensures buf != [CR] ==> out == buf
  {
    if buf == [CR] then [LF] else buf
  }

  /** The bytes one input request writes: the input text, "" when the field is
      absent, encoded and passed through the carriage-return rule. Exactly "\r"
      becomes a line feed; every other text, even one containing "\r", is written
      as its encoding. */
  lemma InputBytes(input: Option<string>)
    ensures input == Some("\r") ==> Translate(Encode(input.GetOr(""))) == [LF]
    ensures input != Some("\r") ==> Translate(Encode(input.GetOr(""))) == Encode(input.GetOr(""))
    ensures input == None ==> Translate(Encode(input.GetOr(""))) == []
  {
    EncodesToCarriageReturn(input.GetOr(""));
  }

  /** The first drain, the exit check, and after an exit the final drain and close,
      as they act on one session: the reply and the session's state afterwards. */
  function PollOutcome(v: SessionView, decode: seq<byte> -> string): (Result<PollReply>, SessionView)
  {
    var first := Drain(v.pending);
    if first.stop == ReadFailed then
      (Failure(ReadError), v.(pending := first.rest))
    else if !v.exited then
      (Success(PollReply(Decoded(decode, first.chunks), false)), v.(pending := first.rest))
    else
      var last := Drain(first.rest);
      (Success(PollReply(Decoded(decode, first.chunks) + Decoded(decode, last.chunks), true)),
       v.(pending := last.rest, closed := true))
  }

  /** Whether a poll reply removes the session from the table. */
  predicate Removes(r: Result<PollReply>)
  {
    r.Success? && r.value.closed
  }

  /** A poll fails only on a read error in the first drain; otherwise it reports
      closed exactly when the process has exited, and then the session is closed.
      A read error in the final drain only ends the output. */
  lemma {:induction false} PollReportsExit(v: SessionView, decode: seq<byte> -> string)
    ensures PollOutcome(v, decode).0.Failure? <==> StopOf(v.pending) == ReadFailed
    ensures Removes(PollOutcome(v, decode).0) <==> v.exited && StopOf(v.pending) != ReadFailed
    ensures PollOutcome(v, decode).1.closed <==> v.closed || Removes(PollOutcome(v, decode).0)
    ensures PollOutcome(v, decode).1 == v.(pending := PollOutcome(v, decode).1.pending,
                                          closed := PollOutcome(v, decode).1.closed)
  {
    DrainReadsPieces(v.pending);
  }

  /** The output events a poll consumes: up to the first stopping event, and after
      an exit up to the next one as well. Later events stay for the next poll. */
  lemma {:induction false} PollLeavesLaterOutput(v: SessionView, decode: seq<byte> -> string)
    ensures !Removes(PollOutcome(v, decode).0) ==> PollOutcome(v, decode).1.pending == AfterStop(v.pending)
    ensures Removes(PollOutcome(v, decode).0) ==> PollOutcome(v, decode).1.pending == AfterStop(AfterStop(v.pending))
  {
    DrainReadsPieces(v.pending);
    DrainReadsPieces(Drain(v.pending).rest);
  }

  /** What a poll returns as output: the pieces read by the first drain, decoded
      one at a time, and after an exit those of the final drain as well. */
  lemma {:induction false} PollOutputIsPieces(v: SessionView, decode: seq<byte> -> string)
    ensures var r := PollOutcome(v, decode).0;
      && (r.Success? && !v.exited ==> r.value.output == Decoded(decode, Pieces(v.pending)))
      && (r.Success? && v.exited ==>
            r.value.output == Decoded(decode, Pieces(v.pending)) + Decoded(decode, Pieces(AfterStop(v.pending))))
  {
    DrainReadsPieces(v.pending);
    DrainReadsPieces(Drain(v.pending).rest);
  }

  /** A poll of a live session that has nothing to show returns no output, reports
      it open, and uses up only the event that stopped the drain. */
  lemma {:induction false} PollOfQuietSession(v: SessionView, decode: seq<byte> -> string)
    requires !v.exited && Available(v.pending) == [] && StopOf(v.pending) != ReadFailed
    ensures PollOutcome(v, decode) == (Success(PollReply("", false)), v.(pending := AfterStop(v.pending)))
  {
    DrainReadsPieces(v.pending);
  }

  /** A live session holding one burst that fits a single read returns exactly
      that burst, decoded, and is left with nothing pending. */
  lemma PollOfOneRead(v: SessionView, data: seq<byte>, decode: seq<byte> -> string)
    requires !v.exited && v.pending == [Bytes(data)] && 0 < |data| <= ChunkSize
    ensures PollOutcome(v, decode) == (Success(PollReply(decode(data), false)), v.(pending := []))
  {
    DrainReadsPieces(v.pending);
    assert Pieces(v.pending) == [data] && StopOf(v.pending) == NothingReady;
    assert Decoded(decode, [data]) == decode(data) + "" == decode(data);
  }

  /** Reads what is readable now, decoding chunk by chunk (the drain loops of a poll). */
  method ReadAvailable(s: TerminalSession, decode: seq<byte> -> string) returns (output: string, stop: Stop)
    modifies s
    ensures var d := Drain(old(s.pending));
      output == Decoded(decode, d.chunks) && stop == d.stop && s.View() == old(s.View()).(pending := d.rest)
  {
    ghost var whole := Drain(s.pending);
    ghost var start := s.View();
    var chunks: seq<seq<byte>> := [];
    while true
      invariant whole.chunks == chunks + Drain(s.pending).chunks
      invariant whole.stop == Drain(s.pending).stop && whole.rest == Drain(s.pending).rest
      invariant s.View() == start.(pending := s.pending)
      decreases Weight(s.pending)
    {
      ghost var here := s.pending;
      var ready := s.Select();
      if !ready {
        DrainNotReady(here);
        assert chunks + [] == chunks;
        stop := NothingReady;
        break;
      }
      var r := s.Read();
      if r.Failed? || r.chunk == [] {
        DrainReadEnds(here);
        assert chunks + [] == chunks;
        stop := if r.Failed? then ReadFailed else EmptyRead;
        break;
      }
      DrainReadsChunk(here);
      ConcatAssoc(chunks, [r.chunk], Drain(s.pending).chunks);
      chunks := chunks + [r.chunk];
    }
    output := Decoded(decode, chunks);
  }

  /** The part of a poll that acts on the session itself: drain the output, check
      whether the process has exited, and if it has, drain once more (a read error
      there only ends the output) and close the session. */
  method PollSession(s: TerminalSession, decode: seq<byte> -> string) returns (r: Result<PollReply>)
    modifies s
    ensures (r, s.View()) == PollOutcome(old(s.View()), decode)
  {
    var output, stop := ReadAvailable(s, decode);
    if stop == ReadFailed {
      return Failure(ReadError);
    }
    var closed := s.PollProcess();
    if closed {
      var tail, _ := ReadAvailable(s, decode);
      output := output + tail;
      s.Close();
    }
    r := Success(PollReply(output, closed));
  }

  class TerminalServer {
    var sessions: map<string, TerminalSession>

    /** Every registered id is non-empty and names its own session, which is open. */
    ghost predicate Valid()
      reads this, sessions.Values
    {
      forall id | id in sessions :: id != "" && sessions[id].name == id && !sessions[id].closed
    }

    /** The state of every registered session. */
    ghost function Table(): map<string, SessionView>
      reads this, sessions.Values
    {
      map id | id in sessions :: sessions[id].View()
    }

    /** The lookup test of a per-session request. */
    predicate Known(sid: Option<string>)
      reads this
    {
      sid.Some? && sid.value != "" && sid.value in sessions
    }

    constructor ()
      ensures Valid() && sessions == map[]
    {
      sessions := map[];
    }

    /** Create: a missing or empty id is refused; an id already present changes
        nothing; a new id gets exactly one new, freshly launched session. */
    method HandleNew(sid: Option<string>) returns (r: Result<()>)
      requires Valid()
      modifies this
      ensures Valid()
      ensures r.Failure? <==> sid.None? || sid.value == ""
      ensures r.Failure? ==> r.error == MissingSessionId
      ensures r.Failure? || sid.value in old(sessions) ==> sessions == old(sessions) && Table() == old(Table())
      ensures r.Success? && sid.value !in old(sessions) ==>
        && sessions.Keys == old(sessions).Keys + {sid.value}
        && fresh(sessions[sid.value])
        && (forall id | id in old(sessions) :: sessions[id] == old(sessions)[id])
        && Table() == old(Table())[sid.value := Launched]
    {
      if sid.None? || sid.value == "" {
        return Failure(MissingSessionId);
      }
      if sid.value !in sessions {
        var s := new TerminalSession(sid.value);
        sessions := sessions[sid.value := s];
      }
      r := Success(());
    }

    /** Lookup: a missing or empty id, or one not in the table, is refused. */
    method GetSession(sid: Option<string>) returns (r: Result<(string, TerminalSession)>)
      ensures r.Success? <==> sid.Some? && sid.value != "" && sid.value in sessions
      ensures r.Failure? ==> r.error == InvalidSessionId
      ensures r.Success? ==> r.value == (sid.value, sessions[sid.value])
    {
      if sid.None? || sid.value == "" || sid.value !in sessions {
        return Failure(InvalidSessionId);
      }
      r := Success((sid.value, sessions[sid.value]));
    }

    /** Input: after the lookup, exactly one write of the translated encoding of the
        input text to that session; nothing else changes. */
    method HandleInput(sid: Option<string>, input: Option<string>) returns (r: Result<()>)
      requires Valid()
      modifies sessions.Values
      ensures Valid() && sessions == old(sessions)
      ensures r.Success? <==> Known(sid)
      ensures !Known(sid) ==> r == Failure(InvalidSessionId) && Table() == old(Table())
      ensures Known(sid) ==>
        var v := old(Table())[sid.value];
        Table() == old(Table())[sid.value := v.(written := v.written + Translate(Encode(input.GetOr(""))))]
    {
      var lookup := GetSession(sid);
      if lookup.Failure? {
        return Failure(lookup.error);
      }
      var (id, sess) := lookup.value;
      var buf := Encode(input.GetOr(""));
      if buf == [CR] {
        buf := [LF];
      }
      sess.Write(buf);
      r := Success(());
    }

    /** Resize: after the lookup, the given size (24 rows and 80 columns for a field
        left out) becomes the session's size; a size that does not pack is refused
        and nothing changes. */
    method HandleResize(sid: Option<string>, rows: Option<int>, cols: Option<int>) returns (r: Result<()>)
      requires Valid()
      modifies sessions.Values
      ensures Valid() && sessions == old(sessions)
      ensures !Known(sid) ==> r == Failure(InvalidSessionId) && Table() == old(Table())
      ensures Known(sid) ==>
        var rs, cs := rows.GetOr(DefaultRows), cols.GetOr(DefaultCols);
        if Packable(rs) && Packable(cs) then
          r == Success(()) && Table() == old(Table())[sid.value := old(Table())[sid.value].(rows := rs, cols := cs)]
        else
          r == Failure(SizeOutOfRange) && Table() == old(Table())
    {
      var lookup := GetSession(sid);
      if lookup.Failure? {
        return Failure(lookup.error);
      }
      var (id, sess) := lookup.value;
      var ok := sess.Resize(rows.GetOr(DefaultRows), cols.GetOr(DefaultCols));
      if !ok {
        return Failure(SizeOutOfRange);
      }
      r := Success(());
    }

    /** Poll: after the lookup, drain the output; if the process has exited, drain
        once more, close the session and remove it from the table. The table loses
        an entry only when the reply says closed, and then only that one. */
    method HandlePoll(sid: Option<string>, decode: seq<byte> -> string) returns (r: Result<PollReply>)
      requires Valid()
      modifies this, sessions.Values
      ensures Valid()
      ensures !old(Known(sid)) ==> r == Failure(InvalidSessionId) && sessions == old(sessions) && Table() == old(Table())
      ensures old(Known(sid)) ==>
        var id := sid.value;
        && (r, old(sessions)[id].View()) == PollOutcome(old(sessions[id].View()), decode)
        && sessions == (if Removes(r) then old(sessions) - {id} else old(sessions))
        && (forall k | k in old(sessions) && k != id :: old(sessions)[k].View() == old(sessions[k].View()))
    {
      var lookup := GetSession(sid);
      if lookup.Failure? {
        return Failure(lookup.error);
      }
      var (id, sess) := lookup.value;
      r := PollSession(sess, decode);
      OthersUnchanged(id);
      if Removes(r) {
        sessions := sessions - {id};
      }
    }

    /** Sessions other than the one registered under `id` are as they were. */
    twostate lemma OthersUnchanged(id: string)
      requires old(Valid()) && id in old(sessions) && sessions == old(sessions)
      requires forall o: object | o in old(sessions.Values) && o != sessions[id] :: unchanged(o)
      ensures forall k | k in sessions && k != id :: sessions[k].View() == old(sessions[k].View())
      ensures forall k | k in sessions && k != id :: sessions[k].closed == old(sessions[k].closed)
    {
      forall k | k in sessions && k != id
        ensures sessions[k].View() == old(sessions[k].View()) && sessions[k].closed == old(sessions[k].closed)
      {
        assert sessions[k].name == k;
        assert sessions[k] in old(sessions.Values);
      }
    }

    /** Shutdown: every registered session is closed and the table is emptied. */
    method Cleanup()
      requires Valid()
      modifies this, sessions.Values
      ensures Valid() && sessions == map[]
      ensures forall id | id in old(sessions) :: old(sessions)[id].View() == old(sessions[id].View()).(closed := true)
    {
      var remaining := sessions.Keys;
      while remaining != {}
        invariant remaining <= sessions.Keys
        invariant sessions == old(sessions)
        invariant forall id | id in sessions ::
          sessions[id].View() == if id in remaining then old(sessions[id].View()) else old(sessions[id].View()).(closed := true)
        decreases remaining
      {
        var id :| id in remaining;
        forall k | k in sessions && k != id
          ensures sessions[k] != sessions[id]
        {
          assert sessions[k].name == k;
        }
        sessions[id].Close();
        remaining := remaining - {id};
      }
      sessions := map[];
    }
  }
}
