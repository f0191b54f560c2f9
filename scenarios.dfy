/**
 * Clients of the session table: request sequences whose outcomes follow from
 * the handlers' contracts alone. The tmux client's output and exit are
 * environment steps on the session.
 */
module Scenarios {
  import opened Utf8
  import opened Pty
  import opened Server

  /** Creating the same id twice registers one session, not two. */
  method CreateTwice()
  {
    var server := new TerminalServer();
    var first := server.HandleNew(Some("x"));
    var s := server.sessions["x"];
    var second := server.HandleNew(Some("x"));
    assert first.Success? && second.Success?;
    assert server.sessions == map["x" := s];
    assert |server.sessions| == 1;
  }

  /** Requests without a usable id are refused and register nothing. */
  method MissingIds(decode: seq<byte> -> string)
  {
    var server := new TerminalServer();
    var created := server.HandleNew(None);
    assert created == Failure(MissingSessionId);
    created := server.HandleNew(Some(""));
    assert created == Failure(MissingSessionId);
    var typed := server.HandleInput(Some("nobody"), Some("ls\r"));
    assert typed == Failure(InvalidSessionId);
    var polled := server.HandlePoll(None, decode);
    assert polled == Failure(InvalidSessionId);
    assert server.sessions == map[];
  }

  /** A typed command is written as its encoding, carriage return included. */
  method TypeCommand()
  {
    var server := new TerminalServer();
    var created := server.HandleNew(Some("abc"));
    var s := server.sessions["abc"];
    InputBytes(Some("echo hi\r"));
    var typed := server.HandleInput(Some("abc"), Some("echo hi\r"));
    assert typed.Success? && s.written == Encode("echo hi\r");
  }

  /** The terminal's reply is read by the next poll, and the session stays. */
  method ReadReply(decode: seq<byte> -> string)
  {
    var server := new TerminalServer();
    var created := server.HandleNew(Some("abc"));
    var s := server.sessions["abc"];
    var reply: seq<byte> := [104, 105, 13, 10];
    s.EnvOutput(Bytes(reply));
    ghost var v := s.View();
    PollOfOneRead(v, reply, decode);
    assert server.Table()["abc"] == v;
    var polled := server.HandlePoll(Some("abc"), decode);
    assert polled == Success(PollReply(decode(reply), false));
    assert server.sessions == map["abc" := s];
  }

  /** Once the tmux client exits, the next poll reports closed and removes the
      session; a poll after that finds no session. */
  method ExitCloses(decode: seq<byte> -> string)
  {
    var server := new TerminalServer();
    var created := server.HandleNew(Some("abc"));
    var s := server.sessions["abc"];
    assert server.Table()["abc"] == s.View() == Launched;
    s.EnvExit();
    ghost var v := s.View();
    assert v.exited && v.pending == [];
    assert Drain([]) == Drained([], NothingReady, []);
    assert Decoded(decode, []) + Decoded(decode, []) == "";
    assert PollOutcome(v, decode).0 == Success(PollReply("", true));
    assert server.Table()["abc"] == v;
    var polled := server.HandlePoll(Some("abc"), decode);
    assert polled == Success(PollReply("", true));
    assert s.closed && server.sessions == map[];
    polled := server.HandlePoll(Some("abc"), decode);
    assert polled == Failure(InvalidSessionId);
  }

  /** A lone carriage return reaches the terminal as a line feed. */
  method Enter()
  {
    var server := new TerminalServer();
    var created := server.HandleNew(Some("t"));
    var s := server.sessions["t"];
    InputBytes(Some("\r"));
    var typed := server.HandleInput(Some("t"), Some("\r"));
    assert s.written == [LF];
  }

  /** A resize without fields sets 24 by 80; the last resize decides the size; a
      size that does not pack changes nothing. */
  method Resizes()
  {
    var server := new TerminalServer();
    var created := server.HandleNew(Some("t"));
    var s := server.sessions["t"];
    var r := server.HandleResize(Some("t"), Some(50), Some(200));
    r := server.HandleResize(Some("t"), None, None);
    assert (s.rows, s.cols) == (24, 80);
    r := server.HandleResize(Some("t"), Some(40), Some(132));
    assert (s.rows, s.cols) == (40, 132);
    r := server.HandleResize(Some("t"), Some(70000), None);
    assert r == Failure(SizeOutOfRange) && (s.rows, s.cols) == (40, 132);
  }

  /** Shutdown closes every session and leaves the table empty. */
  method Shutdown()
  {
    var server := new TerminalServer();
    var a := server.HandleNew(Some("a"));
    var b := server.HandleNew(Some("b"));
    var sa, sb := server.sessions["a"], server.sessions["b"];
    server.Cleanup();
    assert sa.closed && sb.closed && server.sessions == map[];
  }
}
