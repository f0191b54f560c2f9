/**
 * The primary side of a session's pseudo-terminal, seen only through the two
 * calls the server makes on it: `select` with a zero timeout and
 * `os.read(master, 4096)`. What the operating system will show the server is a
 * queue of events; the drain loop of the output poll is specified on that queue.
 */
module Pty {
  import opened Utf8

  /** Number of bytes each read asks for. */
  const ChunkSize: nat := 4096

  /** What the descriptor shows the server next, oldest first. */
  datatype Event =
    | Idle                    // select finds the descriptor not readable at this moment
    | Bytes(data: seq<byte>)  // readable, and the kernel holds `data`; [] is a read that returns no bytes (peer closed)
    | Fault                   // readable, but the read raises OSError

  /** Result of one read call. */
  datatype ReadResult = Got(chunk: seq<byte>) | Failed

  /** Why a drain loop stopped. */
  datatype Stop = NothingReady | EmptyRead | ReadFailed

  /** What a drain loop read, why it stopped, and what it left unread. */
  datatype Drained = Drained(chunks: seq<seq<byte>>, stop: Stop, rest: seq<Event>)

  /** Termination measure: one for each event plus one for each byte still held. */
  function Weight(q: seq<Event>): nat
  {
    if q == [] then 0
    else (if q[0].Bytes? then 1 + |q[0].data| else 1) + Weight(q[1..])
  }

  /** One select with timeout 0: readable, and the queue afterwards (a moment of
      idleness is used up by being observed). */
  function SelectStep(q: seq<Event>): (bool, seq<Event>)
  {
    if q == [] then (false, [])
    else if q[0].Idle? then (false, q[1..])
    else (true, q)
  }

  /** One read of at most ChunkSize bytes on a readable descriptor: the kernel hands
      over what it holds, up to the limit, and keeps the remainder. */
  function ReadStep(q: seq<Event>): (r: (ReadResult, seq<Event>))
    requires q != [] && !q[0].Idle?
    ensures r.0.Got? ==> |r.0.chunk| <= ChunkSize
    ensures Weight(r.1) < Weight(q)
  {
    match q[0]
    case Fault => (Failed, q[1..])
    case Bytes(data) =>
      if |data| <= ChunkSize then (Got(data), q[1..])
      else
        var rest := [Bytes(data[ChunkSize..])] + q[1..];
        assert rest[1..] == q[1..];
        (Got(data[..ChunkSize]), rest)
  }

  /** A read that returns bytes takes the first piece of what is readable, and
      changes neither where nor why the next drain stops. */
  lemma ReadTakesPiece(q: seq<Event>)
    requires q != [] && q[0].Bytes? && q[0].data != []
    ensures var (r, rest) := ReadStep(q);
      && [r.chunk] + Pieces(rest) == Pieces(q)
      && StopOf(rest) == StopOf(q)
      && AfterStop(rest) == AfterStop(q)
  {
    var data := q[0].data;
    if |data| > ChunkSize {
      var head, tail := data[..ChunkSize], data[ChunkSize..];
      var rest := [Bytes(tail)] + q[1..];
      assert ReadStep(q) == (Got(head), rest);
      assert rest[0] == Bytes(tail) && !Ends(rest[0]) && rest[1..] == q[1..];
      assert Pieces(rest) == Split(tail) + Pieces(q[1..]);
      assert Split(data) == [head] + Split(tail);
      ConcatAssoc([head], Split(tail), Pieces(q[1..]));
      assert StopOf(rest) == StopOf(q[1..]) == StopOf(q);
      assert AfterStop(rest) == AfterStop(q[1..]) == AfterStop(q);
    } else {
      assert ReadStep(q) == (Got(data), q[1..]);
      assert Pieces(q) == [data] + Pieces(q[1..]);
    }
  }

  lemma ConcatAssoc<T>(a: seq<T>, b: seq<T>, c: seq<T>)
    ensures a + (b + c) == (a + b) + c
  {
  }

  /** The drain loop: select, and while readable read one chunk, until select finds
      nothing ready, a read returns no bytes, or a read fails. Every chunk read is
      non-empty and at most ChunkSize bytes long. */
  function Drain(q: seq<Event>): (d: Drained)
    ensures forall i | 0 <= i < |d.chunks| :: 0 < |d.chunks[i]| <= ChunkSize
    ensures Weight(d.rest) <= Weight(q)
    decreases Weight(q)
  {
    var (ready, q1) := SelectStep(q);
    if !ready then Drained([], NothingReady, q1)
    else
      var (r, q2) := ReadStep(q1);
      match r
      case Failed => Drained([], ReadFailed, q2)
      case Got(chunk) =>
        if chunk == [] then Drained([], EmptyRead, q2)
        else
          var d := Drain(q2);
          Drained([chunk] + d.chunks, d.stop, d.rest)
  }

  /** One turn of the drain loop when select finds nothing ready. */
  lemma DrainNotReady(q: seq<Event>)
    requires !SelectStep(q).0
    ensures Drain(q) == Drained([], NothingReady, SelectStep(q).1)
  {
  }

  /** One turn of the drain loop when the read fails or returns no bytes. */
  lemma DrainReadEnds(q: seq<Event>)
    requires SelectStep(q).0
    ensures ReadStep(q).0.Failed? ==> Drain(q) == Drained([], ReadFailed, ReadStep(q).1)
    ensures ReadStep(q).0 == Got([]) ==> Drain(q) == Drained([], EmptyRead, ReadStep(q).1)
  {
  }

  /** One turn of the drain loop that reads a chunk and goes on. */
  lemma DrainReadsChunk(q: seq<Event>)
    requires SelectStep(q).0 && ReadStep(q).0.Got? && ReadStep(q).0.chunk != []
    ensures var d := Drain(ReadStep(q).1);
      Drain(q) == Drained([ReadStep(q).0.chunk] + d.chunks, d.stop, d.rest)
  {
  }

  /** Chunks laid end to end. */
  function Flatten(chunks: seq<seq<byte>>): seq<byte>
  {
    if chunks == [] then [] else chunks[0] + Flatten(chunks[1..])
  }

  /** Text of chunks decoded one at a time and joined, in order. */
  function Decoded(decode: seq<byte> -> string, chunks: seq<seq<byte>>): string
  {
    if chunks == [] then "" else decode(chunks[0]) + Decoded(decode, chunks[1..])
  }

  // Reference description of a drain, event by event rather than read by read.

  /** An event at which a drain stops. */
  predicate Ends(e: Event)
  {
    e.Idle? || e.Fault? || e == Bytes([])
  }

  /** Bytes cut into consecutive pieces of ChunkSize bytes, the last one possibly
      shorter. */
  function Split(data: seq<byte>): (pieces: seq<seq<byte>>)
    requires data != []
    ensures forall i | 0 <= i < |pieces| :: 0 < |pieces[i]| <= ChunkSize
    ensures Flatten(pieces) == data
    decreases |data|
  {
    if |data| <= ChunkSize then
      assert Flatten([data]) == data + Flatten([]);
      [data]
    else
      var head, tail := data[..ChunkSize], data[ChunkSize..];
      FlattenCons(head, Split(tail));
      assert head + tail == data;
      [head] + Split(tail)
  }

  /** Each burst of bytes before the first event at which a drain stops, cut into
      pieces. */
  function Pieces(q: seq<Event>): seq<seq<byte>>
  {
    if q == [] || Ends(q[0]) then [] else Split(q[0].data) + Pieces(q[1..])
  }

  /** All bytes held before the first event at which a drain stops. */
  function Available(q: seq<Event>): seq<byte>
  {
    if q == [] || Ends(q[0]) then [] else q[0].data + Available(q[1..])
  }

  /** The kind of the first event at which a drain stops. */
  function StopOf(q: seq<Event>): Stop
  {
    if q == [] then NothingReady
    else match q[0]
      case Idle => NothingReady
      case Fault => ReadFailed
      case Bytes(data) => if data == [] then EmptyRead else StopOf(q[1..])
  }

  /** The events after the first one at which a drain stops. */
  function AfterStop(q: seq<Event>): seq<Event>
  {
    if q == [] then [] else if Ends(q[0]) then q[1..] else AfterStop(q[1..])
  }

  lemma FlattenCons(c: seq<byte>, cs: seq<seq<byte>>)
    ensures Flatten([c] + cs) == c + Flatten(cs)
  {
    assert ([c] + cs)[1..] == cs;
  }

  /** Flattening distributes over concatenation. */
  lemma {:induction false} FlattenAppend(a: seq<seq<byte>>, b: seq<seq<byte>>)
    ensures Flatten(a + b) == Flatten(a) + Flatten(b)
    decreases |a|
  {
    if a != [] {
      assert (a + b)[1..] == a[1..] + b;
      FlattenAppend(a[1..], b);
      ConcatAssoc(a[0], Flatten(a[1..]), Flatten(b));
    } else {
      assert a + b == b;
    }
  }

  /** A drain reads the bursts held before the first stopping event, in order,
      each cut into pieces of at most ChunkSize bytes; it stops for the reason that
      event gives and leaves every later event unread. */
  lemma {:induction false} DrainReadsPieces(q: seq<Event>)
    ensures Drain(q).chunks == Pieces(q)
    ensures Drain(q).stop == StopOf(q)
    ensures Drain(q).rest == AfterStop(q)
    decreases Weight(q)
  {
    if q != [] && q[0].Bytes? && q[0].data != [] {
      var (r, q2) := ReadStep(q);
      ReadTakesPiece(q);
      DrainReadsPieces(q2);
    }
  }

  /** The pieces laid end to end are exactly the bytes held before the first
      stopping event: nothing is lost, duplicated or reordered. */
  lemma {:induction false} PiecesAreAvailable(q: seq<Event>)
    ensures Flatten(Pieces(q)) == Available(q)
  {
    if q != [] && !Ends(q[0]) {
      PiecesAreAvailable(q[1..]);
      FlattenAppend(Split(q[0].data), Pieces(q[1..]));
    }
  }
}
