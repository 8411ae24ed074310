/**
 * What `handle_client` (src/main.rs) does with each chunk it reads, and what
 * a whole connection does with a sequence of read results.
 *
 * `React` is the per-chunk decision; `Run` folds it over the read results the
 * peer delivers and yields how the handler ends, the bytes it writes, and how
 * many reads and writes it makes. The method that runs the loop over a real
 * buffer (module Connection) is proved equal to `Run`.
 */
module Handler {
  import opened Utf8
  import opened RustStr
  import opened Seqs

  /** Capacity of the read buffer `buf` (`[0; 512]`). */
  const BUFFER_SIZE: nat := 512

  /** The byte of `'@'`. */
  const AT: byte := 0x40

  function Ascii(s: string): seq<byte>
    requires forall i :: 0 <= i < |s| ==> s[i] as int < 0x80
  {
    seq(|s|, i requires 0 <= i < |s| => s[i] as int)
  }

  /** Sent for a chunk that is not well-formed UTF-8 (no trailing newline). */
  const NEED_UTF8: seq<byte> := Ascii("Need utf-8 sequence.")

  /** Sent for a chunk that starts with `@`, before the connection is dropped. */
  const FAREWELL: seq<byte> := Ascii("Bye bye and see you soon.\n")

  /**
   * One call of `stream.read(&mut buf)`: an I/O error, or the bytes it
   * deposited at the front of the buffer (none at end of stream).
   */
  datatype ReadResult = ReadError | Chunk(data: seq<byte>)

  /** What the handler does with one chunk it has read. */
  datatype Reaction =
    | EndOfStream    // 0 bytes read: leave the loop, write nothing
    | Warn           // not UTF-8: write NEED_UTF8 and read again
    | BoundaryPanic  // `s[0..1]` is not on a char boundary: the thread panics
    | Farewell       // first char `@`: write FAREWELL and leave the loop
    | Echo(bytes: seq<byte>)  // write the chunk back and read again

  /**
   * The decision for one chunk `buf[..bytes_read]`, following the branches of
   * the loop body: the zero-length test, `str::from_utf8`, then
   * `s.len() >= 1 && s[0..1] == "@"`, then the echo.
   */
  function React(chunk: seq<byte>): (r: Reaction)
    ensures r == EndOfStream <==> chunk == []
    ensures r == Warn <==> chunk != [] && !Valid(chunk)
    ensures r == BoundaryPanic <==> chunk != [] && Valid(chunk) && chunk[0] >= 0x80
    ensures r == Farewell <==> chunk != [] && Valid(chunk) && chunk[0] == AT
    ensures r.Echo? <==> chunk != [] && Valid(chunk) && chunk[0] < 0x80 && chunk[0] != AT
    ensures r.Echo? ==> r.bytes == chunk
  {
    if |chunk| == 0 then EndOfStream
    else if !Valid(chunk) then Warn
    else
      FirstByteSlice(chunk);
      if |chunk| >= 1 && Slice(chunk, 0, 1).None? then BoundaryPanic
      else if |chunk| >= 1 && Slice(chunk, 0, 1).value == [AT] then Farewell
      else Echo(chunk)
  }

  /** The bytes the handler writes for a reaction; nothing for the two that write nothing. */
  function Reply(r: Reaction): seq<byte> {
    match r
    case Warn => NEED_UTF8
    case Farewell => FAREWELL
    case Echo(bytes) => bytes
    case _ => []
  }

  predicate KeepsOpen(r: Reaction) {
    r.Warn? || r.Echo?
  }

  predicate Writes(r: Reaction) {
    r.Warn? || r.Farewell? || r.Echo?
  }

  /** What one call of `read` brings about, before anything is written. */
  datatype Event = ReadFailure | Reacted(reaction: Reaction)

  function EventOf(r: ReadResult): Event {
    match r
    case ReadError => ReadFailure
    case Chunk(chunk) => Reacted(React(chunk))
  }

  function Events(rs: seq<ReadResult>): seq<Event> {
    seq(|rs|, i requires 0 <= i < |rs| => EventOf(rs[i]))
  }

  lemma EventsTake(rs: seq<ReadResult>, k: nat)
    requires k <= |rs|
    ensures Events(rs)[..k] == Events(rs[..k])
  {
  }

  lemma EventsDrop(rs: seq<ReadResult>, k: nat)
    requires k <= |rs|
    ensures Events(rs)[k..] == Events(rs[k..])
  {
  }

  datatype Fault = ReadFailed | WriteFailed | NotCharBoundary

  /** How `handle_client` ends. */
  datatype Exit =
    | PeerClosed        // a read returned 0 bytes
    | SaidBye           // a chunk started with `@` and the farewell was written
    | Blocked           // every given read result is used up: the handler waits in `read`
    | Panicked(fault: Fault)  // an `expect`/`unwrap` failed, or `s[0..1]` panicked

  /**
   * The outcome of running the handler's loop: how it ended, the bytes it
   * wrote, and how many read and write calls it made.
   */
  datatype Session = Session(exit: Exit, out: seq<byte>, readCalls: nat, writeCalls: nat)

  /** One read that keeps the connection open, its reply written successfully, followed by `rest`. */
  function Then(reply: seq<byte>, rest: Session): Session {
    Session(rest.exit, reply + rest.out, 1 + rest.readCalls, 1 + rest.writeCalls)
  }

  /**
   * The handler's `loop` over the events of successive reads, where write
   * call number `n` (counting from `w`) fails exactly when `n in failing`.
   * A successful write sends the whole slice; a failed one sends nothing.
   */
  function Loop(events: seq<Event>, failing: set<nat>, w: nat): (s: Session)
    ensures s.readCalls <= |events|
    ensures s.writeCalls <= s.readCalls
    ensures s.exit == Blocked ==> s.readCalls == |events| && s.writeCalls == s.readCalls
    ensures s.exit != Blocked ==> s.readCalls >= 1
    decreases |events|
  {
    if events == [] then Session(Blocked, [], 0, 0)
    else if events[0] == ReadFailure then Session(Panicked(ReadFailed), [], 1, 0)
    else if events[0] == Reacted(EndOfStream) then Session(PeerClosed, [], 1, 0)
    else if events[0] == Reacted(BoundaryPanic) then Session(Panicked(NotCharBoundary), [], 1, 0)
    else if w in failing then Session(Panicked(WriteFailed), [], 1, 1)
    else if events[0] == Reacted(Farewell) then Session(SaidBye, FAREWELL, 1, 1)
    else Then(Reply(events[0].reaction), Loop(events[1..], failing, w + 1))
  }

  /** The handler run on the read results `pending`. */
  function Run(pending: seq<ReadResult>, failing: set<nat>, w: nat): Session {
    Loop(Events(pending), failing, w)
  }

  /** Event `e`, met at write call number `w`, lets the loop go on to the next read. */
  predicate Continues(e: Event, w: nat, failing: set<nat>) {
    e.Reacted? && KeepsOpen(e.reaction) && w !in failing
  }

  /** A loop that has not stopped was let go on by its first event. */
  lemma BlockedContinued(events: seq<Event>, failing: set<nat>, w: nat)
    requires events != [] && Loop(events, failing, w).exit == Blocked
    ensures Continues(events[0], w, failing)
  {
  }

  /** The bytes written for one event when its write succeeds. */
  function Response(e: Event): seq<byte> {
    match e
    case ReadFailure => []
    case Reacted(r) => Reply(r)
  }

  function Responses(es: seq<Event>): seq<byte> {
    if es == [] then [] else Response(es[0]) + Responses(es[1..])
  }

  /** An event that lets the loop go on contributes its response, one read and one write. */
  lemma LoopStep(events: seq<Event>, failing: set<nat>, w: nat)
    requires events != [] && Continues(events[0], w, failing)
    ensures Loop(events, failing, w) == Then(Response(events[0]), Loop(events[1..], failing, w + 1))
  {
  }

  /** The read at which the loop stopped, or the number of reads if it has not stopped. */
  function LastRead(s: Session): int {
    if s.exit == Blocked then s.readCalls else s.readCalls - 1
  }

  /**
   * The loop stops exactly at the first event that does not let it go on:
   * every earlier one continued, each with one write call.
   */
  lemma {:induction false} LoopStopsAtFirstStop(events: seq<Event>, failing: set<nat>, w: nat)
    ensures var s := Loop(events, failing, w);
      && (forall i :: 0 <= i < LastRead(s) ==> Continues(events[i], w + i, failing))
      && (s.exit != Blocked ==> !Continues(events[LastRead(s)], w + LastRead(s), failing))
    decreases |events|
  {
    if events != [] && Continues(events[0], w, failing) {
      var rest := Loop(events[1..], failing, w + 1);
      LoopStopsAtFirstStop(events[1..], failing, w + 1);
      forall i | 1 <= i < LastRead(rest) + 1
        ensures Continues(events[i], w + i, failing)
      {
        assert events[i] == events[1..][i - 1];
      }
    }
  }

  /** Why the loop stopped, read off the event it stopped at, and how many writes it made. */
  lemma {:induction false} LoopExitReason(events: seq<Event>, failing: set<nat>, w: nat)
    ensures var s := Loop(events, failing, w);
      var k := s.readCalls - 1;
      && (s.exit == PeerClosed ==> events[k] == Reacted(EndOfStream))
      && (s.exit == SaidBye ==> events[k] == Reacted(Farewell) && w + k !in failing)
      && (s.exit == Panicked(ReadFailed) ==> events[k] == ReadFailure)
      && (s.exit == Panicked(NotCharBoundary) ==> events[k] == Reacted(BoundaryPanic))
      && (s.exit == Panicked(WriteFailed) ==>
            events[k].Reacted? && Writes(events[k].reaction) && w + k in failing)
      && s.writeCalls == (if s.exit == SaidBye || s.exit == Panicked(WriteFailed) then s.readCalls else LastRead(s))
    decreases |events|
  {
    if events != [] && Continues(events[0], w, failing) {
      LoopExitReason(events[1..], failing, w + 1);
    }
  }

  /**
   * The converse of `LoopStopsAtFirstStop` and `LoopExitReason`: when the
   * first `k` events continue and event `k` is the first that does not, the
   * loop makes exactly `k + 1` reads and ends in the way event `k` calls for;
   * when all of them continue, it is left waiting to read.
   */
  lemma {:induction false} LoopStopsAt(events: seq<Event>, failing: set<nat>, w: nat, k: nat)
    requires k <= |events|
    requires forall i :: 0 <= i < k ==> Continues(events[i], w + i, failing)
    requires k < |events| ==> !Continues(events[k], w + k, failing)
    ensures var s := Loop(events, failing, w);
      && LastRead(s) == k
      && (k == |events| <==> s.exit == Blocked)
      && (k < |events| ==>
            && (events[k] == ReadFailure ==> s.exit == Panicked(ReadFailed))
            && (events[k] == Reacted(EndOfStream) ==> s.exit == PeerClosed)
            && (events[k] == Reacted(BoundaryPanic) ==> s.exit == Panicked(NotCharBoundary))
            && (events[k].Reacted? && Writes(events[k].reaction) && w + k in failing ==>
                  s.exit == Panicked(WriteFailed))
            && (events[k] == Reacted(Farewell) && w + k !in failing ==> s.exit == SaidBye))
    decreases k
  {
    if k > 0 {
      LoopStep(events, failing, w);
      forall i | 0 <= i < k - 1
        ensures Continues(events[1..][i], w + 1 + i, failing)
      {
        assert events[1..][i] == events[i + 1];
      }
      if k < |events| {
        assert events[1..][k - 1] == events[k];
      }
      LoopStopsAt(events[1..], failing, w + 1, k - 1);
    }
  }

  /**
   * Everything written is the in-order concatenation of the responses to the
   * reads made, one response per read, except the read whose write failed.
   */
  lemma {:induction false} LoopOutput(events: seq<Event>, failing: set<nat>, w: nat)
    ensures var s := Loop(events, failing, w);
      s.out == Responses(events[..if s.exit == Panicked(WriteFailed) then s.readCalls - 1 else s.readCalls])
    decreases |events|
  {
    if events == [] {
    } else if Continues(events[0], w, failing) {
      var rest := Loop(events[1..], failing, w + 1);
      var m := if rest.exit == Panicked(WriteFailed) then rest.readCalls - 1 else rest.readCalls;
      LoopStep(events, failing, w);
      LoopOutput(events[1..], failing, w + 1);
      assert events[..m + 1][0] == events[0];
      TakeTail(events, m);
      assert Responses(events[..m + 1]) == Response(events[0]) + Responses(events[1..][..m]);
    } else {
      var s := Loop(events, failing, w);
      assert Responses(events[..1]) == Response(events[0]) + Responses([]) by {
        assert events[..1][1..] == [];
      }
      assert s.readCalls == 1;
      assert s.exit == Panicked(WriteFailed) || s.out == Response(events[0]);
    }
  }

  /** Once the loop has stopped, later reads change nothing: no more reads, no more writes. */
  lemma {:induction false} LoopIgnoresLaterEvents(events: seq<Event>, later: seq<Event>, failing: set<nat>, w: nat)
    requires Loop(events, failing, w).exit != Blocked
    ensures Loop(events + later, failing, w) == Loop(events, failing, w)
    decreases |events|
  {
    assert (events + later)[0] == events[0];
    if Continues(events[0], w, failing) {
      ConsTail(events, later);
      LoopIgnoresLaterEvents(events[1..], later, failing, w + 1);
    }
  }

  /** `s` followed by `t`: `t`'s ending, both outputs in order, both counts added. */
  function Combine(s: Session, t: Session): Session {
    Session(t.exit, s.out + t.out, s.readCalls + t.readCalls, s.writeCalls + t.writeCalls)
  }

  /** A loop that used up `events` without stopping carries on with `later` from where it was. */
  lemma {:induction false} LoopAppend(events: seq<Event>, later: seq<Event>, failing: set<nat>, w: nat)
    requires Loop(events, failing, w).exit == Blocked
    ensures Loop(events + later, failing, w) == Combine(Loop(events, failing, w), Loop(later, failing, w + |events|))
    decreases |events|
  {
    if events == [] {
      assert events + later == later;
    } else {
      var s1 := Loop(events[1..], failing, w + 1);
      var x := Loop(events[1..] + later, failing, w + 1);
      var t := Loop(later, failing, w + |events|);
      var reply := Response(events[0]);
      assert Loop(events, failing, w) == Then(reply, s1) by {
        BlockedContinued(events, failing, w);
        LoopStep(events, failing, w);
      }
      assert Loop(events + later, failing, w) == Then(reply, x) by {
        var both := events + later;
        BlockedContinued(events, failing, w);
        assert both[0] == events[0];
        ConsTail(events, later);
        LoopStep(both, failing, w);
      }
      LoopAppend(events[1..], later, failing, w + 1);
      ThenAppend(reply, s1, t, x);
    }
  }

  lemma ThenAppend(reply: seq<byte>, s: Session, t: Session, x: Session)
    requires x == Combine(s, t)
    ensures Then(reply, x) == Combine(Then(reply, s), t)
  {
    Assoc(reply, s.out, t.out);
  }

  /** Runs put end to end can be grouped either way. */
  lemma CombineAssoc(a: Session, b: Session, c: Session)
    ensures Combine(a, Combine(b, c)) == Combine(Combine(a, b), c)
  {
    Assoc(a.out, b.out, c.out);
  }

  /**
   * The run on `pending` is the run on its first read result, followed, when
   * that did not end the loop, by the run on the rest from the next write call.
   */
  lemma RunFirst(pending: seq<ReadResult>, failing: set<nat>, w: nat)
    requires pending != []
    ensures var one := Run(pending[..1], failing, w);
      && one.readCalls == 1
      && (one.exit == Blocked ==> one.writeCalls == 1)
      && Run(pending, failing, w) == if one.exit == Blocked then Combine(one, Run(pending[1..], failing, w + 1)) else one
  {
    var first, rest := Events(pending[..1]), Events(pending[1..]);
    EventsTake(pending, 1);
    EventsDrop(pending, 1);
    SplitAt(Events(pending), 1);
    if Loop(first, failing, w).exit == Blocked {
      LoopAppend(first, rest, failing, w);
    } else {
      LoopIgnoresLaterEvents(first, rest, failing, w);
    }
  }

  /**
   * How the handler ended, in terms of the chunk it stopped at: end of
   * stream on an empty read; farewell only after a well-formed chunk that
   * starts with `@`, with FAREWELL the last bytes written; a panic on the
   * slice only for a well-formed chunk whose first byte is 0x80 or above.
   */
  lemma ExitOnChunks(pending: seq<ReadResult>, failing: set<nat>, w: nat)
    ensures var s := Run(pending, failing, w);
      var k := s.readCalls - 1;
      && (s.exit == PeerClosed ==> pending[k] == Chunk([]))
      && (s.exit == Panicked(ReadFailed) ==> pending[k] == ReadError)
      && (s.exit == SaidBye ==>
            pending[k].Chunk? && pending[k].data != [] && Valid(pending[k].data) && pending[k].data[0] == AT
            && s.out == Responses(Events(pending[..k])) + FAREWELL)
      && (s.exit == Panicked(NotCharBoundary) ==>
            pending[k].Chunk? && pending[k].data != [] && Valid(pending[k].data) && pending[k].data[0] >= 0x80)
  {
    var es := Events(pending);
    var s := Loop(es, failing, w);
    LoopExitReason(es, failing, w);
    LoopOutput(es, failing, w);
    var k := s.readCalls - 1;
    if s.exit != Blocked {
      assert es[k] == EventOf(pending[k]);
      if s.exit == SaidBye {
        TakeLast(es, k);
        EventsTake(pending, k);
        ResponsesAppend(Events(pending[..k]), [es[k]]);
      }
    }
  }

  lemma {:induction false} ResponsesAppend(a: seq<Event>, b: seq<Event>)
    ensures Responses(a + b) == Responses(a) + Responses(b)
    decreases |a|
  {
    if a == [] {
      assert a + b == b;
    } else {
      ConsTail(a, b);
      ResponsesAppend(a[1..], b);
    }
  }

  predicate Echoable(chunk: seq<byte>) {
    chunk != [] && Valid(chunk) && chunk[0] < 0x80 && chunk[0] != AT
  }

  function Flatten(rs: seq<ReadResult>): seq<byte> {
    if rs == [] then [] else (if rs[0].Chunk? then rs[0].data else []) + Flatten(rs[1..])
  }

  /**
   * A burst delivered as several echoable chunks, with no write failing, is
   * sent back whole: the echoed chunks concatenate to the input, and the
   * handler is left waiting for more.
   */
  lemma {:induction false} EchoesBurst(pending: seq<ReadResult>, failing: set<nat>, w: nat)
    requires forall i :: 0 <= i < |pending| ==> pending[i].Chunk? && Echoable(pending[i].data)
    requires forall n :: w <= n < w + |pending| ==> n !in failing
    ensures Run(pending, failing, w) == Session(Blocked, Flatten(pending), |pending|, |pending|)
    decreases |pending|
  {
    if pending != [] {
      EventsDrop(pending, 1);
      assert Events(pending)[0] == Reacted(Echo(pending[0].data));
      EchoesBurst(pending[1..], failing, w + 1);
    }
  }

  /** `hi@there`: an `@` after the first byte does not end the connection. */
  lemma LaterAtIsEchoed()
    ensures React(Ascii("hi@there")) == Echo(Ascii("hi@there"))
  {
    var s := Ascii("hi@there");
    assert s[0] == 'h' as int;
    AsciiIsValid(s);
  }

  /** `é` (C3 A9): valid UTF-8, but `s[0..1]` cuts it in half and the handler panics. */
  lemma MultiByteFirstCharPanics()
    ensures React([0xC3, 0xA9]) == BoundaryPanic
  {
    assert Valid([0xC3, 0xA9]) by {
      assert CharLen([0xC3, 0xA9]) == 2;
      assert [0xC3, 0xA9][2..] == [];
    }
  }

  /** The two fixed replies, byte counts as sent. */
  lemma ReplyLengths()
    ensures |NEED_UTF8| == 20 && NEED_UTF8[|NEED_UTF8| - 1] == '.' as int
    ensures |FAREWELL| == 26 && FAREWELL[|FAREWELL| - 1] == '\n' as int
  {
  }
}
