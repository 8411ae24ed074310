/**
 * `handle_client` (src/main.rs) as the imperative loop it is: a reused
 * 512-byte buffer that each `read` overwrites at the front, and a stream
 * that reads consume and writes append to. The method is proved to do
 * exactly what `Handler.Run` says.
 */
module Connection {
  import opened Utf8
  import opened RustStr
  import opened Handler
  import opened Seqs

  /**
   * The client's `TcpStream` as the handler sees it: the results that its
   * successive `read` calls return, the bytes written to it so far, and the
   * write calls (numbered from 0) that return an error.
   */
  class TcpStream {
    var pending: seq<ReadResult>
    var sent: seq<byte>
    var writeCalls: nat
    const failing: set<nat>

    /** A read into the 512-byte buffer never delivers more than 512 bytes. */
    ghost predicate Valid()
      reads this
    {
      forall i :: 0 <= i < |pending| ==> Fits(pending[i])
    }

    constructor (pending: seq<ReadResult>, failing: set<nat>)
      requires forall i :: 0 <= i < |pending| ==> Fits(pending[i])
      ensures Valid()
      ensures this.pending == pending && this.failing == failing
      ensures sent == [] && writeCalls == 0
    {
      this.pending := pending;
      this.failing := failing;
      sent := [];
      writeCalls := 0;
    }

    /**
     * `stream.read(&mut buf)`: `None` for an I/O error; otherwise the number
     * of bytes deposited at the front of `buf`. The bytes after them are
     * left as they were.
     */
    method Read(buf: array<byte>) returns (r: Option<nat>)
      requires Valid() && pending != [] && buf.Length == BUFFER_SIZE
      modifies this, buf
      ensures Valid() && pending == old(pending)[1..]
      ensures sent == old(sent) && writeCalls == old(writeCalls)
      ensures old(pending)[0] == ReadError ==> r == None && buf[..] == old(buf[..])
      ensures old(pending)[0].Chunk? ==>
        var data := old(pending)[0].data;
        && r == Some(|data|)
        && buf[..|data|] == data
        && buf[|data|..] == old(buf[|data|..])
    {
      var next := pending[0];
      assert Fits(next);
      pending := pending[1..];
      match next
      case ReadError =>
        r := None;
      case Chunk(data) =>
        for i := 0 to |data|
          modifies buf
          invariant buf[..i] == data[..i]
          invariant buf[i..] == old(buf[i..])
        {
          buf[i] := data[i];
        }
        r := Some(|data|);
    }

    /**
     * `stream.write(data)`: write call number `writeCalls` fails exactly when
     * it is in `failing`; a successful one sends all of `data`, a failed one
     * sends nothing.
     */
    method Write(data: seq<byte>) returns (ok: bool)
      modifies this
      ensures ok == (old(writeCalls) !in failing)
      ensures sent == if ok then old(sent) + data else old(sent)
      ensures writeCalls == old(writeCalls) + 1 && pending == old(pending)
    {
      ok := writeCalls !in failing;
      if ok {
        sent := sent + data;
      }
      writeCalls := writeCalls + 1;
    }
  }

  predicate Fits(r: ReadResult) {
    r.Chunk? ==> |r.data| <= BUFFER_SIZE
  }

  /**
   * One pass through the body of `handle_client`'s loop: a read into `buf`,
   * the decision on `buf[..bytes_read]`, and its write. The result is `None`
   * when the loop goes round again, and otherwise how the handler ends. What
   * it does is the run of the handler on that one read result.
   */
  method Round(stream: TcpStream, buf: array<byte>) returns (stop: Option<Exit>)
    requires stream.Valid() && stream.pending != [] && buf.Length == BUFFER_SIZE
    modifies stream, buf
    ensures var one := Run(old(stream.pending)[..1], stream.failing, old(stream.writeCalls));
      && stream.Valid()
      && stream.pending == old(stream.pending)[1..]
      && stream.sent == old(stream.sent) + one.out
      && stream.writeCalls == old(stream.writeCalls) + one.writeCalls
      && (stop == None <==> one.exit == Blocked)
      && (stop.Some? ==> stop.value == one.exit)
  {
    ghost var e := EventOf(stream.pending[0]);
    assert Events(stream.pending[..1]) == [e];
    assert [e][1..] == [];
    ghost var w := stream.writeCalls;
    ghost var sent := stream.sent;
    var got := stream.Read(buf);
    if got == None {
      return Some(Panicked(ReadFailed));
    }
    var bytesRead := got.value;
    var reaction := React(buf[..bytesRead]);
    assert e == Reacted(reaction);
    match reaction
    case EndOfStream =>
      stop := Some(PeerClosed);
    case BoundaryPanic =>
      stop := Some(Panicked(NotCharBoundary));
    case Farewell =>
      var ok := stream.Write(FAREWELL);
      stop := if ok then Some(SaidBye) else Some(Panicked(WriteFailed));
      assert stream.sent == sent + Loop([e], stream.failing, w).out;
    case Warn =>
      var ok := stream.Write(NEED_UTF8);
      stop := if ok then None else Some(Panicked(WriteFailed));
      assert stream.sent == sent + Loop([e], stream.failing, w).out;
    case Echo(_) =>
      var ok := stream.Write(buf[..bytesRead]);
      stop := if ok then None else Some(Panicked(WriteFailed));
      assert ok ==> Loop([e], stream.failing, w) == Session(Blocked, buf[..bytesRead], 1, 1);
      assert stream.sent == sent + Loop([e], stream.failing, w).out;
  }

  /**
   * Part-way through `handle_client` on the read results `all`: the reads
   * made so far, `done`, have not ended the loop; `pending` are the read
   * results still to come, `sent` the bytes written and `w` the number of
   * the next write call; and the whole run is `done` followed by the run on
   * `pending`.
   */
  ghost predicate Midway(all: seq<ReadResult>, failing: set<nat>, w0: nat, sent0: seq<byte>,
                         done: Session, pending: seq<ReadResult>, sent: seq<byte>, w: nat)
  {
    && done.exit == Blocked && done.readCalls <= |all|
    && pending == all[done.readCalls..]
    && sent == sent0 + done.out
    && w == w0 + done.writeCalls
    && Run(all, failing, w0) == Combine(done, Run(pending, failing, w))
  }

  /** A round that did not end the loop moves `done` on by one read. */
  lemma Advance(all: seq<ReadResult>, failing: set<nat>, w0: nat, sent0: seq<byte>,
                done: Session, pending: seq<ReadResult>, sent: seq<byte>, w: nat)
    requires Midway(all, failing, w0, sent0, done, pending, sent, w)
    requires pending != [] && Run(pending[..1], failing, w).exit == Blocked
    ensures var one := Run(pending[..1], failing, w);
      && one.writeCalls == 1
      && Midway(all, failing, w0, sent0, Combine(done, one), pending[1..], sent + one.out, w + 1)
  {
    var one := Run(pending[..1], failing, w);
    RunFirst(pending, failing, w);
    CombineAssoc(done, one, Run(pending[1..], failing, w + 1));
    Assoc(sent0, done.out, one.out);
    DropDrop(all, done.readCalls, 1);
  }

  /** A round that ended the loop ends the whole run. */
  lemma Stop(all: seq<ReadResult>, failing: set<nat>, w0: nat, sent0: seq<byte>,
             done: Session, pending: seq<ReadResult>, sent: seq<byte>, w: nat)
    requires Midway(all, failing, w0, sent0, done, pending, sent, w)
    requires pending != [] && Run(pending[..1], failing, w).exit != Blocked
    ensures var one, s := Run(pending[..1], failing, w), Run(all, failing, w0);
      && one.exit == s.exit
      && sent + one.out == sent0 + s.out
      && pending[1..] == all[s.readCalls..]
      && w + one.writeCalls == w0 + s.writeCalls
  {
    var one := Run(pending[..1], failing, w);
    RunFirst(pending, failing, w);
    Assoc(sent0, done.out, one.out);
    DropDrop(all, done.readCalls, 1);
  }

  /** Once the read results are used up, the run has been done in full. */
  lemma Exhausted(all: seq<ReadResult>, failing: set<nat>, w0: nat, sent0: seq<byte>,
                  done: Session, sent: seq<byte>, w: nat)
    requires Midway(all, failing, w0, sent0, done, [], sent, w)
    ensures var s := Run(all, failing, w0);
      && s.exit == Blocked
      && sent == sent0 + s.out
      && [] == all[s.readCalls..]
      && w == w0 + s.writeCalls
  {
    assert Run([], failing, w) == Session(Blocked, [], 0, 0);
    assert done.out + [] == done.out;
  }

  /**
   * `handle_client`: rounds of read, decide and write until one of them ends
   * the loop. Panics of the thread are returned as `Panicked`; running out of
   * read results as `Blocked`. What it writes, how it ends and how many reads
   * and writes it makes are those of `Run` on the stream's read results.
   */
  method HandleClient(stream: TcpStream) returns (exit: Exit)
    requires stream.Valid()
    modifies stream
    ensures var s := Run(old(stream.pending), stream.failing, old(stream.writeCalls));
      && exit == s.exit
      && stream.sent == old(stream.sent) + s.out
      && stream.pending == old(stream.pending)[s.readCalls..]
      && stream.writeCalls == old(stream.writeCalls) + s.writeCalls
  {
    var buf := new byte[BUFFER_SIZE](_ => 0);
    ghost var done := Session(Blocked, [], 0, 0);
    assert old(stream.pending)[0..] == old(stream.pending);
    exit := Blocked;
    while stream.pending != []
      invariant stream.Valid() && buf.Length == BUFFER_SIZE && exit == Blocked
      invariant Midway(old(stream.pending), stream.failing, old(stream.writeCalls), old(stream.sent),
                       done, stream.pending, stream.sent, stream.writeCalls)
      decreases |stream.pending|
    {
      ghost var before, w, sent := stream.pending, stream.writeCalls, stream.sent;
      var stop := Round(stream, buf);
      if stop.Some? {
        Stop(old(stream.pending), stream.failing, old(stream.writeCalls), old(stream.sent), done, before, sent, w);
        exit := stop.value;
        break;
      }
      Advance(old(stream.pending), stream.failing, old(stream.writeCalls), old(stream.sent), done, before, sent, w);
      done := Combine(done, Run(before[..1], stream.failing, w));
    }
    if exit == Blocked {
      Exhausted(old(stream.pending), stream.failing, old(stream.writeCalls), old(stream.sent), done, stream.sent, stream.writeCalls);
    }
  }
}
