/** The inbound half of the client: the loop run by the thread that
    `receive` spawns. It polls the shutdown channel, decodes the length once
    the header is in, sizes the buffer to the whole frame, reads into the free
    part of the buffer and hands each complete payload to the handler. */
module Reassembly {
  import opened Codec

  /** The loop's local state: `buffer`, `read_bytes`, `amount_to_read`. */
  datatype Reader = Reader(buffer: seq<byte>, readBytes: nat, amountToRead: nat)

  /** `vec![0; 8]` with nothing read. */
  function Start(): (s: Reader)
    ensures IsReset(s)
  {
    Reader(seq(HeaderSize, _ => 0), 0, 0)
  }

  /** The state the loop starts in and returns to after each dispatch; the
      eight bytes kept in the buffer are stale and are overwritten by the
      next header. */
  predicate IsReset(s: Reader)
  {
    |s.buffer| == HeaderSize && s.readBytes == 0 && s.amountToRead == 0
  }

  /** What holds between iterations: while the header is incomplete the
      buffer is the 8-byte header buffer; a non-zero length is the one the
      header decodes to, the buffer then holds exactly the frame, and the
      frame is not complete yet (it would have been dispatched). */
  predicate Valid(s: Reader)
  {
    && s.readBytes <= |s.buffer|
    && (s.amountToRead == 0 ==> |s.buffer| == HeaderSize)
    && (s.readBytes < HeaderSize ==> s.amountToRead == 0)
    && (s.amountToRead > 0 ==>
          && |s.buffer| == HeaderSize + s.amountToRead
          && s.amountToRead == DecodeHeader(s.buffer[..HeaderSize])
          && HeaderSize <= s.readBytes < |s.buffer|)
  }

  /** `Vec::resize(n, 0)`: keeps the first `n` bytes and pads with zeros. */
  function Resize(b: seq<byte>, n: nat): (r: seq<byte>)
    ensures |r| == n
    ensures forall i :: 0 <= i < n && i < |b| ==> r[i] == b[i]
    ensures forall i :: |b| <= i < n ==> r[i] == 0
  {
    if n <= |b| then b[..n] else b + seq(n - |b|, _ => 0)
  }

  /** The top of an iteration, before the read: once eight bytes are in,
      decode the length and size the buffer to header plus body. */
  function Prepare(s: Reader): (p: Reader)
    requires Valid(s)
    ensures Sized(p)
    ensures p.readBytes == s.readBytes
    ensures p.buffer[..p.readBytes] == s.buffer[..s.readBytes]
    ensures s.readBytes < HeaderSize ==> p == s
    ensures s.readBytes >= HeaderSize ==>
      p.amountToRead == DecodeHeader(s.buffer[..HeaderSize]) && |p.buffer| == HeaderSize + p.amountToRead
  {
    if s.readBytes >= HeaderSize then
      var amount := DecodeHeader(s.buffer[..HeaderSize]);
      var buffer := if |s.buffer| != HeaderSize + amount then Resize(s.buffer, HeaderSize + amount) else s.buffer;
      assert buffer[..HeaderSize] == s.buffer[..HeaderSize];
      Reader(buffer, s.readBytes, amount)
    else s
  }

  /** How many bytes the read of this iteration may return:
      `buffer[read_bytes..].len()` after the top of the iteration. */
  function Room(s: Reader): nat
    requires Valid(s)
  {
    |Prepare(s).buffer| - s.readBytes
  }

  /** What one iteration observes: the shutdown channel delivered `true`, or
      the channel held nothing for it and `read` returned k >= 1 bytes,
      returned 0, failed with `WouldBlock`, or failed otherwise. */
  datatype Event =
    | Shutdown
    | Received(data: seq<byte>)
    | Closed
    | ReadWouldBlock
    | ReadFailed

  /** `read` returns at least one and at most as many bytes as the slice it
      is handed can take. */
  predicate Admissible(s: Reader, e: Event)
    requires Valid(s)
  {
    e.Received? ==> 1 <= |e.data| <= Room(s)
  }

  /** One iteration: the state after it, the payloads it passed to the
      handler, and whether the loop ended. */
  datatype Iteration = Iteration(next: Reader, handled: seq<seq<byte>>, exit: bool)

  /** A state as the read finds it: once the header is in, the buffer holds
      exactly header plus decoded length. */
  predicate Sized(p: Reader)
  {
    && Valid(p)
    && (p.readBytes >= HeaderSize ==>
          |p.buffer| == HeaderSize + p.amountToRead
          && p.amountToRead == DecodeHeader(p.buffer[..HeaderSize]))
  }

  /** The read and what follows it, on a state the top of the iteration has
      sized: bytes land at `buffer[read_bytes..]`, a complete frame goes to
      the handler and the state returns to the 8-byte header buffer; a 0-byte
      read calls the handler with an empty slice; errors do nothing. */
  function Absorb(p: Reader, e: Event): (r: Iteration)
    requires Sized(p) && !e.Shutdown?
    requires e.Received? ==> 1 <= |e.data| <= |p.buffer| - p.readBytes
    ensures Valid(r.next) && !r.exit
    ensures |r.handled| <= 1
  {
    match e
    case Received(d) =>
      var buffer := p.buffer[..p.readBytes] + d + p.buffer[p.readBytes + |d|..];
      var readBytes := p.readBytes + |d|;
      assert p.amountToRead > 0 ==> buffer[..HeaderSize] == p.buffer[..HeaderSize] by {
        if p.amountToRead > 0 {
          assert buffer[..p.readBytes] == p.buffer[..p.readBytes];
        }
      }
      if p.amountToRead > 0 && readBytes == HeaderSize + p.amountToRead then
        Iteration(Reader(Resize(buffer, HeaderSize), 0, 0), [buffer[HeaderSize..]], false)
      else
        Iteration(Reader(buffer, readBytes, p.amountToRead), [], false)
    case Closed => Iteration(p, [[]], false)
    case ReadWouldBlock => Iteration(p, [], false)
    case ReadFailed => Iteration(p, [], false)
  }

  /** The body of the `loop` in `receive`: poll for shutdown, size the
      buffer, read. */
  function Iterate(s: Reader, e: Event): (r: Iteration)
    requires Valid(s) && Admissible(s, e)
    ensures Valid(r.next)
    ensures r.exit <==> e.Shutdown?
    ensures |r.handled| <= 1
  {
    if e.Shutdown? then Iteration(s, [], true) else Absorb(Prepare(s), e)
  }

  /** Every event of `evs` is one the socket could report at its turn, up to
      the end of the loop. */
  predicate Feasible(s: Reader, evs: seq<Event>)
    requires Valid(s)
    decreases |evs|
  {
    evs == [] ||
    (Admissible(s, evs[0]) &&
     (Iterate(s, evs[0]).exit || Feasible(Iterate(s, evs[0]).next, evs[1..])))
  }

  /** The final state, every payload handed to the handler, and how many
      events the loop took. */
  datatype LoopOutcome = LoopOutcome(final: Reader, handled: seq<seq<byte>>, consumed: nat)

  /** The loop run over `evs` until they end or a shutdown breaks it. */
  function Run(s: Reader, evs: seq<Event>): (r: LoopOutcome)
    requires Valid(s) && Feasible(s, evs)
    ensures Valid(r.final) && r.consumed <= |evs|
    decreases |evs|
  {
    if evs == [] then LoopOutcome(s, [], 0)
    else
      var it := Iterate(s, evs[0]);
      if it.exit then LoopOutcome(it.next, it.handled, 1)
      else
        var r := Run(it.next, evs[1..]);
        LoopOutcome(r.final, it.handled + r.handled, r.consumed + 1)
  }

  /** Bookkeeping for the loop: `total` is what remains of the run from `s`
      over `evs`, after `got` was handed over and `processed` events were
      taken. */
  predicate Tracks(total: LoopOutcome, s: Reader, evs: seq<Event>, got: seq<seq<byte>>, processed: nat)
  {
    && Valid(s) && Feasible(s, evs)
    && var r := Run(s, evs);
       total == LoopOutcome(r.final, got + r.handled, processed + r.consumed)
  }

  /** One more iteration either ends the run or keeps the account for the
      rest of the events. */
  lemma RunAdvances(total: LoopOutcome, s: Reader, evs: seq<Event>, got: seq<seq<byte>>, processed: nat)
    requires Tracks(total, s, evs, got, processed) && evs != []
    ensures Admissible(s, evs[0])
    ensures var it := Iterate(s, evs[0]);
      && (it.exit ==> total == LoopOutcome(it.next, got + it.handled, processed + 1))
      && (!it.exit ==> Tracks(total, it.next, evs[1..], got + it.handled, processed + 1))
  {
    var it := Iterate(s, evs[0]);
    if !it.exit {
      var r := Run(it.next, evs[1..]);
      assert (got + it.handled) + r.handled == got + (it.handled + r.handled);
    }
  }

  /** Regroups the handler log for `Receive`'s loop invariant: the log before
      the loop, what earlier passes handed over, then what this pass did. */
  lemma LogGrows(before: seq<seq<byte>>, got: seq<seq<byte>>, now: seq<seq<byte>>)
    ensures (before + got) + now == before + (got + now)
  {
  }

  /** The receiving thread's loop state. `handled` stands for the handler:
      every call appends its argument. */
  class Pump {
    var buffer: seq<byte>
    var readBytes: nat
    var amountToRead: nat
    ghost var handled: seq<seq<byte>>

    function State(): Reader
      reads this
    {
      Reader(buffer, readBytes, amountToRead)
    }

    constructor ()
      ensures State() == Start() && handled == []
    {
      buffer := seq(HeaderSize, _ => 0);
      readBytes := 0;
      amountToRead := 0;
      handled := [];
    }

    /** One pass through the loop body. */
    method Step(e: Event) returns (exit: bool)
      requires Valid(State()) && Admissible(State(), e)
      modifies this
      ensures State() == Iterate(old(State()), e).next
      ensures handled == old(handled) + Iterate(old(State()), e).handled
      ensures exit == Iterate(old(State()), e).exit
    {
      if e.Shutdown? {
        return true;
      }
      SizeBuffer();
      ReadOnce(e);
      return false;
    }

    /** The top of the loop body: once the header is in, decode the length
        and resize the buffer if it is not header plus length long. */
    method SizeBuffer()
      requires Valid(State())
      modifies this
      ensures State() == Prepare(old(State())) && handled == old(handled)
    {
      if readBytes >= HeaderSize {
        amountToRead := DecodeHeader(buffer[..HeaderSize]);
        if |buffer| != HeaderSize + amountToRead {
          buffer := Resize(buffer, HeaderSize + amountToRead);
        }
      }
    }

    /** The read and the dispatch check that follows it. */
    method ReadOnce(e: Event)
      requires Sized(State()) && !e.Shutdown?
      requires e.Received? ==> 1 <= |e.data| <= |buffer| - readBytes
      modifies this
      ensures State() == Absorb(old(State()), e).next
      ensures handled == old(handled) + Absorb(old(State()), e).handled
    {
      match e {
        case Received(d) =>
          buffer := buffer[..readBytes] + d + buffer[readBytes + |d|..];
          readBytes := readBytes + |d|;
          if amountToRead > 0 && readBytes == HeaderSize + amountToRead {
            handled := handled + [buffer[HeaderSize..]];
            buffer := Resize(buffer, HeaderSize);
            readBytes := 0;
            amountToRead := 0;
          }
        case Closed =>
          handled := handled + [[]];
        case ReadWouldBlock =>
        case ReadFailed =>
      }
    }

    /** The whole `loop`: one step per event until a step breaks out. */
    method Receive(events: seq<Event>) returns (processed: nat)
      requires Valid(State()) && Feasible(State(), events)
      modifies this
      ensures var r := Run(old(State()), events);
        State() == r.final && handled == old(handled) + r.handled && processed == r.consumed
    {
      ghost var s0 := State();
      ghost var h0 := handled;
      ghost var got: seq<seq<byte>> := [];
      ghost var total := Run(s0, events);
      ghost var rest := events;
      processed := 0;
      while processed < |events|
        invariant processed <= |events| && rest == events[processed..]
        invariant handled == h0 + got
        invariant Tracks(total, State(), rest, got, processed)
      {
        var e := events[processed];
        ghost var before := State();
        RunAdvances(total, before, rest, got, processed);
        ghost var it := Iterate(before, e);
        var exit := Step(e);
        LogGrows(h0, got, it.handled);
        assert State() == it.next;
        got := got + it.handled;
        processed := processed + 1;
        rest := rest[1..];
        if exit {
          break;
        }
      }
    }
  }

  // ---------------------------------------------------------------------------
  // One iteration

  /** A frame goes to the handler exactly when the read brings `read_bytes`
      to header plus a non-zero decoded length; the payload is everything
      read since the last reset except the header, and the state is reset.
      Otherwise the bytes read since the last reset are kept in the buffer
      and counted in `read_bytes`. */
  lemma DispatchExactlyWhenComplete(s: Reader, d: seq<byte>)
    requires Valid(s) && Admissible(s, Received(d))
    ensures var p := Prepare(s);
      var it := Iterate(s, Received(d));
      var got := s.buffer[..s.readBytes] + d;
      && (it.handled != [] <==>
            p.amountToRead > 0 && s.readBytes + |d| == HeaderSize + p.amountToRead)
      && (it.handled != [] ==> it.handled == [got[HeaderSize..]] && IsReset(it.next))
      && (it.handled == [] ==>
            && it.next.readBytes == |got|
            && it.next.buffer[..it.next.readBytes] == got
            && it.next.amountToRead == p.amountToRead
            && |it.next.buffer| == |p.buffer|)
  {
    var p := Prepare(s);
    var buffer := p.buffer[..p.readBytes] + d + p.buffer[p.readBytes + |d|..];
    assert buffer[..s.readBytes + |d|] == s.buffer[..s.readBytes] + d;
    if p.amountToRead > 0 && s.readBytes + |d| == HeaderSize + p.amountToRead {
      assert buffer == s.buffer[..s.readBytes] + d;
    }
  }

  /** A 0-byte read calls the handler once with an empty payload; `WouldBlock`
      and other errors call nothing. None of them consumes or discards a
      byte: the state is the one the top of the iteration produced, which is
      the old state itself except right after the header came in. */
  lemma ReadsWithoutBytesKeepState(s: Reader, e: Event)
    requires Valid(s) && (e.Closed? || e.ReadWouldBlock? || e.ReadFailed?)
    ensures Iterate(s, e) == Iteration(Prepare(s), if e.Closed? then [[]] else [], false)
    ensures Prepare(Prepare(s)) == Prepare(s)
    ensures s.readBytes < HeaderSize || s.amountToRead > 0 ==> Prepare(s) == s
  {
  }

  /** When the channel delivers `true` the loop ends before reading: nothing
      is dispatched and the partly read frame stays where it is. */
  lemma ShutdownBeforeRead(s: Reader)
    requires Valid(s)
    ensures Iterate(s, Shutdown) == Iteration(s, [], true)
  {
  }

  /** The length is decoded one iteration late: the read that completes the
      header leaves `amount_to_read` at 0 and the buffer 8 bytes long; only
      the next iteration decodes the length and grows the buffer. */
  lemma HeaderCompletesUndecoded(s: Reader, d: seq<byte>)
    requires Valid(s) && s.readBytes < HeaderSize && 1 <= |d| && s.readBytes + |d| == HeaderSize
    ensures Admissible(s, Received(d))
    ensures var it := Iterate(s, Received(d));
      && it.handled == []
      && it.next.readBytes == HeaderSize && it.next.amountToRead == 0 && |it.next.buffer| == HeaderSize
      && Prepare(it.next).amountToRead == DecodeHeader(s.buffer[..s.readBytes] + d)
      && |Prepare(it.next).buffer| == HeaderSize + DecodeHeader(s.buffer[..s.readBytes] + d)
  {
    var it := Iterate(s, Received(d));
    assert it.next.buffer[..HeaderSize] == s.buffer[..s.readBytes] + d;
  }

  // ---------------------------------------------------------------------------
  // Zero-length frames

  /** The header in the buffer announces an empty payload. */
  predicate Wedged(s: Reader)
  {
    Valid(s) && s.readBytes >= HeaderSize && DecodeHeader(s.buffer[..HeaderSize]) == 0
  }

  /** Reading the header of an empty payload wedges the loop, however the
      eight bytes are split over reads and whatever read errors come between. */
  lemma EmptyFrameHeaderWedges(s: Reader, evs: seq<Event>)
    requires IsReset(s) && Feasible(s, evs)
    requires forall j :: 0 <= j < |evs| ==> Quiet(evs[j])
    requires Delivered(evs) == EncodeHeader(0)
    ensures Wedged(Run(s, evs).final)
  {
    var h := EncodeHeader(0);
    HeaderRoundTrip(0);
    assert s.buffer[..0] + Delivered(evs) == h;
    EmptyHeaderArrives(s, evs, h);
  }

  /** While the header `h` of an empty payload is coming in, the loop only
      collects it; once it is in, the loop is wedged. */
  lemma {:induction false} EmptyHeaderArrives(s: Reader, evs: seq<Event>, h: seq<byte>)
    requires |h| == HeaderSize && DecodeHeader(h) == 0
    requires Valid(s) && s.amountToRead == 0 && Feasible(s, evs)
    requires forall j :: 0 <= j < |evs| ==> Quiet(evs[j])
    requires s.buffer[..s.readBytes] + Delivered(evs) == h
    ensures Wedged(Run(s, evs).final)
    decreases |evs|
  {
    if s.readBytes == HeaderSize {
      assert s.buffer[..HeaderSize] == h;
      WedgedForever(s, evs);
    } else if evs != [] {
      RunQuiet(s, evs);
      assert Delivered(evs) == DataOf(evs[0]) + Delivered(evs[1..]);
      HeaderStep(s, evs[0], Delivered(evs[1..]), h);
      EmptyHeaderArrives(Iterate(s, evs[0]).next, evs[1..], h);
    }
  }

  /** One quiet iteration while the header `h` is incomplete: the bytes read
      join the header, and the length stays undecoded. */
  lemma HeaderStep(s: Reader, e: Event, rest: seq<byte>, h: seq<byte>)
    requires Valid(s) && s.readBytes < HeaderSize && Quiet(e) && Admissible(s, e)
    requires s.buffer[..s.readBytes] + (DataOf(e) + rest) == h
    ensures var next := Iterate(s, e).next;
      next.amountToRead == 0 && next.buffer[..next.readBytes] + rest == h
  {
    if e.Received? {
      HeaderRead(s, e.data, rest, h);
    } else {
      ReadsWithoutBytesKeepState(s, e);
    }
  }

  /** A read before the header `h` is complete appends what it reads to the
      header and leaves the length undecoded. */
  lemma HeaderRead(s: Reader, d: seq<byte>, rest: seq<byte>, h: seq<byte>)
    requires Valid(s) && s.readBytes < HeaderSize && Admissible(s, Received(d))
    requires s.buffer[..s.readBytes] + (d + rest) == h
    ensures var next := Iterate(s, Received(d)).next;
      next.amountToRead == 0 && next.buffer[..next.readBytes] + rest == h
  {
    DispatchExactlyWhenComplete(s, d);
    var next := Iterate(s, Received(d)).next;
    assert Iterate(s, Received(d)).handled == [] by {
      assert Prepare(s) == s;
    }
    assert next.buffer[..next.readBytes] == s.buffer[..s.readBytes] + d;
  }

  /** Once wedged, the loop can never read a byte again (the slice handed to
      `read` is empty), stays in the same state, and calls the handler only
      with empty payloads: no later frame is ever dispatched. */
  lemma {:induction false} WedgedForever(s: Reader, evs: seq<Event>)
    requires Wedged(s) && Feasible(s, evs)
    ensures Room(s) == 0
    ensures Run(s, evs).final == s
    ensures forall i :: 0 <= i < |Run(s, evs).handled| ==> Run(s, evs).handled[i] == []
    decreases |evs|
  {
    assert Prepare(s) == s;
    if evs != [] {
      var it := Iterate(s, evs[0]);
      assert it.next == s;
      if !it.exit {
        WedgedForever(s, evs[1..]);
      }
    }
  }

  // ---------------------------------------------------------------------------
  // The loop

  /** The loop takes every event up to and including the first shutdown and
      none after it; the shutdown itself changes nothing. */
  lemma {:induction false} RunStopsAtShutdown(s: Reader, evs: seq<Event>, i: nat)
    requires Valid(s) && Feasible(s, evs)
    requires i < |evs| && evs[i].Shutdown?
    requires forall j :: 0 <= j < i ==> !evs[j].Shutdown?
    ensures Feasible(s, evs[..i])
    ensures Run(s, evs) == LoopOutcome(Run(s, evs[..i]).final, Run(s, evs[..i]).handled, i + 1)
    decreases i
  {
    if i > 0 {
      var it := Iterate(s, evs[0]);
      assert evs[1..][..i - 1] == evs[..i][1..];
      RunStopsAtShutdown(it.next, evs[1..], i - 1);
    }
  }

  /** Without a shutdown the loop takes every event. */
  lemma {:induction false} RunTakesAll(s: Reader, evs: seq<Event>)
    requires Valid(s) && Feasible(s, evs)
    requires forall j :: 0 <= j < |evs| ==> !evs[j].Shutdown?
    ensures Run(s, evs).consumed == |evs|
    decreases |evs|
  {
    if evs != [] {
      RunTakesAll(Iterate(s, evs[0]).next, evs[1..]);
    }
  }

  // ---------------------------------------------------------------------------
  // Reassembly

  /** Payloads the loop can carry: non-empty, and short enough for the header. */
  predicate Payloads(ps: seq<seq<byte>>)
  {
    forall i :: 0 <= i < |ps| ==> 0 < |ps[i]| < U64Bound
  }

  /** Events that neither stop the loop nor report a closed peer. */
  predicate Quiet(e: Event)
  {
    e.Received? || e.ReadWouldBlock? || e.ReadFailed?
  }

  function DataOf(e: Event): seq<byte>
  {
    if e.Received? then e.data else []
  }

  /** The bytes the events deliver, in order. */
  function Delivered(evs: seq<Event>): seq<byte>
  {
    if evs == [] then [] else DataOf(evs[0]) + Delivered(evs[1..])
  }

  /** The loop is in step with the stream `Wire(ps)`: the bytes read for the
      current frame followed by `pending` are exactly the frames of `ps`, and
      the current frame is not yet complete. */
  ghost predicate Sync(s: Reader, ps: seq<seq<byte>>, pending: seq<byte>)
  {
    && Valid(s)
    && Payloads(ps)
    && s.buffer[..s.readBytes] + pending == Wire(ps)
    && (ps != [] ==> s.readBytes < |Frame(ps[0])|)
  }

  /** In step with bytes still to come, the next read has room for at least
      one of them. */
  lemma SyncRoom(s: Reader, ps: seq<seq<byte>>, pending: seq<byte>)
    requires Sync(s, ps, pending) && pending != []
    ensures ps != [] && Room(s) >= 1
  {
    assert Wire(ps) != [];
    if s.readBytes >= HeaderSize {
      SyncHeader(s, ps, pending);
    }
  }

  /** In step and past the header, the header in the buffer is that of the
      current payload. */
  lemma SyncHeader(s: Reader, ps: seq<seq<byte>>, pending: seq<byte>)
    requires Sync(s, ps, pending) && s.readBytes >= HeaderSize
    ensures ps != [] && DecodeHeader(s.buffer[..HeaderSize]) == |ps[0]|
  {
    assert |Wire(ps)| >= HeaderSize;
    var f := Frame(ps[0]);
    WireStartsWithFrame(ps);
    assert s.buffer[..HeaderSize] == Wire(ps)[..HeaderSize] == f[..HeaderSize];
    FrameSplits(ps[0]);
  }

  /** One quiet iteration keeps the loop in step: what it hands to the
      handler (nothing, or the current payload once its frame is complete)
      followed by the payloads `later` still to come is `ps`. */
  lemma SyncStep(s: Reader, ps: seq<seq<byte>>, e: Event, pending: seq<byte>) returns (later: seq<seq<byte>>)
    requires Quiet(e) && Sync(s, ps, DataOf(e) + pending) && Admissible(s, e)
    ensures ps == Iterate(s, e).handled + later
    ensures Sync(Iterate(s, e).next, later, pending)
  {
    if e.Received? {
      later := SyncReceived(s, ps, e.data, pending);
    } else {
      SyncIdle(s, ps, e, pending);
      later := ps;
    }
  }

  /** A read error leaves the loop in step: nothing was read. */
  lemma SyncIdle(s: Reader, ps: seq<seq<byte>>, e: Event, pending: seq<byte>)
    requires e.ReadWouldBlock? || e.ReadFailed?
    requires Sync(s, ps, DataOf(e) + pending)
    ensures Iterate(s, e) == Iteration(Prepare(s), [], false)
    ensures Sync(Prepare(s), ps, pending)
  {
    assert DataOf(e) + pending == pending;
  }

  /** A read keeps the loop in step: it either completes the current frame,
      which is then handed over, or extends it. */
  lemma SyncReceived(s: Reader, ps: seq<seq<byte>>, d: seq<byte>, pending: seq<byte>) returns (later: seq<seq<byte>>)
    requires Sync(s, ps, d + pending) && Admissible(s, Received(d))
    ensures ps == Iterate(s, Received(d)).handled + later
    ensures Sync(Iterate(s, Received(d)).next, later, pending)
  {
    var rb := s.readBytes;
    var got := s.buffer[..rb] + d;
    assert Wire(ps) == got + pending;
    assert ps != [];
    var f := Frame(ps[0]);
    var p := Prepare(s);
    if rb >= HeaderSize {
      SyncHeader(s, ps, d + pending);
    }
    assert rb >= HeaderSize ==> p.amountToRead == |ps[0]|;
    DispatchExactlyWhenComplete(s, d);
    var it := Iterate(s, Received(d));
    if it.handled != [] {
      SyncDispatch(ps, got, pending);
      later := ps[1..];
    } else {
      assert |got| <= |p.buffer|;
      later := ps;
    }
  }

  /** The bytes read since the last reset are the whole first frame: its
      payload is what the read hands over, and what follows is the stream of
      the other payloads. */
  lemma SyncDispatch(ps: seq<seq<byte>>, got: seq<byte>, pending: seq<byte>)
    requires Payloads(ps) && ps != []
    requires Wire(ps) == got + pending && |got| == |Frame(ps[0])|
    ensures got[HeaderSize..] == ps[0]
    ensures [] + pending == Wire(ps[1..]) && Payloads(ps[1..])
    ensures ps[1..] != [] ==> 0 < |Frame(ps[1..][0])|
  {
    WireStartsWithFrame(ps);
    assert got == Wire(ps)[..|got|];
    FrameSplits(ps[0]);
    assert pending == Wire(ps)[|got|..];
  }

  /** In step with nothing more to come, every payload has been dispatched
      and the loop is reset. */
  lemma SyncEnd(s: Reader, ps: seq<seq<byte>>)
    requires Sync(s, ps, [])
    ensures ps == [] && IsReset(s)
  {
    assert ps == [];
    assert s.buffer[..s.readBytes] == [];
  }

  /** A quiet event does not end the loop: the run is that event followed by
      the run of the rest. */
  lemma RunQuiet(s: Reader, evs: seq<Event>)
    requires Valid(s) && Feasible(s, evs) && evs != [] && Quiet(evs[0])
    ensures Admissible(s, evs[0]) && Feasible(Iterate(s, evs[0]).next, evs[1..])
    ensures var it := Iterate(s, evs[0]);
      var r := Run(it.next, evs[1..]);
      Run(s, evs) == LoopOutcome(r.final, it.handled + r.handled, r.consumed + 1)
  {
  }

  /** In step with the rest of the stream, quiet events that deliver it all
      hand the remaining payloads to the handler, in order, and leave the loop
      reset. */
  lemma {:induction false} SyncRun(s: Reader, ps: seq<seq<byte>>, evs: seq<Event>)
    requires Sync(s, ps, Delivered(evs)) && Feasible(s, evs)
    requires forall j :: 0 <= j < |evs| ==> Quiet(evs[j])
    ensures Run(s, evs).handled == ps && IsReset(Run(s, evs).final)
    ensures Run(s, evs).consumed == |evs|
    decreases |evs|
  {
    if evs == [] {
      SyncEnd(s, ps);
    } else {
      RunQuiet(s, evs);
      var it := Iterate(s, evs[0]);
      var later := SyncStep(s, ps, evs[0], Delivered(evs[1..]));
      SyncRun(it.next, later, evs[1..]);
    }
  }

  /** Feeding the loop the frames of non-empty payloads, cut into reads of any
      sizes the socket may return and interleaved with `WouldBlock` and other
      read errors, hands exactly those payloads to the handler, in order, and
      leaves the loop reset for the next frame. */
  lemma ReassemblesFrames(s: Reader, ps: seq<seq<byte>>, evs: seq<Event>)
    requires IsReset(s) && Payloads(ps)
    requires forall j :: 0 <= j < |evs| ==> Quiet(evs[j])
    requires Feasible(s, evs) && Delivered(evs) == Wire(ps)
    ensures Run(s, evs).handled == ps
    ensures IsReset(Run(s, evs).final) && Run(s, evs).consumed == |evs|
  {
    assert s.buffer[..0] + Wire(ps) == Wire(ps);
    SyncRun(s, ps, evs);
  }

  /** The stream `w` read one byte per call. */
  function OneByteReads(w: seq<byte>): (evs: seq<Event>)
    ensures |evs| == |w|
    ensures forall j :: 0 <= j < |evs| ==> evs[j] == Received([w[j]])
  {
    if w == [] then [] else [Received([w[0]])] + OneByteReads(w[1..])
  }

  lemma {:induction false} OneByteReadsFeasible(s: Reader, ps: seq<seq<byte>>, w: seq<byte>)
    requires Sync(s, ps, w)
    ensures Feasible(s, OneByteReads(w)) && Delivered(OneByteReads(w)) == w
    decreases |w|
  {
    if w != [] {
      var evs := OneByteReads(w);
      SyncRoom(s, ps, w);
      assert w == DataOf(evs[0]) + w[1..];
      var later := SyncStep(s, ps, evs[0], w[1..]);
      var it := Iterate(s, evs[0]);
      assert evs[1..] == OneByteReads(w[1..]);
      OneByteReadsFeasible(it.next, later, w[1..]);
    }
  }

  /** A socket that returns a single byte per read still reassembles every
      frame: the loop started fresh dispatches exactly the payloads sent. */
  lemma ByteAtATime(ps: seq<seq<byte>>)
    requires Payloads(ps)
    ensures Feasible(Start(), OneByteReads(Wire(ps)))
    ensures Run(Start(), OneByteReads(Wire(ps))).handled == ps
  {
    var s := Start();
    assert s.buffer[..0] + Wire(ps) == Wire(ps);
    OneByteReadsFeasible(s, ps, Wire(ps));
    ReassemblesFrames(s, ps, OneByteReads(Wire(ps)));
  }
}
