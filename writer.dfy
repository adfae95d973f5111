/** The outbound half of the client: `send` writes the 8-byte header and then
    the payload, each through a loop that accumulates partial writes, retries
    on `WouldBlock` and gives up on any other I/O error. */
module Writer {
  import opened Codec

  datatype ErrorKind = WouldBlock | Other(name: string)

  /** What one `write` call on the nonblocking socket reports. */
  datatype WriteResult = Ok(size: nat) | Err(kind: ErrorKind)

  /** What the socket would report for a slice of `len` bytes, given what it
      is prepared to take: `write` never reports more than it was handed. */
  function Report(offer: WriteResult, len: nat): (r: WriteResult)
    ensures r.Ok? ==> r.size <= len
    ensures r.Err? ==> r == offer
    ensures offer.Ok? && offer.size <= len ==> r == offer
  {
    match offer
    case Ok(n) => Ok(if n <= len then n else len)
    case Err(k) => Err(k)
  }

  predicate IsFatal(r: WriteResult)
  {
    r.Err? && r.kind.Other?
  }

  /** The write half of the socket. Its future is a script of `write`
      reports; the bytes it has accepted so far are `emitted`. */
  class WriteHalf {
    var script: seq<WriteResult>
    ghost var emitted: seq<byte>

    constructor (script: seq<WriteResult>)
      ensures this.script == script && emitted == []
    {
      this.script := script;
      emitted := [];
    }

    /** `socket.write(buf)`: consumes one scripted report. */
    method Write(buf: seq<byte>) returns (r: WriteResult)
      requires script != []
      modifies this
      ensures r == Report(old(script)[0], |buf|)
      ensures script == old(script)[1..]
      ensures emitted == old(emitted) + (if r.Ok? then buf[..r.size] else [])
    {
      r := Report(script[0], |buf|);
      script := script[1..];
      if r.Ok? {
        emitted := emitted + buf[..r.size];
      }
    }
  }

  /** How one write loop ended: the whole span went out, an error other than
      `WouldBlock` aborted it, or the script ran out first. */
  datatype Progress = Done | Aborted(kind: string) | OutOfScript

  /** A write loop's ending, the bytes it put on the wire and the unused
      remainder of the script. */
  datatype Drained = Drained(progress: Progress, out: seq<byte>, rest: seq<WriteResult>)

  /** The write loop `while written < span.len() { ... }` started with
      `written` bytes of `span` already sent. */
  function Drain(span: seq<byte>, written: nat, script: seq<WriteResult>): (d: Drained)
    requires written <= |span|
    ensures |d.rest| <= |script|
    decreases |script|
  {
    if written == |span| then Drained(Done, [], script)
    else if script == [] then Drained(OutOfScript, [], [])
    else
      match script[0]
      case Ok(n) =>
        var size := Report(script[0], |span| - written).size;
        var d := Drain(span, written + size, script[1..]);
        Drained(d.progress, span[written..written + size] + d.out, d.rest)
      case Err(WouldBlock) => Drain(span, written, script[1..])
      case Err(Other(k)) => Drained(Aborted(k), [], script[1..])
  }

  /** `Result<(), String>` of `send`, plus the case where the script ends
      while the source would still be polling. */
  datatype SendResult = Sent | Failed(kind: string) | Unfinished

  datatype Sending = Sending(result: SendResult, out: seq<byte>, rest: seq<WriteResult>)

  function Verdict(p: Progress): SendResult
  {
    match p
    case Done => Sent
    case Aborted(k) => Failed(k)
    case OutOfScript => Unfinished
  }

  /** What `send(data)` does against a socket whose write reports are
      `script`: the header loop, then, only once it is done, the body loop. */
  function SendSpec(data: seq<byte>, script: seq<WriteResult>): (s: Sending)
    requires |data| < U64Bound
    ensures |s.rest| <= |script|
  {
    var h := Drain(EncodeHeader(|data|), 0, script);
    if h.progress != Done then Sending(Verdict(h.progress), h.out, h.rest)
    else
      var b := Drain(data, 0, h.rest);
      Sending(Verdict(b.progress), h.out + b.out, b.rest)
  }

  /** Bytes a report says were taken: a `WouldBlock` takes none. */
  function Taken(r: WriteResult): nat
  {
    if r.Ok? then r.size else 0
  }

  /** One turn of a write loop that is not aborted keeps the loop's account:
      the bytes written so far followed by what the rest of the loop emits
      is what the whole loop emits. */
  lemma {:induction false} TurnKeepsAccount(whole: Drained, span: seq<byte>, written: nat, script: seq<WriteResult>, r: WriteResult)
    requires written < |span| && script != []
    requires r == Report(script[0], |span| - written) && !IsFatal(r)
    requires var d := Drain(span, written, script);
      whole == Drained(d.progress, span[..written] + d.out, d.rest)
    ensures written + Taken(r) <= |span|
    ensures span[..written] + span[written..][..Taken(r)] == span[..written + Taken(r)]
    ensures var d := Drain(span, written + Taken(r), script[1..]);
      whole == Drained(d.progress, span[..written + Taken(r)] + d.out, d.rest)
  {
    var n := Taken(r);
    var d := Drain(span, written + n, script[1..]);
    assert Drain(span, written, script) == Drained(d.progress, span[written..written + n] + d.out, d.rest);
    assert span[..written] + (span[written..written + n] + d.out) == span[..written + n] + d.out;
  }

  /** One of the two write loops of `send`: writes all of `span`, adding each
      reported size to the count of bytes written. */
  method WriteLoop(sock: WriteHalf, span: seq<byte>) returns (p: Progress)
    modifies sock
    ensures var d := Drain(span, 0, old(sock.script));
      p == d.progress && sock.emitted == old(sock.emitted) + d.out && sock.script == d.rest
  {
    ghost var e0 := sock.emitted;
    ghost var whole := Drain(span, 0, sock.script);
    var written: nat := 0;
    while written < |span|
      invariant written <= |span|
      invariant sock.emitted == e0 + span[..written]
      invariant var d := Drain(span, written, sock.script);
        whole == Drained(d.progress, span[..written] + d.out, d.rest)
      decreases |sock.script|
    {
      if sock.script == [] {
        return OutOfScript;
      }
      ghost var before := sock.script;
      var res := sock.Write(span[written..]);
      if IsFatal(res) {
        return Aborted(res.kind.name);
      }
      TurnKeepsAccount(whole, span, written, before, res);
      match res {
        case Ok(size) =>
          if size > 0 {
            written := written + size;
          }
        case Err(_) =>
      }
    }
    return Done;
  }

  /** `TcpClient::send`: the header loop, then the body loop. */
  method Send(sock: WriteHalf, data: seq<byte>) returns (r: SendResult)
    requires |data| < U64Bound
    modifies sock
    ensures var s := SendSpec(data, old(sock.script));
      r == s.result && sock.emitted == old(sock.emitted) + s.out && sock.script == s.rest
  {
    var header := EncodeHeader(|data|);
    var p := WriteLoop(sock, header);
    if p != Done {
      return Verdict(p);
    }
    p := WriteLoop(sock, data);
    return Verdict(p);
  }

  // ---------------------------------------------------------------------------
  // Properties of one write loop

  /** Putting the same bytes in front keeps one sequence a prefix of
      another, and equality. */
  lemma PrefixAfter(a: seq<byte>, b: seq<byte>, c: seq<byte>)
    ensures b <= c <==> a + b <= a + c
    ensures b == c <==> a + b == a + c
  {
    if a + b == a + c {
      assert b == (a + b)[|a|..];
    }
    if a + b <= a + c {
      assert b == (a + b)[|a|..] && (a + c)[|a|..] == c;
      assert b == c[..|b|];
    }
  }

  /** A write loop only ever emits a prefix of what is left of its span, each
      byte once and in order, and it has emitted all of it exactly when it
      reports `Done`. */
  lemma {:induction false} DrainEmitsPrefix(span: seq<byte>, written: nat, script: seq<WriteResult>)
    requires written <= |span|
    ensures var d := Drain(span, written, script);
      d.out <= span[written..] && (d.progress == Done <==> d.out == span[written..])
    decreases |script|
  {
    if written < |span| && script != [] {
      match script[0]
      case Ok(n) =>
        var size := Report(script[0], |span| - written).size;
        DrainEmitsPrefix(span, written + size, script[1..]);
        assert span[written..] == span[written..written + size] + span[written + size..];
        var d := Drain(span, written + size, script[1..]);
        PrefixAfter(span[written..written + size], d.out, span[written + size..]);
      case Err(WouldBlock) =>
        DrainEmitsPrefix(span, written, script[1..]);
      case Err(Other(k)) =>
    }
  }

  /** What a write loop leaves of its script is a suffix of it: reports are
      consumed from the front, one per call. */
  lemma {:induction false} DrainRestIsSuffix(span: seq<byte>, written: nat, script: seq<WriteResult>)
    requires written <= |span|
    ensures var d := Drain(span, written, script);
      d.rest == script[|script| - |d.rest|..]
    decreases |script|
  {
    if written < |span| && script != [] {
      match script[0]
      case Ok(n) =>
        DrainRestIsSuffix(span, written + Report(script[0], |span| - written).size, script[1..]);
      case Err(WouldBlock) =>
        DrainRestIsSuffix(span, written, script[1..]);
      case Err(Other(k)) =>
    }
  }

  /** A write loop that aborts does so on the first fatal report of its
      script, and consumes nothing after it. */
  lemma {:induction false} DrainAbortsAtFirstFatal(span: seq<byte>, written: nat, script: seq<WriteResult>)
    requires written <= |span|
    ensures var d := Drain(span, written, script);
      var used := |script| - |d.rest|;
      d.progress.Aborted? ==>
        && used >= 1
        && script[used - 1] == Err(Other(d.progress.kind))
        && forall j :: 0 <= j < used - 1 ==> !IsFatal(script[j])
    decreases |script|
  {
    if written < |span| && script != [] {
      match script[0]
      case Ok(n) =>
        var size := Report(script[0], |span| - written).size;
        DrainAbortsAtFirstFatal(span, written + size, script[1..]);
      case Err(WouldBlock) =>
        DrainAbortsAtFirstFatal(span, written, script[1..]);
      case Err(Other(k)) =>
    }
  }

  /** Without a fatal report a write loop never aborts. */
  lemma {:induction false} DrainWithoutFatal(span: seq<byte>, written: nat, script: seq<WriteResult>)
    requires written <= |span|
    requires forall j :: 0 <= j < |script| ==> !IsFatal(script[j])
    ensures !Drain(span, written, script).progress.Aborted?
    decreases |script|
  {
    if written < |span| && script != [] {
      match script[0]
      case Ok(n) =>
        var size := Report(script[0], |span| - written).size;
        DrainWithoutFatal(span, written + size, script[1..]);
      case Err(WouldBlock) =>
        DrainWithoutFatal(span, written, script[1..]);
      case Err(Other(k)) =>
    }
  }

  /** A socket that takes at least one byte on every call finishes the span
      within as many calls as there are bytes left, and leaves the rest of
      the script unused. */
  lemma {:induction false} DrainTrickle(span: seq<byte>, written: nat, script: seq<WriteResult>)
    requires written <= |span|
    requires forall j :: 0 <= j < |script| ==> script[j].Ok? && script[j].size >= 1
    requires |script| >= |span| - written
    ensures var d := Drain(span, written, script);
      d.progress == Done && |d.rest| >= |script| - (|span| - written)
    decreases |script|
  {
    if written < |span| {
      DrainTrickle(span, written + Report(script[0], |span| - written).size, script[1..]);
    }
  }

  // ---------------------------------------------------------------------------
  // Properties of `send`

  /** `send` puts on the wire a prefix of the frame (so no body byte precedes
      the last header byte, and nothing is sent twice or out of order), and it
      reports success exactly when the whole frame went out. */
  lemma SendEmitsFramePrefix(data: seq<byte>, script: seq<WriteResult>)
    requires |data| < U64Bound
    ensures var s := SendSpec(data, script);
      s.out <= Frame(data) && (s.result == Sent <==> s.out == Frame(data))
  {
    var header := EncodeHeader(|data|);
    var h := Drain(header, 0, script);
    DrainEmitsPrefix(header, 0, script);
    assert header[0..] == header;
    if h.progress == Done {
      DrainEmitsPrefix(data, 0, h.rest);
      assert data[0..] == data;
    } else {
      assert |h.out| < |header|;
    }
  }

  /** `send` returns `Err(kind)` only because of the first fatal report it
      met, and issues no write after it. */
  lemma SendFailsAtFirstFatal(data: seq<byte>, script: seq<WriteResult>)
    requires |data| < U64Bound
    ensures var s := SendSpec(data, script);
      var used := |script| - |s.rest|;
      s.result.Failed? ==>
        && 0 < used <= |script|
        && script[used - 1] == Err(Other(s.result.kind))
        && forall j :: 0 <= j < used - 1 ==> !IsFatal(script[j])
  {
    var header := EncodeHeader(|data|);
    var h := Drain(header, 0, script);
    DrainAbortsAtFirstFatal(header, 0, script);
    if h.progress == Done {
      var hu := |script| - |h.rest|;
      DrainAbortsAtFirstFatal(data, 0, h.rest);
      var b := Drain(data, 0, h.rest);
      if b.progress.Aborted? {
        var bu := |h.rest| - |b.rest|;
        DrainRestIsSuffix(header, 0, script);
        forall j | 0 <= j < hu + bu - 1 ensures !IsFatal(script[j]) {
          if j >= hu {
            assert script[j] == h.rest[j - hu];
          } else {
            DoneConsumedNoFatal(header, 0, script, j);
          }
        }
      }
    }
  }

  /** Whatever a completed write loop consumed held no fatal report. */
  lemma {:induction false} DoneConsumedNoFatal(span: seq<byte>, written: nat, script: seq<WriteResult>, j: nat)
    requires written <= |span|
    requires Drain(span, written, script).progress == Done
    requires j < |script| - |Drain(span, written, script).rest|
    ensures !IsFatal(script[j])
    decreases |script|
  {
    if written < |span| && script != [] && j > 0 {
      match script[0]
      case Ok(n) =>
        var size := Report(script[0], |span| - written).size;
        DoneConsumedNoFatal(span, written + size, script[1..], j - 1);
      case Err(WouldBlock) =>
        DoneConsumedNoFatal(span, written, script[1..], j - 1);
      case Err(Other(k)) =>
    }
  }

  /** A socket that never reports a fatal error never makes `send` fail. */
  lemma SendWithoutFatal(data: seq<byte>, script: seq<WriteResult>)
    requires |data| < U64Bound
    requires forall j :: 0 <= j < |script| ==> !IsFatal(script[j])
    ensures !SendSpec(data, script).result.Failed?
  {
    var header := EncodeHeader(|data|);
    DrainWithoutFatal(header, 0, script);
    var h := Drain(header, 0, script);
    if h.progress == Done {
      DrainRestIsSuffix(header, 0, script);
      assert forall j :: 0 <= j < |h.rest| ==> h.rest[j] == script[|script| - |h.rest| + j];
      DrainWithoutFatal(data, 0, h.rest);
    }
  }

  /** A socket that takes at least one byte on every call, down to a single
      byte, delivers the whole frame within 8 plus the payload length calls. */
  lemma SendTrickle(data: seq<byte>, script: seq<WriteResult>)
    requires |data| < U64Bound
    requires forall j :: 0 <= j < |script| ==> script[j].Ok? && script[j].size >= 1
    requires |script| >= HeaderSize + |data|
    ensures SendSpec(data, script).result == Sent
    ensures SendSpec(data, script).out == Frame(data)
    ensures |SendSpec(data, script).rest| >= |script| - (HeaderSize + |data|)
  {
    var header := EncodeHeader(|data|);
    DrainTrickle(header, 0, script);
    var h := Drain(header, 0, script);
    DrainRestIsSuffix(header, 0, script);
    assert forall j :: 0 <= j < |h.rest| ==> h.rest[j] == script[|script| - |h.rest| + j];
    DrainTrickle(data, 0, h.rest);
    SendEmitsFramePrefix(data, script);
  }

  /** `send` consumes write outcomes from the front of the script: what it
      leaves is a suffix, so no write follows the last one it used. */
  lemma SendRestIsSuffix(data: seq<byte>, script: seq<WriteResult>)
    requires |data| < U64Bound
    ensures var s := SendSpec(data, script);
      |s.rest| <= |script| && s.rest == script[|script| - |s.rest|..]
  {
    var header := EncodeHeader(|data|);
    var h := Drain(header, 0, script);
    DrainRestIsSuffix(header, 0, script);
    if h.progress == Done {
      DrainRestIsSuffix(data, 0, h.rest);
      var b := Drain(data, 0, h.rest);
      assert h.rest[|h.rest| - |b.rest|..] == script[|script| - |b.rest|..];
    }
  }

  /** A write loop that ran out of script met no fatal report on the way. */
  lemma {:induction false} OutOfScriptNoFatal(span: seq<byte>, written: nat, script: seq<WriteResult>)
    requires written <= |span|
    requires Drain(span, written, script).progress == OutOfScript
    ensures forall j :: 0 <= j < |script| ==> !IsFatal(script[j])
    decreases |script|
  {
    if script != [] {
      match script[0]
      case Ok(n) =>
        OutOfScriptNoFatal(span, written + Report(script[0], |span| - written).size, script[1..]);
        assert forall j :: 1 <= j < |script| ==> script[j] == script[1..][j - 1];
      case Err(WouldBlock) =>
        OutOfScriptNoFatal(span, written, script[1..]);
        assert forall j :: 1 <= j < |script| ==> script[j] == script[1..][j - 1];
    }
  }

  /** Any fatal report among the writes `send` issued makes it fail: it
      returns `Err` at once rather than going on or running out. */
  lemma SendFatalFails(data: seq<byte>, script: seq<WriteResult>, j: nat)
    requires |data| < U64Bound
    requires j < |script| - |SendSpec(data, script).rest| && IsFatal(script[j])
    ensures SendSpec(data, script).result.Failed?
  {
    var header := EncodeHeader(|data|);
    var h := Drain(header, 0, script);
    if h.progress == OutOfScript {
      OutOfScriptNoFatal(header, 0, script);
    } else if h.progress == Done {
      var hu := |script| - |h.rest|;
      var b := Drain(data, 0, h.rest);
      if j < hu {
        DoneConsumedNoFatal(header, 0, script, j);
      } else {
        DrainRestIsSuffix(header, 0, script);
        assert script[j] == h.rest[j - hu];
        if b.progress == OutOfScript {
          OutOfScriptNoFatal(data, 0, h.rest);
        } else if b.progress == Done {
          DoneConsumedNoFatal(data, 0, h.rest, j - hu);
        }
      }
    }
  }
}
