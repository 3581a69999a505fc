/** The datagram network seen through the socket calls. Every answer the socket
    layer may give is allowed: a receive may fail although a datagram waits, and
    a send may report an error. */
module Network {
  import opened Bytes

  type port = p: int | 0 <= p < 0x1_0000

  datatype Datagram = Datagram(data: seq<byte>, ip: nat, port: port)

  class Net {
    var incoming: seq<Datagram>
    var outgoing: seq<Datagram>     // every datagram handed to the send call, in order
    ghost var receives: seq<bool>   // for every receive call, whether it gave a datagram
    ghost var results: seq<int>     // what every call to the socket layer returned

    constructor ()
      ensures incoming == [] && outgoing == [] && receives == [] && results == []
    {
      incoming := [];
      outgoing := [];
      receives := [];
      results := [];
    }

    /** recvfrom on a non-blocking socket: any negative result, with an address that
        means nothing, or the next datagram; one longer than `cap` is cut off. */
    method RecvFrom(cap: nat) returns (len: int, data: seq<byte>, ip: nat, from: port)
      modifies this`incoming, this`receives, this`results
      ensures receives == old(receives) + [len >= 0] && results == old(results) + [len]
      ensures len < 0 ==> incoming == old(incoming)
      ensures len >= 0 ==>
                && old(incoming) != []
                && incoming == old(incoming)[1..]
                && data == old(incoming)[0].data[..Min(cap, |old(incoming)[0].data|)]
                && len == |data|
                && ip == old(incoming)[0].ip && from == old(incoming)[0].port
    {
      len, data, ip, from := *, [], *, *;
      if len < 0 || incoming == [] {
        len := if len < 0 then len else -1;
      } else {
        var d := incoming[0];
        incoming := incoming[1..];
        data := d.data[..Min(cap, |d.data|)];
        len, ip, from := |data|, d.ip, d.port;
      }
      receives, results := receives + [len >= 0], results + [len];
    }

    method SendTo(data: seq<byte>, ip: nat, to: port) returns (sent: int)
      modifies this`outgoing, this`results
      ensures outgoing == old(outgoing) + [Datagram(data, ip, to)]
      ensures results == old(results) + [sent] && sent <= |data|
    {
      outgoing := outgoing + [Datagram(data, ip, to)];
      sent := *;
      if sent > |data| {
        sent := |data|;
      }
      results := results + [sent];
    }

    /** Any other call: socket, setsockopt, bind. */
    method SocketCall() returns (res: int)
      modifies this`results
      ensures results == old(results) + [res]
    {
      res := *;
      results := results + [res];
    }
  }
}

/** How a stream of written bytes is cut into datagrams. */
module Packetiser {
  import opened Bytes
  import opened Network

  const MTU: nat := 1460

  /** What of a received datagram fits the receive buffer. */
  function Cut(data: seq<byte>): (r: seq<byte>)
    ensures |r| <= MTU
  {
    if |data| <= MTU then data else data[..MTU]
  }

  lemma {:induction false} CutIs(data: seq<byte>)
    ensures Cut(data) == if |data| <= 1460 then data else data[..1460]
  {
  }

  /** Appending `data` byte by byte to the transmit buffer `buf`, sending the
      buffer off when a byte arrives and it is full: (datagrams sent, buffer). */
  function WriteAll(buf: seq<byte>, data: seq<byte>): (r: (seq<seq<byte>>, seq<byte>))
    requires |buf| <= MTU
    ensures |r.1| <= MTU
    ensures data == [] ==> r == ([], buf)
    decreases |data|
  {
    if data == [] then ([], buf)
    else
      var n := |data| - 1;
      var (sent, b) := WriteAll(buf, data[..n]);
      if |b| == MTU then (sent + [b], [data[n]]) else (sent, b + [data[n]])
  }

  /** Successive writes behave like one write of all the bytes. */
  lemma {:induction false} WritesCompose(buf: seq<byte>, x: seq<byte>, y: seq<byte>)
    requires |buf| <= MTU
    ensures var (s0, b0) := WriteAll(buf, x);
            WriteAll(buf, x + y) == (s0 + WriteAll(b0, y).0, WriteAll(b0, y).1)
    decreases |y|
  {
    if y == [] {
      assert x + y == x;
      assert WriteAll(buf, x).0 + [] == WriteAll(buf, x).0;
    } else {
      var n := |y| - 1;
      WritesCompose(buf, x, y[..n]);
      assert (x + y)[..|x + y| - 1] == x + y[..n];
      var (s0, b0) := WriteAll(buf, x);
      var (s1, b1) := WriteAll(b0, y[..n]);
      assert (s0 + s1) + [b1] == s0 + (s1 + [b1]);
    }
  }

  /** The intended cutting: full datagrams of MTU bytes, then the remainder. */
  function Chunks(data: seq<byte>): (r: seq<seq<byte>>)
    ensures r != []
  {
    if |data| <= MTU then [data] else [data[..MTU]] + Chunks(data[MTU..])
  }

  lemma {:induction false} ChunksSnoc(data: seq<byte>, c: byte)
    ensures var r, k := Chunks(data), |Chunks(data)| - 1;
            Chunks(data + [c]) == if |r[k]| == MTU then r + [[c]] else r[..k] + [r[k] + [c]]
    decreases |data|
  {
    if |data| > MTU {
      ChunksSnoc(data[MTU..], c);
      assert (data + [c])[..MTU] == data[..MTU];
      assert (data + [c])[MTU..] == data[MTU..] + [c];
    } else if |data| == MTU {
      assert (data + [c])[..MTU] == data;
      assert (data + [c])[MTU..] == [c];
    }
  }

  /** One session that starts with an empty buffer and ends with endPacket sends
      exactly the intended datagrams. */
  lemma {:induction false} SessionSendsChunks(data: seq<byte>)
    ensures WriteAll([], data).0 + [WriteAll([], data).1] == Chunks(data)
    decreases |data|
  {
    if data != [] {
      var n := |data| - 1;
      SessionSendsChunks(data[..n]);
      ChunksSnoc(data[..n], data[n]);
      assert data == data[..n] + [data[n]];
    }
  }

  /** What the intended cutting is worth: the datagrams concatenate to the data,
      all but the last are full, and there are (n - 1) / 1460 full early ones. */
  lemma {:induction false} ChunksAreExact(data: seq<byte>)
    ensures Flatten(Chunks(data)) == data
    ensures |Chunks(data)| - 1 == if data == [] then 0 else (|data| - 1) / 1460
    ensures forall i :: 0 <= i < |Chunks(data)| - 1 ==> |Chunks(data)[i]| == 1460
    ensures data != [] ==> 1 <= |Chunks(data)[|Chunks(data)| - 1]| <= 1460
    decreases |data|
  {
    if |data| > MTU {
      ChunksAreExact(data[MTU..]);
      assert data == data[..MTU] + data[MTU..];
      assert Chunks(data)[1..] == Chunks(data[MTU..]);
    } else {
      assert [data][1..] == [];
    }
  }

  /** The datagrams one by one: number `i` carries the bytes from 1460 * i on. */
  lemma {:induction false} ChunkAt(data: seq<byte>, i: nat)
    requires i < |Chunks(data)|
    ensures 1460 * i <= |data|
    ensures Chunks(data)[i] == if 1460 * (i + 1) <= |data| then data[1460 * i..1460 * (i + 1)] else data[1460 * i..]
    decreases i
  {
    if |data| > MTU && i > 0 {
      ChunkAt(data[MTU..], i - 1);
    }
  }

  /** The whole session, for any split of the data over the calls to write. */
  function WriteSession(buf: seq<byte>, writes: seq<seq<byte>>): (r: (seq<seq<byte>>, seq<byte>))
    requires |buf| <= MTU
    ensures |r.1| <= MTU
    decreases |writes|
  {
    if writes == [] then ([], buf)
    else
      var (s0, b0) := WriteAll(buf, writes[0]);
      var (s1, b1) := WriteSession(b0, writes[1..]);
      (s0 + s1, b1)
  }

  lemma {:induction false} SessionIsOneWrite(buf: seq<byte>, writes: seq<seq<byte>>)
    requires |buf| <= MTU
    ensures WriteSession(buf, writes) == WriteAll(buf, Flatten(writes))
    decreases |writes|
  {
    if writes != [] {
      var b0 := WriteAll(buf, writes[0]).1;
      SessionIsOneWrite(b0, writes[1..]);
      WritesCompose(buf, writes[0], Flatten(writes[1..]));
    }
  }

  /** Packetisation of a session: however the bytes are spread over the writes,
      the datagrams sent are the intended ones and carry exactly those bytes. */
  lemma {:induction false} Packetisation(writes: seq<seq<byte>>)
    ensures var (sent, rest) := WriteSession([], writes);
            && sent + [rest] == Chunks(Flatten(writes))
            && Flatten(sent + [rest]) == Flatten(writes)
            && |sent| == (if |Flatten(writes)| == 0 then 0 else (|Flatten(writes)| - 1) / 1460)
            && (forall i :: 0 <= i < |sent| ==> |sent[i]| == 1460)
            && |rest| <= 1460
  {
    var data := Flatten(writes);
    SessionIsOneWrite([], writes);
    SessionSendsChunks(data);
    ChunksAreExact(data);
    var (sent, rest) := WriteSession([], writes);
    forall i | 0 <= i < |sent| ensures |sent[i]| == MTU {
      assert sent[i] == Chunks(data)[i];
    }
  }

  /** Whatever the buffer held at first, no byte is lost or moved. */
  lemma {:induction false} NothingLost(buf: seq<byte>, data: seq<byte>)
    requires |buf| <= MTU
    ensures var (sent, rest) := WriteAll(buf, data); Flatten(sent) + rest == buf + data
    decreases |data|
  {
    if data == [] {
      assert buf + data == buf;
    } else {
      var n := |data| - 1;
      NothingLost(buf, data[..n]);
      var (sent, b) := WriteAll(buf, data[..n]);
      FlattenSnoc(sent, b);
      assert buf + data == (buf + data[..n]) + [data[n]];
    }
  }

  /** What fits the buffer only waits in it. */
  lemma {:induction false} ShortWrite(buf: seq<byte>, data: seq<byte>)
    requires |buf| + |data| <= MTU
    ensures WriteAll(buf, data) == ([], buf + data)
    decreases |data|
  {
    if data == [] {
      assert buf + data == buf;
    } else {
      var n := |data| - 1;
      ShortWrite(buf, data[..n]);
      assert buf + data == (buf + data[..n]) + [data[n]];
    }
  }

  lemma {:induction false} EarlyOnesAreFull(buf: seq<byte>, data: seq<byte>)
    requires |buf| <= MTU
    ensures forall i :: 0 <= i < |WriteAll(buf, data).0| ==> |WriteAll(buf, data).0[i]| == 1460
    ensures |WriteAll(buf, data).1| <= 1460
    decreases |data|
  {
    if data != [] {
      EarlyOnesAreFull(buf, data[..|data| - 1]);
    }
  }

  lemma {:induction false} LastIsNotEmpty(buf: seq<byte>, data: seq<byte>)
    requires 0 < |buf| <= MTU
    ensures WriteAll(buf, data).1 != []
  {
  }

  /** Behind a transmit buffer that is not empty, a short message never goes out as
      it is: the first datagram is full, or holds the old bytes too. */
  lemma {:induction false} MessageSpoilt(buf: seq<byte>, data: seq<byte>)
    requires 0 < |buf| <= MTU && |data| < MTU
    ensures var w := WriteAll(buf, data); (w.0 + [w.1])[0] != data
  {
    if |buf| + |data| <= MTU {
      ShortWrite(buf, data);
    } else {
      NothingLost(buf, data);
      EarlyOnesAreFull(buf, data);
      assert WriteAll(buf, data).0 != [];
    }
  }

  /** The datagrams as they go out: all to one address. */
  function Stamp(parts: seq<seq<byte>>, ip: nat, to: port): (r: seq<Datagram>)
    ensures |r| == |parts|
  {
    seq(|parts|, i requires 0 <= i < |parts| => Datagram(parts[i], ip, to))
  }

  lemma {:induction false} StampAppend(x: seq<seq<byte>>, y: seq<seq<byte>>, ip: nat, to: port)
    ensures Stamp(x + y, ip, to) == Stamp(x, ip, to) + Stamp(y, ip, to)
  {
  }

  /** The intended datagrams as they go out. */
  lemma {:induction false} StampedChunks(data: seq<byte>, ip: nat, to: port)
    ensures var s := Stamp(Chunks(data), ip, to);
            && |s| == (if data == [] then 1 else (|data| - 1) / 1460 + 1)
            && forall i :: 0 <= i < |s| ==>
                 && 1460 * i <= |data|
                 && s[i] == Datagram(if 1460 * (i + 1) <= |data| then data[1460 * i..1460 * (i + 1)]
                                     else data[1460 * i..], ip, to)
  {
    hide Chunks;
    ChunksAreExact(data);
    forall i | 0 <= i < |Chunks(data)|
      ensures 1460 * i <= |data|
      ensures Chunks(data)[i] == if 1460 * (i + 1) <= |data| then data[1460 * i..1460 * (i + 1)] else data[1460 * i..]
    {
      ChunkAt(data, i);
    }
  }

  lemma {:induction false} StampSnoc(x: seq<seq<byte>>, last: seq<byte>, ip: nat, to: port)
    ensures Stamp(x + [last], ip, to) == Stamp(x, ip, to) + [Datagram(last, ip, to)]
  {
  }

  /** The state of an open session: after the bytes `written` on top of `base`,
      this is in the transmit buffer and this has been sent. */
  ghost predicate InSession(base: seq<byte>, written: seq<byte>, ip: nat, to: port,
                            log: seq<Datagram>, tx: seq<byte>, outgoing: seq<Datagram>)
    requires |base| <= MTU
  {
    && tx == WriteAll(base, written).1
    && outgoing == log + Stamp(WriteAll(base, written).0, ip, to)
  }

  lemma {:induction false} SessionOpens(base: seq<byte>, ip: nat, to: port, log: seq<Datagram>)
    requires |base| <= MTU
    ensures InSession(base, [], ip, to, log, base, log)
  {
    assert Stamp([], ip, to) == [];
  }

  lemma {:induction false} SessionGoesOn(base: seq<byte>, written: seq<byte>, data: seq<byte>, ip: nat, to: port,
                      log: seq<Datagram>, tx: seq<byte>, outgoing: seq<Datagram>)
    requires |base| <= MTU && InSession(base, written, ip, to, log, tx, outgoing)
    ensures |tx| <= MTU
    ensures InSession(base, written + data, ip, to, log, WriteAll(tx, data).1,
                      outgoing + Stamp(WriteAll(tx, data).0, ip, to))
  {
    WritesCompose(base, written, data);
    StampAppend(WriteAll(base, written).0, WriteAll(tx, data).0, ip, to);
  }

  /** A session that ended: the data went out on top of `base`. */
  ghost predicate SessionSent(base: seq<byte>, data: seq<byte>, ip: nat, to: port,
                              log: seq<Datagram>, tx: seq<byte>, outgoing: seq<Datagram>)
    requires |base| <= MTU
  {
    && tx == WriteAll(base, data).1
    && outgoing == log + Stamp(WriteAll(base, data).0, ip, to) + [Datagram(tx, ip, to)]
  }

  /** On an empty base those are the intended datagrams. */
  lemma {:induction false} SentChunks(data: seq<byte>, ip: nat, to: port,
                                      log: seq<Datagram>, tx: seq<byte>, outgoing: seq<Datagram>)
    requires SessionSent([], data, ip, to, log, tx, outgoing)
    ensures outgoing == log + Stamp(Chunks(data), ip, to)
  {
    var sent := WriteAll([], data).0;
    SessionSendsChunks(data);
    StampAppend(sent, [tx], ip, to);
    assert Stamp([tx], ip, to) == [Datagram(tx, ip, to)];
    assert log + (Stamp(sent, ip, to) + Stamp([tx], ip, to)) == (log + Stamp(sent, ip, to)) + Stamp([tx], ip, to);
  }

  /** What fits behind the base goes out in one datagram with it. */
  lemma {:induction false} SentAtOnce(base: seq<byte>, data: seq<byte>, ip: nat, to: port,
                                      log: seq<Datagram>, tx: seq<byte>, outgoing: seq<Datagram>)
    requires |base| + |data| <= 1460 && SessionSent(base, data, ip, to, log, tx, outgoing)
    ensures outgoing == log + [Datagram(base + data, ip, to)] && tx == base + data
  {
    ShortWrite(base, data);
    assert Stamp([], ip, to) == [];
  }

  /** Said without the cutting: datagram `i` carries the bytes from 1460 * i on. */
  lemma {:induction false} SentAsMeant(data: seq<byte>, ip: nat, to: port,
                                       log: seq<Datagram>, tx: seq<byte>, outgoing: seq<Datagram>)
    requires SessionSent([], data, ip, to, log, tx, outgoing)
    ensures log <= outgoing
    ensures var sent := outgoing[|log|..];
            && |sent| == (if data == [] then 1 else (|data| - 1) / 1460 + 1)
            && forall i :: 0 <= i < |sent| ==>
                 && 1460 * i <= |data|
                 && sent[i] == Datagram(if 1460 * (i + 1) <= |data| then data[1460 * i..1460 * (i + 1)]
                                        else data[1460 * i..], ip, to)
  {
    hide WriteAll, Stamp, Chunks;
    SentChunks(data, ip, to, log, tx, outgoing);
    StampedChunks(data, ip, to);
    assert outgoing[|log|..] == Stamp(Chunks(data), ip, to);
  }
}

/** What the receive side of the socket hands to its caller, over any run. */
module Framing {
  import opened Bytes
  import Fifo

  datatype Op =
    | Parse(arrival: Option<seq<byte>>)  // parsePacket, and what recvfrom had for it
    | Read(size: nat)                    // read(), or read(buffer, size)
    | Flush

  /** One accepted datagram: its payload, the part of it that was read, and
      whether the rest was thrown away. */
  datatype Frame = Frame(payload: seq<byte>, delivered: seq<byte>, flushed: bool)

  datatype State = State(queue: seq<byte>, frames: seq<Frame>)

  /** parsePacket asks the network only when the last datagram is used up. */
  function QueueAfterParse(queue: seq<byte>, arrival: Option<seq<byte>>): seq<byte> {
    if queue == [] && arrival.Some? then arrival.value else queue
  }

  /** The unread bytes after a call, and the bytes the call gives. */
  function QueueAfter(queue: seq<byte>, op: Op): seq<byte> {
    match op
    case Parse(arrival) => QueueAfterParse(queue, arrival)
    case Read(size) => Fifo.Rest(queue, size)
    case Flush => []
  }

  function Given(queue: seq<byte>, op: Op): seq<byte> {
    if op.Read? then Fifo.Front(queue, op.size) else []
  }

  /** The payload that a call makes the current one, if any. */
  function Accepted(queue: seq<byte>, op: Op): seq<seq<byte>> {
    if op.Parse? && queue == [] && QueueAfter(queue, op) != [] then [QueueAfter(queue, op)] else []
  }

  function FramesAfter(s: State, op: Op): seq<Frame>
    requires s.queue != [] ==> s.frames != []
  {
    if s.queue == [] then
      if Accepted(s.queue, op) == [] then s.frames else s.frames + [Frame(QueueAfter(s.queue, op), [], false)]
    else
      var k := |s.frames| - 1;
      var f := s.frames[k];
      match op
      case Parse(_) => s.frames
      case Read(size) => s.frames[k := f.(delivered := f.delivered + Given(s.queue, op))]
      case Flush => s.frames[k := f.(flushed := true)]
  }

  function Step(s: State, op: Op): (s': State)
    requires s.queue != [] ==> s.frames != []
    ensures s'.queue == QueueAfter(s.queue, op)
  {
    State(QueueAfter(s.queue, op), FramesAfter(s, op))
  }

  /** A finished frame: all of it was read, or a proper prefix and then a flush. */
  predicate Closed(f: Frame) {
    if f.flushed then |f.delivered| < |f.payload| && f.delivered == f.payload[..|f.delivered|]
    else f.delivered == f.payload
  }

  predicate Inv(s: State) {
    && (s.queue != [] ==> s.frames != [])
    && (forall i :: 0 <= i < |s.frames| - 1 ==> Closed(s.frames[i]))
    && (forall i :: 0 <= i < |s.frames| ==> s.frames[i].payload != [])
    && (s.frames != [] ==>
          var f := s.frames[|s.frames| - 1];
          if s.queue == [] then Closed(f)
          else !f.flushed && f.payload == f.delivered + s.queue)
  }

  /** In full: no payload is empty; of every frame but the one being read, all was
      delivered, or a proper prefix and the rest was flushed; and of that one, what is
      not delivered is the queue. */
  lemma {:induction false} InvMeans(s: State)
    requires Inv(s)
    ensures forall i :: 0 <= i < |s.frames| ==>
              var f := s.frames[i];
              && f.payload != []
              && if i == |s.frames| - 1 && s.queue != [] then !f.flushed && f.delivered + s.queue == f.payload
                 else if f.flushed then f.delivered < f.payload
                 else f.delivered == f.payload
    ensures s.frames == [] ==> s.queue == []
  {
    forall i | 0 <= i < |s.frames| && !(i == |s.frames| - 1 && s.queue != []) ensures Closed(s.frames[i]) {
    }
  }

  function Delivered(frames: seq<Frame>): seq<seq<byte>> {
    seq(|frames|, i requires 0 <= i < |frames| => frames[i].delivered)
  }

  lemma {:induction false} DeliveredInto(frames: seq<Frame>, more: seq<byte>)
    requires frames != []
    ensures var k := |frames| - 1;
            var f := frames[k].(delivered := frames[k].delivered + more);
            Flatten(Delivered(frames[k := f])) == Flatten(Delivered(frames)) + more
  {
    var k := |frames| - 1;
    var f := frames[k].(delivered := frames[k].delivered + more);
    var init := Delivered(frames[..k]);
    assert Delivered(frames) == init + [frames[k].delivered];
    assert Delivered(frames[k := f]) == init + [f.delivered];
    FlattenSnoc(init, frames[k].delivered);
    FlattenSnoc(init, f.delivered);
  }

  function Payloads(frames: seq<Frame>): (r: seq<seq<byte>>)
    ensures |r| == |frames|
  {
    seq(|frames|, i requires 0 <= i < |frames| => frames[i].payload)
  }

  lemma {:induction false} ReadKeepsInv(s: State, size: nat)
    requires Inv(s) && s.queue != []
    ensures Inv(Step(s, Read(size)))
  {
    Fifo.Split(s.queue, size);
    var k := |s.frames| - 1;
    var f, front, rest := s.frames[k], Fifo.Front(s.queue, size), Fifo.Rest(s.queue, size);
    assert f.payload == (f.delivered + front) + rest;
  }

  lemma {:induction false} StepKeepsInv(s: State, op: Op)
    requires Inv(s)
    ensures Inv(Step(s, op))
  {
    if op.Read? && s.queue != [] {
      ReadKeepsInv(s, op.size);
    }
  }

  /** What a call gives is added to what was delivered, and a payload is added to
      the payloads exactly when it is accepted. */
  lemma {:induction false} StepAccounts(s: State, op: Op)
    requires Inv(s)
    ensures Flatten(Delivered(Step(s, op).frames)) == Flatten(Delivered(s.frames)) + Given(s.queue, op)
    ensures Payloads(Step(s, op).frames) == Payloads(s.frames) + Accepted(s.queue, op)
  {
    hide Flatten;
    var frames := Step(s, op).frames;
    if s.queue == [] {
      if Accepted(s.queue, op) != [] {
        assert Delivered(frames) == Delivered(s.frames) + [[]];
        FlattenSnoc(Delivered(s.frames), []);
      }
    } else if op.Read? {
      DeliveredInto(s.frames, Given(s.queue, op));
    } else {
      assert Delivered(frames) == Delivered(s.frames);
    }
  }

  function Run(s: State, ops: seq<Op>): (s': State)
    requires Inv(s)
    ensures Inv(s')
    decreases |ops|
  {
    if ops == [] then s
    else
      StepKeepsInv(s, ops[0]);
      Run(Step(s, ops[0]), ops[1..])
  }

  function Outputs(s: State, ops: seq<Op>): seq<byte>
    requires Inv(s)
    decreases |ops|
  {
    if ops == [] then []
    else
      StepKeepsInv(s, ops[0]);
      Given(s.queue, ops[0]) + Outputs(Step(s, ops[0]), ops[1..])
  }

  function AllAccepted(s: State, ops: seq<Op>): seq<seq<byte>>
    requires Inv(s)
    decreases |ops|
  {
    if ops == [] then []
    else
      StepKeepsInv(s, ops[0]);
      Accepted(s.queue, ops[0]) + AllAccepted(Step(s, ops[0]), ops[1..])
  }

  lemma {:induction false} RunSnoc(s: State, ops: seq<Op>, op: Op)
    requires Inv(s)
    ensures Run(s, ops + [op]) == Step(Run(s, ops), op)
    ensures Outputs(s, ops + [op]) == Outputs(s, ops) + Given(Run(s, ops).queue, op)
    decreases |ops|
  {
    hide Given, QueueAfter, FramesAfter;
    if ops == [] {
      StepKeepsInv(s, op);
      assert [] + [op] == [op] && [op][1..] == [];
    } else {
      StepKeepsInv(s, ops[0]);
      RunSnoc(Step(s, ops[0]), ops[1..], op);
      assert (ops + [op])[1..] == ops[1..] + [op];
    }
  }

  /** Receive framing over every run. The frames are the accepted arrivals, in
      order; the bytes read are, frame by frame, the payload of one of them, or a
      prefix of it when the rest was flushed. So the bytes of two datagrams never
      mix, and no frame is ever empty. */
  lemma {:induction false} RunFrames(s: State, ops: seq<Op>)
    requires Inv(s)
    ensures Inv(Run(s, ops))
    ensures Payloads(Run(s, ops).frames) == Payloads(s.frames) + AllAccepted(s, ops)
    ensures Flatten(Delivered(Run(s, ops).frames)) == Flatten(Delivered(s.frames)) + Outputs(s, ops)
    decreases |ops|
  {
    hide Given, Accepted, QueueAfter, FramesAfter, Delivered, Payloads, Flatten;
    if ops != [] {
      StepKeepsInv(s, ops[0]);
      StepAccounts(s, ops[0]);
      var s1 := Step(s, ops[0]);
      RunFrames(s1, ops[1..]);
      assert (Flatten(Delivered(s.frames)) + Given(s.queue, ops[0])) + Outputs(s1, ops[1..])
          == Flatten(Delivered(s.frames)) + Outputs(s, ops);
      assert (Payloads(s.frames) + Accepted(s.queue, ops[0])) + AllAccepted(s1, ops[1..])
          == Payloads(s.frames) + AllAccepted(s, ops);
    }
  }

  predicate Unflushed(frames: seq<Frame>) {
    forall i :: 0 <= i < |frames| ==> !frames[i].flushed
  }

  lemma {:induction false} StepUnflushed(s: State, op: Op)
    requires Inv(s) && Unflushed(s.frames) && !op.Flush?
    ensures Unflushed(Step(s, op).frames)
  {
  }

  lemma {:induction false} RunUnflushed(s: State, ops: seq<Op>)
    requires Inv(s) && Unflushed(s.frames) && forall i :: 0 <= i < |ops| ==> !ops[i].Flush?
    ensures Unflushed(Run(s, ops).frames)
    decreases |ops|
  {
    hide QueueAfter, Given, Accepted, FramesAfter;
    if ops != [] {
      StepKeepsInv(s, ops[0]);
      assert !ops[0].Flush?;
      StepUnflushed(s, ops[0]);
      RunUnflushed(Step(s, ops[0]), ops[1..]);
    }
  }

  /** Without a flush nothing that arrived is lost: what was delivered and what is
      still queued are the payloads, one after the other. */
  lemma {:induction false} NothingThrownAway(s: State)
    requires Inv(s) && Unflushed(s.frames)
    ensures Flatten(Delivered(s.frames)) + s.queue == Flatten(Payloads(s.frames))
  {
    hide Flatten;
    var frames := s.frames;
    if frames == [] {
      assert Delivered(frames) == [] == Payloads(frames);
      FlattenNothing();
    } else {
      var n := |frames| - 1;
      var last := frames[n];
      var init := Delivered(frames[..n]);
      forall i | 0 <= i < n ensures frames[i].delivered == frames[i].payload {
        assert Closed(frames[i]);
      }
      assert Delivered(frames) == init + [last.delivered];
      assert Payloads(frames) == init + [last.payload];
      FlattenSnoc(init, last.delivered);
      FlattenSnoc(init, last.payload);
      assert last.payload == last.delivered + s.queue;
    }
  }
}

/** The class WiFiUDP. */
module Udp {
  import opened Bytes
  import opened Network
  import opened CircularBuffer
  import Fifo
  import Framing
  import Packetiser

  class WiFiUDP {
    const net: Net
    var udpServer: int
    var serverPort: port
    var remoteIp: nat
    var remotePort: port
    var tx: array?<byte>
    var txLen: nat
    var rx: Cbuf?

    ghost predicate Valid()
      reads this, tx, rx, if rx == null then {} else {rx.buf}
    {
      && (tx == null ==> txLen == 0)
      && (tx != null ==> tx.Length == Packetiser.MTU)
      && txLen <= Packetiser.MTU
      && (rx != null ==> rx.Valid() && rx.buf != tx && rx.Contents() != [])
    }

    ghost function TxBytes(): (s: seq<byte>)
      requires Valid()
      reads this, tx, rx, if rx == null then {} else {rx.buf}
      ensures |s| <= Packetiser.MTU
    {
      if tx == null then [] else tx[..txLen]
    }

    /** The unread rest of the datagram taken by the last parsePacket. */
    ghost function Queue(): seq<byte>
      requires Valid()
      reads this, tx, rx, if rx == null then {} else {rx.buf}
    {
      if rx == null then [] else rx.Contents()
    }

    constructor (net: Net)
      ensures Valid() && this.net == net && rx == null && tx == null && udpServer == -1
    {
      this.net := net;
      udpServer := -1;
      serverPort := 0;
      remoteIp := 0;
      remotePort := 0;
      tx := null;
      txLen := 0;
      rx := null;
    }

    method Stop()
      modifies this`tx, this`txLen, this`rx, this`udpServer
      ensures Valid() && Queue() == [] && TxBytes() == [] && udpServer == -1 && rx == null && tx == null
    {
      tx := null;
      txLen := 0;
      rx := null;
      udpServer := -1;
    }

    /** Opens and binds the socket: three calls, each made only if the one before
        succeeded. */
    method Begin(p: port) returns (ok: int)
      modifies this`tx, this`txLen, this`rx, this`udpServer, this`serverPort, net`results
      ensures Valid() && Queue() == [] && TxBytes() == [] && rx == null && serverPort == p
      ensures ok == 1 ==> udpServer != -1 && tx != null && fresh(tx)
      ensures ok == 0 ==> udpServer == -1
      ensures var n, r := |old(net.results)|, net.results;
              && old(net.results) <= r
              && (ok == 1 ==> |r| == n + 3 && r[n] != -1 && r[n + 1] >= 0 && r[n + 2] != -1 && udpServer == r[n])
              && (ok == 0 || ok == 1)
              && (ok == 0 ==>
                    || (|r| == n + 1 && r[n] == -1)
                    || (|r| == n + 2 && r[n + 1] < 0)
                    || (|r| == n + 3 && r[n + 2] == -1))
    {
      Stop();
      serverPort := p;
      tx := new byte[Packetiser.MTU];
      assert tx[..0] == [];
      udpServer := net.SocketCall();
      if udpServer == -1 {
        return 0;
      }
      var option := net.SocketCall();
      if option < 0 {
        Stop();
        return 0;
      }
      var bound := net.SocketCall();
      if bound == -1 {
        Stop();
        return 0;
      }
      return 1;
    }

    /** Starts a datagram. Without a remote port it gives up before it empties
        the transmit buffer. */
    method BeginPacket() returns (ok: int)
      requires Valid()
      modifies this`tx, this`txLen, this`udpServer, net`results
      ensures Valid() && Queue() == old(Queue())
      ensures net.results ==
              old(net.results) + if remotePort != 0 && old(udpServer) == -1 then [udpServer] else []
      ensures remotePort == 0 ==>
                ok == 0 && TxBytes() == old(TxBytes()) && tx == old(tx) && udpServer == old(udpServer)
      ensures remotePort != 0 ==>
                && TxBytes() == [] && tx != null
                && (tx == old(tx) || (old(tx) == null && fresh(tx)))
                && (old(udpServer) != -1 ==> ok == 1 && udpServer == old(udpServer))
                && (ok == 1 <==> udpServer != -1) && (ok == 0 || ok == 1)
    {
      if remotePort == 0 {
        return 0;
      }
      if tx == null {
        tx := new byte[Packetiser.MTU];
      }
      txLen := 0;
      if udpServer != -1 {
        return 1;
      }
      udpServer := net.SocketCall();
      if udpServer == -1 {
        return 0;
      }
      return 1;
    }

    method BeginPacketTo(ip: nat, p: port) returns (ok: int)
      requires Valid()
      modifies this`tx, this`txLen, this`udpServer, this`remoteIp, this`remotePort, net`results
      ensures Valid() && Queue() == old(Queue())
      ensures remoteIp == ip && remotePort == p
      ensures p == 0 ==>
                ok == 0 && TxBytes() == old(TxBytes()) && tx == old(tx) && udpServer == old(udpServer)
      ensures p != 0 ==>
                && TxBytes() == [] && tx != null
                && (tx == old(tx) || (old(tx) == null && fresh(tx)))
                && (old(udpServer) != -1 ==> ok == 1 && udpServer == old(udpServer))
                && (ok == 1 <==> udpServer != -1) && (ok == 0 || ok == 1)
    {
      remoteIp := ip;
      remotePort := p;
      ok := BeginPacket();
    }

    /** Sends what is in the transmit buffer, and leaves it there. */
    method EndPacket() returns (ok: int)
      requires Valid()
      modifies net`outgoing, net`results
      ensures net.outgoing == old(net.outgoing) + [Datagram(TxBytes(), remoteIp, remotePort)]
      ensures |net.results| == |old(net.results)| + 1
      ensures ok == if net.results[|net.results| - 1] < 0 then 0 else 1
    {
      var sent := net.SendTo(if tx == null then [] else tx[..txLen], remoteIp, remotePort);
      if sent < 0 {
        return 0;
      }
      return 1;
    }

    method Write(data: byte) returns (n: nat)
      requires Valid() && tx != null
      modifies this`txLen, tx, net`outgoing, net`results
      ensures Valid() && Queue() == old(Queue()) && n == 1
      ensures var r := Packetiser.WriteAll(old(TxBytes()), [data]);
              && TxBytes() == r.1
              && net.outgoing == old(net.outgoing) + Packetiser.Stamp(r.0, remoteIp, remotePort)
    {
      assert [data][..0] == [];
      if txLen == Packetiser.MTU {
        var _ := EndPacket();
        txLen := 0;
      }
      tx[txLen] := data;
      txLen := txLen + 1;
      return 1;
    }

    method WriteBuffer(buffer: seq<byte>) returns (n: nat)
      requires Valid() && tx != null
      modifies this`txLen, tx, net`outgoing, net`results
      ensures Valid() && Queue() == old(Queue()) && n == |buffer|
      ensures var r := Packetiser.WriteAll(old(TxBytes()), buffer);
              && TxBytes() == r.1
              && net.outgoing == old(net.outgoing) + Packetiser.Stamp(r.0, remoteIp, remotePort)
    {
      ghost var start := TxBytes();
      n := 0;
      while n < |buffer|
        invariant n <= |buffer|
        invariant Valid() && Queue() == old(Queue())
        invariant TxBytes() == Packetiser.WriteAll(start, buffer[..n]).1
        invariant net.outgoing == old(net.outgoing) +
                  Packetiser.Stamp(Packetiser.WriteAll(start, buffer[..n]).0, remoteIp, remotePort)
      {
        ghost var before := Packetiser.WriteAll(start, buffer[..n]);
        assert buffer[..n + 1] == buffer[..n] + [buffer[n]];
        Packetiser.WritesCompose(start, buffer[..n], [buffer[n]]);
        Packetiser.StampAppend(before.0, Packetiser.WriteAll(before.1, [buffer[n]]).0, remoteIp, remotePort);
        var _ := Write(buffer[n]);
        n := n + 1;
      }
      assert buffer[..n] == buffer;
    }

    /** A new buffer of the size of the data, with the data written into it. */
    static method Holding(data: seq<byte>) returns (b: Cbuf)
      requires 0 < |data| <= Packetiser.MTU
      ensures fresh(b) && fresh(b.buf) && b.Valid() && b.Contents() == data
    {
      hide Ring;
      b := new Cbuf(|data|);
      var _ := b.WriteBulk(data);
    }

    /** Takes the next datagram off the network, unless one is still being read. */
    method ParsePacket() returns (len: int)
      requires Valid()
      modifies this`rx, this`remoteIp, this`remotePort, net`incoming, net`receives, net`results
      ensures Valid() && TxBytes() == old(TxBytes())
      ensures rx == old(rx) || (rx != null && fresh(rx) && fresh(rx.buf))
      ensures old(rx) != null ==> len == 0 && rx == old(rx) && net.receives == old(net.receives)
      ensures old(rx) == null ==> net.receives == old(net.receives) + [net.incoming != old(net.incoming)]
      ensures net.incoming == old(net.incoming) ==>
                && len <= 0 && rx == old(rx) && Queue() == old(Queue())
                && (old(rx) == null ==>
                      && |net.results| == |old(net.results)| + 1
                      && len == if net.results[|net.results| - 1] == -1 then 0 else net.results[|net.results| - 1])
                && (len == 0 ==> remoteIp == old(remoteIp) && remotePort == old(remotePort))
      ensures net.incoming != old(net.incoming) ==>
                && old(rx) == null && old(net.incoming) != [] && net.incoming == old(net.incoming)[1..]
                && var d := old(net.incoming)[0];
                   && remoteIp == d.ip && remotePort == d.port
                   && Queue() == (if |d.data| <= 1460 then d.data else d.data[..1460])
                   && len == |Queue()|
    {
      hide Ring;
      if rx != null {
        return 0;
      }
      var data, ip, p;
      len, data, ip, p := net.RecvFrom(Packetiser.MTU);
      if len == -1 {
        return 0;
      }
      remoteIp := ip;
      remotePort := p;
      if len > 0 {
        rx := Holding(data);
      }
    }

    method Available() returns (n: nat)
      requires Valid()
      ensures n == |Queue()|
    {
      if rx == null {
        return 0;
      }
      return rx.Available();
    }

    method Read() returns (c: int)
      requires Valid()
      modifies this`rx, rx
      ensures Valid() && TxBytes() == old(TxBytes())
      ensures rx == old(rx) || rx == null
      ensures c == if old(Queue()) == [] then -1 else old(Queue())[0]
      ensures Queue() == if old(Queue()) == [] then [] else old(Queue())[1..]
    {
      hide Ring;
      if rx == null {
        return -1;
      }
      c := rx.Read();
      if rx.Available() == 0 {
        rx := null;
      }
    }

    method ReadBuffer(dst: array<byte>, n: nat) returns (count: nat)
      requires Valid() && dst != tx && (rx != null ==> dst != rx.buf)
      requires n <= dst.Length || |Queue()| <= dst.Length
      modifies this`rx, rx, dst
      ensures Valid() && TxBytes() == old(TxBytes())
      ensures rx == old(rx) || rx == null
      ensures count == if n < |old(Queue())| then n else |old(Queue())|
      ensures dst[..] == old(Queue())[..count] + old(dst[count..])
      ensures Queue() == old(Queue())[count..]
    {
      hide Ring;
      if rx == null {
        assert dst[..] == [] + dst[0..];
        return 0;
      }
      count := rx.ReadBulk(dst, 0, n);
      assert old(dst[..0]) == [];
      if rx.Available() == 0 {
        rx := null;
      }
    }

    method Peek() returns (c: int)
      requires Valid()
      ensures c == if Queue() == [] then -1 else Queue()[0]
    {
      if rx == null {
        return -1;
      }
      c := rx.Peek();
    }

    method Flush()
      requires Valid()
      modifies this`rx
      ensures Valid() && Queue() == [] && TxBytes() == old(TxBytes())
    {
      if rx == null {
        return;
      }
      rx := null;
    }
  }

  method MakeSession(udp: WiFiUDP, ip: nat, to: port, writes: seq<seq<byte>>)
    requires udp.Valid() && (to == 0 ==> udp.tx != null)
    modifies udp`tx, udp`txLen, udp`udpServer, udp`remoteIp, udp`remotePort, udp.tx, udp.net`outgoing, udp.net`results
    ensures udp.Valid() && udp.Queue() == old(udp.Queue())
    ensures udp.tx != null && (udp.tx == old(udp.tx) || (old(udp.tx) == null && fresh(udp.tx)))
    ensures Packetiser.SessionSent(if to == 0 then old(udp.TxBytes()) else [], Flatten(writes), ip, to,
                                   old(udp.net.outgoing), udp.TxBytes(), udp.net.outgoing)
  {
    hide Packetiser.WriteAll, Packetiser.Stamp, Packetiser.Chunks, Flatten, Ring;
    ghost var base, log := if to == 0 then udp.TxBytes() else [], udp.net.outgoing;
    var _ := udp.BeginPacketTo(ip, to);
    Packetiser.SessionOpens(base, ip, to, log);
    assert writes[..0] == [];
    FlattenNothing();
    for i := 0 to |writes|
      invariant udp.Valid() && udp.tx != null && (udp.tx == old(udp.tx) || (old(udp.tx) == null && fresh(udp.tx)))
      invariant udp.remoteIp == ip && udp.remotePort == to
      invariant udp.Queue() == old(udp.Queue())
      invariant Packetiser.InSession(base, Flatten(writes[..i]), ip, to, log, udp.TxBytes(), udp.net.outgoing)
    {
      Packetiser.SessionGoesOn(base, Flatten(writes[..i]), writes[i], ip, to, log, udp.TxBytes(), udp.net.outgoing);
      FlattenSnoc(writes[..i], writes[i]);
      assert writes[..i + 1] == writes[..i] + [writes[i]];
      var _ := udp.WriteBuffer(writes[i]);
    }
    assert writes[..|writes|] == writes;
    var _ := udp.EndPacket();
  }

  /** A whole session: begin, any number of writes, end. For a remote port the
      datagrams that go out are the written bytes in the intended cutting; without
      one, they go out behind what the transmit buffer held. */
  method SendSession(udp: WiFiUDP, ip: nat, to: port, writes: seq<seq<byte>>)
    requires udp.Valid() && (to == 0 ==> udp.tx != null)
    modifies udp`tx, udp`txLen, udp`udpServer, udp`remoteIp, udp`remotePort, udp.tx, udp.net`outgoing, udp.net`results
    ensures udp.Valid() && udp.Queue() == old(udp.Queue())
    ensures udp.tx != null && (udp.tx == old(udp.tx) || (old(udp.tx) == null && fresh(udp.tx)))
    ensures to != 0 ==>
              && old(udp.net.outgoing) <= udp.net.outgoing
              && var data, sent := Flatten(writes), udp.net.outgoing[|old(udp.net.outgoing)|..];
                 && |sent| == (if data == [] then 1 else (|data| - 1) / 1460 + 1)
                 && forall i :: 0 <= i < |sent| ==>
                      && 1460 * i <= |data|
                      && sent[i] == Datagram(if 1460 * (i + 1) <= |data| then data[1460 * i..1460 * (i + 1)]
                                             else data[1460 * i..], ip, to)
    ensures to == 0 && |old(udp.TxBytes())| + |Flatten(writes)| <= 1460 ==>
              udp.net.outgoing == old(udp.net.outgoing) + [Datagram(old(udp.TxBytes()) + Flatten(writes), ip, 0)]
    ensures Packetiser.SessionSent(if to == 0 then old(udp.TxBytes()) else [], Flatten(writes), ip, to,
                                   old(udp.net.outgoing), udp.TxBytes(), udp.net.outgoing)
  {
    hide Packetiser.SessionSent, Packetiser.InSession, Flatten;
    ghost var base, data := if to == 0 then udp.TxBytes() else [], Flatten(writes);
    ghost var log := udp.net.outgoing;
    MakeSession(udp, ip, to, writes);
    if |base| + |data| <= 1460 {
      Packetiser.SentAtOnce(base, data, ip, to, log, udp.TxBytes(), udp.net.outgoing);
    }
    if to != 0 {
      Packetiser.SentAsMeant(data, ip, to, log, udp.TxBytes(), udp.net.outgoing);
    }
  }

  /** What a sketch may call to receive. */
  datatype Call = ParsePacket | ReadByte | ReadBuffer(n: nat) | FlushRest

  /** What such a call is in the receive model, given whether parsePacket took the
      datagram that waited first. */
  ghost function OpOf(call: Call, waiting: seq<Datagram>, took: bool): Framing.Op
    requires took ==> waiting != []
  {
    match call
    case ParsePacket => Framing.Parse(if took then Some(Packetiser.Cut(waiting[0].data)) else None)
    case ReadByte => Framing.Read(1)
    case ReadBuffer(n) => Framing.Read(n)
    case FlushRest => Framing.Flush
  }

  predicate Does(call: Call, op: Framing.Op) {
    match call
    case ParsePacket => op.Parse?
    case ReadByte => op == Framing.Read(1)
    case ReadBuffer(n) => op == Framing.Read(n)
    case FlushRest => op.Flush?
  }

  method ReadOut(udp: WiFiUDP, n: nat) returns (got: seq<byte>)
    requires udp.Valid()
    modifies udp`rx, udp.rx
    ensures udp.Valid() && (udp.rx == old(udp.rx) || udp.rx == null)
    ensures udp.Queue() == Fifo.Rest(old(udp.Queue()), n) && got == Fifo.Front(old(udp.Queue()), n)
  {
    hide Ring;
    var available := udp.Available();
    var dst := new byte[if n < available then n else available];
    var count := udp.ReadBuffer(dst, n);
    got := dst[..];
  }

  /** One such call does what the receive model says, with the datagram that the
      network really gave: parsePacket takes at most the first one that waits, and
      no other call takes any. */
  method Receive(udp: WiFiUDP, call: Call) returns (got: seq<byte>, ghost took: bool)
    requires udp.Valid()
    modifies udp, udp.net`incoming, udp.net`receives, udp.net`results, udp.rx
    ensures udp.Valid() && (udp.rx == old(udp.rx) || udp.rx == null || fresh(udp.rx))
    ensures took ==> call.ParsePacket? && old(udp.Queue()) == [] && old(udp.net.incoming) != []
    ensures udp.net.incoming == if took then old(udp.net.incoming)[1..] else old(udp.net.incoming)
    ensures udp.net.receives ==
            old(udp.net.receives) + if call.ParsePacket? && old(udp.Queue()) == [] then [took] else []
    ensures udp.Queue() == Framing.QueueAfter(old(udp.Queue()), OpOf(call, old(udp.net.incoming), took))
    ensures got == Framing.Given(old(udp.Queue()), OpOf(call, old(udp.net.incoming), took))
  {
    hide Ring, Packetiser.Cut;
    got, took := [], false;
    match call
    case ParsePacket =>
      ghost var waiting := udp.net.incoming;
      if waiting != [] {
        Packetiser.CutIs(waiting[0].data);
      }
      var _ := udp.ParsePacket();
      took := udp.net.incoming != waiting;
    case ReadByte =>
      var c := udp.Read();
      if c >= 0 {
        got := [c];
      }
    case ReadBuffer(n) =>
      got := ReadOut(udp, n);
    case FlushRest =>
      udp.Flush();
  }

  /** The payloads that these datagrams bring: an empty one brings none. */
  ghost function PayloadsOf(arrived: seq<Datagram>): seq<seq<byte>> {
    if arrived == [] then []
    else
      var n := |arrived| - 1;
      PayloadsOf(arrived[..n]) + if arrived[n].data == [] then [] else [Packetiser.Cut(arrived[n].data)]
  }

  lemma {:induction false} NoPayloads()
    ensures PayloadsOf([]) == []
  {
  }

  lemma {:induction false} PayloadsSnoc(arrived: seq<Datagram>)
    requires arrived != []
    ensures var n := |arrived| - 1;
            var d := arrived[n].data;
            PayloadsOf(arrived) ==
            PayloadsOf(arrived[..n]) + if d == [] then [] else [if |d| <= 1460 then d else d[..1460]]
  {
    hide Packetiser.Cut;
    Packetiser.CutIs(arrived[|arrived| - 1].data);
  }

  /** Said without it: payload `k` is that of datagram `from[k]`, and exactly the
      datagrams that are not empty bring one, in the order of their arrival. */
  lemma {:induction false} PayloadsAre(arrived: seq<Datagram>) returns (from: seq<nat>)
    ensures |from| == |PayloadsOf(arrived)|
    ensures forall k :: 0 <= k < |from| ==> from[k] < |arrived|
    ensures forall k, l :: 0 <= k < l < |from| ==> from[k] < from[l]
    ensures forall j: nat :: j < |arrived| ==> (j in from <==> arrived[j].data != [])
    ensures forall k :: 0 <= k < |from| ==>
              var d := arrived[from[k]].data;
              PayloadsOf(arrived)[k] == if |d| <= 1460 then d else d[..1460]
    decreases |arrived|
  {
    hide PayloadsOf;
    if arrived == [] {
      NoPayloads();
      return [];
    }
    PayloadsSnoc(arrived);
    var n := |arrived| - 1;
    var before := arrived[..n];
    var init := PayloadsAre(before);
    assert forall j: nat :: j < n ==> before[j] == arrived[j];
    if arrived[n].data == [] {
      assert n !in init;
      return init;
    }
    OneMoreIndex(init, n);
    from := init + [n];
  }

  lemma {:induction false} NoneFlushes(calls: seq<Call>, ops: seq<Framing.Op>)
    requires |ops| == |calls| && forall i :: 0 <= i < |calls| ==> Does(calls[i], ops[i])
    requires FlushRest !in calls
    ensures forall i :: 0 <= i < |ops| ==> !ops[i].Flush?
  {
    forall i | 0 <= i < |ops| ensures !ops[i].Flush? {
      assert Does(calls[i], ops[i]) && calls[i] in calls;
    }
  }

  /** The payloads added to an account, frame by frame, and what they are worth
      when nothing was flushed. */
  lemma {:induction false} NewFrames(before: Framing.State, after: Framing.State, arrived: seq<Datagram>)
    returns (from: seq<nat>)
    requires Framing.Inv(after)
    requires Framing.Payloads(after.frames) == Framing.Payloads(before.frames) + PayloadsOf(arrived)
    ensures |after.frames| == |before.frames| + |from|
    ensures forall k :: 0 <= k < |from| ==> from[k] < |arrived|
    ensures forall k, l :: 0 <= k < l < |from| ==> from[k] < from[l]
    ensures forall j: nat :: j < |arrived| ==> (j in from <==> arrived[j].data != [])
    ensures forall k :: 0 <= k < |from| ==>
              var d := arrived[from[k]].data;
              after.frames[|before.frames| + k].payload == if |d| <= 1460 then d else d[..1460]
  {
    hide PayloadsOf;
    from := PayloadsAre(arrived);
    var n := |before.frames|;
    forall k | 0 <= k < |from| ensures after.frames[n + k].payload == PayloadsOf(arrived)[k] {
      assert Framing.Payloads(after.frames)[n + k] == PayloadsOf(arrived)[k];
    }
  }

  lemma {:induction false} OneMoreTaken(arrived: seq<Datagram>, taken: nat, queue: seq<byte>, call: Call, took: bool)
    requires taken < |arrived| || !took
    requires taken <= |arrived| && (took ==> call.ParsePacket? && queue == [])
    ensures var op := OpOf(call, arrived[taken..], took);
            PayloadsOf(arrived[..if took then taken + 1 else taken]) ==
            PayloadsOf(arrived[..taken]) + Framing.Accepted(queue, op)
  {
    if took {
      assert arrived[..taken + 1][..taken] == arrived[..taken];
    }
  }

  lemma {:induction false} DoesOp(call: Call, waiting: seq<Datagram>, took: bool)
    requires took ==> waiting != []
    ensures Does(call, OpOf(call, waiting, took))
  {
  }

  lemma {:induction false} Accounts(now: Framing.State, op: Framing.Op, s: Framing.State,
                                    taken: seq<Datagram>, got: seq<byte>)
    requires Framing.Inv(now)
    requires Framing.Payloads(now.frames) == Framing.Payloads(s.frames) + PayloadsOf(taken)
    requires Flatten(Framing.Delivered(now.frames)) == Flatten(Framing.Delivered(s.frames)) + got
    ensures now.queue != [] ==> now.frames != []
    ensures var next := Framing.Step(now, op);
            && Framing.Inv(next)
            && Framing.Payloads(next.frames) ==
               Framing.Payloads(s.frames) + (PayloadsOf(taken) + Framing.Accepted(now.queue, op))
            && Flatten(Framing.Delivered(next.frames)) ==
               Flatten(Framing.Delivered(s.frames)) + (got + Framing.Given(now.queue, op))
  {
    hide Framing.Payloads, Framing.Delivered, Flatten, PayloadsOf, Framing.FramesAfter;
    Framing.StepKeepsInv(now, op);
    Framing.StepAccounts(now, op);
  }

  lemma {:induction false} AllOfIt(s: Framing.State, ops: seq<Framing.Op>, got: seq<byte>)
    requires Framing.Inv(s) && s.frames == [] && forall i :: 0 <= i < |ops| ==> !ops[i].Flush?
    requires Flatten(Framing.Delivered(Framing.Run(s, ops).frames)) == Flatten(Framing.Delivered(s.frames)) + got
    ensures got + Framing.Run(s, ops).queue == Flatten(Framing.Payloads(Framing.Run(s, ops).frames))
  {
    hide Flatten;
    Framing.RunUnflushed(s, ops);
    Framing.NothingThrownAway(Framing.Run(s, ops));
    assert Framing.Delivered(s.frames) == [];
    FlattenNothing();
    assert [] + got == got;
  }

  /** Any number of them: the datagrams taken are the first that arrived, the new
      frames are exactly those of them that are not empty, in order, each frame was
      read whole or up to a flush, and the bytes given are those of the frames.
      Without a flush they are all the bytes that arrived, but for those unread. */
  method ReceiveAll(udp: WiFiUDP, calls: seq<Call>, ghost s: Framing.State)
    returns (got: seq<byte>, ghost ops: seq<Framing.Op>, ghost taken: nat, ghost from: seq<nat>)
    requires udp.Valid() && Framing.Inv(s) && s.queue == udp.Queue()
    modifies udp, udp.net`incoming, udp.net`receives, udp.net`results, udp.rx
    ensures udp.Valid() && |ops| == |calls| && forall i :: 0 <= i < |calls| ==> Does(calls[i], ops[i])
    ensures Framing.Run(s, ops).queue == udp.Queue() && got == Framing.Outputs(s, ops)
    ensures taken <= |old(udp.net.incoming)| && udp.net.incoming == old(udp.net.incoming)[taken..]
    ensures var frames, came := Framing.Run(s, ops).frames, old(udp.net.incoming)[..taken];
            && |frames| == |s.frames| + |from|
            && (forall k :: 0 <= k < |from| ==> from[k] < taken)
            && (forall k, l :: 0 <= k < l < |from| ==> from[k] < from[l])
            && (forall j: nat :: j < taken ==> (j in from <==> came[j].data != []))
            && (forall k :: 0 <= k < |from| ==>
                  var d := came[from[k]].data;
                  frames[|s.frames| + k].payload == if |d| <= 1460 then d else d[..1460])
    ensures Flatten(Framing.Delivered(Framing.Run(s, ops).frames)) == Flatten(Framing.Delivered(s.frames)) + got
    ensures s.frames == [] && FlushRest !in calls ==>
              got + udp.Queue() == Flatten(Framing.Payloads(Framing.Run(s, ops).frames))
  {
    hide Framing.Inv, Framing.QueueAfter, Framing.Given, Framing.FramesAfter, Framing.Accepted,
      Framing.Delivered, Framing.Payloads, PayloadsOf, OpOf, Does, Flatten, Framing.Unflushed;
    got, ops, taken, from := [], [], 0, [];
    ghost var s' := s;
    ghost var arrived := udp.net.incoming;
    assert arrived[..0] == [];
    NoPayloads();
    for i := 0 to |calls|
      invariant udp.Valid() && (udp.rx == old(udp.rx) || udp.rx == null || fresh(udp.rx))
      invariant |ops| == i && forall k :: 0 <= k < i ==> Does(calls[k], ops[k])
      invariant s' == Framing.Run(s, ops) && s'.queue == udp.Queue() && got == Framing.Outputs(s, ops)
      invariant taken <= |arrived| && udp.net.incoming == arrived[taken..]
      invariant Framing.Payloads(s'.frames) == Framing.Payloads(s.frames) + PayloadsOf(arrived[..taken])
      invariant Flatten(Framing.Delivered(s'.frames)) == Flatten(Framing.Delivered(s.frames)) + got
    {
      var more, took := Receive(udp, calls[i]);
      ghost var op := OpOf(calls[i], arrived[taken..], took);
      Accounts(s', op, s, arrived[..taken], got);
      OneMoreTaken(arrived, taken, s'.queue, calls[i], took);
      Framing.RunSnoc(s, ops, op);
      DoesOp(calls[i], arrived[taken..], took);
      s', ops := Framing.Step(s', op), ops + [op];
      got := got + more;
      if took {
        taken := taken + 1;
      }
    }
    from := NewFrames(s, s', arrived[..taken]);
    if s.frames == [] && FlushRest !in calls {
      NoneFlushes(calls, ops);
      AllOfIt(s, ops, got);
    }
  }
}
