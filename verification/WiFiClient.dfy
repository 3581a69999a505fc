/** The receive buffer of a TCP client, refilled from the socket on demand. */
module RxBuffer {
  import opened Bytes

  /** Which bytes a call took off the socket and which it handed on, in order. */
  datatype Event =
    | Read(asked: nat, result: int, delivered: seq<byte>, received: seq<byte>)
    | Look(received: seq<byte>)                          // peek, available
    | Flushed(dropped: seq<byte>, received: seq<byte>)

  /** Bytes buffered at first and bytes received since are bytes handed out and
      bytes still buffered. */
  ghost predicate Balanced(base: seq<byte>, since: seq<byte>, out: seq<byte>, pending: seq<byte>) {
    base + since == out + pending
  }

  lemma {:induction false} BalancedStart(base: seq<byte>)
    ensures Balanced(base, [], [], base)
  {
  }

  lemma {:induction false} BalancedMeans(base: seq<byte>, since: seq<byte>, out: seq<byte>, pending: seq<byte>)
    ensures Balanced(base, since, out, pending) ==> base + since == out + pending
    ensures base + [] == [] + base
  {
  }

  lemma {:induction false} BalancedFill(base: seq<byte>, since: seq<byte>, out: seq<byte>,
                                        pending: seq<byte>, got: seq<byte>)
    requires Balanced(base, since, out, pending)
    ensures Balanced(base, since + got, out, pending + got)
  {
    assert base + (since + got) == (base + since) + got;
    assert out + (pending + got) == (out + pending) + got;
  }

  lemma {:induction false} BalancedTake(base: seq<byte>, since: seq<byte>, out: seq<byte>, pending: seq<byte>, n: nat)
    requires Balanced(base, since, out, pending) && n <= |pending|
    ensures Balanced(base, since, out + pending[..n], pending[n..])
  {
    assert (out + pending[..n]) + pending[n..] == out + (pending[..n] + pending[n..]);
    assert pending[..n] + pending[n..] == pending;
  }

  /** What one call may do to the buffered bytes. */
  ghost predicate Step(pending: seq<byte>, e: Event, pending': seq<byte>) {
    match e
    case Read(asked, result, delivered, received) =>
      && Balanced(pending, received, delivered, pending')
      && |delivered| == (if result < 0 then 0 else result)
      && -1 <= result <= asked
      && (0 <= result < asked ==> |pending'| <= |received| && |pending'| < asked - result)
    case Look(received) => pending' == pending + received
    case Flushed(dropped, received) => dropped == pending + received && pending' == []
  }

  function Received(e: Event): seq<byte> { e.received }

  /** The bytes an event took out of the buffer. */
  function Taken(e: Event): seq<byte> {
    match e
    case Read(_, _, delivered, _) => delivered
    case Look(_) => []
    case Flushed(dropped, _) => dropped
  }

  function AllReceived(events: seq<Event>): seq<byte> {
    if events == [] then [] else Received(events[0]) + AllReceived(events[1..])
  }

  function AllTaken(events: seq<Event>): seq<byte> {
    if events == [] then [] else Taken(events[0]) + AllTaken(events[1..])
  }

  ghost predicate IsRun(states: seq<seq<byte>>, events: seq<Event>) {
    && |states| == |events| + 1
    && forall i :: 0 <= i < |events| ==> Step(states[i], events[i], states[i + 1])
  }

  /** Stream conservation over every run and every behaviour of the socket: what
      was taken out, followed by what is still buffered, is what came in. */
  lemma {:induction false} RunConserves(states: seq<seq<byte>>, events: seq<Event>)
    requires IsRun(states, events)
    ensures states[0] + AllReceived(events) == AllTaken(events) + states[|events|]
    decreases |events|
  {
    if events != [] {
      var e := events[0];
      assert Step(states[0], e, states[1]);
      assert states[0] + Received(e) == Taken(e) + states[1];
      RunConserves(states[1..], events[1..]);
      Chain(states[0], Received(e), Taken(e), states[1],
            AllReceived(events[1..]), AllTaken(events[1..]), states[|events|]);
    }
  }

  predicate NoFlush(events: seq<Event>) {
    forall i :: 0 <= i < |events| ==> !events[i].Flushed?
  }

  /** The bytes an event gave to the reader. */
  function Delivered(e: Event): seq<byte> { if e.Read? then e.delivered else [] }

  function AllDelivered(events: seq<Event>): seq<byte> {
    if events == [] then [] else Delivered(events[0]) + AllDelivered(events[1..])
  }

  lemma {:induction false} DeliveredIsTaken(events: seq<Event>)
    requires NoFlush(events)
    ensures AllDelivered(events) == AllTaken(events)
    decreases |events|
  {
    if events != [] {
      assert !events[0].Flushed?;
      DeliveredIsTaken(events[1..]);
    }
  }

  /** Without a flush the reader sees exactly what was buffered and then the
      received stream, in order, up to what is still buffered. */
  lemma {:induction false} DeliveredIsPrefix(states: seq<seq<byte>>, events: seq<Event>)
    requires IsRun(states, events) && NoFlush(events)
    ensures states[0] + AllReceived(events) == AllDelivered(events) + states[|events|]
  {
    RunConserves(states, events);
    DeliveredIsTaken(events);
  }

  /** What the allocator and the socket answered. */
  datatype Answer =
    | Allocated(ok: bool)
    | Asked(res: int, count: nat)                      // FIONREAD
    | Received(cap: nat, res: int, wouldBlock: bool)   // recv, asked for `cap` bytes

  /** The answers that mark the buffer as failed. */
  predicate Fault(a: Answer) {
    match a
    case Allocated(ok) => !ok
    case Asked(res, _) => res < 0
    case Received(_, res, wouldBlock) => res < 0 && !wouldBlock
  }

  ghost predicate Faulted(answers: seq<Answer>) {
    exists a :: a in answers && Fault(a)
  }

  lemma {:induction false} FaultedSnoc(answers: seq<Answer>, a: Answer)
    ensures Faulted(answers + [a]) <==> Faulted(answers) || Fault(a)
  {
    if Faulted(answers) {
      var b :| b in answers && Fault(b);
      assert b in answers + [a];
    }
    assert a in answers + [a];
  }

  /** The last answer since `before` is one with which no byte can be had now: no
      memory, an error, or nothing there. */
  ghost predicate Barren(before: seq<Answer>, after: seq<Answer>) {
    && |before| < |after|
    && match after[|after| - 1]
       case Allocated(ok) => !ok
       case Asked(res, count) => res < 0 || count == 0
       case Received(_, res, _) => res <= 0
  }

  class WiFiClientRxBuffer {
    const size: nat
    var buffer: array?<byte>
    var pos: nat
    var fill: nat
    const fd: int
    var failed: bool
    ghost var received: seq<byte>  // every byte that recv has returned, written by `Recv` alone
    ghost var refills: seq<nat>    // what each refill brought
    ghost var answers: seq<Answer> // what the allocator and the socket answered

    ghost predicate Valid()
      reads this, buffer
    {
      && pos <= fill <= size
      && (buffer == null ==> fill == 0)
      && (buffer != null ==> buffer.Length == size)
      && (failed <==> Faulted(answers))
    }

    ghost function Pending(): (s: seq<byte>)
      requires Valid()
      reads this, buffer
      ensures |s| == fill - pos
    {
      if buffer == null then [] else buffer[pos..fill]
    }

    constructor (fd: int, size: nat)
      ensures Valid() && Pending() == [] && received == [] && answers == [] && !failed && buffer == null
      ensures this.size == size && this.fd == fd
    {
      this.size := size;
      this.fd := fd;
      buffer := null;
      pos := 0;
      fill := 0;
      failed := false;
      received := [];
      refills := [];
      answers := [];
    }

    /** FIONREAD. */
    method Ioctl() returns (res: int, count: nat)
      modifies this`answers
      ensures answers == old(answers) + [Asked(res, count)]
    {
      res, count := *, *;
      answers := answers + [Asked(res, count)];
    }

    /** An error marks the buffer as failed and counts as nothing waiting. */
    method RAvailable() returns (count: nat)
      requires Valid()
      modifies this`failed, this`answers
      ensures Valid() && Pending() == old(Pending())
      ensures fd < 0 ==> count == 0 && answers == old(answers) && failed == old(failed)
      ensures fd >= 0 ==>
                && |answers| == |old(answers)| + 1 && old(answers) <= answers
                && var a := answers[|old(answers)|];
                   && a.Asked? && count == (if a.res < 0 then 0 else a.count)
                   && failed == (old(failed) || a.res < 0)
    {
      hide Faulted;
      if fd < 0 {
        return 0;
      }
      var res;
      ghost var before := answers;
      res, count := Ioctl();
      FaultedSnoc(before, Asked(res, count));
      if res < 0 {
        failed := true;
        return 0;
      }
    }

    /** recv with MSG_DONTWAIT: an error, or any number of bytes up to `cap`. */
    method Recv(cap: nat) returns (data: seq<byte>, res: int, wouldBlock: bool)
      modifies this`received, this`answers
      ensures received == old(received) + data && answers == old(answers) + [Received(cap, res, wouldBlock)]
      ensures res >= 0 ==> |data| == res <= cap
      ensures res < 0 ==> data == []
    {
      data, wouldBlock := *, *;
      if |data| > cap {
        data := data[..cap];
      }
      res := |data|;
      var error: bool := *;
      if error {
        data, res := [], -1;
      }
      received, answers := received + data, answers + [Received(cap, res, wouldBlock)];
    }

    /** The recv call behind `fill`, for all the space there. */
    method Receive() returns (got: nat)
      requires Valid() && buffer != null && fill < size
      modifies this`fill, this`failed, this`received, this`answers, buffer
      ensures Valid() && old(received) <= received && got == |received| - |old(received)|
      ensures Pending() == old(Pending()) + received[|old(received)|..]
      ensures |answers| == |old(answers)| + 1 && old(answers) <= answers
      ensures var a := answers[|old(answers)|];
              && a.Received? && a.cap == size - old(fill)
              && got == (if a.res < 0 then 0 else a.res)
              && failed == (old(failed) || (a.res < 0 && !a.wouldBlock))
    {
      hide Faulted;
      ghost var before := answers;
      var data, res, wouldBlock := Recv(size - fill);
      FaultedSnoc(before, Received(size - fill, res, wouldBlock));
      if res < 0 {
        if !wouldBlock {
          failed := true;
        }
        return 0;
      }
      ghost var was := buffer[..];
      CopyIn(buffer, fill, data);
      assert buffer[pos..fill + res] == was[pos..fill] + data;
      fill := fill + res;
      return res;
    }

    method Malloc() returns (block: array?<byte>)
      modifies this`answers
      ensures answers == old(answers) + [Allocated(block != null)]
      ensures block != null ==> fresh(block) && block.Length == size
    {
      var outOfMemory: bool := *;
      if outOfMemory {
        block := null;
      } else {
        block := new byte[size];
      }
      answers := answers + [Allocated(block != null)];
    }

    /** The block is allocated on first use, and used from the start again when
        everything in it was handed out: then there is room. */
    method MakeRoom() returns (room: bool)
      requires Valid()
      modifies this`buffer, this`pos, this`fill, this`failed, this`answers
      ensures Valid() && Pending() == old(Pending())
      ensures answers == old(answers) + if old(buffer) == null then [Allocated(buffer != null)] else []
      ensures buffer == old(buffer) || (old(buffer) == null && fresh(buffer))
      ensures room <==> buffer != null && fill < size
      ensures buffer != null && size > 0 && old(pos == fill || fill < size) ==> room
      ensures failed == (old(failed) || buffer == null)
      ensures old(pos < fill) ==> pos == old(pos)
    {
      hide Faulted;
      if buffer == null {
        ghost var before := answers;
        buffer := Malloc();
        FaultedSnoc(before, Allocated(buffer != null));
        if buffer == null {
          failed := true;
          return false;
        }
      }
      if fill != 0 && pos == fill {
        fill := 0;
        pos := 0;
      }
      return fill < size;
    }

    /** recv into the free space behind `fill`; the buffer moves only when it is
        used up. Allocation may fail, and recv may return any count or an error.
        recv is called only after the socket reported something; and if nothing
        comes although there is space, or all was handed out, that is the answer
        of the allocator or the socket. */
    method TryFill() returns (got: nat)
      requires Valid()
      modifies this`buffer, this`pos, this`fill, this`failed, this`received, this`answers, buffer
      ensures Valid() && old(answers) <= answers
      ensures buffer == old(buffer) || (old(buffer) == null && fresh(buffer))
      ensures got > 0 ==> buffer != null
      ensures old(received) <= received && got == |received| - |old(received)|
      ensures Pending() == old(Pending()) + received[|old(received)|..]
      ensures old(pos < fill) ==> pos == old(pos)
      ensures got > 0 ==>
                && |answers| >= |old(answers)| + 2 && answers[|answers| - 1].Received?
                && var a := answers[|answers| - 2]; a.Asked? && a.res >= 0 && a.count > 0
      ensures got == 0 && fd >= 0 && size > 0 && old(pos == fill || fill < size) ==>
                && |old(answers)| < |answers|
                && match answers[|answers| - 1]
                   case Allocated(ok) => !ok
                   case Asked(res, count) => res < 0 || count == 0
                   case Received(_, res, _) => res <= 0
    {
      hide Faulted;
      var room := MakeRoom();
      if !room {
        return 0;
      }
      var count := RAvailable();
      if count == 0 {
        return 0;
      }
      got := Receive();
    }

    /** The same, counted. */
    method FillBuffer() returns (got: nat)
      requires Valid()
      modifies this`buffer, this`pos, this`fill, this`failed, this`received, this`refills, this`answers, buffer
      ensures Valid() && old(answers) <= answers
      ensures buffer == old(buffer) || (old(buffer) == null && fresh(buffer))
      ensures got > 0 ==> buffer != null
      ensures old(received) <= received && got == |received| - |old(received)|
      ensures refills == old(refills) + [got]
      ensures Pending() == old(Pending()) + received[|old(received)|..]
      ensures old(pos < fill) ==> pos == old(pos)
      ensures got > 0 ==>
                && |answers| >= |old(answers)| + 2 && answers[|answers| - 1].Received?
                && var a := answers[|answers| - 2]; a.Asked? && a.res >= 0 && a.count > 0
      ensures got == 0 && fd >= 0 && size > 0 && old(pos == fill || fill < size) ==>
                && |old(answers)| < |answers|
                && match answers[|answers| - 1]
                   case Allocated(ok) => !ok
                   case Asked(res, count) => res < 0 || count == 0
                   case Received(_, res, _) => res <= 0
    {
      hide Faulted;
      got := TryFill();
      refills := refills + [got];
    }

    /** The bytes received since the history was `before`. */
    ghost function Since(before: seq<byte>): seq<byte>
      requires before <= received
      reads this
    {
      received[|before|..]
    }

    /** The last thing that happened was a refill that brought nothing. */
    ghost predicate GaveUp(before: seq<nat>, after: seq<nat>) {
      |before| < |after| && after[|after| - 1] == 0
    }

    /** Hands `n` buffered bytes on to `dst`. */
    method TakeOut(dst: array<byte>, at: nat, n: nat)
      requires Valid() && buffer != null && dst != buffer && n <= fill - pos && at + n <= dst.Length
      modifies this`pos, dst
      ensures Valid() && pos == old(pos) + n
      ensures Pending() == old(Pending())[n..]
      ensures dst[..at + n] == old(dst[..at]) + old(Pending())[..n]
      ensures forall i :: at + n <= i < dst.Length ==> dst[i] == old(dst[i])
    {
      if n == 1 {
        dst[at] := buffer[pos];
      } else {
        Memcpy(dst, at, buffer, pos, n);
      }
      pos := pos + n;
    }

    /** Refills, for a caller that has handed out `out` since the state `base`. */
    method Refill(ghost base: seq<byte>, ghost before: seq<byte>, ghost out: seq<byte>) returns (got: nat)
      requires Valid() && before <= received && Balanced(base, Since(before), out, Pending())
      modifies this`buffer, this`pos, this`fill, this`failed, this`received, this`refills, this`answers, buffer
      ensures Valid() && before <= received && Balanced(base, Since(before), out, Pending())
      ensures buffer == old(buffer) || (old(buffer) == null && fresh(buffer))
      ensures got > 0 ==> buffer != null
      ensures |Since(before)| == old(|Since(before)|) + got && |Pending()| == old(|Pending()|) + got
      ensures got == 0 ==> received == old(received) && Pending() == old(Pending())
      ensures refills == old(refills) + [got] && old(answers) <= answers
      ensures old(pos < fill) ==> pos == old(pos)
      ensures got == 0 && fd >= 0 && size > 0 && old(pos == fill || fill < size) ==> Barren(old(answers), answers)
    {
      ghost var r := received;
      got := FillBuffer();
      BalancedFill(base, r[|before|..], out, old(Pending()), received[|r|..]);
      assert Since(before) == r[|before|..] + received[|r|..];
    }

    /** One pass of the slow loop: refill, and hand on what fits. */
    method MoveMore(dst: array<byte>, at: nat, left: nat, ghost base: seq<byte>, ghost before: seq<byte>)
      returns (moved: nat)
      requires Valid() && buffer != null && dst != buffer && 0 < left && at + left <= dst.Length
      requires before <= received && Balanced(base, Since(before), dst[..at], Pending())
      requires |Pending()| < left && |Pending()| <= |Since(before)| && (pos == fill || fill < size)
      modifies this`buffer, this`pos, this`fill, this`failed, this`received, this`refills, this`answers, buffer, dst
      ensures Valid() && before <= received && buffer == old(buffer)
      ensures moved <= left && Balanced(base, Since(before), dst[..at + moved], Pending())
      ensures 0 < moved < left ==> pos == fill
      ensures moved < left ==> |Pending()| < left - moved && |Pending()| <= |Since(before)|
      ensures |refills| == |old(refills)| + 1 && (moved == 0 ==> GaveUp(old(refills), refills))
      ensures old(answers) <= answers
      ensures moved == 0 && fd >= 0 && size > 0 ==> Barren(old(answers), answers)
      ensures forall i :: at + moved <= i < dst.Length ==> dst[i] == old(dst[i])
    {
      hide Balanced;
      ghost var out := dst[..at];
      var got := Refill(base, before, out);
      assert dst[..at] == out;
      if got == 0 {
        return 0;
      }
      var a := fill - pos;
      moved := if a > left then left else a;
      ghost var p := Pending();
      BalancedTake(base, Since(before), out, p, moved);
      TakeOut(dst, at, moved);
      assert dst[..at + moved] == out + p[..moved];
    }

    /** The slow loop of read, from the state in which `start` bytes are out. */
    method ReadOn(dst: array<byte>, len: nat, start: nat, ghost base: seq<byte>, ghost before: seq<byte>)
      returns (result: nat)
      requires Valid() && buffer != null && dst != buffer && start <= len <= dst.Length
      requires before <= received && Balanced(base, Since(before), dst[..start], Pending())
      requires |Pending()| < len - start && |Pending()| <= |Since(before)| && (pos == fill || fill < size)
      modifies this`buffer, this`pos, this`fill, this`failed, this`received, this`refills, this`answers, buffer, dst
      ensures Valid() && before <= received && buffer == old(buffer)
      ensures start <= result <= len && Balanced(base, Since(before), dst[..result], Pending())
      ensures result < len ==> |Pending()| < len - result && |Pending()| <= |Since(before)|
      ensures |refills| >= |old(refills)| && (result < len ==> GaveUp(old(refills), refills))
      ensures old(answers) <= answers
      ensures result < len && fd >= 0 && size > 0 ==> Barren(old(answers), answers)
      ensures forall i :: result <= i < dst.Length ==> dst[i] == old(dst[i])
    {
      hide Balanced;
      var left, at := len - start, start;
      while left > 0
        invariant Valid() && at == len - left && start <= at <= len && |refills| >= |old(refills)|
        invariant buffer == old(buffer) && before <= received
        invariant Balanced(base, Since(before), dst[..at], Pending())
        invariant forall i :: at <= i < dst.Length ==> dst[i] == old(dst[i])
        invariant left > 0 ==> |Pending()| < left && |Pending()| <= |Since(before)| && (pos == fill || fill < size)
        invariant old(answers) <= answers
        decreases left
      {
        var moved := MoveMore(dst, at, left, base, before);
        if moved == 0 {
          return len - left;
        }
        left := left - moved;
        at := at + moved;
      }
      return len;
    }

    /** The rest of read, once at least one byte is buffered: the fast path, with
        a refill that may fall short, and the slow path after it. */
    method ReadSome(dst: array<byte>, len: nat, ghost base: seq<byte>, ghost before: seq<byte>) returns (result: nat)
      requires Valid() && dst != buffer && 0 < len <= dst.Length && pos < fill
      requires before <= received && Balanced(base, Since(before), [], Pending())
      modifies this`buffer, this`pos, this`fill, this`failed, this`received, this`refills, this`answers, buffer, dst
      ensures Valid() && before <= received && buffer == old(buffer)
      ensures 0 < result <= len && Balanced(base, Since(before), dst[..result], Pending())
      ensures result < len ==> |Pending()| < len - result && |Pending()| <= |Since(before)|
      ensures |refills| >= |old(refills)| && (result < len ==> GaveUp(old(refills), refills))
      ensures old(answers) <= answers
      ensures result < len && fd >= 0 && size > 0 ==> Barren(old(answers), answers)
      ensures forall i :: result <= i < dst.Length ==> dst[i] == old(dst[i])
    {
      hide Balanced;
      var a := fill - pos;
      var fast := len <= a;
      if !fast && len - a <= size - fill {
        var got := Refill(base, before, []);
        fast := got >= len - a;
      }
      ghost var p := Pending();
      if fast {
        BalancedTake(base, Since(before), [], p, len);
        TakeOut(dst, 0, len);
        assert dst[..len] == [] + p[..len];
        return len;
      }
      BalancedTake(base, Since(before), [], p, a);
      TakeOut(dst, 0, a);
      assert dst[..a] == [] + p[..a];
      result := ReadOn(dst, len, a, base, before);
    }

    method Read(dst: array?<byte>, len: nat) returns (result: int)
      requires Valid() && (dst != null ==> dst != buffer && len <= dst.Length)
      modifies this`buffer, this`pos, this`fill, this`failed, this`received, this`refills, this`answers, buffer, dst
      ensures Valid() && old(received) <= received && -1 <= result <= len
      ensures buffer == old(buffer) || (old(buffer) == null && fresh(buffer))
      ensures dst != null ==>
                && Step(old(Pending()),
                        Event.Read(len, result, dst[..if result < 0 then 0 else result], Since(old(received))),
                        Pending())
                && forall i :: 0 <= i < dst.Length && result <= i ==> dst[i] == old(dst[i])
      ensures old(Pending()) + received[|old(received)|..] ==
              (if dst == null || result < 0 then [] else dst[..result]) + Pending()
      ensures result <= 0 ==> result == if failed then -1 else 0
      ensures result <= 0 ==> received == old(received) && Pending() == old(Pending())
      ensures dst != null && len > 0 && old(Pending()) != [] ==> result > 0
      ensures dst != null && 0 < len && result < len ==> GaveUp(old(refills), refills)
      ensures old(answers) <= answers
      ensures dst != null && 0 < len && result < len && fd >= 0 && size > 0 ==> Barren(old(answers), answers)
      ensures dst != null && 0 < len && result < len && fd >= 0 && size > 0 ==>
                && |old(answers)| < |answers|
                && match answers[|answers| - 1]
                   case Allocated(ok) => !ok
                   case Asked(res, count) => res < 0 || count == 0
                   case Received(_, res, _) => res <= 0
    {
      hide Balanced;
      ghost var base, before := Pending(), received;
      BalancedStart(base);
      BalancedMeans(base, [], [], base);
      assert Since(before) == [];
      if dst == null || len == 0 {
        return if failed then -1 else 0;
      }
      if pos == fill {
        var got := Refill(base, before, []);
        if got == 0 {
          return if failed then -1 else 0;
        }
      }
      result := ReadSome(dst, len, base, before);
      BalancedMeans(base, Since(before), dst[..result], Pending());
    }

    method Peek() returns (c: int)
      requires Valid()
      modifies this`buffer, this`pos, this`fill, this`failed, this`received, this`refills, this`answers, buffer
      ensures Valid() && old(received) <= received
      ensures buffer == old(buffer) || (old(buffer) == null && fresh(buffer))
      ensures Step(old(Pending()), Look(Since(old(received))), Pending())
      ensures c == if Pending() == [] then -1 else Pending()[0]
      ensures c == -1 ==> GaveUp(old(refills), refills)
      ensures old(answers) <= answers
      ensures c == -1 && fd >= 0 && size > 0 ==>
                && |old(answers)| < |answers|
                && match answers[|answers| - 1]
                   case Allocated(ok) => !ok
                   case Asked(res, count) => res < 0 || count == 0
                   case Received(_, res, _) => res <= 0
    {
      if pos == fill {
        var got := FillBuffer();
        if got == 0 {
          return -1;
        }
      }
      return buffer[pos];
    }

    method Available() returns (n: nat)
      requires Valid()
      modifies this`failed, this`answers
      ensures Valid() && Pending() == old(Pending()) && old(answers) <= answers
      ensures |answers| == |old(answers)| + if fd < 0 then 0 else 1
      ensures n == |Pending()| + (if fd < 0 then 0 else
                                    var a := answers[|old(answers)|];
                                    if a.Asked? && a.res >= 0 then a.count else 0)
    {
      var waiting := RAvailable();
      return fill - pos + waiting;
    }

    method Flush()
      requires Valid()
      modifies this`buffer, this`pos, this`fill, this`failed, this`received, this`refills, this`answers, buffer
      ensures Valid() && old(received) <= received
      ensures buffer == old(buffer) || (old(buffer) == null && fresh(buffer))
      ensures Step(old(Pending()), Flushed(old(Pending()) + Since(old(received)), Since(old(received))), Pending())
      ensures old(refills) <= refills && old(answers) <= answers && Pending() == []
      ensures |answers| >= |old(answers)| + if fd < 0 then 0 else 1
      ensures |refills| == |old(refills)| + (if fd < 0 then 0 else
                                               var a := answers[|old(answers)|];
                                               if a.Asked? && a.res >= 0 && a.count > 0 then 1 else 0)
    {
      var waiting := RAvailable();
      if waiting > 0 {
        var _ := FillBuffer();
      }
      pos := fill;
    }
  }

  lemma {:induction false} NoEvents()
    ensures AllReceived([]) == AllDelivered([]) == AllTaken([]) == []
  {
  }

  /** What a client may call. */
  datatype Call = ReadBytes(n: nat) | PeekByte | AskAvailable | FlushAll

  /** The event that such a call makes. */
  predicate Makes(call: Call, e: Event) {
    match call
    case ReadBytes(n) => e.Read? && e.asked == n
    case PeekByte => e.Look?
    case AskAvailable => e.Look? && e.received == []
    case FlushAll => e.Flushed?
  }

  lemma {:induction false} LookedAtNothing(pending: seq<byte>)
    ensures Step(pending, Look([]), pending)
  {
  }

  method ReadOut(b: WiFiClientRxBuffer, n: nat) returns (got: seq<byte>, ghost e: Event)
    requires b.Valid()
    modifies b, b.buffer
    ensures b.Valid() && (b.buffer == old(b.buffer) || fresh(b.buffer))
    ensures e.Read? && e.asked == n && e.delivered == got
    ensures Step(old(b.Pending()), e, b.Pending()) && b.received == old(b.received) + e.received
  {
    hide Step, Faulted, Balanced, Barren;
    ghost var before := b.received;
    var dst := new byte[n];
    var result := b.Read(dst, n);
    got := dst[..if result < 0 then 0 else result];
    e := Event.Read(n, result, got, b.Since(before));
  }

  /** One call on the buffer is one step, with what recv really returned during it
      and what really ended up in the reader's block. */
  method Perform(b: WiFiClientRxBuffer, call: Call) returns (got: seq<byte>, ghost e: Event)
    requires b.Valid()
    modifies b, b.buffer
    ensures b.Valid() && (b.buffer == old(b.buffer) || fresh(b.buffer))
    ensures Makes(call, e) && Step(old(b.Pending()), e, b.Pending())
    ensures b.received == old(b.received) + e.received
    ensures got == Delivered(e)
  {
    hide Step, Faulted, Balanced, Barren, WiFiClientRxBuffer.Valid, WiFiClientRxBuffer.Pending;
    ghost var before, pending := b.received, b.Pending();
    got := [];
    match call
    case ReadBytes(n) =>
      got, e := ReadOut(b, n);
    case PeekByte =>
      var _ := b.Peek();
      e := Look(b.Since(before));
    case AskAvailable =>
      var _ := b.Available();
      e := Look([]);
      LookedAtNothing(pending);
    case FlushAll =>
      b.Flush();
      e := Flushed(pending + b.Since(before), b.Since(before));
  }

  lemma {:induction false} RunCons(first: seq<byte>, e: Event, states: seq<seq<byte>>, events: seq<Event>)
    requires IsRun(states, events) && Step(first, e, states[0])
    ensures IsRun([first] + states, [e] + events)
  {
    hide Step;
    var ss, es := [first] + states, [e] + events;
    forall i | 0 <= i < |es| ensures Step(ss[i], es[i], ss[i + 1]) {
      if i > 0 {
        assert Step(states[i - 1], events[i - 1], states[i]);
      }
    }
  }

  lemma {:induction false} EventsCons(e: Event, events: seq<Event>)
    ensures AllReceived([e] + events) == e.received + AllReceived(events)
    ensures AllDelivered([e] + events) == Delivered(e) + AllDelivered(events)
  {
    assert ([e] + events)[1..] == events;
  }

  lemma {:induction false} NothingFlushed(calls: seq<Call>, events: seq<Event>)
    requires |events| == |calls| && forall i :: 0 <= i < |calls| ==> Makes(calls[i], events[i])
    requires FlushAll !in calls
    ensures NoFlush(events)
  {
    forall i | 0 <= i < |events| ensures !events[i].Flushed? {
      assert Makes(calls[i], events[i]) && calls[i] in calls;
    }
  }

  ghost predicate AllMade(calls: seq<Call>, events: seq<Event>) {
    |events| == |calls| && forall i :: 0 <= i < |calls| ==> Makes(calls[i], events[i])
  }

  lemma {:induction false} MadeCons(calls: seq<Call>, e: Event, events: seq<Event>)
    requires calls != [] && Makes(calls[0], e) && AllMade(calls[1..], events)
    ensures AllMade(calls, [e] + events)
  {
    hide Makes;
    var es := [e] + events;
    forall i | 0 <= i < |calls| ensures Makes(calls[i], es[i]) {
      if i > 0 {
        assert calls[1..][i - 1] == calls[i];
      }
    }
  }

  lemma {:induction false} MadeNone()
    ensures AllMade([], [])
  {
  }

  method PerformEach(b: WiFiClientRxBuffer, calls: seq<Call>)
    returns (got: seq<byte>, ghost states: seq<seq<byte>>, ghost events: seq<Event>)
    requires b.Valid()
    modifies b, b.buffer
    ensures b.Valid() && (b.buffer == old(b.buffer) || fresh(b.buffer))
    ensures AllMade(calls, events)
    ensures IsRun(states, events) && states[0] == old(b.Pending()) && states[|events|] == b.Pending()
    ensures b.received == old(b.received) + AllReceived(events) && got == AllDelivered(events)
    decreases |calls|
  {
    hide Step, AllReceived, AllDelivered, Makes, Faulted, AllMade, Delivered,
      WiFiClientRxBuffer.Valid, WiFiClientRxBuffer.Pending;
    if calls == [] {
      NoEvents();
      MadeNone();
      return [], [b.Pending()], [];
    }
    ghost var pending, received := b.Pending(), b.received;
    var first, e := Perform(b, calls[0]);
    var rest, ss, es := PerformEach(b, calls[1..]);
    RunCons(pending, e, ss, es);
    EventsCons(e, es);
    MadeCons(calls, e, es);
    got, states, events := first + rest, [pending] + ss, [e] + es;
    assert (received + e.received) + AllReceived(es) == received + (e.received + AllReceived(es));
  }

  lemma {:induction false} RunMeans(calls: seq<Call>, states: seq<seq<byte>>, events: seq<Event>)
    requires |events| == |calls| && (forall i :: 0 <= i < |calls| ==> Makes(calls[i], events[i]))
    requires IsRun(states, events)
    ensures states[0] + AllReceived(events) == AllTaken(events) + states[|events|]
    ensures FlushAll !in calls ==> states[0] + AllReceived(events) == AllDelivered(events) + states[|events|]
  {
    hide Step, AllReceived, AllDelivered, AllTaken, NoFlush, Makes;
    RunConserves(states, events);
    if FlushAll !in calls {
      NothingFlushed(calls, events);
      DeliveredIsPrefix(states, events);
    }
  }

  /** Any list of calls is a run: the bytes that recv returned during it are those of
      the events, the reader got the bytes delivered, and so stream conservation
      holds of the real buffer. Without a flush, the reader's bytes followed by
      what is buffered are what was buffered followed by what recv returned. */
  method PerformAll(b: WiFiClientRxBuffer, calls: seq<Call>)
    returns (got: seq<byte>, ghost states: seq<seq<byte>>, ghost events: seq<Event>)
    requires b.Valid()
    modifies b, b.buffer
    ensures b.Valid() && (b.buffer == old(b.buffer) || fresh(b.buffer))
    ensures |events| == |calls| && forall i :: 0 <= i < |calls| ==> Makes(calls[i], events[i])
    ensures IsRun(states, events) && states[0] == old(b.Pending()) && states[|events|] == b.Pending()
    ensures b.received == old(b.received) + AllReceived(events) && got == AllDelivered(events)
    ensures old(b.Pending()) + AllReceived(events) == AllTaken(events) + b.Pending()
    ensures FlushAll !in calls ==>
              old(b.received) <= b.received
              && old(b.Pending()) + b.received[|old(b.received)|..] == got + b.Pending()
  {
    hide Step, AllReceived, AllDelivered, AllTaken, Makes, Faulted;
    got, states, events := PerformEach(b, calls);
    RunMeans(calls, states, events);
  }
}

/** What one pass of the sending loop can meet, and what a list of passes means. */
module SendTrace {
  import opened Bytes

  const MAX_RETRY: nat := 10

  /** One pass: what select returned and whether the socket was ready, and, if so,
      how many bytes were offered to send, what it returned, and whether errno was
      EAGAIN. */
  datatype Attempt = Attempt(selected: int, ready: bool, offered: nat, res: int, again: bool) {
    predicate SelectError() { selected < 0 }
    predicate Tried() { selected >= 0 && ready }
    predicate Accepted() { Tried() && res > 0 }
    predicate Fatal() { Tried() && res < 0 && !again }
    predicate Idle() { selected >= 0 && !Accepted() && !Fatal() }
  }

  function Total(attempts: seq<Attempt>): nat {
    if attempts == [] then 0
    else
      var k := |attempts| - 1;
      Total(attempts[..k]) + if attempts[k].Accepted() then attempts[k].res else 0
  }

  /** The number of consecutive passes without progress at the end. */
  function TrailingIdle(attempts: seq<Attempt>): (r: nat)
    ensures r <= |attempts|
  {
    if attempts == [] || !attempts[|attempts| - 1].Idle() then 0
    else 1 + TrailingIdle(attempts[..|attempts| - 1])
  }

  function Progress(attempts: seq<Attempt>): nat {
    if attempts == [] then 0
    else
      var k := |attempts| - 1;
      Progress(attempts[..k]) + if attempts[k].Accepted() then 1 else 0
  }

  /** The loop has a reason to go on after these passes. */
  ghost predicate MustGoOn(attempts: seq<Attempt>, size: nat) {
    && TrailingIdle(attempts) < MAX_RETRY
    && (attempts != [] ==>
          var last := attempts[|attempts| - 1];
          !last.SelectError() && !last.Fatal() && (last.Accepted() ==> Total(attempts) < size))
  }

  /** Every pass but the last left a reason to go on. */
  ghost predicate GoneOn(attempts: seq<Attempt>, size: nat) {
    forall k :: 0 <= k < |attempts| ==> MustGoOn(attempts[..k], size)
  }

  /** A complete list of passes: it goes on exactly as long as it must. */
  ghost predicate Complete(attempts: seq<Attempt>, size: nat) {
    GoneOn(attempts, size) && !MustGoOn(attempts, size)
  }

  /** The list ended with a select error, or with a fatal send error. */
  predicate SelectFailed(attempts: seq<Attempt>) { attempts != [] && attempts[|attempts| - 1].SelectError() }

  predicate SendFailed(attempts: seq<Attempt>) { attempts != [] && attempts[|attempts| - 1].Fatal() }

  /** Every pass that tries the socket offers all the bytes that are left. */
  ghost predicate OfferRest(attempts: seq<Attempt>, size: nat) {
    forall k :: 0 <= k < |attempts| && attempts[k].selected >= 0 && attempts[k].ready ==>
                  attempts[k].offered == size - Total(attempts[..k])
  }

  lemma {:induction false} BeginPasses(size: nat)
    ensures MustGoOn([], size) && GoneOn([], size) && TrailingIdle([]) == 0 && Total([]) == 0
    ensures !SelectFailed([]) && !SendFailed([]) && OfferRest([], size)
  {
  }

  /** The bytes taken so far and the next ones taken are a longer prefix. */
  lemma {:induction false} Taken(data: seq<byte>, wire: seq<byte>, sent: nat, n: nat)
    requires sent + n <= |data|
    ensures (wire + data[..sent]) + data[sent..][..n] == wire + data[..sent + n]
  {
    assert data[..sent] + data[sent..][..n] == data[..sent + n];
  }

  lemma {:induction false} GoneOnStep(was: seq<Attempt>, a: Attempt, size: nat)
    requires MustGoOn(was, size) && GoneOn(was, size)
    ensures GoneOn(was + [a], size)
  {
    hide MustGoOn;
    var now := was + [a];
    assert was[..|was|] == was;
    forall k | 0 <= k < |now| ensures MustGoOn(now[..k], size) {
      assert now[..k] == was[..k];
    }
  }

  lemma {:induction false} CountsSnoc(was: seq<Attempt>, a: Attempt)
    ensures Total(was + [a]) == Total(was) + (if a.Accepted() then a.res else 0)
    ensures TrailingIdle(was + [a]) == (if a.Idle() then TrailingIdle(was) + 1 else 0)
  {
    var now := was + [a];
    assert now[..|was|] == was && now[|was|] == a;
  }

  /** What one more pass does to the list. */
  lemma {:induction false} Pass(was: seq<Attempt>, a: Attempt, size: nat)
    requires MustGoOn(was, size) && GoneOn(was, size)
    ensures var now := was + [a];
            && GoneOn(now, size)
            && (SelectFailed(now) <==> a.SelectError()) && (SendFailed(now) <==> a.Fatal())
            && Total(now) == Total(was) + (if a.Accepted() then a.res else 0)
            && TrailingIdle(now) == (if a.Idle() then TrailingIdle(was) + 1 else 0)
            && (MustGoOn(now, size) <==>
                  (a.Idle() && TrailingIdle(was) + 1 < MAX_RETRY) || (a.Accepted() && Total(now) < size))
            && (!MustGoOn(now, size) ==> Complete(now, size))
  {
    hide Total, TrailingIdle, GoneOn;
    var now := was + [a];
    CountsSnoc(was, a);
    GoneOnStep(was, a, size);
    assert now[|now| - 1] == a;
  }

  lemma {:induction false} AttemptsBounded(attempts: seq<Attempt>)
    requires forall k :: 0 <= k <= |attempts| ==> TrailingIdle(attempts[..k]) < MAX_RETRY
    requires forall k :: 0 <= k < |attempts| ==> attempts[k].Idle() || attempts[k].Accepted()
    ensures |attempts| - TrailingIdle(attempts) <= MAX_RETRY * Progress(attempts)
    decreases |attempts|
  {
    assert attempts[..|attempts|] == attempts;
    if attempts != [] {
      var n := |attempts| - 1;
      var init := attempts[..n];
      forall k | 0 <= k <= n ensures TrailingIdle(init[..k]) < MAX_RETRY {
        assert init[..k] == attempts[..k];
      }
      AttemptsBounded(init);
    }
  }

  lemma {:induction false} ProgressAtMostTotal(attempts: seq<Attempt>)
    ensures Progress(attempts) <= Total(attempts)
    decreases |attempts|
  {
    if attempts != [] {
      ProgressAtMostTotal(attempts[..|attempts| - 1]);
    }
  }

  lemma {:induction false} TotalBelow(attempts: seq<Attempt>, size: nat)
    requires MustGoOn(attempts, size)
    requires forall k :: 0 <= k < |attempts| ==> MustGoOn(attempts[..k], size)
    ensures Total(attempts) <= size
    decreases |attempts|
  {
    if attempts != [] {
      var n := |attempts| - 1;
      var init := attempts[..n];
      forall k | 0 <= k < n ensures MustGoOn(init[..k], size) {
        assert init[..k] == attempts[..k];
      }
      TotalBelow(init, size);
    }
  }

  /** The loop terminates for every socket: it makes at most ten passes for each
      of the at most `size` steps of progress, and ten more. */
  lemma {:induction false} CompleteIsShort(attempts: seq<Attempt>, size: nat)
    requires Complete(attempts, size)
    ensures |attempts| <= 10 * (size + 1)
  {
    if attempts == [] {
      return;
    }
    var n := |attempts| - 1;
    var init := attempts[..n];
    assert MustGoOn(init, size);
    forall k | 0 <= k <= n ensures TrailingIdle(init[..k]) < MAX_RETRY {
      assert init[..k] == attempts[..k] && MustGoOn(attempts[..k], size);
    }
    forall k | 0 <= k < n ensures init[k].Idle() || init[k].Accepted() {
      assert MustGoOn(attempts[..k + 1], size) && attempts[..k + 1][k] == init[k];
    }
    AttemptsBounded(init);
    ProgressAtMostTotal(init);
    forall k | 0 <= k < n ensures MustGoOn(init[..k], size) {
      assert init[..k] == attempts[..k];
    }
    TotalBelow(init, size);
  }

  /** Why a complete list of passes ended. */
  lemma {:induction false} ReasonToStop(attempts: seq<Attempt>, size: nat)
    requires Complete(attempts, size)
    ensures attempts != []
    ensures || SelectFailed(attempts)
            || SendFailed(attempts)
            || (attempts[|attempts| - 1].Accepted() && Total(attempts) >= size)
            || TrailingIdle(attempts) == MAX_RETRY
  {
    var n := |attempts| - 1;
    if attempts != [] {
      assert MustGoOn(attempts[..n], size);
    }
  }

  lemma {:induction false} LastAreIdle(attempts: seq<Attempt>, n: nat)
    requires n <= TrailingIdle(attempts)
    ensures forall i :: |attempts| - n <= i < |attempts| ==> attempts[i].Idle()
    decreases n
  {
    if n > 0 {
      LastAreIdle(attempts[..|attempts| - 1], n - 1);
    }
  }

  /** A complete list of passes, on what select and send returned. No pass but the
      last met a select error or a send error other than EAGAIN; and the last one
      met one, or took the last byte, or was the tenth in a row to take none. */
  lemma {:induction false} CompleteMeans(attempts: seq<Attempt>, size: nat)
    requires Complete(attempts, size)
    ensures 0 < |attempts| <= 10 * (size + 1)
    ensures var last := attempts[|attempts| - 1];
            && (SelectFailed(attempts) <==> last.selected < 0)
            && (SendFailed(attempts) <==> last.selected >= 0 && last.ready && last.res < 0 && !last.again)
    ensures forall i :: 0 <= i < |attempts| - 1 ==>
              && attempts[i].selected >= 0
              && !(attempts[i].ready && attempts[i].res < 0 && !attempts[i].again)
    ensures var last := attempts[|attempts| - 1];
            || last.selected < 0
            || (last.ready && last.res < 0 && !last.again)
            || (last.ready && last.res > 0 && Total(attempts) >= size)
            || (|attempts| >= 10 && forall i :: |attempts| - 10 <= i < |attempts| ==>
                  attempts[i].selected >= 0 && (!attempts[i].ready || attempts[i].res <= 0))
  {
    hide Total;
    CompleteIsShort(attempts, size);
    ReasonToStop(attempts, size);
    if TrailingIdle(attempts) == MAX_RETRY {
      LastAreIdle(attempts, MAX_RETRY);
    }
    forall i | 0 <= i < |attempts| - 1 ensures !attempts[i].SelectError() && !attempts[i].Fatal() {
      assert MustGoOn(attempts[..i + 1], size) && attempts[..i + 1][i] == attempts[i];
    }
  }

  lemma {:induction false} OfferMore(was: seq<Attempt>, a: Attempt, size: nat)
    requires OfferRest(was, size) && (a.selected >= 0 && a.ready ==> a.offered == size - Total(was))
    ensures OfferRest(was + [a], size)
  {
    hide Total;
    var now := was + [a];
    forall k | 0 <= k < |now| ensures now[..k] == was[..k] {}
    assert was[..|was|] == was;
  }
}

/** The class WiFiClient: the sending loop and the reads on top of the buffer. */
module Client {
  import opened Bytes
  import opened RxBuffer
  import opened SendTrace

  class WiFiClient {
    var rxBuffer: WiFiClientRxBuffer?
    var connected: bool
    var sockfd: int
    ghost var passes: seq<Attempt>  // what the socket did, pass by pass
    ghost var wire: seq<byte>       // what the socket took

    constructor ()
      ensures rxBuffer == null && !connected && sockfd == -1 && passes == [] && wire == []
    {
      rxBuffer := null;
      connected := false;
      sockfd := -1;
      passes := [];
      wire := [];
    }

    method Stop()
      modifies this`rxBuffer, this`connected, this`sockfd
      ensures rxBuffer == null && !connected && sockfd == -1
    {
      sockfd := -1;
      rxBuffer := null;
      connected := false;
    }

    /** select for writing: an error, a timeout, or a socket that is ready. */
    method Select() returns (res: int, ready: bool)
      modifies this`passes
      ensures passes == old(passes) + [Attempt(res, ready, 0, 0, true)]
    {
      res := *;
      ready := *;
      passes := passes + [Attempt(res, ready, 0, 0, true)];
    }

    /** send with MSG_DONTWAIT: an error, or any count up to what was offered. It
        belongs to the pass that the last select began. */
    method Send(offered: seq<byte>) returns (res: int, again: bool)
      requires passes != []
      modifies this`passes, this`wire
      ensures res <= |offered|
      ensures var n := |old(passes)| - 1;
              passes == old(passes)[..n] + [old(passes)[n].(offered := |offered|, res := res, again := again)]
      ensures wire == old(wire) + offered[..if res > 0 then res else 0]
    {
      res := *;
      again := *;
      if res > |offered| {
        res := |offered|;
      }
      var n := |passes| - 1;
      passes := passes[..n] + [passes[n].(offered := |offered|, res := res, again := again)];
      wire := wire + offered[..if res > 0 then res else 0];
    }

    /** Sends as much of `data` as the socket takes. `attempts` are the passes of
        this call. */
    method Write(data: seq<byte>) returns (sent: nat, ghost attempts: seq<Attempt>)
      modifies this
      ensures passes == old(passes) + attempts
      ensures !old(connected) || old(sockfd) < 0 ==>
                sent == 0 && attempts == [] && wire == old(wire)
                && connected == old(connected) && rxBuffer == old(rxBuffer) && sockfd == old(sockfd)
      ensures old(connected) && old(sockfd) >= 0 ==>
                && Complete(attempts, |data|)
                && Total(attempts) <= |data| && wire == old(wire) + data[..Total(attempts)]
                && sent == (if SelectFailed(attempts) then 0 else Total(attempts))
                && (if SendFailed(attempts) then !connected && rxBuffer == null && sockfd == -1
                    else connected && rxBuffer == old(rxBuffer) && sockfd == old(sockfd))
                && (0 < |data| && sent < |data| ==>
                      || SelectFailed(attempts)
                      || SendFailed(attempts)
                      || TrailingIdle(attempts) == MAX_RETRY)
                && OfferRest(attempts, |data|)
      ensures old(connected) && old(sockfd) >= 0 ==>
                && 0 < |attempts| <= 10 * (|data| + 1)
                && (forall i :: 0 <= i < |attempts| - 1 ==>
                      && attempts[i].selected >= 0
                      && !(attempts[i].ready && attempts[i].res < 0 && !attempts[i].again))
                && var last := attempts[|attempts| - 1];
                   && sent == (if last.selected < 0 then 0 else |wire| - |old(wire)|)
                   && (if last.selected >= 0 && last.ready && last.res < 0 && !last.again
                       then !connected && rxBuffer == null && sockfd == -1
                       else connected && rxBuffer == old(rxBuffer) && sockfd == old(sockfd))
                   && (0 < |data| && sent < |data| ==>
                         || last.selected < 0
                         || (last.ready && last.res < 0 && !last.again)
                         || (|attempts| >= 10 && forall i :: |attempts| - 10 <= i < |attempts| ==>
                               attempts[i].selected >= 0 && (!attempts[i].ready || attempts[i].res <= 0)))
    {
      hide MustGoOn, GoneOn, Complete, Total, TrailingIdle, SelectFailed, SendFailed, OfferRest;
      ghost var wire0 := wire;
      var retry := MAX_RETRY;
      sent := 0;
      attempts := [];
      var from, bytesRemaining := 0, |data|;
      if !connected || sockfd < 0 {
        return;
      }
      BeginPasses(|data|);
      while retry > 0
        invariant 0 <= retry <= MAX_RETRY && from + bytesRemaining == |data|
        invariant passes == old(passes) + attempts
        invariant retry > 0 ==> MustGoOn(attempts, |data|) && retry == MAX_RETRY - TrailingIdle(attempts)
        invariant retry == 0 ==> Complete(attempts, |data|)
        invariant GoneOn(attempts, |data|)
        invariant sent == Total(attempts) <= |data| && wire == wire0 + data[..sent]
        invariant retry > 0 ==> from == sent
        invariant !SelectFailed(attempts) && OfferRest(attempts, |data|)
        invariant if SendFailed(attempts)
                  then retry == 0 && !connected && rxBuffer == null && sockfd == -1
                  else connected && rxBuffer == old(rxBuffer) && sockfd == old(sockfd)
        decreases bytesRemaining, retry
      {
        ghost var was := attempts;
        retry := retry - 1;
        var selected, ready := Select();
        if selected < 0 {
          ghost var a := Attempt(selected, ready, 0, 0, true);
          attempts := was + [a];
          Pass(was, a, |data|);
          OfferMore(was, a, |data|);
          CompleteMeans(attempts, |data|);
          return 0, attempts;
        }
        if ready {
          var res, again := Send(data[from..]);
          ghost var a := Attempt(selected, ready, |data| - from, res, again);
          attempts := was + [a];
          assert passes == old(passes) + attempts;
          Pass(was, a, |data|);
          OfferMore(was, a, |data|);
          if res > 0 {
            SendTrace.Taken(data, wire0, sent, res);
            sent := sent + res;
            if sent >= |data| {
              retry := 0;
            } else {
              from := from + res;
              bytesRemaining := bytesRemaining - res;
              retry := MAX_RETRY;
            }
          } else if res < 0 {
            if !again {
              Stop();
              retry := 0;
            }
          }
        } else {
          ghost var a := Attempt(selected, ready, 0, 0, true);
          attempts := was + [a];
          Pass(was, a, |data|);
          OfferMore(was, a, |data|);
        }
      }
      ReasonToStop(attempts, |data|);
      CompleteMeans(attempts, |data|);
    }

    /** read(buf, size): what the buffer gives; a failed buffer is dropped after it. */
    method Read(dst: array?<byte>, len: nat) returns (result: int)
      requires rxBuffer != null ==> rxBuffer.Valid() && (dst != null ==> dst != rxBuffer.buffer)
      requires dst != null ==> len <= dst.Length
      modifies this, rxBuffer, if rxBuffer == null then null else rxBuffer.buffer, dst
      ensures old(rxBuffer) == null ==> result == -1 && rxBuffer == null
      ensures old(rxBuffer) != null ==>
                && old(rxBuffer).Valid() && old(rxBuffer.received) <= old(rxBuffer).received
                && (dst != null ==>
                      -1 <= result <= len
                      && Step(old(rxBuffer.Pending()),
                              Event.Read(len, result, dst[..if result < 0 then 0 else result],
                                         old(rxBuffer).Since(old(rxBuffer.received))),
                              old(rxBuffer).Pending()))
                && (result <= 0 ==> && old(rxBuffer).received == old(rxBuffer.received)
                                    && old(rxBuffer).Pending() == old(rxBuffer.Pending()))
                && (dst != null && len > 0 && old(rxBuffer.Pending()) != [] ==> result > 0)
                && (dst != null && 0 < len && result < len ==>
                      old(rxBuffer).GaveUp(old(rxBuffer.refills), old(rxBuffer).refills))
                && (dst != null && 0 < len && result < len && old(rxBuffer).fd >= 0 && old(rxBuffer).size > 0 ==>
                      Barren(old(rxBuffer.answers), old(rxBuffer).answers))
                && (if old(rxBuffer).failed then rxBuffer == null && !connected && sockfd == -1
                    else rxBuffer == old(rxBuffer) && connected == old(connected) && sockfd == old(sockfd)
                         && result >= 0)
    {
      hide Balanced, Step, Faulted, Barren;
      result := -1;
      if rxBuffer != null {
        result := rxBuffer.Read(dst, len);
        if rxBuffer.failed {
          Stop();
        }
      }
    }

    /** read(): the next byte, or -1 when none can be had now. */
    method ReadByte() returns (c: int)
      requires rxBuffer != null ==> rxBuffer.Valid()
      modifies this, rxBuffer, if rxBuffer == null then null else rxBuffer.buffer
      ensures -1 <= c < 256
      ensures old(rxBuffer) == null ==> c == -1
      ensures old(rxBuffer) != null ==>
                && old(rxBuffer).Valid() && old(rxBuffer.received) <= old(rxBuffer).received
                && (c >= 0 ==>
                      Step(old(rxBuffer.Pending()),
                           Event.Read(1, 1, [c], old(rxBuffer).Since(old(rxBuffer.received))),
                           old(rxBuffer).Pending()))
                && (c == -1 ==> old(rxBuffer.Pending()) == [] == old(rxBuffer).Pending()
                                && old(rxBuffer).received == old(rxBuffer.received))
                && (c == -1 && old(rxBuffer).fd >= 0 && old(rxBuffer).size > 0 ==>
                      Barren(old(rxBuffer.answers), old(rxBuffer).answers))
    {
      hide Balanced, Faulted, Barren;
      var data := new byte[1];
      data[0] := 0;
      var res := Read(data, 1);
      if res < 0 {
        return res;
      }
      if res == 0 {
        return -1;
      }
      assert data[..1] == [data[0]];
      return data[0];
    }
  }
}
