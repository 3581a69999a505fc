/** The bounded first-in first-out queue that the circular buffer is meant to be. */
module Fifo {
  import opened Bytes

  datatype Op =
    | Write(src: seq<byte>)   // cbuf::write, single byte or bulk
    | Read(size: nat)         // cbuf::read, single byte or bulk
    | Remove(size: nat)       // cbuf::remove
    | Flush                   // cbuf::flush
    | Resize(newSize: nat)    // cbuf::resize; resizeAdd(n) is resize(_size + n)

  datatype State = State(queue: seq<byte>, capacity: nat)

  /** Queue after a write: the longest prefix of `src` that fits is appended. */
  function Push(q: seq<byte>, capacity: nat, src: seq<byte>): seq<byte>
    requires |q| <= capacity
  {
    q + src[..Min(|src|, capacity - |q|)]
  }

  /** The bytes that a read, or a removal, of `size` bytes takes off the front. */
  function Front(q: seq<byte>, size: nat): seq<byte> { q[..Min(size, |q|)] }

  function Rest(q: seq<byte>, size: nat): seq<byte> { q[Min(size, |q|)..] }

  predicate Fits(s: State) { |s.queue| <= s.capacity < SIZE_MOD - 1 }

  /** The size that resize works with, in size_t arithmetic. */
  function Incremented(newSize: nat): nat { (newSize + 1) % SIZE_MOD }

  lemma {:induction false} IncrementedWraps(newSize: nat)
    ensures Incremented(newSize % SIZE_MOD) == Incremented(newSize)
  {
  }

  /** The one class of calls that costs the buffer its invariant is avoided. */
  predicate Harmless(s: State, op: Op) {
    op.Resize? ==> Incremented(op.newSize) != |s.queue|
  }

  function Step(s: State, op: Op): (s': State)
    requires Fits(s) && Harmless(s, op)
    ensures Fits(s')
  {
    match op
    case Write(src) => s.(queue := Push(s.queue, s.capacity, src))
    case Read(size) => s.(queue := Rest(s.queue, size))
    case Remove(size) => s.(queue := Rest(s.queue, size))
    case Flush => s.(queue := [])
    case Resize(newSize) =>
      if Incremented(newSize) < |s.queue| then s else s.(capacity := Incremented(newSize) - 1)
  }

  function Entering(s: State, op: Op): seq<byte>
    requires Fits(s)
  {
    if op.Write? then op.src[..Min(|op.src|, s.capacity - |s.queue|)] else []
  }

  function Leaving(s: State, op: Op): seq<byte> {
    match op
    case Write(_) => []
    case Read(size) => Front(s.queue, size)
    case Remove(size) => Front(s.queue, size)
    case Flush => s.queue
    case Resize(_) => []
  }

  predicate AllHarmless(s: State, ops: seq<Op>)
    requires Fits(s)
    decreases |ops|
  {
    ops == [] || (Harmless(s, ops[0]) && AllHarmless(Step(s, ops[0]), ops[1..]))
  }

  function Run(s: State, ops: seq<Op>): (s': State)
    requires Fits(s) && AllHarmless(s, ops)
    ensures Fits(s')
    decreases |ops|
  {
    if ops == [] then s else Run(Step(s, ops[0]), ops[1..])
  }

  function Entered(s: State, ops: seq<Op>): seq<byte>
    requires Fits(s) && AllHarmless(s, ops)
    decreases |ops|
  {
    if ops == [] then [] else Entering(s, ops[0]) + Entered(Step(s, ops[0]), ops[1..])
  }

  function Left(s: State, ops: seq<Op>): seq<byte>
    requires Fits(s) && AllHarmless(s, ops)
    decreases |ops|
  {
    if ops == [] then [] else Leaving(s, ops[0]) + Left(Step(s, ops[0]), ops[1..])
  }

  /** The bytes that the reads of a run give, without what is removed or flushed. */
  function Delivered(s: State, ops: seq<Op>): seq<byte>
    requires Fits(s) && AllHarmless(s, ops)
    decreases |ops|
  {
    if ops == [] then []
    else (if ops[0].Read? then Front(s.queue, ops[0].size) else []) + Delivered(Step(s, ops[0]), ops[1..])
  }

  lemma {:induction false} StepConserves(s: State, op: Op)
    requires Fits(s) && Harmless(s, op)
    ensures s.queue + Entering(s, op) == Leaving(s, op) + Step(s, op).queue
  {
  }

  /** Over any run, resizes included, what left the queue followed by what is still
      in it is what was in it followed by what was accepted: nothing is lost,
      duplicated or reordered, and the capacity of the moment is never exceeded. */
  lemma {:induction false} RunConserves(s: State, ops: seq<Op>)
    requires Fits(s) && AllHarmless(s, ops)
    ensures s.queue + Entered(s, ops) == Left(s, ops) + Run(s, ops).queue
    ensures Fits(Run(s, ops))
    decreases |ops|
  {
    if ops != [] {
      var s1 := Step(s, ops[0]);
      StepConserves(s, ops[0]);
      RunConserves(s1, ops[1..]);
      Chain(s.queue, Entering(s, ops[0]), Leaving(s, ops[0]), s1.queue,
            Entered(s1, ops[1..]), Left(s1, ops[1..]), Run(s1, ops[1..]).queue);
    }
  }

  lemma {:induction false} Split(q: seq<byte>, n: nat)
    ensures Front(q, n) == q[..Min(n, |q|)] && Rest(q, n) == q[Min(n, |q|)..]
    ensures Front(q, n) + Rest(q, n) == q
  {
  }

  /** Reading in two steps is reading once: bulk and single reads mix freely. */
  lemma {:induction false} ReadsCompose(q: seq<byte>, m: nat, n: nat)
    ensures Front(q, m) + Front(Rest(q, m), n) == Front(q, m + n)
    ensures Rest(Rest(q, m), n) == Rest(q, m + n)
  {
  }
}

/** The circular byte buffer `cbuf`. Pointers into the block are indices. */
module CircularBuffer {
  import opened Bytes
  import Fifo

  /** The bytes from `b` up to `e`, going round the end of the block when `e < b`. */
  function Ring(block: seq<byte>, b: nat, e: nat): seq<byte>
    requires b <= |block| && e <= |block|
  {
    if e >= b then block[b..e] else block[b..] + block[..e]
  }

  /** The cell that holds the `i`-th byte counted from `b`. */
  function Cell(b: nat, i: nat, size: nat): nat {
    if b + i >= size then b + i - size else b + i
  }

  /** Moving `begin` past `n` bytes, with the wrap, drops the first `n` bytes. */
  lemma {:induction false} RingAdvance(block: seq<byte>, b: nat, e: nat, n: nat)
    requires b < |block| && e < |block| && n <= |Ring(block, b, e)|
    ensures Cell(b, n, |block|) < |block|
    ensures Ring(block, Cell(b, n, |block|), e) == Ring(block, b, e)[n..]
  {
    if e < b && b + n >= |block| {
      assert Ring(block, b, e)[n..] == block[b + n - |block|..e];
    }
  }

  /** The two blocks a bulk copy out takes are the front of the queue. */
  lemma {:induction false} RingFront(block: seq<byte>, b: nat, e: nat, n: nat)
    requires b < |block| && e < |block| && n <= |Ring(block, b, e)|
    ensures Ring(block, b, e)[..n] ==
            if e < b && n > |block| - b then block[b..|block|] + block[0..n - (|block| - b)] else block[b..b + n]
  {
  }

  /** The block after a bulk copy in behind `e`, in one piece or in two. */
  function CopiedIn(block: seq<byte>, b: nat, e: nat, src: seq<byte>): (block': seq<byte>)
    requires b < |block| && e < |block| && |Ring(block, b, e)| + |src| < |block|
    ensures |block'| == |block|
  {
    if e >= b && |src| > |block| - e
    then Splice(Splice(block, e, src[..|block| - e]), 0, src[|block| - e..])
    else Splice(block, e, src)
  }

  lemma {:induction false} CopiedInParts(block: seq<byte>, b: nat, e: nat, src: seq<byte>, n: nat)
    requires b < |block| && e < |block| && n <= |src| && |Ring(block, b, e)| + n < |block|
    ensures CopiedIn(block, b, e, src[..n]) ==
            if e >= b && n > |block| - e
            then Splice(Splice(block, e, src[..|block| - e]), 0, src[|block| - e..n])
            else Splice(block, e, src[..n])
  {
    if e >= b && n > |block| - e {
      assert src[..n][..|block| - e] == src[..|block| - e];
      assert src[..n][|block| - e..] == src[|block| - e..n];
    }
  }

  lemma {:induction false} RingAppendBelow(block: seq<byte>, b: nat, e: nat, src: seq<byte>)
    requires e < b < |block| && e + |src| < b
    ensures Ring(Splice(block, e, src), b, e + |src|) == Ring(block, b, e) + src
  {
    var block' := Splice(block, e, src);
    assert block'[b..] == block[b..];
    assert block'[..e + |src|] == block[..e] + src;
  }

  lemma {:induction false} RingAppendFlat(block: seq<byte>, b: nat, e: nat, src: seq<byte>)
    requires b <= e < |block| && e + |src| <= |block| && e - b + |src| < |block|
    ensures Ring(Splice(block, e, src), b, Cell(e, |src|, |block|)) == Ring(block, b, e) + src
  {
    var block' := Splice(block, e, src);
    assert block'[b..e + |src|] == block[b..e] + src;
    if e + |src| == |block| {
      assert block'[b..] == block'[b..e + |src|];
    }
  }

  lemma {:induction false} RingAppendWrapped(block: seq<byte>, b: nat, e: nat, top: seq<byte>, rest: seq<byte>)
    requires b <= e < |block| && e + |top| == |block| && |rest| < b
    ensures Ring(Splice(Splice(block, e, top), 0, rest), b, |rest|) == Ring(block, b, e) + (top + rest)
  {
    var block' := Splice(Splice(block, e, top), 0, rest);
    assert block'[..|rest|] == rest;
    assert block'[b..] == block[b..e] + top;
  }

  /** Copying `src` in behind `end`, with the wrap, appends it. */
  lemma {:induction false} RingAppend(block: seq<byte>, block': seq<byte>, b: nat, e: nat, src: seq<byte>)
    requires b < |block| && e < |block| && |Ring(block, b, e)| + |src| < |block|
    requires block' == CopiedIn(block, b, e, src)
    ensures Cell(e, |src|, |block|) < |block|
    ensures Ring(block', b, Cell(e, |src|, |block|)) == Ring(block, b, e) + src
  {
    if e >= b && |src| > |block| - e {
      var top := |block| - e;
      assert src == src[..top] + src[top..];
      RingAppendWrapped(block, b, e, src[..top], src[top..]);
    } else if e >= b {
      RingAppendFlat(block, b, e, src);
    } else {
      RingAppendBelow(block, b, e, src);
    }
  }

  class Cbuf {
    var size: nat
    var buf: array<byte>
    var bufend: nat
    var begin: nat
    var end: nat

    /** What every sequence of calls keeps, whatever the arguments of `Resize`. */
    ghost predicate Rep()
      reads this
    {
      buf.Length == size == bufend < SIZE_MOD && begin <= size && end <= size
    }

    /** The representation invariant proper: both cursors lie inside the block. */
    ghost predicate Valid()
      reads this
    {
      Rep() && begin < size && end < size
    }

    ghost function Contents(): (q: seq<byte>)
      requires Rep()
      reads this, buf
    {
      Ring(buf[..], begin, end)
    }

    ghost function Capacity(): nat
      requires Valid()
      reads this
    {
      size - 1
    }

    /** Room for exactly `n` bytes; only the largest size_t leaves no cell at all. */
    constructor (n: nat)
      requires n < 0x1_0000_0000
      ensures Rep() && fresh(buf) && Contents() == []
      ensures Valid() <==> n + 1 < 0x1_0000_0000
      ensures Valid() ==> Capacity() == n
    {
      size := (n + 1) % SIZE_MOD;
      buf := new byte[(n + 1) % SIZE_MOD];
      bufend := (n + 1) % SIZE_MOD;
      begin := 0;
      end := 0;
    }

    function WrapIfBufend(p: nat): (q: nat)
      reads this
    {
      if p == bufend then 0 else p
    }

    predicate Empty()
      reads this
    {
      begin == end
    }

    predicate Full()
      reads this
    {
      WrapIfBufend(end + 1) == begin
    }

    function Available(): (n: nat)
      requires Rep()
      reads this, buf
      ensures n == |Contents()|
    {
      if end >= begin then end - begin else size - (begin - end)
    }

    /** size_t arithmetic: the subtraction wraps when the invariant is lost. */
    function Room(): (n: nat)
      requires Rep()
      reads this
    {
      if end >= begin then (size - (end - begin) - 1) % SIZE_MOD else (begin - end - 1) % SIZE_MOD
    }

    /** In every valid state the three observers agree with the queue. */
    lemma {:induction false} Observers()
      requires Valid()
      ensures Available() + Room() == size - 1
      ensures Room() == Capacity() - |Contents()|
      ensures Full() <==> Room() == 0
      ensures Empty() <==> Contents() == []
    {
    }

    method Peek() returns (c: int)
      requires Valid()
      ensures c == if Contents() == [] then -1 else Contents()[0]
    {
      if Empty() {
        return -1;
      }
      return buf[begin];
    }

    /** The copy of the first `count` bytes that bulk peek and bulk read make, in
        one piece or in two. */
    method CopyFront(dst: array<byte>, at: nat, count: nat)
      requires Valid() && dst != buf && count <= |Contents()| && at + count <= dst.Length
      modifies dst
      ensures dst[..] == Splice(old(dst[..]), at, Contents()[..count])
    {
      hide Splice, Ring;
      assert count <= Available();
      var from, to, sizeToRead := begin, at, count;
      RingFront(buf[..], begin, end, count);
      if end < begin && sizeToRead > bufend - begin {
        var topSize := bufend - begin;
        SpliceTwice(dst[..], at, buf[..][begin..begin + topSize], buf[..][0..sizeToRead - topSize]);
        Memcpy(dst, to, buf, begin, topSize);
        from := 0;
        sizeToRead := sizeToRead - topSize;
        to := to + topSize;
      }
      Memcpy(dst, to, buf, from, sizeToRead);
    }

    /** The matching move of `_begin`, which `remove` makes as well. */
    method Advance(count: nat)
      requires Valid() && count <= |Contents()|
      modifies this`begin
      ensures Valid() && Contents() == old(Contents())[count..]
    {
      RingAdvance(buf[..], begin, end, count);
      var sizeToMove := count;
      if end < begin && sizeToMove > bufend - begin {
        sizeToMove := sizeToMove - (bufend - begin);
        begin := 0;
      }
      begin := WrapIfBufend(begin + sizeToMove);
    }

    method PeekBulk(dst: array<byte>, at: nat, n: nat) returns (count: nat)
      requires Valid() && dst != buf
      requires at + n <= dst.Length || at + |Contents()| <= dst.Length
      modifies dst
      ensures count == if n < |Contents()| then n else |Contents()|
      ensures dst[..] == old(dst[..at]) + Contents()[..count] + old(dst[at + count..])
    {
      hide Ring;
      var bytesAvailable := Available();
      count := if n < bytesAvailable then n else bytesAvailable;
      CopyFront(dst, at, count);
    }

    method Read() returns (c: int)
      requires Valid()
      modifies this`begin
      ensures Valid()
      ensures c == if old(Contents()) == [] then -1 else old(Contents())[0]
      ensures Contents() == if old(Contents()) == [] then [] else old(Contents())[1..]
    {
      if Empty() {
        return -1;
      }
      var result := buf[begin];
      RingAdvance(buf[..], begin, end, 1);
      begin := WrapIfBufend(begin + 1);
      return result;
    }

    method ReadBulk(dst: array<byte>, at: nat, n: nat) returns (count: nat)
      requires Valid() && dst != buf
      requires at + n <= dst.Length || at + |Contents()| <= dst.Length
      modifies this`begin, dst
      ensures Valid()
      ensures count == if n < |old(Contents())| then n else |old(Contents())|
      ensures dst[..] == old(dst[..at]) + old(Contents())[..count] + old(dst[at + count..])
      ensures Contents() == old(Contents())[count..]
    {
      hide Ring;
      var bytesAvailable := Available();
      count := if n < bytesAvailable then n else bytesAvailable;
      CopyFront(dst, at, count);
      Advance(count);
    }

    method Write(c: byte) returns (count: nat)
      requires Valid()
      modifies this`end, buf
      ensures Valid()
      ensures count == if |old(Contents())| < Capacity() then 1 else 0
      ensures Contents() == old(Contents()) + if count == 1 then [c] else []
    {
      if Full() {
        return 0;
      }
      ghost var was := buf[..];
      buf[end] := c;
      RingAppend(was, buf[..], begin, end, [c]);
      end := WrapIfBufend(end + 1);
      return 1;
    }

    method WriteBulk(src: seq<byte>) returns (count: nat)
      requires Valid()
      modifies this`end, buf
      ensures Valid()
      ensures count == if |old(Contents())| + |src| < Capacity() then |src| else Capacity() - |old(Contents())|
      ensures Contents() == old(Contents()) + src[..count]
    {
      hide Splice, Ring, CopiedIn;
      Observers();
      var bytesAvailable := Room();
      var sizeToWrite := if |src| < bytesAvailable then |src| else bytesAvailable;
      count := sizeToWrite;
      ghost var block, e, q := buf[..], end, Contents();
      assert q == Ring(block, begin, e) && |q| == Available();
      ghost var block' := CopiedIn(block, begin, e, src[..count]);
      RingAppend(block, block', begin, e, src[..count]);
      assert block' == if e >= begin && count > |block| - e
                       then Splice(Splice(block, e, src[..|block| - e]), 0, src[|block| - e..count])
                       else Splice(block, e, src[..count]) by {
        CopiedInParts(block, begin, e, src, count);
      }
      var from := 0;
      if end >= begin && sizeToWrite > bufend - end {
        var topSize := bufend - end;
        CopyIn(buf, end, src[..topSize]);
        end := 0;
        sizeToWrite := sizeToWrite - topSize;
        from := topSize;
      }
      CopyIn(buf, end, src[from..from + sizeToWrite]);
      end := WrapIfBufend(end + sizeToWrite);
      assert buf[..] == block' && end == Cell(e, count, |block|);
    }

    method Flush()
      requires Rep() && size > 0
      modifies this`begin, this`end
      ensures Valid() && Contents() == []
    {
      begin := 0;
      end := 0;
    }

    method Remove(n: nat) returns (left: nat)
      requires Valid()
      modifies this`begin, this`end
      ensures Valid()
      ensures Contents() == if n < |old(Contents())| then old(Contents())[n..] else []
      ensures left == |Contents()|
    {
      var bytesAvailable := Available();
      if n >= bytesAvailable {
        Flush();
        return 0;
      }
      Advance(n);
      return Available();
    }

    /** `Resize` never loses a byte. It keeps the invariant exactly when the
        incremented size differs from the number of queued bytes: the guard
        lets that one size through although it leaves no spare cell. */
    method Resize(n: nat) returns (s: nat)
      requires Valid() && n < 0x1_0000_0000
      modifies this
      ensures Rep() && s == size
      ensures Contents() == old(Contents())
      ensures var n1 := (n + 1) % 0x1_0000_0000;
              && size == (if n1 < |old(Contents())| then old(size) else n1)
              && (Valid() <==> n1 != |old(Contents())|)
      ensures size == old(size) ==> buf == old(buf) && begin == old(begin) && end == old(end)
      ensures size != old(size) ==> fresh(buf)
      ensures !Valid() ==> Room() == 0xFFFF_FFFF && !Full()
    {
      var bytesAvailable := Available();
      var newSize := (n + 1) % SIZE_MOD;
      if newSize < bytesAvailable || newSize == size {
        return size;
      }
      var newbuf := new byte[newSize];
      ghost var q := Contents();
      var _ := ReadBulk(newbuf, 0, bytesAvailable);
      CopyIn(newbuf, bytesAvailable, seq(newSize - bytesAvailable, _ => 0));
      begin := 0;
      end := bytesAvailable;
      bufend := newSize;
      size := newSize;
      buf := newbuf;
      assert buf[..][0..bytesAvailable] == q;
      return size;
    }

    /** Growing by `n` always succeeds, adds `n + 1` to the capacity (resize adds
        one more to a size that already counts the spare cell) and keeps the queue;
        only a sum that wraps in size_t is treated like any other new size. */
    method ResizeAdd(n: nat) returns (s: nat)
      requires Valid() && n < 0x1_0000_0000
      modifies this
      ensures Rep() && s == size && Contents() == old(Contents())
      ensures old(size) + n + 1 < 0x1_0000_0000 ==>
                Valid() && fresh(buf) && Capacity() == old(Capacity()) + n + 1
      ensures var n1 := (old(size) + n + 1) % 0x1_0000_0000;
              && size == (if n1 < |old(Contents())| then old(size) else n1)
              && (Valid() <==> n1 != |old(Contents())|)
    {
      hide Ring;
      assert |Contents()| == Available() < size;
      Fifo.IncrementedWraps(size + n);
      s := Resize((size + n) % SIZE_MOD);
    }
  }

  /** A resize of the class that is not harmless: a buffer for two bytes, filled
      and resized to one, keeps both bytes but neither its invariant nor a room
      that means anything. */
  method ResizeBelowSpareCell() returns (b: Cbuf)
    ensures b.Rep() && !b.Valid() && b.Contents() == [7, 8] && b.Room() == 0xFFFF_FFFF
  {
    b := new Cbuf(2);
    var _ := b.WriteBulk([7, 8]);
    assert b.Contents() == [7, 8];
    var _ := b.Resize(1);
  }

  method ReadOut(b: Cbuf, size: nat) returns (got: seq<byte>)
    requires b.Valid()
    modifies b`begin
    ensures b.Valid() && b.Contents() == Fifo.Rest(old(b.Contents()), size)
    ensures got == Fifo.Front(old(b.Contents()), size)
  {
    hide Ring;
    if size == 1 {
      var c := b.Read();
      return if c >= 0 then [c] else [];
    }
    var available := b.Available();
    var dst := new byte[if size < available then size else available];
    var count := b.ReadBulk(dst, 0, size);
    got := dst[..];
  }

  method PerformOne(b: Cbuf, op: Fifo.Op) returns (got: seq<byte>)
    requires b.Valid() && Fifo.Harmless(Fifo.State(b.Contents(), b.Capacity()), op)
    modifies b, b.buf
    ensures b.Valid() && (b.buf == old(b.buf) || fresh(b.buf))
    ensures var s := Fifo.State(old(b.Contents()), old(b.Capacity()));
            && Fifo.State(b.Contents(), b.Capacity()) == Fifo.Step(s, op)
            && got == if op.Read? then Fifo.Front(s.queue, op.size) else []
  {
    hide Ring, Splice;
    got := [];
    match op
    case Write(src) =>
      if |src| == 1 {
        assert src == [src[0]];
        var _ := b.Write(src[0]);
      } else {
        var _ := b.WriteBulk(src);
      }
    case Read(size) =>
      got := ReadOut(b, size);
    case Remove(size) =>
      var _ := b.Remove(size);
    case Flush =>
      b.Flush();
    case Resize(newSize) =>
      Fifo.IncrementedWraps(newSize);
      var _ := b.Resize(newSize % SIZE_MOD);
  }

  /** Any list of calls on the class is a run of the queue, as long as every resize
      is harmless; the bytes read are the ones the run delivers. */
  method Perform(b: Cbuf, ops: seq<Fifo.Op>) returns (got: seq<byte>)
    requires b.Valid() && Fifo.AllHarmless(Fifo.State(b.Contents(), b.Capacity()), ops)
    modifies b, b.buf
    ensures b.Valid() && (b.buf == old(b.buf) || fresh(b.buf))
    ensures var s := Fifo.State(old(b.Contents()), old(b.Capacity()));
            && Fifo.State(b.Contents(), b.Capacity()) == Fifo.Run(s, ops)
            && got == Fifo.Delivered(s, ops)
            && s.queue + Fifo.Entered(s, ops) == Fifo.Left(s, ops) + b.Contents()
    decreases |ops|
  {
    ghost var s := Fifo.State(b.Contents(), b.Capacity());
    Fifo.RunConserves(s, ops);
    if ops == [] {
      return [];
    }
    var first := PerformOne(b, ops[0]);
    var rest := Perform(b, ops[1..]);
    got := first + rest;
  }
}
