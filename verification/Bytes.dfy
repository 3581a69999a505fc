/** Bytes, block copies and the small value types shared by the other modules. */
module Bytes {

  type byte = b: int | 0 <= b < 256

  /** size_t has 32 bits on every supported chip. */
  const SIZE_MOD: nat := 0x1_0000_0000

  datatype Option<+T> = None | Some(value: T)

  function Min(a: nat, b: nat): nat { if a < b then a else b }

  /** The concatenation of a list of byte strings. */
  function Flatten(parts: seq<seq<byte>>): seq<byte> {
    if parts == [] then [] else parts[0] + Flatten(parts[1..])
  }

  lemma {:induction false} FlattenAppend(parts: seq<seq<byte>>, more: seq<seq<byte>>)
    ensures Flatten(parts + more) == Flatten(parts) + Flatten(more)
  {
    if parts == [] {
      assert parts + more == more;
    } else {
      assert (parts + more)[1..] == parts[1..] + more;
      FlattenAppend(parts[1..], more);
    }
  }

  lemma {:induction false} FlattenNothing()
    ensures Flatten([]) == []
  {
  }

  lemma {:induction false} FlattenSnoc(parts: seq<seq<byte>>, last: seq<byte>)
    ensures Flatten(parts + [last]) == Flatten(parts) + last
  {
    FlattenAppend(parts, [last]);
    assert [last][1..] == [];
  }

  /** `s` with the block `src` laid over it from position `at` on. */
  function Splice(s: seq<byte>, at: nat, src: seq<byte>): (r: seq<byte>)
    requires at + |src| <= |s|
    ensures |r| == |s|
  {
    s[..at] + src + s[at + |src|..]
  }

  lemma {:induction false} SpliceTwice(s: seq<byte>, at: nat, x: seq<byte>, y: seq<byte>)
    requires at + |x| + |y| <= |s|
    ensures Splice(Splice(s, at, x), at + |x|, y) == Splice(s, at, x + y)
  {
  }

  lemma {:induction false} SpliceAll(dst: seq<byte>, s: seq<byte>)
    requires |dst| == |s|
    ensures Splice(dst, 0, s) == s
  {
  }

  lemma {:induction false} SliceJoin<T>(s: seq<T>, a: nat, b: nat, c: nat)
    requires a <= b <= c <= |s|
    ensures s[a..b] + s[b..c] == s[a..c]
  {
  }

  lemma {:induction false} DropDrop<T>(s: seq<T>, a: nat, b: nat)
    requires a + b <= |s|
    ensures s[a..][b..] == s[a + b..]
  {
  }

  /** Two balanced steps in a row are balanced: what was there and came in is what
      went out and is there. */
  lemma {:induction false} Chain(q: seq<byte>, e0: seq<byte>, l0: seq<byte>, q1: seq<byte>,
                                 e1: seq<byte>, l1: seq<byte>, q2: seq<byte>)
    requires q + e0 == l0 + q1 && q1 + e1 == l1 + q2
    ensures q + (e0 + e1) == (l0 + l1) + q2
  {
    assert q + (e0 + e1) == (q + e0) + e1;
    assert (l0 + q1) + e1 == l0 + (q1 + e1);
    assert l0 + (l1 + q2) == (l0 + l1) + q2;
  }

  /** One more index at the end of an increasing list of them. */
  lemma {:induction false} OneMoreIndex(init: seq<nat>, n: nat)
    requires (forall k :: 0 <= k < |init| ==> init[k] < n)
    requires (forall k, l :: 0 <= k < l < |init| ==> init[k] < init[l])
    ensures var from := init + [n];
            && (forall k :: 0 <= k < |from| ==> from[k] <= n)
            && (forall k, l :: 0 <= k < l < |from| ==> from[k] < from[l])
            && (forall j: nat :: j in from <==> j in init || j == n)
  {
    var from := init + [n];
    forall j: nat ensures j in from <==> j in init || j == n {
      if j == n {
        assert from[|init|] == n;
      }
    }
  }

  /** memcpy out of an array. */
  method Memcpy(dst: array<byte>, at: nat, src: array<byte>, from: nat, n: nat)
    requires dst != src && at + n <= dst.Length && from + n <= src.Length
    modifies dst
    ensures dst[..] == Splice(old(dst[..]), at, src[..][from..from + n])
  {
    forall i | 0 <= i < n {
      dst[at + i] := src[from + i];
    }
  }

  /** memcpy out of a read-only block. */
  method CopyIn(dst: array<byte>, at: nat, src: seq<byte>)
    requires at + |src| <= dst.Length
    modifies dst
    ensures dst[..] == Splice(old(dst[..]), at, src)
  {
    forall i | 0 <= i < |src| {
      dst[at + i] := src[i];
    }
  }
}
