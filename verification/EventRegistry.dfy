/** What the removal loops leave behind, said without the loops. */
module RemovalSpec {
  import opened Bytes

  /** 0 stands for a null pointer or an empty function object. */
  datatype Entry = Entry(id: nat, cb: nat, fcb: nat, scb: nat, event: nat)

  type Match = Entry -> bool

  /** How many matching entries stand directly before position `j`. */
  function RunBefore(list: seq<Entry>, p: Match, j: nat): (r: nat)
    requires j <= |list|
    ensures r <= j
  {
    if j == 0 || !p(list[j - 1]) then 0 else 1 + RunBefore(list, p, j - 1)
  }

  /** The loop erases the first, third, fifth ... entry of each run of matches:
      after an erase the index moves past the entry that slid into the gap. */
  predicate Stays(list: seq<Entry>, p: Match, j: nat)
    requires j < |list|
  {
    !p(list[j]) || RunBefore(list, p, j) % 2 == 1
  }

  function Kept(list: seq<Entry>, p: Match, n: nat): (r: seq<Entry>)
    requires n <= |list|
    ensures |r| <= n
  {
    if n == 0 then []
    else Kept(list, p, n - 1) + if Stays(list, p, n - 1) then [list[n - 1]] else []
  }

  function AfterRemoval(list: seq<Entry>, p: Match): seq<Entry> { Kept(list, p, |list|) }

  lemma {:induction false} KeptNone(list: seq<Entry>, p: Match)
    ensures Kept(list, p, 0) == [] && RunBefore(list, p, 0) == 0
  {
  }

  lemma {:induction false} KeptNext(list: seq<Entry>, p: Match, o: nat)
    requires o < |list|
    ensures Kept(list, p, o + 1) == Kept(list, p, o) + if Stays(list, p, o) then [list[o]] else []
    ensures Stays(list, p, o) <==> !p(list[o]) || RunBefore(list, p, o) % 2 == 1
    ensures RunBefore(list, p, o + 1) == if p(list[o]) then RunBefore(list, p, o) + 1 else 0
  {
  }

  lemma {:induction false} Slide<T>(k: seq<T>, list: seq<T>, o: nat)
    requires o < |list|
    ensures (k + list[o..])[|k|] == list[o]
    ensures (k + list[o..])[..|k|] + (k + list[o..])[|k| + 1..] == k + list[o + 1..]
    ensures k + list[o..] == (k + [list[o]]) + list[o + 1..]
  {
  }

  /** One pass of the loop, standing at the original entry `o`, which stays. */
  lemma {:induction false} PassKeeps(list: seq<Entry>, p: Match, o: nat)
    requires o < |list| && RunBefore(list, p, o) % 2 == 0 && !p(list[o])
    ensures var k := Kept(list, p, o);
            && (k + list[o..])[|k|] == list[o]
            && k + list[o..] == Kept(list, p, o + 1) + list[o + 1..]
            && |Kept(list, p, o + 1)| == |k| + 1 && RunBefore(list, p, o + 1) == 0
  {
    hide Kept, RunBefore, Stays;
    KeptNext(list, p, o);
    Slide(Kept(list, p, o), list, o);
  }

  /** One pass that erases it, and with it steps over the next one. */
  lemma {:induction false} PassErases(list: seq<Entry>, p: Match, o: nat)
    requires o < |list| && RunBefore(list, p, o) % 2 == 0 && p(list[o])
    ensures var k := Kept(list, p, o);
            var now := k + list[o..];
            && now[|k|] == list[o] && now[..|k|] + now[|k| + 1..] == k + list[o + 1..]
            && Kept(list, p, o + 1) == k
            && (o + 1 < |list| ==>
                  && k + list[o + 1..] == Kept(list, p, o + 2) + list[o + 2..]
                  && |Kept(list, p, o + 2)| == |k| + 1 && RunBefore(list, p, o + 2) % 2 == 0)
  {
    hide Kept, RunBefore, Stays;
    var k := Kept(list, p, o);
    KeptNext(list, p, o);
    Slide(k, list, o);
    assert k + [] == k;
    if o + 1 < |list| {
      KeptNext(list, p, o + 1);
      Slide(k, list, o + 1);
    }
  }

  predicate Adjacent(list: seq<Entry>, p: Match) {
    exists j :: 0 < j < |list| && p(list[j]) && p(list[j - 1])
  }

  lemma {:induction false} KeptMembers(list: seq<Entry>, p: Match, n: nat)
    requires n <= |list|
    ensures forall e :: e in Kept(list, p, n) <==> exists j :: 0 <= j < n && Stays(list, p, j) && list[j] == e
    decreases n
  {
    if n > 0 {
      KeptMembers(list, p, n - 1);
    }
  }

  lemma {:induction false} FirstAdjacent(list: seq<Entry>, p: Match) returns (j: nat)
    requires Adjacent(list, p)
    ensures 0 < j < |list| && p(list[j]) && p(list[j - 1])
    ensures j == 1 || !p(list[j - 2])
  {
    j :| 0 < j < |list| && p(list[j]) && p(list[j - 1]);
    while j > 1 && p(list[j - 2])
      invariant 0 < j < |list| && p(list[j]) && p(list[j - 1])
      decreases j
    {
      j := j - 1;
    }
  }

  lemma {:induction false} StaysStep(list: seq<Entry>, p: Match, j: nat)
    requires j < |list|
    ensures Stays(list, p, j) <==> !p(list[j]) || (j > 0 && !Stays(list, p, j - 1))
  {
  }

  lemma {:induction false} KeptIndices(list: seq<Entry>, p: Match, n: nat) returns (kept: seq<nat>)
    requires n <= |list|
    ensures |kept| == |Kept(list, p, n)|
    ensures forall k :: 0 <= k < |kept| ==> kept[k] < n && Kept(list, p, n)[k] == list[kept[k]]
    ensures forall k, l :: 0 <= k < l < |kept| ==> kept[k] < kept[l]
    ensures forall j: nat :: j < n ==> (j in kept <==> Stays(list, p, j))
    decreases n
  {
    hide Stays, Kept;
    if n == 0 {
      KeptNone(list, p);
      return [];
    }
    KeptNext(list, p, n - 1);
    kept := KeptIndices(list, p, n - 1);
    if Stays(list, p, n - 1) {
      OneMoreIndex(kept, n - 1);
      kept := kept + [n - 1];
    }
  }

  /** All of a list, by index. */
  lemma {:induction false} AllIndices(list: seq<Entry>) returns (all: seq<nat>)
    ensures |all| == |list| && forall k :: 0 <= k < |all| ==> all[k] == k
    ensures forall j: nat :: j < |list| ==> j in all
  {
    all := seq(|list|, i requires 0 <= i < |list| => i);
    forall j: nat | j < |list| ensures j in all {
      assert all[j] == j;
    }
  }

  /** What is left, in the order of the list: exactly the entries that do not match,
      and those that follow directly on an erased one. */
  lemma {:induction false} LeftAre(list: seq<Entry>, p: Match) returns (kept: seq<nat>)
    ensures |kept| == |AfterRemoval(list, p)|
    ensures forall k :: 0 <= k < |kept| ==> kept[k] < |list| && AfterRemoval(list, p)[k] == list[kept[k]]
    ensures forall k, l :: 0 <= k < l < |kept| ==> kept[k] < kept[l]
    ensures forall j: nat :: j < |list| && !(p(list[j])) ==> j in kept
    ensures |list| > 0 && p(list[0]) ==> 0 !in kept
    ensures forall i: nat, j: nat {:trigger i in kept, j in kept} :: j == i + 1 < |list| && p(list[j]) ==>
              (j in kept <==> i !in kept)
  {
    hide Stays, Kept;
    kept := KeptIndices(list, p, |list|);
    forall j: nat | j < |list| && !p(list[j]) ensures j in kept {
      StaysStep(list, p, j);
    }
    if |list| > 0 {
      StaysStep(list, p, 0);
    }
    forall i: nat, j: nat | j == i + 1 < |list| && p(list[j]) ensures j in kept <==> i !in kept {
      StaysStep(list, p, j);
    }
  }

  /** Removal by callback removes every match exactly when no two matches are
      neighbours in the list. */
  lemma {:induction false} AllRemovedIff(list: seq<Entry>, p: Match)
    ensures (forall e :: e in AfterRemoval(list, p) ==> !p(e)) <==> !Adjacent(list, p)
  {
    KeptMembers(list, p, |list|);
    if Adjacent(list, p) {
      var j := FirstAdjacent(list, p);
      assert RunBefore(list, p, j - 1) == 0;
      assert RunBefore(list, p, j) == 1;
      assert Stays(list, p, j) && list[j] in AfterRemoval(list, p);
    } else {
      forall j | 0 <= j < |list| && Stays(list, p, j) ensures !p(list[j]) {
        assert RunBefore(list, p, j) == 0 || (j > 0 && p(list[j - 1]));
      }
    }
  }

  /** The entries at odd positions. */
  function EverySecond(run: seq<Entry>): (r: seq<Entry>)
    ensures |r| == |run| / 2
  {
    if |run| < 2 then [] else [run[1]] + EverySecond(run[2..])
  }

  lemma {:induction false} Prefix(x: seq<Entry>, y: seq<Entry>, p: Match, n: nat)
    requires n <= |x|
    ensures Kept(x + y, p, n) == Kept(x, p, n)
    ensures forall j :: 0 <= j <= n ==> RunBefore(x + y, p, j) == RunBefore(x, p, j)
    decreases n
  {
    if n > 0 {
      Prefix(x, y, p, n - 1);
      assert (x + y)[n - 1] == x[n - 1];
    }
  }

  /** The entries at odd positions below `n`. */
  function OddsUpTo(run: seq<Entry>, n: nat): seq<Entry>
    requires n <= |run|
  {
    if n == 0 then [] else OddsUpTo(run, n - 1) + if (n - 1) % 2 == 1 then [run[n - 1]] else []
  }

  lemma {:induction false} OddsStep(run: seq<Entry>, n: nat)
    requires 2 <= n <= |run|
    ensures OddsUpTo(run, n) == [run[1]] + OddsUpTo(run[2..], n - 2)
    decreases n
  {
    if n > 2 {
      OddsStep(run, n - 1);
      assert run[2..][n - 3] == run[n - 1];
    } else {
      assert OddsUpTo(run, 1) == [];
    }
  }

  lemma {:induction false} Odds(run: seq<Entry>, n: nat)
    requires n == |run|
    ensures OddsUpTo(run, n) == EverySecond(run)
    decreases n
  {
    if n >= 2 {
      OddsStep(run, n);
      Odds(run[2..], n - 2);
    } else if n == 1 {
      assert OddsUpTo(run, 0) == [];
    }
  }

  lemma {:induction false} RunPart(pre: seq<Entry>, run: seq<Entry>, post: seq<Entry>, p: Match, n: nat)
    requires n <= |run| && (pre == [] || !p(pre[|pre| - 1])) && (forall e :: e in run ==> p(e))
    ensures Kept(pre + run + post, p, |pre| + n) == Kept(pre + run + post, p, |pre|) + OddsUpTo(run, n)
    ensures RunBefore(pre + run + post, p, |pre| + n) == n
    decreases n
  {
    hide Kept, Stays, RunBefore;
    var list := pre + run + post;
    if n > 0 {
      RunPart(pre, run, post, p, n - 1);
      assert list[|pre| + n - 1] == run[n - 1] && run[n - 1] in run;
      KeptNext(list, p, |pre| + n - 1);
    } else {
      KeptNone(list, p);
      if pre != [] {
        assert list[|pre| - 1] == pre[|pre| - 1];
        KeptNext(list, p, |pre| - 1);
      }
    }
  }

  lemma {:induction false} Suffix(x: seq<Entry>, y: seq<Entry>, p: Match, n: nat)
    requires n <= |y| && (y == [] || !p(y[0]))
    ensures Kept(x + y, p, |x| + n) == Kept(x + y, p, |x|) + Kept(y, p, n)
    ensures n > 0 ==> RunBefore(x + y, p, |x| + n) == RunBefore(y, p, n)
    decreases n
  {
    if n > 0 {
      Suffix(x, y, p, n - 1);
      assert (x + y)[|x| + n - 1] == y[n - 1];
    }
  }

  /** A maximal run of k neighbouring matches leaves its k / 2 entries at odd
      positions, and the rest of the list is treated as if on its own. */
  lemma {:induction false} RunLeavesHalf(pre: seq<Entry>, run: seq<Entry>, post: seq<Entry>, p: Match)
    requires pre == [] || !p(pre[|pre| - 1])
    requires post == [] || !p(post[0])
    requires forall e :: e in run ==> p(e)
    ensures AfterRemoval(pre + run + post, p) == AfterRemoval(pre, p) + EverySecond(run) + AfterRemoval(post, p)
    ensures |EverySecond(run)| == |run| / 2
  {
    hide Kept, RunBefore, EverySecond, OddsUpTo;
    var list := pre + run + post;
    Prefix(pre, run + post, p, |pre|);
    assert list == pre + (run + post);
    RunPart(pre, run, post, p, |run|);
    Suffix(pre + run, post, p, |post|);
    Odds(run, |run|);
  }

  // ---- Ids and runs ----------------------------------------------------------

  predicate Increasing(list: seq<Entry>) {
    forall i, j :: 0 <= i < j < |list| ==> list[i].id < list[j].id
  }

  /** Ids grow along the list and are all below the next one to be given out. */
  predicate Ordered(list: seq<Entry>, nextId: nat) {
    Increasing(list) && forall i :: 0 <= i < |list| ==> list[i].id < nextId
  }

  lemma {:induction false} KeptOrdered(list: seq<Entry>, p: Match, n: nat, nextId: nat)
    requires n <= |list| && Ordered(list, nextId)
    ensures Ordered(Kept(list, p, n), nextId)
    ensures n < |list| ==> forall e :: e in Kept(list, p, n) ==> e.id < list[n].id
    decreases n
  {
    if n > 0 {
      KeptOrdered(list, p, n - 1, nextId);
      assert list[n - 1].id < nextId;
    }
  }

  function HasId(id: nat): Match { (e: Entry) => e.id == id }

  function WithoutId(list: seq<Entry>, id: nat): seq<Entry> {
    if list == [] then []
    else
      var n := |list| - 1;
      WithoutId(list[..n], id) + if list[n].id == id then [] else [list[n]]
  }

  /** Removal by id takes out exactly the entry with that id. */
  lemma {:induction false} RemoveIdExact(list: seq<Entry>, nextId: nat, id: nat, n: nat)
    requires n <= |list| && Ordered(list, nextId)
    ensures Kept(list, HasId(id), n) == WithoutId(list[..n], id)
    ensures RunBefore(list, HasId(id), n) <= 1
    decreases n
  {
    if n > 0 {
      RemoveIdExact(list, nextId, id, n - 1);
      assert list[..n] == list[..n - 1] + [list[n - 1]];
      if n > 1 && list[n - 1].id == id {
        assert list[n - 2].id < list[n - 1].id;
      }
    }
  }

  datatype Op =
    | Register(cb: nat, fcb: nat, scb: nat, event: nat)
    | RemoveCb(cb: nat, event: nat)
    | RemoveScb(scb: nat, event: nat)
    | RemoveId(id: nat)

  datatype Registry = Registry(list: seq<Entry>, nextId: nat)

  function Matching(op: Op): Match
    requires !op.Register?
  {
    match op
    case RemoveCb(cb, event) => (e: Entry) => e.cb == cb && e.event == event
    case RemoveScb(scb, event) => (e: Entry) => e.scb == scb && e.event == event
    case RemoveId(id) => HasId(id)
  }

  function Step(r: Registry, op: Op): Registry {
    match op
    case Register(cb, fcb, scb, event) =>
      if cb == 0 && fcb == 0 && scb == 0 then r
      else Registry(r.list + [Entry(r.nextId, cb, fcb, scb, event)], (r.nextId + 1) % SIZE_MOD)
    case RemoveCb(cb, _) => if cb == 0 then r else r.(list := AfterRemoval(r.list, Matching(op)))
    case RemoveScb(scb, _) => if scb == 0 then r else r.(list := AfterRemoval(r.list, Matching(op)))
    case RemoveId(_) => r.(list := AfterRemoval(r.list, Matching(op)))
  }

  function Run(r: Registry, ops: seq<Op>): Registry
    decreases |ops|
  {
    if ops == [] then r else Run(Step(r, ops[0]), ops[1..])
  }

  predicate Registers(op: Op) { op.Register? && (op.cb != 0 || op.fcb != 0 || op.scb != 0) }

  lemma {:induction false} MatchesCb(cb: nat, event: nat, e: Entry)
    ensures Matching(RemoveCb(cb, event))(e) <==> e.cb == cb && e.event == event
  {
  }

  lemma {:induction false} MatchesScb(scb: nat, event: nat, e: Entry)
    ensures Matching(RemoveScb(scb, event))(e) <==> e.scb == scb && e.event == event
  {
  }

  /** The registry after `made` registrations. The counter starts at 1 and has 32
      bits; the first 2^32 - 1 ids are still ordered and none of them is 0. */
  ghost predicate Counted(r: Registry, made: nat) {
    && r.nextId == (1 + made) % SIZE_MOD
    && (made < SIZE_MOD ==> Ordered(r.list, 1 + made) && forall e :: e in r.list ==> e.id != 0)
  }

  lemma {:induction false} IdExact(r: Registry, made: nat, id: nat)
    requires Counted(r, made)
    ensures made < SIZE_MOD ==> AfterRemoval(r.list, Matching(RemoveId(id))) == WithoutId(r.list, id)
  {
    if made < SIZE_MOD {
      RemoveIdExact(r.list, 1 + made, id, |r.list|);
      assert r.list[..|r.list|] == r.list;
    }
  }

  lemma {:induction false} MatchesId(id: nat, e: Entry)
    ensures Matching(RemoveId(id))(e) <==> e.id == id
  {
  }

  /** The same for a removal by id. */
  lemma {:induction false} LeftId(list: seq<Entry>, id: nat) returns (kept: seq<nat>)
    ensures var after := AfterRemoval(list, Matching(RemoveId(id)));
            && |kept| == |after|
            && forall k :: 0 <= k < |kept| ==> kept[k] < |list| && after[k] == list[kept[k]]
    ensures forall k, l :: 0 <= k < l < |kept| ==> kept[k] < kept[l]
    ensures forall j: nat :: j < |list| && list[j].id != id ==> j in kept
    ensures |list| > 0 && list[0].id == id ==> 0 !in kept
    ensures forall i: nat, j: nat {:trigger i in kept, j in kept} :: j == i + 1 < |list| && list[j].id == id ==>
              (j in kept <==> i !in kept)
  {
    hide AfterRemoval, Matching;
    kept := LeftAre(list, Matching(RemoveId(id)));
    forall e: Entry ensures Matching(RemoveId(id))(e) <==> e.id == id {
      MatchesId(id, e);
    }
  }

  /** The same for a removal by plain callback, which leaves a list alone for a null one. */
  lemma {:induction false} LeftCb(list: seq<Entry>, cb: nat, event: nat) returns (kept: seq<nat>)
    ensures var after := if cb == 0 then list else AfterRemoval(list, Matching(RemoveCb(cb, event)));
            && |kept| == |after|
            && forall k :: 0 <= k < |kept| ==> kept[k] < |list| && after[k] == list[kept[k]]
    ensures forall k, l :: 0 <= k < l < |kept| ==> kept[k] < kept[l]
    ensures forall j: nat :: j < |list| && !(cb != 0 && list[j].cb == cb && list[j].event == event) ==> j in kept
    ensures |list| > 0 && cb != 0 && list[0].cb == cb && list[0].event == event ==> 0 !in kept
    ensures forall i: nat, j: nat {:trigger i in kept, j in kept} ::
              j == i + 1 < |list| && cb != 0 && list[j].cb == cb && list[j].event == event ==>
                (j in kept <==> i !in kept)
  {
    hide AfterRemoval, Matching;
    if cb == 0 {
      kept := AllIndices(list);
    } else {
      kept := LeftAre(list, Matching(RemoveCb(cb, event)));
      forall e: Entry ensures Matching(RemoveCb(cb, event))(e) <==> e.cb == cb && e.event == event {
        MatchesCb(cb, event, e);
      }
    }
  }

  /** The same for a removal by system callback, which leaves a list alone for a null one. */
  lemma {:induction false} LeftScb(list: seq<Entry>, scb: nat, event: nat) returns (kept: seq<nat>)
    ensures var after := if scb == 0 then list else AfterRemoval(list, Matching(RemoveScb(scb, event)));
            && |kept| == |after|
            && forall k :: 0 <= k < |kept| ==> kept[k] < |list| && after[k] == list[kept[k]]
    ensures forall k, l :: 0 <= k < l < |kept| ==> kept[k] < kept[l]
    ensures forall j: nat :: j < |list| && !(scb != 0 && list[j].scb == scb && list[j].event == event) ==> j in kept
    ensures |list| > 0 && scb != 0 && list[0].scb == scb && list[0].event == event ==> 0 !in kept
    ensures forall i: nat, j: nat {:trigger i in kept, j in kept} ::
              j == i + 1 < |list| && scb != 0 && list[j].scb == scb && list[j].event == event ==>
                (j in kept <==> i !in kept)
  {
    hide AfterRemoval, Matching;
    if scb == 0 {
      kept := AllIndices(list);
    } else {
      kept := LeftAre(list, Matching(RemoveScb(scb, event)));
      forall e: Entry ensures Matching(RemoveScb(scb, event))(e) <==> e.scb == scb && e.event == event {
        MatchesScb(scb, event, e);
      }
    }
  }

  /** How many registrations of a list of calls are carried out. */
  function Registrations(ops: seq<Op>): nat
    decreases |ops|
  {
    if ops == [] then 0 else (if Registers(ops[0]) then 1 else 0) + Registrations(ops[1..])
  }

  lemma {:induction false} RegisterCounted(r: Registry, op: Op, made: nat)
    requires Counted(r, made) && Registers(op)
    ensures Counted(Step(r, op), made + 1)
    ensures made + 1 < SIZE_MOD ==> r.nextId == 1 + made
  {
    assert (1 + made + 1) % SIZE_MOD == ((1 + made) % SIZE_MOD + 1) % SIZE_MOD;
  }

  lemma {:induction false} RemoveCounted(r: Registry, op: Op, made: nat)
    requires Counted(r, made) && !op.Register?
    ensures Counted(r.(list := AfterRemoval(r.list, Matching(op))), made)
  {
    if made < SIZE_MOD {
      KeptOrdered(r.list, Matching(op), |r.list|, 1 + made);
      KeptMembers(r.list, Matching(op), |r.list|);
    }
  }

  lemma {:induction false} StepCounted(r: Registry, op: Op, made: nat)
    requires Counted(r, made)
    ensures Counted(Step(r, op), made + if Registers(op) then 1 else 0)
  {
    hide Counted;
    if Registers(op) {
      RegisterCounted(r, op, made);
    } else if !op.Register? {
      RemoveCounted(r, op, made);
    }
  }

  /** Over every run with fewer than 2^32 registrations ids strictly increase along
      the list, no two are equal and none is 0, whatever is removed in between. */
  lemma {:induction false} RunCounted(r: Registry, ops: seq<Op>, made: nat)
    requires Counted(r, made)
    ensures Counted(Run(r, ops), made + Registrations(ops))
    decreases |ops|
  {
    if ops != [] {
      StepCounted(r, ops[0], made);
      RunCounted(Step(r, ops[0]), ops[1..], made + if Registers(ops[0]) then 1 else 0);
    }
  }

  lemma {:induction false} CountedMeans(r: Registry, made: nat)
    requires Counted(r, made) && made < SIZE_MOD
    ensures Increasing(r.list) && forall e :: e in r.list ==> 0 < e.id <= made
  {
  }

  /** The bound is exact: the registration number 2^32 is handed the id 0, which is
      what a refused registration gets, and the order of the list is gone. */
  lemma {:induction false} CounterWraps(r: Registry, op: Op)
    requires Counted(r, SIZE_MOD - 1) && Registers(op)
    ensures var list := Step(r, op).list;
            list[|list| - 1].id == 0 && (r.list != [] ==> !Increasing(list))
  {
    var list := Step(r, op).list;
    if r.list != [] {
      assert list[0] == r.list[0] && list[0].id > list[|list| - 1].id;
    }
  }

  // ---- Dispatch ----------------------------------------------------------------

  datatype Call = CallCb(cb: nat, event: nat) | CallFcb(fcb: nat, event: nat) | CallScb(scb: nat, event: nat)

  predicate Listens(e: Entry, event: nat, any: nat) {
    (e.cb != 0 || e.fcb != 0 || e.scb != 0) && (e.event == event || e.event == any)
  }

  function CallOf(e: Entry, event: nat): Call {
    if e.cb != 0 then CallCb(e.cb, event)
    else if e.fcb != 0 then CallFcb(e.fcb, event)
    else CallScb(e.scb, event)
  }

  function Calls(list: seq<Entry>, event: nat, any: nat): seq<Call> {
    if list == [] then []
    else
      var n := |list| - 1;
      Calls(list[..n], event, any) + if Listens(list[n], event, any) then [CallOf(list[n], event)] else []
  }

  lemma {:induction false} CallsNone(event: nat, any: nat)
    ensures Calls([], event, any) == []
  {
  }

  lemma {:induction false} CallsSnoc(list: seq<Entry>, event: nat, any: nat)
    requires list != []
    ensures var n := |list| - 1;
            var e := list[n];
            Calls(list, event, any) ==
            Calls(list[..n], event, any) +
            if (e.cb != 0 || e.fcb != 0 || e.scb != 0) && (e.event == event || e.event == any)
            then [if e.cb != 0 then CallCb(e.cb, event)
                  else if e.fcb != 0 then CallFcb(e.fcb, event) else CallScb(e.scb, event)]
            else []
  {
  }

  /** Exactly the entries with a callback that are registered for this event or for
      every event are called, once each, in the order of the list: the plain callback
      if there is one, else the function object, else the system callback. */
  lemma {:induction false} CallsAre(list: seq<Entry>, event: nat, any: nat) returns (at: seq<nat>)
    ensures |at| == |Calls(list, event, any)|
    ensures forall k :: 0 <= k < |at| ==> at[k] < |list|
    ensures forall k, l :: 0 <= k < l < |at| ==> at[k] < at[l]
    ensures forall j: nat :: j < |list| ==>
              (j in at <==> && (list[j].cb != 0 || list[j].fcb != 0 || list[j].scb != 0)
                            && (list[j].event == event || list[j].event == any))
    ensures forall k :: 0 <= k < |at| ==>
              var e := list[at[k]];
              Calls(list, event, any)[k] == if e.cb != 0 then CallCb(e.cb, event)
                                            else if e.fcb != 0 then CallFcb(e.fcb, event) else CallScb(e.scb, event)
    decreases |list|
  {
    hide Calls;
    if list == [] {
      CallsNone(event, any);
      return [];
    }
    var n := |list| - 1;
    var init := list[..n];
    CallsSnoc(list, event, any);
    at := CallsAre(init, event, any);
    assert forall j: nat :: j < n ==> init[j] == list[j];
    if && (list[n].cb != 0 || list[n].fcb != 0 || list[n].scb != 0)
       && (list[n].event == event || list[n].event == any)
    {
      OneMoreIndex(at, n);
      at := at + [n];
    }
  }

  lemma {:induction false} CallsComeFrom(list: seq<Entry>, event: nat, any: nat)
    ensures forall c :: c in Calls(list, event, any) ==>
              exists e :: e in list && Listens(e, event, any) && c == CallOf(e, event)
    decreases |list|
  {
    if list != [] {
      var n := |list| - 1;
      CallsComeFrom(list[..n], event, any);
      forall c | c in Calls(list, event, any)
        ensures exists e :: e in list && Listens(e, event, any) && c == CallOf(e, event)
      {
        if c in Calls(list[..n], event, any) {
          var e :| e in list[..n] && Listens(e, event, any) && c == CallOf(e, event);
          assert e in list;
        } else {
          assert list[n] in list;
        }
      }
    }
  }

  /** After a removal by callback that met no neighbouring matches, the callback is
      no longer called for that event, unless it also listens to every event. */
  lemma {:induction false} RemovedIsSilent(list: seq<Entry>, cb: nat, event: nat, any: nat)
    requires cb != 0 && !Adjacent(list, Matching(RemoveCb(cb, event)))
    requires forall e :: e in list && e.cb == cb ==> e.event != any || any == event
    ensures CallCb(cb, event) !in Calls(AfterRemoval(list, Matching(RemoveCb(cb, event))), event, any)
  {
    var p := Matching(RemoveCb(cb, event));
    var after := AfterRemoval(list, p);
    AllRemovedIff(list, p);
    KeptMembers(list, p, |list|);
    CallsComeFrom(after, event, any);
    forall e | e in after && Listens(e, event, any) ensures CallOf(e, event) != CallCb(cb, event) {
      assert !p(e) && e in list;
    }
  }
}

/** The event handler registry of WiFiGenericClass. */
module EventRegistry {
  import opened Bytes
  import opened RemovalSpec

  const ARDUINO_EVENT_WIFI_STA_DISCONNECTED: nat := 5
  const ARDUINO_EVENT_WIFI_STA_GOT_IP: nat := 7
  const ARDUINO_EVENT_MAX: nat := 40

  datatype StationStatus = Idle | ConnFail | GotIp

  class WiFiGeneric {
    var cbEventList: seq<Entry>
    var currentId: nat
    const hasEventGroup: bool       // whether the event group could be created
    var connectedBit: bool          // STA_CONNECTED_BIT in that group
    var status: StationStatus       // the last status reported to the station class
    ghost var registrations: nat    // how many were carried out

    ghost function Now(): Registry
      reads this
    {
      Registry(cbEventList, currentId)
    }

    ghost predicate Valid()
      reads this
    {
      Counted(Now(), registrations)
    }

    constructor (hasEventGroup: bool)
      ensures Valid() && cbEventList == [] && currentId == 1 && registrations == 0
      ensures this.hasEventGroup == hasEventGroup && !connectedBit && status == Idle
    {
      this.hasEventGroup := hasEventGroup;
      cbEventList := [];
      currentId := 1;
      connectedBit := false;
      status := Idle;
      registrations := 0;
    }

    /** The three overloads differ in which one of the callbacks is set. The id is
        new and above all others as long as the counter has not wrapped. */
    method OnEvent(cb: nat, fcb: nat, scb: nat, event: nat) returns (id: nat)
      requires Valid()
      modifies this`cbEventList, this`currentId, this`registrations
      ensures Valid() && Now() == Step(old(Now()), Register(cb, fcb, scb, event))
      ensures registrations == old(registrations) + if Registers(Register(cb, fcb, scb, event)) then 1 else 0
      ensures id == if cb == 0 && fcb == 0 && scb == 0 then 0 else old(currentId)
      ensures cb == 0 && fcb == 0 && scb == 0 ==> cbEventList == old(cbEventList) && currentId == old(currentId)
      ensures !(cb == 0 && fcb == 0 && scb == 0) ==>
                && cbEventList == old(cbEventList) + [Entry(old(currentId), cb, fcb, scb, event)]
                && currentId == (old(currentId) + 1) % 0x1_0000_0000
      ensures Registers(Register(cb, fcb, scb, event)) && registrations < 0x1_0000_0000 ==>
                id == registrations && forall e :: e in old(cbEventList) ==> 0 < e.id < id
    {
      if cb == 0 && fcb == 0 && scb == 0 {
        return 0;
      }
      RegisterCounted(Now(), Register(cb, fcb, scb, event), registrations);
      var newEventHandler := Entry(currentId, cb, fcb, scb, event);
      currentId := (currentId + 1) % SIZE_MOD;
      cbEventList := cbEventList + [newEventHandler];
      registrations := registrations + 1;
      return newEventHandler.id;
    }

    /** The loop that the three removals share: erase inside an index loop. */
    method EraseMatching(ghost op: Op, p: Match)
      requires Valid() && !op.Register? && p == Matching(op)
      modifies this`cbEventList
      ensures Valid() && cbEventList == AfterRemoval(old(cbEventList), p)
    {
      hide Kept, RunBefore, Counted, Matching;
      ghost var list, o := cbEventList, 0;
      KeptNone(list, p);
      var i := 0;
      while i < |cbEventList|
        invariant o <= |list| && cbEventList == Kept(list, p, o) + list[o..]
        invariant i == |Kept(list, p, o)| || (o == |list| && i > |cbEventList|)
        invariant o < |list| ==> RunBefore(list, p, o) % 2 == 0
        decreases |list| - o
      {
        if p(list[o]) {
          PassErases(list, p, o);
        } else {
          PassKeeps(list, p, o);
        }
        var entry := cbEventList[i];
        if p(entry) {
          cbEventList := cbEventList[..i] + cbEventList[i + 1..];
          o := if o + 1 < |list| then o + 2 else o + 1;
        } else {
          o := o + 1;
        }
        i := i + 1;
      }
      RemoveCounted(Registry(list, currentId), op, registrations);
      assert Now() == Registry(list, currentId).(list := AfterRemoval(list, p));
    }

    method RemoveEventCb(cb: nat, event: nat) returns (ghost kept: seq<nat>)
      requires Valid()
      modifies this`cbEventList
      ensures Valid() && Now() == Step(old(Now()), RemoveCb(cb, event)) && |kept| == |cbEventList|
      ensures forall k :: 0 <= k < |kept| ==>
                kept[k] < |old(cbEventList)| && cbEventList[k] == old(cbEventList)[kept[k]]
      ensures forall k, l :: 0 <= k < l < |kept| ==> kept[k] < kept[l]
      ensures var list := old(cbEventList);
              && (forall j: nat :: j < |list| && !(cb != 0 && list[j].cb == cb && list[j].event == event) ==> j in kept)
              && (|list| > 0 && cb != 0 && list[0].cb == cb && list[0].event == event ==> 0 !in kept)
              && (forall i: nat, j: nat {:trigger i in kept, j in kept} ::
                    j == i + 1 < |list| && cb != 0 && list[j].cb == cb && list[j].event == event ==>
                      (j in kept <==> i !in kept))
    {
      hide Matching, AfterRemoval;
      if cb != 0 {
        EraseMatching(RemoveCb(cb, event), Matching(RemoveCb(cb, event)));
      }
      kept := LeftCb(old(cbEventList), cb, event);
    }

    method RemoveEventScb(scb: nat, event: nat) returns (ghost kept: seq<nat>)
      requires Valid()
      modifies this`cbEventList
      ensures Valid() && Now() == Step(old(Now()), RemoveScb(scb, event)) && |kept| == |cbEventList|
      ensures forall k :: 0 <= k < |kept| ==>
                kept[k] < |old(cbEventList)| && cbEventList[k] == old(cbEventList)[kept[k]]
      ensures forall k, l :: 0 <= k < l < |kept| ==> kept[k] < kept[l]
      ensures var list := old(cbEventList);
              && (forall j: nat ::
                    j < |list| && !(scb != 0 && list[j].scb == scb && list[j].event == event) ==> j in kept)
              && (|list| > 0 && scb != 0 && list[0].scb == scb && list[0].event == event ==> 0 !in kept)
              && (forall i: nat, j: nat {:trigger i in kept, j in kept} ::
                    j == i + 1 < |list| && scb != 0 && list[j].scb == scb && list[j].event == event ==>
                      (j in kept <==> i !in kept))
    {
      hide Matching, AfterRemoval;
      if scb != 0 {
        EraseMatching(RemoveScb(scb, event), Matching(RemoveScb(scb, event)));
      }
      kept := LeftScb(old(cbEventList), scb, event);
    }

    method RemoveEventId(id: nat) returns (ghost kept: seq<nat>)
      requires Valid()
      modifies this`cbEventList
      ensures Valid() && Now() == Step(old(Now()), RemoveId(id)) && |kept| == |cbEventList|
      ensures forall k :: 0 <= k < |kept| ==>
                kept[k] < |old(cbEventList)| && cbEventList[k] == old(cbEventList)[kept[k]]
      ensures forall k, l :: 0 <= k < l < |kept| ==> kept[k] < kept[l]
      ensures var list := old(cbEventList);
              && (forall j: nat :: j < |list| && list[j].id != id ==> j in kept)
              && (|list| > 0 && list[0].id == id ==> 0 !in kept)
              && (forall i: nat, j: nat {:trigger i in kept, j in kept} ::
                    j == i + 1 < |list| && list[j].id == id ==> (j in kept <==> i !in kept))
      ensures registrations < SIZE_MOD ==> cbEventList == WithoutId(old(cbEventList), id)
    {
      hide Matching, AfterRemoval, Kept, WithoutId, Ordered, Stays;
      IdExact(Now(), registrations, id);
      EraseMatching(RemoveId(id), Matching(RemoveId(id)));
      kept := LeftId(old(cbEventList), id);
    }

    /** The loop over the handlers. */
    method Dispatch(event: nat) returns (called: seq<Call>)
      ensures called == Calls(cbEventList, event, ARDUINO_EVENT_MAX)
    {
      called := [];
      for i := 0 to |cbEventList|
        invariant called == Calls(cbEventList[..i], event, ARDUINO_EVENT_MAX)
      {
        assert cbEventList[..i + 1][..i] == cbEventList[..i];
        var entry := cbEventList[i];
        if entry.cb != 0 || entry.fcb != 0 || entry.scb != 0 {
          if entry.event == event || entry.event == ARDUINO_EVENT_MAX {
            if entry.cb != 0 {
              called := called + [CallCb(entry.cb, event)];
            } else if entry.fcb != 0 {
              called := called + [CallFcb(entry.fcb, event)];
            } else {
              called := called + [CallScb(entry.scb, event)];
            }
          }
        }
      }
      assert cbEventList[..|cbEventList|] == cbEventList;
    }

    /** _eventCallback: what is recorded about the connection, and which handlers
        are called, in order. Losing the connection does not clear the bit. */
    method EventCallback(event: Option<nat>) returns (called: seq<Call>, ghost at: seq<nat>)
      modifies this`status, this`connectedBit
      ensures event.None? ==> called == [] && status == old(status) && connectedBit == old(connectedBit)
      ensures event.Some? ==>
                && |at| == |called|
                && (forall k :: 0 <= k < |at| ==> at[k] < |cbEventList|)
                && (forall k, l :: 0 <= k < l < |at| ==> at[k] < at[l])
                && (forall j: nat :: j < |cbEventList| ==>
                      var e := cbEventList[j];
                      (j in at <==> && (e.cb != 0 || e.fcb != 0 || e.scb != 0)
                                    && (e.event == event.value || e.event == 40)))
                && (forall k :: 0 <= k < |at| ==>
                      var e := cbEventList[at[k]];
                      called[k] == if e.cb != 0 then CallCb(e.cb, event.value)
                                   else if e.fcb != 0 then CallFcb(e.fcb, event.value)
                                   else CallScb(e.scb, event.value))
      ensures event.Some? ==>
                && called == Calls(cbEventList, event.value, ARDUINO_EVENT_MAX)
                && (connectedBit <==> old(connectedBit) || (event.value == 7 && hasEventGroup))
                && status == (if event.value == 7 then GotIp else if event.value == 5 then ConnFail else old(status))
    {
      at := [];
      if event.None? {
        called := [];
        return;
      }
      if event.value == ARDUINO_EVENT_WIFI_STA_GOT_IP {
        status := GotIp;
        if hasEventGroup {
          connectedBit := true;
        }
      } else if event.value == ARDUINO_EVENT_WIFI_STA_DISCONNECTED {
        status := ConnFail;
      }
      called := Dispatch(event.value);
      at := CallsAre(cbEventList, event.value, ARDUINO_EVENT_MAX);
    }
  }

  /** Performs one call on the registry. */
  method Perform(w: WiFiGeneric, op: Op)
    requires w.Valid()
    modifies w
    ensures w.Valid() && w.Now() == Step(old(w.Now()), op)
    ensures w.registrations == old(w.registrations) + if Registers(op) then 1 else 0
  {
    match op
    case Register(cb, fcb, scb, event) => var _ := w.OnEvent(cb, fcb, scb, event);
    case RemoveCb(cb, event) => ghost var _ := w.RemoveEventCb(cb, event);
    case RemoveScb(scb, event) => ghost var _ := w.RemoveEventScb(scb, event);
    case RemoveId(id) => ghost var _ := w.RemoveEventId(id);
  }

  /** Any list of calls on a new registry is a run; with fewer than 2^32
      registrations among them, ids are distinct, nonzero and increasing. */
  method PerformAll(w: WiFiGeneric, ops: seq<Op>)
    requires w.Valid() && w.cbEventList == [] && w.registrations == 0
    modifies w
    ensures w.Valid() && w.Now() == Run(old(w.Now()), ops) && w.registrations == Registrations(ops)
    ensures Registrations(ops) < SIZE_MOD ==>
              Increasing(w.cbEventList) && forall e :: e in w.cbEventList ==> 0 < e.id <= Registrations(ops)
  {
    hide Step, Counted;
    ghost var start := w.Now();
    assert ops[0..] == ops;
    for i := 0 to |ops|
      invariant w.Valid() && Run(start, ops) == Run(w.Now(), ops[i..])
      invariant Registrations(ops) == w.registrations + Registrations(ops[i..])
    {
      assert ops[i..][0] == ops[i] && ops[i..][1..] == ops[i + 1..];
      Perform(w, ops[i]);
    }
    if w.registrations < SIZE_MOD {
      CountedMeans(w.Now(), w.registrations);
    }
  }
}
