/** Which access point a scan leads to, said without the loops. */
module Selection {
  import opened Bytes

  const INT_MIN: int := -0x8000_0000

  datatype AP = AP(ssid: string, passphrase: Option<string>)

  datatype Net = Net(ssid: string, rssi: int, open: bool, bssid: seq<byte>, channel: int)

  datatype Choice = Choice(ap: AP, rssi: int, channel: int, bssid: seq<byte>)

  /** The last-added entry with this SSID. */
  function Known(list: seq<AP>, ssid: string): (r: Option<AP>)
    ensures r.None? <==> forall a :: a in list ==> a.ssid != ssid
    ensures r.Some? ==> r.value in list && r.value.ssid == ssid
  {
    if list == [] then None
    else
      var n := |list| - 1;
      if list[n].ssid == ssid then Some(list[n]) else Known(list[..n], ssid)
  }

  /** Later entries for the same SSID replace earlier ones. */
  lemma {:induction false} KnownIsLast(list: seq<AP>, ssid: string)
    ensures Known(list, ssid).Some? ==>
              exists i :: 0 <= i < |list| && list[i] == Known(list, ssid).value
                          && forall j :: i < j < |list| ==> list[j].ssid != ssid
    decreases |list|
  {
    if list != [] {
      var n := |list| - 1;
      if list[n].ssid != ssid && Known(list, ssid).Some? {
        KnownIsLast(list[..n], ssid);
        var i :| 0 <= i < n && list[..n][i] == Known(list, ssid).value
                 && forall j :: i < j < n ==> list[..n][j].ssid != ssid;
        forall j | i < j < |list| ensures list[j].ssid != ssid {
          assert j < n ==> list[..n][j] == list[j];
        }
        assert list[i] == Known(list, ssid).value;
      }
    }
  }

  /** A network the device could join: known, and open or with a passphrase in
      the entry that counts. */
  predicate Joinable(list: seq<AP>, n: Net) {
    Known(list, n.ssid).Some? && (n.open || Known(list, n.ssid).value.passphrase.Some?)
  }

  /** The scan compares with a signal strength that starts at INT_MIN. */
  predicate Eligible(list: seq<AP>, n: Net) { Joinable(list, n) && n.rssi > INT_MIN }

  function ChoiceOf(list: seq<AP>, n: Net): Choice
    requires Joinable(list, n)
  {
    Choice(Known(list, n.ssid).value, n.rssi, n.channel, n.bssid)
  }

  ghost predicate IsBest(list: seq<AP>, scan: seq<Net>, i: nat) {
    && i < |scan| && Eligible(list, scan[i])
    && (forall j :: 0 <= j < |scan| && Eligible(list, scan[j]) ==> scan[j].rssi <= scan[i].rssi)
    && (forall j :: 0 <= j < i && Eligible(list, scan[j]) ==> scan[j].rssi < scan[i].rssi)
  }

  ghost predicate IsChoice(list: seq<AP>, scan: seq<Net>, c: Option<Choice>) {
    match c
    case None => forall i :: 0 <= i < |scan| ==> !Eligible(list, scan[i])
    case Some(choice) => exists i: nat :: IsBest(list, scan, i) && choice == ChoiceOf(list, scan[i])
  }

  /** There is exactly one choice for every list and every scan. */
  lemma {:induction false} ChoiceUnique(list: seq<AP>, scan: seq<Net>, c: Option<Choice>, d: Option<Choice>)
    requires IsChoice(list, scan, c) && IsChoice(list, scan, d)
    ensures c == d
  {
    if c.Some? && d.Some? {
      var i: nat :| IsBest(list, scan, i) && c.value == ChoiceOf(list, scan[i]);
      var j: nat :| IsBest(list, scan, j) && d.value == ChoiceOf(list, scan[j]);
      assert i == j;
    }
  }

  /** Something is chosen exactly when a joinable network has a signal above
      INT_MIN; a joinable network at INT_MIN itself is passed over. */
  lemma {:induction false} ChosenIff(list: seq<AP>, scan: seq<Net>, c: Option<Choice>)
    requires IsChoice(list, scan, c)
    ensures c.Some? <==> exists i :: 0 <= i < |scan| && Joinable(list, scan[i]) && scan[i].rssi > INT_MIN
  {
    if c.None? {
      forall i | 0 <= i < |scan| && Joinable(list, scan[i]) ensures scan[i].rssi <= INT_MIN {
        assert !Eligible(list, scan[i]);
      }
    } else {
      var i: nat :| IsBest(list, scan, i) && c.value == ChoiceOf(list, scan[i]);
      assert Joinable(list, scan[i]) && scan[i].rssi > INT_MIN;
    }
  }

  /** Entry `x` is the last one with this SSID, so it is the one that counts. */
  lemma {:induction false} LastIsKnown(list: seq<AP>, ssid: string, x: nat)
    requires x < |list| && list[x].ssid == ssid && forall y :: x < y < |list| ==> list[y].ssid != ssid
    ensures Known(list, ssid) == Some(list[x])
    decreases |list|
  {
    var n := |list| - 1;
    if x < n {
      assert list[n].ssid != ssid;
      forall y | x < y < n ensures list[..n][y].ssid != ssid {
        assert list[..n][y] == list[y];
      }
      LastIsKnown(list[..n], ssid, x);
    }
  }

  lemma {:induction false} KnownEntry(list: seq<AP>, ssid: string) returns (x: nat)
    requires Known(list, ssid).Some?
    ensures x < |list| && list[x] == Known(list, ssid).value && list[x].ssid == ssid
    ensures forall y :: x < y < |list| ==> list[y].ssid != ssid
  {
    KnownIsLast(list, ssid);
    var i :| 0 <= i < |list| && list[i] == Known(list, ssid).value
             && forall j :: i < j < |list| ==> list[j].ssid != ssid;
    x := i;
  }

  /** The choice in full, on the list and the scan: network `at` with entry `entry`,
      the last one for its SSID, is open or has a passphrase there, and no other such
      network is stronger, nor as strong and earlier. */
  lemma {:induction false} ChoiceMeans(list: seq<AP>, scan: seq<Net>, c: Option<Choice>) returns (at: nat, entry: nat)
    requires IsChoice(list, scan, c)
    ensures c.None? ==>
              forall i, x :: && 0 <= i < |scan| && 0 <= x < |list| && list[x].ssid == scan[i].ssid
                             && (forall y :: x < y < |list| ==> list[y].ssid != scan[i].ssid)
                             && (scan[i].open || list[x].passphrase.Some?) ==>
                scan[i].rssi <= -0x8000_0000
    ensures c.Some? ==>
              && at < |scan| && entry < |list| && list[entry].ssid == scan[at].ssid
              && (forall y :: entry < y < |list| ==> list[y].ssid != scan[at].ssid)
              && (scan[at].open || list[entry].passphrase.Some?) && scan[at].rssi > -0x8000_0000
              && c.value == Choice(list[entry], scan[at].rssi, scan[at].channel, scan[at].bssid)
              && forall i, x :: && 0 <= i < |scan| && 0 <= x < |list| && list[x].ssid == scan[i].ssid
                                && (forall y :: x < y < |list| ==> list[y].ssid != scan[i].ssid)
                                && (scan[i].open || list[x].passphrase.Some?) ==>
                   scan[i].rssi <= scan[at].rssi && (i < at ==> scan[i].rssi < scan[at].rssi)
  {
    hide Known;
    at, entry := 0, 0;
    forall i, x | && 0 <= i < |scan| && 0 <= x < |list| && list[x].ssid == scan[i].ssid
                  && (forall y :: x < y < |list| ==> list[y].ssid != scan[i].ssid)
                  && (scan[i].open || list[x].passphrase.Some?)
      ensures Joinable(list, scan[i])
    {
      LastIsKnown(list, scan[i].ssid, x);
    }
    if c.Some? {
      var i: nat :| IsBest(list, scan, i) && c.value == ChoiceOf(list, scan[i]);
      at := i;
      entry := KnownEntry(list, scan[i].ssid);
    }
  }

  /** The scan result is kept in an int8_t. */
  function Considered(scan: seq<Net>): seq<Net> {
    if |scan| % 256 >= 128 then [] else scan[..|scan| % 256]
  }

  lemma {:induction false} ConsideredAllIff(scan: seq<Net>)
    ensures Considered(scan) == scan <==> |scan| <= 127
    ensures Considered(scan) == if |scan| % 256 <= 127 then scan[..|scan| % 256] else []
  {
  }
}

/** The class WiFiMulti. */
module Multi {
  import opened Bytes
  import opened Selection

  /** What the inner loop makes of one more network. */
  function Better(list: seq<AP>, best: Option<Choice>, n: Net): Option<Choice> {
    if Joinable(list, n) && n.rssi > (if best.Some? then best.value.rssi else INT_MIN)
    then Some(ChoiceOf(list, n)) else best
  }

  lemma {:induction false} OneMore(list: seq<AP>, scan: seq<Net>, n: Net, best: Option<Choice>)
    requires IsChoice(list, scan, best)
    ensures IsChoice(list, scan + [n], Better(list, best, n))
  {
    var all := scan + [n];
    if Better(list, best, n) != best {
      forall j | 0 <= j < |scan| && Eligible(list, all[j]) ensures all[j].rssi < n.rssi {
        assert all[j] == scan[j];
      }
      assert IsBest(list, all, |scan|);
    } else if best.Some? {
      var i: nat :| IsBest(list, scan, i) && best.value == ChoiceOf(list, scan[i]);
      assert all[i] == scan[i];
      forall j | 0 <= j < |all| && Eligible(list, all[j])
        ensures all[j].rssi <= all[i].rssi && (j < i ==> all[j].rssi < all[i].rssi)
      {
        assert j < |scan| ==> all[j] == scan[j];
      }
      assert IsBest(list, all, i);
    }
  }

  class WiFiMulti {
    var apList: seq<AP>

    constructor ()
      ensures apList == []
    {
      apList := [];
    }

    method AddAP(ssid: Option<string>, passphrase: Option<string>) returns (ok: bool)
      modifies this
      ensures ok <==> ssid.Some? && 0 < |ssid.value| <= 31 && (passphrase.Some? ==> |passphrase.value| <= 64)
      ensures !ok ==> apList == old(apList)
      ensures ok ==>
                && apList == old(apList) + [AP(ssid.value, if passphrase == Some("") then None else passphrase)]
                && Known(apList, ssid.value) == Some(apList[|apList| - 1])
    {
      if ssid.None? || |ssid.value| == 0 || |ssid.value| > 31 {
        return false;
      }
      if passphrase.Some? && |passphrase.value| > 64 {
        return false;
      }
      var newAP;
      if passphrase.Some? && |passphrase.value| != 0 {
        newAP := AP(ssid.value, passphrase);
      } else {
        newAP := AP(ssid.value, None);
      }
      apList := apList + [newAP];
      return true;
    }

    /** The inner loop of run: the list is searched from the end for the SSID. */
    method Consider(n: Net, before: Option<Choice>, bestNetworkDb: int) returns (best: Option<Choice>)
      requires bestNetworkDb == if before.Some? then before.value.rssi else INT_MIN
      ensures best == Better(apList, before, n)
    {
      best := before;
      var x := |apList|;
      assert apList[..|apList|] == apList;
      while x > 0
        invariant 0 <= x <= |apList| && Known(apList, n.ssid) == Known(apList[..x], n.ssid)
        invariant best == before
      {
        var entry := apList[x - 1];
        assert apList[..x][..x - 1] == apList[..x - 1];
        if n.ssid == entry.ssid {
          if n.rssi > bestNetworkDb {
            if n.open || entry.passphrase.Some? {
              best := Some(Choice(entry, n.rssi, n.channel, n.bssid));
            }
          }
          break;
        }
        x := x - 1;
      }
    }

    /** The two loops of run. */
    method Choose(scan: seq<Net>) returns (best: Option<Choice>, ghost at: nat, ghost entry: nat)
      requires forall n :: n in scan ==> n.rssi >= -0x8000_0000
      ensures IsChoice(apList, Considered(scan), best)
      ensures best.None? ==>
                var seen := if |scan| % 256 <= 127 then scan[..|scan| % 256] else [];
                forall i, x :: && 0 <= i < |seen| && 0 <= x < |apList| && apList[x].ssid == seen[i].ssid
                               && (forall y :: x < y < |apList| ==> apList[y].ssid != seen[i].ssid)
                               && (seen[i].open || apList[x].passphrase.Some?) ==>
                  seen[i].rssi <= -0x8000_0000
      ensures best.Some? ==>
                var seen := if |scan| % 256 <= 127 then scan[..|scan| % 256] else [];
                && at < |seen| && entry < |apList| && apList[entry].ssid == seen[at].ssid
                && (forall y :: entry < y < |apList| ==> apList[y].ssid != seen[at].ssid)
                && (seen[at].open || apList[entry].passphrase.Some?) && seen[at].rssi > -0x8000_0000
                && best.value == Choice(apList[entry], seen[at].rssi, seen[at].channel, seen[at].bssid)
                && forall i, x :: && 0 <= i < |seen| && 0 <= x < |apList| && apList[x].ssid == seen[i].ssid
                                  && (forall y :: x < y < |apList| ==> apList[y].ssid != seen[i].ssid)
                                  && (seen[i].open || apList[x].passphrase.Some?) ==>
                     seen[i].rssi <= seen[at].rssi && (i < at ==> seen[i].rssi < seen[at].rssi)
    {
      hide IsBest, Better, Considered;
      best, at, entry := None, 0, 0;
      var bestNetworkDb := INT_MIN;
      var scanResult := if |scan| % 256 >= 128 then |scan| % 256 - 256 else |scan| % 256;
      ghost var seen := Considered(scan);
      ConsideredAllIff(scan);
      if scanResult < 0 {
        at, entry := ChoiceMeans(apList, seen, best);
        return;
      }
      var i := 0;
      while i < scanResult
        invariant 0 <= i <= scanResult
        invariant IsChoice(apList, seen[..i], best)
        invariant bestNetworkDb == if best.Some? then best.value.rssi else INT_MIN
      {
        var n := scan[i];
        ghost var before := best;
        best := Consider(n, best, bestNetworkDb);
        bestNetworkDb := if best.Some? then best.value.rssi else INT_MIN;
        assert seen[..i + 1] == seen[..i] + [n];
        OneMore(apList, seen[..i], n, before);
        i := i + 1;
      }
      assert seen[..i] == seen;
      at, entry := ChoiceMeans(apList, seen, best);
    }
  }
}
