/** Placing parts in a flash image. */
module Layout {
  import opened Bytes

  datatype Part = Part(data: seq<byte>, ofs: int)

  function End(p: Part): int { p.ofs + |p.data| }

  predicate FitsAt(parts: seq<Part>, size: int, i: nat)
    requires i < |parts|
  {
    End(parts[i]) <= size && parts[i].ofs >= if i == 0 then 0 else End(parts[i - 1])
  }

  /** In the given order each part starts where or after the previous one ended,
      the first one not before 0, and none reaches past `size`. */
  ghost predicate Fits(parts: seq<Part>, size: int) {
    forall i: nat :: i < |parts| ==> FitsAt(parts, size, i)
  }

  lemma {:induction false} OffsetsNonNegative(parts: seq<Part>, size: int, i: nat)
    requires Fits(parts, size) && i < |parts|
    ensures parts[i].ofs >= 0
    decreases i
  {
    assert FitsAt(parts, size, i);
    if i > 0 {
      OffsetsNonNegative(parts, size, i - 1);
    }
  }

  lemma {:induction false} EndsAscend(parts: seq<Part>, size: int, i: nat, j: nat)
    requires Fits(parts, size) && i < j < |parts|
    ensures 0 <= End(parts[i]) <= parts[j].ofs
    decreases j
  {
    assert FitsAt(parts, size, j);
    OffsetsNonNegative(parts, size, i);
    if j > i + 1 {
      EndsAscend(parts, size, i, j - 1);
    }
  }

  function Zeros(n: nat): (r: seq<byte>)
    ensures |r| == n && forall i :: 0 <= i < n ==> r[i] == 0
  {
    seq(n, _ => 0)
  }

  /** Writing a block at a position of a file: the gap before it is zero-filled,
      and writing nothing changes nothing. */
  function WriteAt(file: seq<byte>, pos: nat, data: seq<byte>): (r: seq<byte>)
    ensures data == [] ==> r == file
    ensures data != [] ==> |r| == (if pos + |data| > |file| then pos + |data| else |file|)
    ensures data != [] ==> r[pos..pos + |data|] == data
    ensures forall i :: 0 <= i < |r| && !(pos <= i < pos + |data|) ==> r[i] == if i < |file| then file[i] else 0
  {
    if data == [] then file
    else if pos >= |file| then file + Zeros(pos - |file|) + data
    else file[..pos] + data + if pos + |data| <= |file| then file[pos + |data|..] else []
  }

  predicate Covers(p: Part, a: int) { p.ofs <= a < End(p) }

  /** What an image of `parts` is: every part verbatim at its offset, every other
      byte zero, and no byte after the last part. */
  ghost predicate IsImage(image: seq<byte>, parts: seq<Part>) {
    && (forall i {:trigger parts[i]} :: 0 <= i < |parts| && parts[i].data != [] ==>
          0 <= parts[i].ofs && End(parts[i]) <= |image| && image[parts[i].ofs..End(parts[i])] == parts[i].data)
    && (forall a :: 0 <= a < |image| ==> image[a] == 0 || exists i :: 0 <= i < |parts| && Covers(parts[i], a))
    && (image != [] ==> exists i :: 0 <= i < |parts| && Covers(parts[i], |image| - 1))
  }

  function Place(parts: seq<Part>): (r: seq<byte>)
    requires forall i :: 0 <= i < |parts| ==> parts[i].ofs >= 0
  {
    if parts == [] then []
    else
      var n := |parts| - 1;
      WriteAt(Place(parts[..n]), parts[n].ofs, parts[n].data)
  }

  lemma {:induction false} PlaceNothing()
    ensures Place([]) == []
  {
  }

  lemma {:induction false} PlaceOneMore(parts: seq<Part>, i: nat)
    requires i < |parts| && forall k :: 0 <= k < |parts| ==> parts[k].ofs >= 0
    ensures Place(parts[..i + 1]) == WriteAt(Place(parts[..i]), parts[i].ofs, parts[i].data)
  {
    assert parts[..i + 1][..i] == parts[..i];
  }

  /** The parts of an accepted list do not overlap. */
  lemma {:induction false} PartsDisjoint(parts: seq<Part>, size: int, i: nat, j: nat, a: int)
    requires Fits(parts, size) && i < |parts| && j < |parts| && Covers(parts[i], a) && Covers(parts[j], a)
    ensures i == j
  {
    if i < j {
      EndsAscend(parts, size, i, j);
    } else if j < i {
      EndsAscend(parts, size, j, i);
    }
  }

  lemma {:induction false} InitFits(parts: seq<Part>, size: int)
    requires parts != []
    ensures var n := |parts| - 1; Fits(parts, size) <==> Fits(parts[..n], size) && FitsAt(parts, size, n)
  {
    var n := |parts| - 1;
    var init := parts[..n];
    forall i: nat | i < n ensures FitsAt(init, size, i) <==> FitsAt(parts, size, i) {}
  }

  lemma {:induction false} AllOffsets(parts: seq<Part>, size: int)
    requires Fits(parts, size)
    ensures forall i :: 0 <= i < |parts| ==> parts[i].ofs >= 0
  {
    forall i | 0 <= i < |parts| ensures parts[i].ofs >= 0 {
      OffsetsNonNegative(parts, size, i);
    }
  }

  lemma {:induction false} NothingIsImage()
    ensures IsImage([], [])
  {
  }

  lemma {:induction false} PlaceSnoc(parts: seq<Part>)
    requires parts != [] && forall i :: 0 <= i < |parts| ==> parts[i].ofs >= 0
    ensures var n := |parts| - 1;
            var before, last := Place(parts[..n]), parts[n];
            && Place(parts) == WriteAt(before, last.ofs, last.data)
            && (|before| <= last.ofs ==> |Place(parts)| <= End(last))
            && (parts[..n] == [] ==> before == [])
  {
  }

  lemma {:induction false} FitsAfter(parts: seq<Part>, size: int, length: nat)
    requires parts != [] && Fits(parts, size)
    requires var init := parts[..|parts| - 1]; length <= if init == [] then 0 else End(init[|init| - 1])
    ensures length <= parts[|parts| - 1].ofs && End(parts[|parts| - 1]) <= size
  {
    assert FitsAt(parts, size, |parts| - 1);
  }

  lemma {:induction false} AddPart(init: seq<Part>, last: Part, file: seq<byte>)
    requires IsImage(file, init) && 0 <= last.ofs
    requires init == [] ==> file == []
    requires |file| <= last.ofs
    ensures IsImage(WriteAt(file, last.ofs, last.data), init + [last])
  {
    var parts, image := init + [last], WriteAt(file, last.ofs, last.data);
    assert parts[|init|] == last;
    forall i {:trigger parts[i]} | 0 <= i < |parts| && parts[i].data != []
      ensures 0 <= parts[i].ofs && End(parts[i]) <= |image| && image[parts[i].ofs..End(parts[i])] == parts[i].data
    {
      if i < |init| {
        assert parts[i] == init[i];
        assert image[parts[i].ofs..End(parts[i])] == file[parts[i].ofs..End(parts[i])];
      }
    }
    forall a | 0 <= a < |image|
      ensures image[a] == 0 || exists i :: 0 <= i < |parts| && Covers(parts[i], a)
    {
      if Covers(last, a) {
        assert Covers(parts[|init|], a);
      } else if a < |file| && file[a] != 0 {
        var i :| 0 <= i < |init| && Covers(init[i], a);
        assert Covers(parts[i], a);
      }
    }
    if image != [] {
      if last.data != [] {
        assert Covers(parts[|init|], |image| - 1);
      } else {
        var i :| 0 <= i < |init| && Covers(init[i], |file| - 1);
        assert Covers(parts[i], |image| - 1);
      }
    }
  }

  /** An accepted list gives an image: parts verbatim, gaps zero, within `size`. */
  lemma {:induction false} PlaceIsImage(parts: seq<Part>, size: int)
    requires Fits(parts, size)
    ensures forall i :: 0 <= i < |parts| ==> parts[i].ofs >= 0
    ensures IsImage(Place(parts), parts)
    ensures parts != [] ==> |Place(parts)| <= size
    ensures |Place(parts)| <= if parts == [] then 0 else End(parts[|parts| - 1])
    decreases |parts|
  {
    hide IsImage, Fits, WriteAt, Place;
    AllOffsets(parts, size);
    NothingIsImage();
    if parts == [] {
      PlaceNothing();
    } else {
      var n := |parts| - 1;
      var init := parts[..n];
      InitFits(parts, size);
      PlaceIsImage(init, size);
      PlaceSnoc(parts);
      FitsAfter(parts, size, |Place(init)|);
      AddPart(init, parts[n], Place(init));
      assert init + [parts[n]] == parts;
    }
  }

  // ---- Appending with padding ------------------------------------------------

  function Max0(n: int): nat { if n > 0 then n else 0 }

  function Erased(n: nat): (r: seq<byte>)
    ensures |r| == n && forall i :: 0 <= i < n ==> r[i] == 0xFF
  {
    seq(n, _ => 0xFF)
  }

  /** Where the cursor stands after these parts. */
  function Cursor(parts: seq<Part>): int {
    if parts == [] then 0 else End(parts[|parts| - 1])
  }

  /** By how much the parts before overran the offsets of their successors. */
  function Overrun(parts: seq<Part>): nat {
    if parts == [] then 0
    else
      var n := |parts| - 1;
      Overrun(parts[..n]) + Max0(Cursor(parts[..n]) - parts[n].ofs)
  }

  function Appended(parts: seq<Part>): seq<byte> {
    if parts == [] then []
    else
      var n := |parts| - 1;
      Appended(parts[..n]) + Erased(Max0(parts[n].ofs - Cursor(parts[..n]))) + parts[n].data
  }

  function Padded(parts: seq<Part>, end: nat): seq<byte> {
    Appended(parts) + Erased(Max0(end - Cursor(parts)))
  }

  function TotalOverrun(parts: seq<Part>, end: nat): nat {
    Overrun(parts) + Max0(Cursor(parts) - end)
  }

  /** The output is ahead of the cursor by exactly the overruns so far, for any
      list of offsets, ascending or not. */
  lemma {:induction false} LengthIsCursorPlusOverrun(parts: seq<Part>)
    ensures |Appended(parts)| == Cursor(parts) + Overrun(parts)
    decreases |parts|
  {
    if parts != [] {
      LengthIsCursorPlusOverrun(parts[..|parts| - 1]);
    }
  }

  /** So the finished image is as long as it should be plus all overruns, and it
      has the right length exactly when nothing overran. */
  lemma {:induction false} PaddedLength(parts: seq<Part>, end: nat)
    ensures |Padded(parts, end)| == end + TotalOverrun(parts, end)
    ensures |Padded(parts, end)| == end <==> TotalOverrun(parts, end) == 0
  {
    LengthIsCursorPlusOverrun(parts);
  }

  /** Part `i` lies, verbatim, at its offset plus the overruns up to it. */
  lemma {:induction false} PartPosition(parts: seq<Part>, i: nat)
    requires i < |parts| && forall k :: 0 <= k < |parts| ==> parts[k].ofs >= 0
    ensures var at := parts[i].ofs + Overrun(parts[..i + 1]);
            at + |parts[i].data| <= |Appended(parts)| && Appended(parts)[at..at + |parts[i].data|] == parts[i].data
    decreases |parts|
  {
    hide Overrun;
    var n := |parts| - 1;
    var init := parts[..n];
    LengthIsCursorPlusOverrun(init);
    LengthIsCursorPlusOverrun(parts);
    if i == n {
      assert parts[..i + 1] == parts;
    } else {
      PartPosition(init, i);
      assert init[..i + 1] == parts[..i + 1];
      var at := parts[i].ofs + Overrun(parts[..i + 1]);
      assert Appended(parts)[at..at + |parts[i].data|] == Appended(init)[at..at + |parts[i].data|];
    }
  }

  lemma {:induction false} OverrunGrows(parts: seq<Part>, i: nat)
    requires i <= |parts|
    ensures Overrun(parts[..i]) <= Overrun(parts)
    decreases |parts|
  {
    if i < |parts| {
      var n := |parts| - 1;
      OverrunGrows(parts[..n], i);
      assert parts[..n][..i] == parts[..i];
    } else {
      assert parts[..i] == parts;
    }
  }

  /** Without overruns every part lies at its own offset and every byte that no
      part covers is 0xFF. */
  lemma {:induction false} NoOverrunIsExact(parts: seq<Part>)
    requires Overrun(parts) == 0 && forall k :: 0 <= k < |parts| ==> parts[k].ofs >= 0
    ensures |Appended(parts)| == Cursor(parts)
    ensures forall a :: 0 <= a < |Appended(parts)| ==>
              Appended(parts)[a] == 0xFF || exists i :: 0 <= i < |parts| && Covers(parts[i], a)
    decreases |parts|
  {
    LengthIsCursorPlusOverrun(parts);
    if parts != [] {
      var n := |parts| - 1;
      var init := parts[..n];
      NoOverrunIsExact(init);
      forall a | 0 <= a < |Appended(parts)|
        ensures Appended(parts)[a] == 0xFF || exists i :: 0 <= i < |parts| && Covers(parts[i], a)
      {
        if a >= parts[n].ofs {
          assert Covers(parts[n], a);
        } else if a < |Appended(init)| && Appended(init)[a] != 0xFF {
          var i :| 0 <= i < |init| && Covers(init[i], a);
          assert Covers(parts[i], a);
        }
      }
    }
  }
}

/** t2_combine_qio_ate. */
module T2Image {
  import opened Bytes
  import opened Layout

  /** A file system as the script sees it: the files that exist, by path. */
  type Files = map<string, seq<byte>>

  type Pair = (string, int)

  /** The conversion int(); None is for a text that is not a number. */
  type Conversion = string -> Option<int>

  predicate AllNumbers(args: seq<string>, toInt: Conversion) {
    forall i :: 0 <= i < |args| / 2 ==> toInt(args[2 * i + 1]).Some?
  }

  /** The arguments come as path, offset, path, offset ... */
  function PairsOf(args: seq<string>, toInt: Conversion): seq<Pair>
    requires AllNumbers(args, toInt)
  {
    seq(|args| / 2, i requires 0 <= i < |args| / 2 => (args[2 * i], toInt(args[2 * i + 1]).value))
  }

  predicate AllExist(pairs: seq<Pair>, files: Files) {
    forall i :: 0 <= i < |pairs| ==> pairs[i].0 in files
  }

  function PartsOf(pairs: seq<Pair>, files: Files): (r: seq<Part>)
    requires AllExist(pairs, files)
    ensures |r| == |pairs|
  {
    seq(|pairs|, i requires 0 <= i < |pairs| => Part(files[pairs[i].0], pairs[i].1))
  }

  function TotalSize(parts: seq<Part>): nat {
    if parts == [] then 0 else TotalSize(parts[..|parts| - 1]) + |parts[|parts| - 1].data|
  }

  /** The sum of the sizes never passes the end of the last part, so the final
      size check of the script cannot fail after the others have passed. */
  lemma {:induction false} TotalWithinEnd(parts: seq<Part>, size: int)
    requires Fits(parts, size)
    ensures TotalSize(parts) <= if parts == [] then 0 else End(parts[|parts| - 1])
    ensures parts != [] ==> TotalSize(parts) <= size
    decreases |parts|
  {
    if parts != [] {
      InitFits(parts, size);
      TotalWithinEnd(parts[..|parts| - 1], size);
    }
  }

  lemma {:induction false} NoPairs(pairs: seq<Pair>, files: Files, size: int)
    ensures AllExist(pairs[..0], files) && PartsOf(pairs[..0], files) == []
    ensures Fits([], size) && TotalSize([]) == 0
  {
  }

  lemma {:induction false} OneMorePair(pairs: seq<Pair>, files: Files, i: nat, size: int)
    requires i < |pairs| && AllExist(pairs[..i], files) && pairs[i].0 in files
    requires Fits(PartsOf(pairs[..i], files), size)
    ensures AllExist(pairs[..i + 1], files)
    ensures var before, after := PartsOf(pairs[..i], files), PartsOf(pairs[..i + 1], files);
            && after[i] == Part(files[pairs[i].0], pairs[i].1)
            && TotalSize(after) == TotalSize(before) + |files[pairs[i].0]|
            && (Fits(after, size) <==>
                  End(after[i]) <= size && after[i].ofs >= if i == 0 then 0 else End(before[i - 1]))
    ensures AllExist(pairs, files) && Fits(PartsOf(pairs, files), size) ==> Fits(PartsOf(pairs[..i + 1], files), size)
  {
    var before, after := PartsOf(pairs[..i], files), PartsOf(pairs[..i + 1], files);
    assert after[..i] == before;
    InitFits(after, size);
    if AllExist(pairs, files) && Fits(PartsOf(pairs, files), size) {
      forall k: nat | k <= i ensures FitsAt(after, size, k) {
        assert FitsAt(PartsOf(pairs, files), size, k);
      }
    }
  }

  /** The checking loop: every file exists and the parts fit in the given order. */
  method Check(pairs: seq<Pair>, size: int, files: Files) returns (ok: bool)
    requires pairs != []
    ensures ok <==> AllExist(pairs, files) && Fits(PartsOf(pairs, files), size)
  {
    hide Fits, FitsAt, TotalSize, PartsOf;
    var totalSize, occupied := 0, 0;
    NoPairs(pairs, files, size);
    var i := 0;
    while i < |pairs|
      invariant 0 <= i <= |pairs| && AllExist(pairs[..i], files)
      invariant Fits(PartsOf(pairs[..i], files), size)
      invariant totalSize == TotalSize(PartsOf(pairs[..i], files))
      invariant occupied == if i == 0 then 0 else End(PartsOf(pairs[..i], files)[i - 1])
    {
      var path, ofs := pairs[i].0, pairs[i].1;
      if path !in files {
        return false;
      }
      var fileSize := |files[path]|;
      OneMorePair(pairs, files, i, size);
      if ofs + fileSize > size {
        return false;
      }
      if ofs < occupied {
        return false;
      }
      occupied := ofs + fileSize;
      totalSize := totalSize + fileSize;
      i := i + 1;
    }
    assert pairs[..i] == pairs;
    TotalWithinEnd(PartsOf(pairs, files), size);
    if totalSize > size {
      assert false;
    }
    return true;
  }

  /** None of the paths is the output file's. */
  predicate Apart(pairs: seq<Pair>, outfile: string) {
    forall i :: 0 <= i < |pairs| ==> pairs[i].0 != outfile
  }

  /** The writing loop. The output file is open for writing meanwhile: read as an
      input, it gives whatever has been flushed so far. */
  method Combine(pairs: seq<Pair>, size: int, files: Files, outfile: string) returns (image: seq<byte>)
    requires AllExist(pairs, files) && Fits(PartsOf(pairs, files), size) && pairs != []
    ensures Apart(pairs, outfile) ==> IsImage(image, PartsOf(pairs, files)) && |image| <= size
  {
    hide Fits, IsImage, WriteAt, Place;
    ghost var parts := PartsOf(pairs, files);
    PlaceIsImage(parts, size);
    image := [];
    PlaceNothing();
    var i := 0;
    while i < |pairs|
      invariant 0 <= i <= |pairs| && (Apart(pairs, outfile) ==> image == Place(parts[..i]))
    {
      var data: seq<byte> := *;
      if pairs[i].0 != outfile {
        data := files[pairs[i].0];
      }
      PlaceOneMore(parts, i);
      assert parts[i].ofs == pairs[i].1;
      image := WriteAt(image, pairs[i].1, data);
      i := i + 1;
    }
    assert parts[..i] == parts;
  }

  ghost predicate ArgFits(args: seq<string>, size: int, files: Files, toInt: Conversion, i: int)
    requires AllNumbers(args, toInt) && 0 <= i < |args| / 2
  {
    && args[2 * i] in files
    && toInt(args[2 * i + 1]).value + |files[args[2 * i]]| <= size
    && if i == 0 then toInt(args[1]).value >= 0
       else args[2 * (i - 1)] in files
            && toInt(args[2 * i + 1]).value >= toInt(args[2 * (i - 1) + 1]).value + |files[args[2 * (i - 1)]]|
  }

  lemma {:induction false} AcceptedFits(args: seq<string>, size: int, files: Files, toInt: Conversion, i: nat)
    requires AllNumbers(args, toInt) && i < |args| / 2
    requires AllExist(PairsOf(args, toInt), files) && Fits(PartsOf(PairsOf(args, toInt), files), size)
    ensures ArgFits(args, size, files, toInt, i)
  {
    var pairs := PairsOf(args, toInt);
    assert pairs[i].0 == args[2 * i] && FitsAt(PartsOf(pairs, files), size, i);
    if i > 0 {
      assert pairs[i - 1].0 == args[2 * (i - 1)];
    }
  }

  lemma {:induction false} FittingExist(args: seq<string>, size: int, files: Files, toInt: Conversion)
    requires AllNumbers(args, toInt) && forall i :: 0 <= i < |args| / 2 ==> ArgFits(args, size, files, toInt, i)
    ensures AllExist(PairsOf(args, toInt), files)
  {
    forall i | 0 <= i < |args| / 2 ensures PairsOf(args, toInt)[i].0 in files {
      assert ArgFits(args, size, files, toInt, i);
    }
  }

  lemma {:induction false} FittingAccepted(args: seq<string>, size: int, files: Files, toInt: Conversion, i: nat)
    requires AllNumbers(args, toInt) && i < |args| / 2 && ArgFits(args, size, files, toInt, i)
    requires AllExist(PairsOf(args, toInt), files)
    ensures FitsAt(PartsOf(PairsOf(args, toInt), files), size, i)
  {
    var pairs := PairsOf(args, toInt);
    assert pairs[i].0 == args[2 * i];
    if i > 0 {
      assert pairs[i - 1].0 == args[2 * (i - 1)];
    }
  }

  lemma {:induction false} AcceptedIff(args: seq<string>, size: int, files: Files, toInt: Conversion)
    requires AllNumbers(args, toInt)
    ensures AllExist(PairsOf(args, toInt), files) && Fits(PartsOf(PairsOf(args, toInt), files), size) <==>
            forall i :: 0 <= i < |args| / 2 ==> ArgFits(args, size, files, toInt, i)
  {
    hide AllExist, FitsAt, PartsOf, ArgFits, AllNumbers;
    var pairs := PairsOf(args, toInt);
    if AllExist(pairs, files) && Fits(PartsOf(pairs, files), size) {
      forall i | 0 <= i < |args| / 2 ensures ArgFits(args, size, files, toInt, i) {
        AcceptedFits(args, size, files, toInt, i);
      }
    }
    if forall i :: 0 <= i < |args| / 2 ==> ArgFits(args, size, files, toInt, i) {
      FittingExist(args, size, files, toInt);
      forall i: nat | i < |pairs| ensures FitsAt(PartsOf(pairs, files), size, i) {
        FittingAccepted(args, size, files, toInt, i);
      }
    }
  }

  /** Acceptance, said on the arguments: argument 2 * i names an existing file, and
      argument 2 * i + 1 its offset, which is not below the end of the file before
      and leaves room for it. */
  lemma {:induction false} AcceptedMeans(args: seq<string>, size: int, files: Files, toInt: Conversion)
    requires AllNumbers(args, toInt)
    ensures AllExist(PairsOf(args, toInt), files) && Fits(PartsOf(PairsOf(args, toInt), files), size) <==>
            forall i :: 0 <= i < |args| / 2 ==>
              && args[2 * i] in files
              && toInt(args[2 * i + 1]).value + |files[args[2 * i]]| <= size
              && if i == 0 then toInt(args[1]).value >= 0
                 else args[2 * (i - 1)] in files
                      && toInt(args[2 * i + 1]).value
                         >= toInt(args[2 * (i - 1) + 1]).value + |files[args[2 * (i - 1)]]|
  {
    hide AllExist, Fits, PairsOf, PartsOf;
    AcceptedIff(args, size, files, toInt);
    if forall i :: 0 <= i < |args| / 2 ==> ArgFits(args, size, files, toInt, i) {
      forall i | 0 <= i < |args| / 2
        ensures && args[2 * i] in files
                && toInt(args[2 * i + 1]).value + |files[args[2 * i]]| <= size
                && if i == 0 then toInt(args[1]).value >= 0
                   else args[2 * (i - 1)] in files
                        && toInt(args[2 * i + 1]).value
                           >= toInt(args[2 * (i - 1) + 1]).value + |files[args[2 * (i - 1)]]|
      {
        assert ArgFits(args, size, files, toInt, i);
      }
    } else {
      var i :| 0 <= i < |args| / 2 && !ArgFits(args, size, files, toInt, i);
      assert !(args[2 * i] in files
               && toInt(args[2 * i + 1]).value + |files[args[2 * i]]| <= size
               && if i == 0 then toInt(args[1]).value >= 0
                  else args[2 * (i - 1)] in files
                       && toInt(args[2 * i + 1]).value
                          >= toInt(args[2 * (i - 1) + 1]).value + |files[args[2 * (i - 1)]]|);
    }
  }

  lemma {:induction false} NumbersMean(args: seq<string>, toInt: Conversion)
    ensures AllNumbers(args, toInt) <==> forall i :: 0 <= i < |args| / 2 ==> toInt(args[2 * i + 1]).Some?
  {
  }

  lemma {:induction false} ApartMeans(args: seq<string>, toInt: Conversion, outfile: string)
    requires AllNumbers(args, toInt)
    ensures Apart(PairsOf(args, toInt), outfile) <==> forall i :: 0 <= i < |args| / 2 ==> args[2 * i] != outfile
  {
    var pairs := PairsOf(args, toInt);
    forall i | 0 <= i < |args| / 2 ensures pairs[i].0 == args[2 * i] {}
  }

  /** The image, said on the arguments: file 2 * i lies at offset 2 * i + 1, every byte
      that is not zero belongs to one of the files, and so does the last byte. */
  lemma {:induction false} ImageMeans(args: seq<string>, files: Files, toInt: Conversion, image: seq<byte>)
    requires AllNumbers(args, toInt) && AllExist(PairsOf(args, toInt), files)
    requires IsImage(image, PartsOf(PairsOf(args, toInt), files))
    ensures forall i :: 0 <= i < |args| / 2 ==> args[2 * i] in files
    ensures forall i :: 0 <= i < |args| / 2 ==>
              var ofs, data := toInt(args[2 * i + 1]).value, files[args[2 * i]];
              data != [] ==> 0 <= ofs && ofs + |data| <= |image| && image[ofs..ofs + |data|] == data
    ensures forall a :: 0 <= a < |image| && image[a] != 0 ==>
              exists i :: 0 <= i < |args| / 2
                          && var ofs := toInt(args[2 * i + 1]).value; ofs <= a < ofs + |files[args[2 * i]]|
    ensures image != [] ==>
              exists i :: 0 <= i < |args| / 2
                          && var ofs := toInt(args[2 * i + 1]).value;
                             ofs <= |image| - 1 < ofs + |files[args[2 * i]]|
  {
    var pairs := PairsOf(args, toInt);
    var parts := PartsOf(pairs, files);
    forall i | 0 <= i < |args| / 2
      ensures args[2 * i] in files && parts[i] == Part(files[args[2 * i]], toInt(args[2 * i + 1]).value)
    {
      assert pairs[i].0 == args[2 * i];
    }
    forall a | 0 <= a < |image| && image[a] != 0
      ensures exists i :: 0 <= i < |args| / 2
                          && var ofs := toInt(args[2 * i + 1]).value; ofs <= a < ofs + |files[args[2 * i]]|
    {
      var i :| 0 <= i < |parts| && Covers(parts[i], a);
      assert toInt(args[2 * i + 1]).value <= a;
    }
    if image != [] {
      var i :| 0 <= i < |parts| && Covers(parts[i], |image| - 1);
      assert toInt(args[2 * i + 1]).value <= |image| - 1;
    }
  }

  datatype Outcome = Written | Refused | NotANumber   // True, False, and the exception of int()

  /** The script on its pairs: accepted lists are written, others touch nothing. */
  method CombinePairs(outfile: string, size: int, args: seq<string>, files: Files, toInt: Conversion)
    returns (result: Outcome, files': Files)
    ensures result == NotANumber <==> |args| >= 2 && |args| % 2 == 0 && !AllNumbers(args, toInt)
    ensures result == Written <==>
              && |args| >= 2 && |args| % 2 == 0 && AllNumbers(args, toInt)
              && AllExist(PairsOf(args, toInt), files)
              && Fits(PartsOf(PairsOf(args, toInt), files), size)
    ensures result != Written ==> files' == files
    ensures result == Written ==>
              && (forall p :: p in files && p != outfile ==> p in files' && files'[p] == files[p])
              && files'.Keys == files.Keys + {outfile}
              && (Apart(PairsOf(args, toInt), outfile) ==>
                    && IsImage(files'[outfile], PartsOf(PairsOf(args, toInt), files))
                    && |files'[outfile]| <= size)
  {
    hide Fits, IsImage;
    if |args| < 2 || |args| % 2 != 0 {
      return Refused, files;
    }
    var i := 0;
    while i < |args| / 2
      invariant i <= |args| / 2 && forall k :: 0 <= k < i ==> toInt(args[2 * k + 1]).Some?
    {
      if toInt(args[2 * i + 1]).None? {
        return NotANumber, files;
      }
      i := i + 1;
    }
    var pairs := PairsOf(args, toInt);
    var ok := Check(pairs, size, files);
    if !ok {
      return Refused, files;
    }
    var image := Combine(pairs, size, files, outfile);
    return Written, files[outfile := image];
  }

  /** Accepts exactly the lists of existing files that fit in the given order, and
      then puts out a file, the image as long as no input is the output file
      itself; otherwise nothing is touched. */
  method CombineQioAte(outfile: string, size: int, args: seq<string>, files: Files, toInt: Conversion)
    returns (result: Outcome, files': Files)
    ensures result == NotANumber <==>
              && |args| >= 2 && |args| % 2 == 0
              && exists i :: 0 <= i < |args| / 2 && toInt(args[2 * i + 1]).None?
    ensures result == Written <==>
              && |args| >= 2 && |args| % 2 == 0
              && (forall i :: 0 <= i < |args| / 2 ==> toInt(args[2 * i + 1]).Some?)
              && forall i :: 0 <= i < |args| / 2 ==>
                   && args[2 * i] in files
                   && toInt(args[2 * i + 1]).value + |files[args[2 * i]]| <= size
                   && if i == 0 then toInt(args[1]).value >= 0
                      else args[2 * (i - 1)] in files
                           && toInt(args[2 * i + 1]).value
                              >= toInt(args[2 * (i - 1) + 1]).value + |files[args[2 * (i - 1)]]|
    ensures result != Written ==> files' == files
    ensures result == Written ==>
              && (forall p :: p in files && p != outfile ==> p in files' && files'[p] == files[p])
              && files'.Keys == files.Keys + {outfile}
    ensures result == Written && (forall i :: 0 <= i < |args| / 2 ==> args[2 * i] != outfile) ==>
              var image := files'[outfile];
              && |image| <= size
              && (forall i :: 0 <= i < |args| / 2 ==>
                    && args[2 * i] in files && toInt(args[2 * i + 1]).Some?
                    && var ofs, data := toInt(args[2 * i + 1]).value, files[args[2 * i]];
                       data != [] ==> 0 <= ofs && ofs + |data| <= |image| && image[ofs..ofs + |data|] == data)
              && (forall a :: 0 <= a < |image| && image[a] != 0 ==>
                    exists i :: 0 <= i < |args| / 2
                                && var ofs := toInt(args[2 * i + 1]).value; ofs <= a < ofs + |files[args[2 * i]]|)
              && (image != [] ==>
                    exists i :: 0 <= i < |args| / 2
                                && var ofs := toInt(args[2 * i + 1]).value;
                                   ofs <= |image| - 1 < ofs + |files[args[2 * i]]|)
  {
    hide AllNumbers, PairsOf, PartsOf, AllExist, Apart, Fits, IsImage;
    result, files' := CombinePairs(outfile, size, args, files, toInt);
    NumbersMean(args, toInt);
    if AllNumbers(args, toInt) {
      AcceptedMeans(args, size, files, toInt);
      ApartMeans(args, toInt, outfile);
      if result == Written && Apart(PairsOf(args, toInt), outfile) {
        ImageMeans(args, files, toInt, files'[outfile]);
      }
    }
  }
}

/** The layout loop of esp32_image_gen. */
module Esp32Image {
  import opened Bytes
  import opened Layout

  const OFFSET_BOOTLOADER: nat := 0x1000
  const OFFSET_PARTITIONS: nat := 0x8000
  const OFFSET_OTA_DATA_INITIAL: nat := 0xd000
  const OFFSET_APPLICATION: nat := 0x10000
  const OFFSET_END: nat := 0x190000

  method LayOut(parts: seq<Part>, end: nat) returns (out: seq<byte>)
    ensures out == Padded(parts, end)
  {
    out := [];
    var curOffset := 0;
    var i := 0;
    while i < |parts|
      invariant 0 <= i <= |parts|
      invariant out == Appended(parts[..i]) && curOffset == Cursor(parts[..i])
    {
      assert parts[..i + 1][..i] == parts[..i];
      out := out + Erased(Max0(parts[i].ofs - curOffset));
      curOffset := parts[i].ofs;
      out := out + parts[i].data;
      curOffset := curOffset + |parts[i].data|;
      i := i + 1;
    }
    assert parts[..i] == parts;
    out := out + Erased(Max0(end - curOffset));
  }

  function Slots(bootloader: seq<byte>, partitions: seq<byte>, otaData: seq<byte>, app: seq<byte>): (r: seq<Part>)
    ensures |r| == 4
  {
    [Part(bootloader, OFFSET_BOOTLOADER), Part(partitions, OFFSET_PARTITIONS),
     Part(otaData, OFFSET_OTA_DATA_INITIAL), Part(app, OFFSET_APPLICATION)]
  }

  lemma {:induction false} InPlace(parts: seq<Part>, i: nat)
    requires i < |parts| && Overrun(parts) == 0 && forall k :: 0 <= k < |parts| ==> parts[k].ofs >= 0
    ensures parts[i].ofs + |parts[i].data| <= |Appended(parts)|
    ensures Appended(parts)[parts[i].ofs..parts[i].ofs + |parts[i].data|] == parts[i].data
  {
    OverrunGrows(parts, i + 1);
    PartPosition(parts, i);
  }

  lemma {:induction false} FourParts(a: seq<byte>, b: seq<byte>, c: seq<byte>, d: seq<byte>)
    ensures TotalOverrun(Slots(a, b, c, d), OFFSET_END) ==
            Max0(|a| - 0x7000) + Max0(|b| - 0x5000) + Max0(|c| - 0x3000) + Max0(|d| - 0x180000)
  {
    var pa, pb := Part(a, OFFSET_BOOTLOADER), Part(b, OFFSET_PARTITIONS);
    var pc, pd := Part(c, OFFSET_OTA_DATA_INITIAL), Part(d, OFFSET_APPLICATION);
    assert [pa, pb, pc, pd][..3] == [pa, pb, pc];
    assert [pa, pb, pc][..2] == [pa, pb];
    assert [pa, pb][..1] == [pa];
    assert [pa][..0] == [];
    assert Overrun([pa]) == 0;
    assert Overrun([pa, pb]) == Max0(|a| - 0x7000);
    assert Overrun([pa, pb, pc]) == Max0(|a| - 0x7000) + Max0(|b| - 0x5000);
  }

  /** The image has its full size exactly when each of the four files fits its
      slot; then each lies verbatim at its offset, with 0xFF between. */
  ghost predicate IsFlashImage(out: seq<byte>, bootloader: seq<byte>, partitions: seq<byte>,
                               otaData: seq<byte>, app: seq<byte>)
  {
    && |out| >= OFFSET_END
    && (|out| == OFFSET_END <==>
          |bootloader| <= 0x7000 && |partitions| <= 0x5000 && |otaData| <= 0x3000 && |app| <= 0x180000)
    && (|out| == OFFSET_END ==>
          && out[OFFSET_BOOTLOADER..OFFSET_BOOTLOADER + |bootloader|] == bootloader
          && out[OFFSET_PARTITIONS..OFFSET_PARTITIONS + |partitions|] == partitions
          && out[OFFSET_OTA_DATA_INITIAL..OFFSET_OTA_DATA_INITIAL + |otaData|] == otaData
          && out[OFFSET_APPLICATION..OFFSET_APPLICATION + |app|] == app
          && forall a :: 0 <= a < OFFSET_END ==>
               || out[a] == 0xFF
               || exists i :: 0 <= i < 4 && Covers(Slots(bootloader, partitions, otaData, app)[i], a))
  }

  /** Such an image, byte by byte. */
  lemma {:induction false} FlashImageMeans(out: seq<byte>, bootloader: seq<byte>, partitions: seq<byte>,
                                           otaData: seq<byte>, app: seq<byte>)
    requires IsFlashImage(out, bootloader, partitions, otaData, app)
    ensures |out| >= 0x190000
    ensures |out| == 0x190000 <==>
            |bootloader| <= 0x7000 && |partitions| <= 0x5000 && |otaData| <= 0x3000 && |app| <= 0x180000
    ensures |out| == 0x190000 ==>
              && out[0x1000..0x1000 + |bootloader|] == bootloader && out[0x8000..0x8000 + |partitions|] == partitions
              && out[0xd000..0xd000 + |otaData|] == otaData && out[0x10000..0x10000 + |app|] == app
    ensures |out| == 0x190000 ==>
              forall a :: 0 <= a < |out| && out[a] != 0xFF ==>
                || 0x1000 <= a < 0x1000 + |bootloader|
                || 0x8000 <= a < 0x8000 + |partitions|
                || 0xd000 <= a < 0xd000 + |otaData|
                || 0x10000 <= a < 0x10000 + |app|
  {
    if |out| == 0x190000 {
      forall a | 0 <= a < |out| && out[a] != 0xFF
        ensures || 0x1000 <= a < 0x1000 + |bootloader|
                || 0x8000 <= a < 0x8000 + |partitions|
                || 0xd000 <= a < 0xd000 + |otaData|
                || 0x10000 <= a < 0x10000 + |app|
      {
        var i :| 0 <= i < 4 && Covers(Slots(bootloader, partitions, otaData, app)[i], a);
      }
    }
  }

  /** With the fixed offsets the layout loop puts out such an image. */
  method WriteImage(bootloader: seq<byte>, partitions: seq<byte>, otaData: seq<byte>, app: seq<byte>)
    returns (out: seq<byte>)
    ensures IsFlashImage(out, bootloader, partitions, otaData, app)
  {
    var parts := Slots(bootloader, partitions, otaData, app);
    out := LayOut(parts, OFFSET_END);
    PaddedLength(parts, OFFSET_END);
    FourParts(bootloader, partitions, otaData, app);
    if TotalOverrun(parts, OFFSET_END) == 0 {
      InPlace(parts, 0);
      InPlace(parts, 1);
      InPlace(parts, 2);
      InPlace(parts, 3);
      NoOverrunIsExact(parts);
      assert out[..|Appended(parts)|] == Appended(parts);
    }
  }

  /** A file by its directory and its name there. */
  datatype Path = Path(dir: string, name: string)

  type Files = map<Path, seq<byte>>

  datatype ChipInfo = ChipInfo(toolsPath: string, outputPath: string, sketchName: string, sketchVersion: string) {
    function Bootloader(): Path { Path(toolsPath, "bootloader.bin") }
    function Partitions(): Path { Path(toolsPath, "partition-table.bin") }
    function OtaData(): Path { Path(toolsPath, "ota_data_initial.bin") }
    function App(): Path { Path(outputPath, sketchName + "_app.bin") }
    function Qio(): Path { Path(outputPath, sketchName + "_QIO_" + sketchVersion + ".bin") }
    function Ua(): Path { Path(outputPath, sketchName + "_UA_" + sketchVersion + ".bin") }
    function Ug(): Path { Path(outputPath, sketchName + "_UG_" + sketchVersion + ".bin") }
  }

  /** No name among the tools has an underscore followed by 'a', 'Q' or 'U'. */
  lemma {:induction false} ToolNames()
    ensures forall i :: 0 <= i < |"bootloader.bin"| ==> "bootloader.bin"[i] != '_'
    ensures forall i :: 0 <= i < |"partition-table.bin"| ==> "partition-table.bin"[i] != '_'
    ensures forall i :: 0 <= i < |"ota_data_initial.bin"| - 1 && "ota_data_initial.bin"[i] == '_' ==>
              "ota_data_initial.bin"[i + 1] !in "aQU"
  {
  }

  /** Whatever the sketch is called, no output of the script is one of its inputs
      or another output, even in one directory. */
  lemma {:induction false} NamesApart(c: ChipInfo)
    ensures c.Qio() !in {c.Bootloader(), c.Partitions(), c.OtaData(), c.App()}
    ensures c.Ua() !in {c.Bootloader(), c.Partitions(), c.OtaData(), c.App(), c.Qio()}
    ensures c.Ug() !in {c.Bootloader(), c.Partitions(), c.OtaData(), c.App(), c.Qio(), c.Ua()}
    ensures c.App() !in {c.Bootloader(), c.Partitions(), c.OtaData()}
  {
    var k := |c.sketchName|;
    assert c.App().name[k] == '_' && c.App().name[k + 1] == 'a';
    assert c.Qio().name[k] == '_' && c.Qio().name[k + 1] == 'Q';
    assert c.Ua().name[k] == '_' && c.Ua().name[k + 1] == 'U' && c.Ua().name[k + 2] == 'A';
    assert c.Ug().name[k] == '_' && c.Ug().name[k + 1] == 'U' && c.Ug().name[k + 2] == 'G';
    ToolNames();
  }

  /** esp32_image_gen: gives up without touching anything unless all four inputs
      exist; otherwise the image is written, the application is kept as two copies
      of itself, and its own file is gone. */
  method ImageGen(c: ChipInfo, files: Files) returns (ok: bool, files': Files)
    ensures ok <==>
              && Path(c.toolsPath, "bootloader.bin") in files && Path(c.toolsPath, "partition-table.bin") in files
              && Path(c.toolsPath, "ota_data_initial.bin") in files
              && Path(c.outputPath, c.sketchName + "_app.bin") in files
    ensures !ok ==> files' == files
    ensures ok ==>
              var app := Path(c.outputPath, c.sketchName + "_app.bin");
              var qio := Path(c.outputPath, c.sketchName + "_QIO_" + c.sketchVersion + ".bin");
              var ua := Path(c.outputPath, c.sketchName + "_UA_" + c.sketchVersion + ".bin");
              var ug := Path(c.outputPath, c.sketchName + "_UG_" + c.sketchVersion + ".bin");
              && files'.Keys == files.Keys - {app} + {qio, ua, ug}
              && (forall p :: p in files' && p !in {qio, ua, ug} ==> p in files && files'[p] == files[p])
              && files'[ua] == files'[ug] == files[app]
              && IsFlashImage(files'[qio], files[Path(c.toolsPath, "bootloader.bin")],
                              files[Path(c.toolsPath, "partition-table.bin")],
                              files[Path(c.toolsPath, "ota_data_initial.bin")], files[app])
  {
    hide IsFlashImage;
    NamesApart(c);
    var app, qio, ua, ug := c.App(), c.Qio(), c.Ua(), c.Ug();
    if c.Bootloader() !in files || c.Partitions() !in files || c.OtaData() !in files || app !in files {
      return false, files;
    }
    var out := WriteImage(files[c.Bootloader()], files[c.Partitions()], files[c.OtaData()], files[app]);
    files' := files[qio := out];
    files' := files'[ua := files'[app]];
    files' := files'[ug := files'[app]];
    files' := files' - {app};
    return true, files';
  }
}
