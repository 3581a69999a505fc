/** Domain names: the wire form, the dotted form and the comparison form. */
module DnsNames {
  import opened Bytes

  type Label = seq<byte>

  const DOT: byte := 46
  const WWW: seq<byte> := [119, 119, 119, 46]

  // ---- Wire form: length-prefixed labels and a zero byte ------------------

  function EncodeName(labels: seq<Label>): (r: seq<byte>)
    requires forall l :: l in labels ==> |l| < 256
    ensures |r| >= 1
  {
    if labels == [] then [0] else [|labels[0]|] + labels[0] + EncodeName(labels[1..])
  }

  /** The labels that a walk over the length bytes from `at` finds; None when the
      walk leaves the packet. Every nonzero byte counts as a length. */
  function RawName(p: seq<byte>, at: nat): (r: Option<seq<Label>>)
    ensures r.Some? ==> at < |p| && forall l :: l in r.value ==> 0 < |l| < 256
    decreases |p| - at
  {
    if at >= |p| then None
    else if p[at] == 0 then Some([])
    else if at + 1 + p[at] > |p| then None
    else
      var rest := RawName(p, at + 1 + p[at]);
      if rest.None? then None else Some([p[at + 1..at + 1 + p[at]]] + rest.value)
  }

  function RawLength(p: seq<byte>, at: nat): nat
    requires RawName(p, at).Some?
  {
    |EncodeName(RawName(p, at).value)|
  }

  lemma {:induction false} RawNameUnfolds(p: seq<byte>, at: nat)
    requires RawName(p, at).Some? && p[at] != 0
    ensures var next := at + 1 + p[at];
            && next <= |p| && RawName(p, next).Some?
            && RawName(p, at).value == [p[at + 1..next]] + RawName(p, next).value
            && EncodeName(RawName(p, at).value) == [p[at]] + p[at + 1..next] + EncodeName(RawName(p, next).value)
  {
    var labels := RawName(p, at).value;
    assert labels[1..] == RawName(p, at + 1 + p[at]).value;
  }

  lemma {:induction false} RawNameEnds(p: seq<byte>, at: nat)
    requires at < |p| && p[at] == 0
    ensures RawName(p, at) == Some([]) && EncodeName([]) == [0] == p[at..at + 1]
  {
  }

  /** The walk is right: what it walked over is the encoding of what it found. */
  lemma {:induction false} RawNameIsEncoded(p: seq<byte>, at: nat)
    requires RawName(p, at).Some?
    ensures at + RawLength(p, at) <= |p|
    ensures p[at..at + RawLength(p, at)] == EncodeName(RawName(p, at).value)
    decreases |p| - at
  {
    hide EncodeName, RawName;
    if p[at] == 0 {
      RawNameEnds(p, at);
    } else {
      var next := at + 1 + p[at];
      RawNameUnfolds(p, at);
      RawNameIsEncoded(p, next);
      var end := next + RawLength(p, next);
      assert [p[at]] == p[at..at + 1];
      SliceJoin(p, at, at + 1, next);
      SliceJoin(p, at, next, end);
    }
  }

  /** One step of a walk over the length bytes. */
  lemma {:induction false} WalkStep(p: seq<byte>, at: nat)
    requires RawName(p, at).Some?
    ensures at + RawLength(p, at) <= |p| && RawLength(p, at) >= 1
    ensures p[at] == 0 ==> RawName(p, at).value == [] && RawLength(p, at) == 1
    ensures p[at] != 0 ==>
              var next := at + 1 + p[at];
              && next < |p| && RawName(p, next).Some?
              && RawName(p, at).value == [p[at + 1..next]] + RawName(p, next).value
              && RawLength(p, at) == 1 + p[at] as int + RawLength(p, next)
    ensures p[at] != 0 <==> RawName(p, at).value != []
  {
    RawNameIsEncoded(p, at);
    if p[at] != 0 {
      RawNameUnfolds(p, at);
    }
  }

  lemma {:induction false} Regroup(a: seq<byte>, b: seq<byte>, c: seq<byte>, d: seq<byte>, e: seq<byte>)
    ensures a + (b + c + d) + e == (a + b + c) + d + e
  {
  }

  lemma {:induction false} LabelInPlace(pre: seq<byte>, l: Label, rest: seq<byte>, post: seq<byte>)
    requires |l| < 256
    ensures var p := pre + ([|l|] + l + rest) + post;
            && |p| >= |pre| + 1 + |l| && p[|pre|] == |l| && p[|pre| + 1..|pre| + 1 + |l|] == l
            && p == (pre + [|l|] + l) + rest + post
  {
    Regroup(pre, [|l|], l, rest, post);
  }

  /** And complete: every encoded name is found, whatever surrounds it. */
  lemma {:induction false} EncodedIsRawName(pre: seq<byte>, labels: seq<Label>, post: seq<byte>)
    requires forall l :: l in labels ==> 0 < |l| < 256
    ensures RawName(pre + EncodeName(labels) + post, |pre|) == Some(labels)
    decreases |labels|
  {
    var p := pre + EncodeName(labels) + post;
    if labels == [] {
      assert p[|pre|] == 0;
    } else {
      var l := labels[0];
      var pre', rest := pre + [|l|] + l, EncodeName(labels[1..]);
      EncodedIsRawName(pre', labels[1..], post);
      LabelInPlace(pre, l, rest, post);
      assert p == pre' + rest + post;
      assert labels == [l] + labels[1..];
    }
  }

  // ---- Dotted form ---------------------------------------------------------

  function Join(labels: seq<Label>): seq<byte> {
    if labels == [] then []
    else if |labels| == 1 then labels[0]
    else labels[0] + [DOT] + Join(labels[1..])
  }

  /** Dots stand exactly between the labels. */
  lemma {:induction false} JoinAppend(x: seq<Label>, y: seq<Label>)
    ensures Join([]) == [] && (|x| == 1 ==> Join(x) == x[0])
    ensures x != [] && y != [] ==> Join(x + y) == Join(x) + [46] + Join(y)
    decreases |x|
  {
    if x != [] && y != [] {
      assert (x + y)[1..] == x[1..] + y;
      if |x| > 1 {
        JoinAppend(x[1..], y);
        assert x[0] + [DOT] + (Join(x[1..]) + [46] + Join(y)) == (x[0] + [DOT] + Join(x[1..])) + [46] + Join(y);
      } else {
        assert x[1..] + y == y;
      }
    }
  }

  lemma {:induction false} JoinStep(before: seq<byte>, first: Label, rest: seq<Label>)
    ensures before + Join([first] + rest) ==
            if rest == [] then before + first else (before + first) + [DOT] + Join(rest)
  {
    assert ([first] + rest)[1..] == rest;
  }

  // ---- Comparison form -----------------------------------------------------

  function LowerByte(b: byte): byte { if 65 <= b <= 90 then b + 32 else b }

  /** String::toLowerCase. */
  function Lower(s: seq<byte>): (r: seq<byte>)
    ensures |r| == |s|
  {
    seq(|s|, i requires 0 <= i < |s| => LowerByte(s[i]))
  }

  /** Lower case byte by byte: the letters 65 to 90 move up by 32, nothing else
      changes; so two names agree exactly when they differ in letter case only. */
  lemma {:induction false} LowerAt(s: seq<byte>, i: nat)
    requires i < |s|
    ensures Lower(s)[i] == if 65 <= s[i] <= 90 then s[i] as int + 32 else s[i]
  {
  }

  lemma {:induction false} SameButForCase(x: seq<byte>, y: seq<byte>)
    ensures Lower(x) == Lower(y) <==>
              && |x| == |y|
              && forall i :: 0 <= i < |x| ==>
                   || x[i] == y[i]
                   || (65 <= x[i] <= 90 && y[i] == x[i] as int + 32)
                   || (65 <= y[i] <= 90 && x[i] == y[i] as int + 32)
  {
    if |x| == |y| {
      forall i | 0 <= i < |x|
        ensures Lower(x)[i] == Lower(y)[i] <==>
                  || x[i] == y[i]
                  || (65 <= x[i] <= 90 && y[i] == x[i] as int + 32)
                  || (65 <= y[i] <= 90 && x[i] == y[i] as int + 32)
      {
        LowerAt(x, i);
        LowerAt(y, i);
      }
    }
  }

  /** String::replace("www.", ""): left to right, without overlaps. */
  function RemoveWww(s: seq<byte>): seq<byte>
    decreases |s|
  {
    if |s| < 4 then s
    else if s[..4] == WWW then RemoveWww(s[4..])
    else [s[0]] + RemoveWww(s[1..])
  }

  /** downcaseAndRemoveWwwPrefix. */
  function Normalise(s: seq<byte>): seq<byte> { RemoveWww(Lower(s)) }

  predicate WwwAt(s: seq<byte>, i: nat) {
    i + 4 <= |s| && s[i..i + 4] == WWW
  }

  /** Does "www." occur anywhere in `s`? */
  ghost predicate ContainsWww(s: seq<byte>) {
    exists i: nat :: WwwAt(s, i)
  }

  lemma {:induction false} ContainsInTail(s: seq<byte>)
    requires |s| >= 4 && s[..4] != WWW
    ensures ContainsWww(s) <==> ContainsWww(s[1..])
  {
    if ContainsWww(s) {
      var i: nat :| WwwAt(s, i);
      assert i != 0 && s[1..][i - 1..i - 1 + 4] == s[i..i + 4];
      assert WwwAt(s[1..], i - 1);
    }
    if ContainsWww(s[1..]) {
      var i: nat :| WwwAt(s[1..], i);
      assert s[i + 1..i + 1 + 4] == s[1..][i..i + 4];
      assert WwwAt(s, i + 1);
    }
  }

  /** Removal changes a string exactly when there is something to remove. */
  lemma {:induction false} RemovalIsIdentityIff(s: seq<byte>)
    ensures |RemoveWww(s)| <= |s|
    ensures RemoveWww(s) == s <==> !ContainsWww(s)
    decreases |s|
  {
    if |s| >= 4 {
      if s[..4] == WWW {
        RemovalIsIdentityIff(s[4..]);
        assert WwwAt(s, 0);
      } else {
        RemovalIsIdentityIff(s[1..]);
        ContainsInTail(s);
        assert s == [s[0]] + s[1..];
      }
    }
  }

  lemma {:induction false} RemovesAtFront(s: seq<byte>)
    requires |s| >= 4
    ensures s[..4] == WWW ==> RemoveWww(s) == RemoveWww(s[4..])
    ensures s[..4] != WWW ==> RemoveWww(s) == [s[0]] + RemoveWww(s[1..])
  {
  }

  /** The removal in full: the first occurrence, at `k`, goes, and the rest is
      treated alike. */
  lemma {:induction false} RemovesFirst(s: seq<byte>, k: nat)
    requires k + 4 <= |s| && s[k..][..4] == [119, 119, 119, 46]
    requires forall i :: 0 <= i < k ==> s[i..][..4] != [119, 119, 119, 46]
    ensures RemoveWww(s) == s[..k] + RemoveWww(s[k + 4..])
    decreases k
  {
    hide RemoveWww;
    RemovesAtFront(s);
    assert s[0..] == s;
    if k > 0 {
      var t := s[1..];
      forall i | 0 <= i < k ensures t[i..] == s[1 + i..] {
        DropDrop(s, 1, i);
      }
      RemovesFirst(t, k - 1);
      DropDrop(s, 1, k + 3);
      assert s[..k] == [s[0]] + t[..k - 1];
    }
  }

  /** The name the function's own name promises: at most one leading "www." off. */
  function WithoutPrefix(s: seq<byte>): seq<byte> {
    if |s| >= 4 && s[..4] == WWW then s[4..] else s
  }

  /** Removing everywhere is removing the prefix exactly when no further "www."
      follows it anywhere in the name. */
  lemma {:induction false} NormaliseIsPrefixRemovalIff(s: seq<byte>)
    ensures Normalise(s) == WithoutPrefix(Lower(s)) <==> !ContainsWww(WithoutPrefix(Lower(s)))
  {
    var t := Lower(s);
    RemovalIsIdentityIff(WithoutPrefix(t));
    if !(|t| >= 4 && t[..4] == WWW) {
      RemovalIsIdentityIff(t);
    }
  }

  /** "awww.b" comes out as "ab": the match is not anchored at the front. */
  lemma {:induction false} RemovesInTheMiddle()
    ensures Normalise([97, 119, 119, 119, 46, 98]) == [97, 98]
  {
    var s := [97, 119, 119, 119, 46, 98];
    assert Lower(s) == s;
    assert s[1..][..4] == WWW;
    assert s[1..][4..] == [98];
    assert RemoveWww([98]) == [98];
    assert RemoveWww(s[1..]) == [98];
  }

  lemma {:induction false} RemoveShort(s: seq<byte>)
    requires |s| < 4
    ensures RemoveWww(s) == s
  {
  }

  lemma {:induction false} RemovePlain(c: byte, s: seq<byte>)
    requires |s| >= 3 && s[2] != DOT
    ensures RemoveWww([c] + s) == [c] + RemoveWww(s)
  {
    assert ([c] + s)[3] == s[2] && ([c] + s)[1..] == s;
  }

  lemma {:induction false} RemoveLeading(s: seq<byte>)
    ensures RemoveWww(WWW + s) == RemoveWww(s)
  {
    assert (WWW + s)[..4] == WWW && (WWW + s)[4..] == s;
  }

  lemma {:induction false} RemoveInside()
    ensures RemoveWww([119] + ([119] + (WWW + ([119] + ([46] + COM))))) == [119] + ([119] + ([119] + ([46] + COM)))
  {
    hide RemoveWww;
    RemovePlain(46, COM);
    RemovePlain(119, [46] + COM);
    RemoveLeading([119] + ([46] + COM));
    RemovePlain(119, WWW + ([119] + ([46] + COM)));
    RemovePlain(119, [119] + (WWW + ([119] + ([46] + COM))));
    RemoveShort(COM);
  }

  /** "wwwww.w.com" comes out as "www.com", which comes out as "com": a server
      started with the first name does not answer for its own stored domain. */
  lemma {:induction false} NormaliseNotIdempotent()
    ensures var d := [119, 119, 119, 119, 119, 46, 119, 46, 99, 111, 109];
            && Normalise(d) == [119, 119, 119, 46, 99, 111, 109]
            && Normalise(Normalise(d)) == [99, 111, 109]
  {
    hide RemoveWww;
    var d := [119, 119, 119, 119, 119, 46, 119, 46, 99, 111, 109];
    assert Lower(d) == d == [119] + ([119] + (WWW + ([119] + ([46] + COM))));
    RemoveInside();
    var e := [119, 119, 119, 46, 99, 111, 109];
    assert Lower(e) == e == WWW + COM == [119] + ([119] + ([119] + ([46] + COM)));
    RemoveLeading(COM);
    RemoveShort(COM);
  }

  const COM: seq<byte> := [99, 111, 109]

  lemma {:induction false} LowerConcat(x: seq<byte>, y: seq<byte>)
    ensures Lower(x + y) == Lower(x) + Lower(y)
  {
  }

  /** Letter case never matters, and a leading "www" label never matters. */
  lemma {:induction false} NormaliseForgets(domain: seq<byte>, labels: seq<Label>, www: Label)
    requires Lower(Join(labels)) == Lower(domain)
    requires Lower(www + [DOT]) == WWW && labels != []
    ensures Normalise(Join(labels)) == Normalise(domain)
    ensures Normalise(Join([www] + labels)) == Normalise(domain)
  {
    var s := Join([www] + labels);
    assert ([www] + labels)[1..] == labels;
    assert s == (www + [DOT]) + Join(labels);
    LowerConcat(www + [DOT], Join(labels));
    assert Lower(s)[..4] == WWW && Lower(s)[4..] == Lower(domain);
  }
}

/** A parser for messages in the format of section 4.1 of RFC 1035, written from
    the standard and not from the server. */
module DnsFormat {
  import opened Bytes
  import opened DnsNames

  datatype Header = Header(id: nat, qr: nat, opcode: nat, aa: nat, tc: nat, rd: nat,
                           ra: nat, z: nat, rcode: nat,
                           qdcount: nat, ancount: nat, nscount: nat, arcount: nat)

  datatype Question = Question(name: seq<Label>, qtype: nat, qclass: nat)

  datatype Record = Record(name: seq<Label>, rtype: nat, rclass: nat, ttl: nat, rdata: seq<byte>)

  datatype Message = Message(header: Header, questions: seq<Question>,
                             answers: seq<Record>, authority: seq<Record>, additional: seq<Record>)

  function U16(p: seq<byte>, at: nat): nat
    requires at + 2 <= |p|
  {
    p[at] as int * 0x100 + p[at + 1] as int
  }

  function U32(p: seq<byte>, at: nat): nat
    requires at + 4 <= |p|
  {
    U16(p, at) * 0x1_0000 + U16(p, at + 2)
  }

  /** Section 4.1.1. */
  function ParseHeader(p: seq<byte>): Header
    requires |p| >= 12
  {
    Header(U16(p, 0), p[2] / 128, p[2] / 8 % 16, p[2] / 4 % 2, p[2] / 2 % 2, p[2] % 2,
           p[3] / 128, p[3] / 16 % 8, p[3] % 16,
           U16(p, 4), U16(p, 6), U16(p, 8), U16(p, 10))
  }

  /** Section 4.1.4: labels, or a pointer to a name that starts before `bound`.
      Gives the labels and the position after the name. */
  function ParseName(p: seq<byte>, at: nat, bound: nat): (r: Option<(seq<Label>, nat)>)
    ensures r.Some? ==> forall l :: l in r.value.0 ==> 0 < |l| < 64
    decreases bound, |p| - at
  {
    if at >= |p| then None
    else if p[at] == 0 then Some(([], at + 1))
    else if p[at] < 64 then
      if at + 1 + p[at] > |p| then None
      else
        var rest := ParseName(p, at + 1 + p[at], bound);
        if rest.None? then None
        else Some(([p[at + 1..at + 1 + p[at]]] + rest.value.0, rest.value.1))
    else if p[at] >= 192 && at + 1 < |p| then
      var target := (p[at] as int - 192) * 256 + p[at + 1] as int;
      if target >= bound then None
      else
        var there := ParseName(p, target, target);
        if there.None? then None else Some((there.value.0, at + 2))
    else None
  }

  /** Section 2.3.4: a name has at most 255 octets. */
  function ParseShortName(p: seq<byte>, at: nat): Option<(seq<Label>, nat)> {
    var r := ParseName(p, at, at);
    if r.Some? && |EncodeName(r.value.0)| <= 255 then r else None
  }

  /** Section 4.1.2. */
  function ParseQuestions(p: seq<byte>, at: nat, n: nat): Option<(seq<Question>, nat)>
    decreases n
  {
    if n == 0 then Some(([], at))
    else
      var name := ParseShortName(p, at);
      if name.None? || name.value.1 + 4 > |p| then None
      else
        var k := name.value.1;
        var rest := ParseQuestions(p, k + 4, n - 1);
        if rest.None? then None
        else Some(([Question(name.value.0, U16(p, k), U16(p, k + 2))] + rest.value.0, rest.value.1))
  }

  /** Section 4.1.3. */
  function ParseRecords(p: seq<byte>, at: nat, n: nat): Option<(seq<Record>, nat)>
    decreases n
  {
    if n == 0 then Some(([], at))
    else
      var name := ParseShortName(p, at);
      if name.None? || name.value.1 + 10 > |p| then None
      else
        var k := name.value.1;
        var len := U16(p, k + 8);
        if k + 10 + len > |p| then None
        else
          var rest := ParseRecords(p, k + 10 + len, n - 1);
          if rest.None? then None
          else
            var rr := Record(name.value.0, U16(p, k), U16(p, k + 2), U32(p, k + 4), p[k + 10..k + 10 + len]);
            Some(([rr] + rest.value.0, rest.value.1))
  }

  /** A whole message: nothing may follow the last record. */
  function ParseMessage(p: seq<byte>): Option<Message> {
    if |p| < 12 then None
    else
      var h := ParseHeader(p);
      var qs := ParseQuestions(p, 12, h.qdcount);
      if qs.None? then None
      else
        var an := ParseRecords(p, qs.value.1, h.ancount);
        if an.None? then None
        else
          var ns := ParseRecords(p, an.value.1, h.nscount);
          if ns.None? then None
          else
            var ar := ParseRecords(p, ns.value.1, h.arcount);
            if ar.None? || ar.value.1 != |p| then None
            else Some(Message(h, qs.value.0, an.value.0, ns.value.0, ar.value.0))
  }

  /** Without pointers the standard's parser and the length walk find the same name. */
  lemma {:induction false} PlainNameParses(p: seq<byte>, at: nat, bound: nat)
    requires RawName(p, at).Some?
    requires forall l :: l in RawName(p, at).value ==> |l| < 64
    ensures ParseName(p, at, bound) == Some((RawName(p, at).value, at + RawLength(p, at)))
    decreases |p| - at
  {
    if p[at] != 0 {
      var labels, next := RawName(p, at).value, at + 1 + p[at];
      assert labels[0] == p[at + 1..next] && |labels[0]| == p[at];
      assert labels[1..] == RawName(p, next).value;
      forall l | l in RawName(p, next).value ensures |l| < 64 {
        assert l in labels;
      }
      PlainNameParses(p, next, bound);
    }
  }
}
