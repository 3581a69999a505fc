/** The string operations the URL splitter is made of. */
module Text {

  /** String::indexOf. */
  function IndexOf(s: string, c: char): (r: int)
    ensures -1 <= r < |s|
    ensures r >= 0 ==> s[r] == c && c !in s[..r]
    ensures r == -1 <==> c !in s
  {
    if s == "" then -1
    else if s[0] == c then 0
    else
      var r := IndexOf(s[1..], c);
      if r < 0 then -1
      else
        assert s[..r + 1] == [s[0]] + s[1..][..r];
        r + 1
  }

  /** String::remove(0, n). */
  function RemoveFront(s: string, n: nat): string { if n >= |s| then "" else s[n..] }

  /** What stands before the first `c`: everything, when there is none. */
  function Head(s: string, c: char): (h: string)
    ensures |h| <= |s| && c !in h
    ensures |h| < |s| <==> c in s
  {
    if IndexOf(s, c) >= 0 then s[..IndexOf(s, c)] else s
  }

  /** What stands behind the first `c`. */
  function Tail(s: string, c: char): string
    requires c in s
  {
    s[|Head(s, c)| + 1..]
  }

  lemma {:induction false} IndexSplits(s: string, c: char)
    ensures IndexOf(s, c) < |s|
    ensures IndexOf(s, c) >= 0 <==> c in s
    ensures c in s ==> s[..IndexOf(s, c)] == Head(s, c) && RemoveFront(s, IndexOf(s, c) + 1) == Tail(s, c)
    ensures c in s ==> IndexOf(s, c) == |Head(s, c)|
    ensures c !in s ==> Head(s, c) == s && IndexOf(s, c) == -1
  {
  }

  lemma {:induction false} HeadAndTail(s: string, c: char)
    ensures c !in Head(s, c)
    ensures c in s ==> s == Head(s, c) + [c] + Tail(s, c)
    ensures c in s ==> s[|Head(s, c)|..] == [c] + Tail(s, c)
    ensures c !in s ==> Head(s, c) == s
  {
  }

  lemma {:induction false} FrontRemoved(s: string, n: nat)
    requires n <= |s|
    ensures RemoveFront(s, n) == s[n..]
  {
  }

  /** The first `c` of `x`, `c`, `y` is the one in the middle when `x` has none. */
  lemma {:induction false} CutAt(x: string, c: char, y: string)
    requires c !in x
    ensures c in x + [c] + y && Head(x + [c] + y, c) == x && Tail(x + [c] + y, c) == y
    decreases |x|
  {
    var s := x + [c] + y;
    if x == "" {
      assert s[0] == c;
    } else {
      CutAt(x[1..], c, y);
      assert s[1..] == x[1..] + [c] + y && s[0] == x[0] && x[0] in x;
    }
    assert IndexOf(s, c) == |x|;
    assert s[..|x|] == x && s[|x| + 1..] == y;
  }

  /** A `c` inside `x` hides whatever follows `x`. */
  lemma {:induction false} CutInside(x: string, c: char, y: string)
    requires c in x
    ensures c in x + y && Head(x + y, c) == Head(x, c)
    decreases |x|
  {
    var s := x + y;
    assert s[0] == x[0];
    if x[0] != c {
      assert s[1..] == x[1..] + y;
      assert x == [x[0]] + x[1..];
      CutInside(x[1..], c, y);
      assert IndexOf(s, c) == 1 + IndexOf(s[1..], c);
      assert IndexOf(x, c) == 1 + IndexOf(x[1..], c);
      assert |Head(s[1..], c)| == IndexOf(s[1..], c) && |Head(x[1..], c)| == IndexOf(x[1..], c);
    }
    assert IndexOf(s, c) == IndexOf(x, c);
    assert s[..IndexOf(x, c)] == x[..IndexOf(x, c)];
  }

  predicate IsDigit(c: char) { '0' <= c <= '9' }

  function DigitOf(n: nat): char
    requires n < 10
  {
    '0' + n as char
  }

  /** Decimal digits of a number, as the URL is printed. */
  function Decimal(n: nat): (s: string)
    ensures s != "" && forall c :: c in s ==> IsDigit(c)
    decreases n
  {
    if n < 10 then [DigitOf(n)] else Decimal(n / 10) + [DigitOf(n % 10)]
  }

  function Value(s: string, acc: nat): nat {
    if s == "" || !IsDigit(s[0]) then acc else Value(s[1..], acc * 10 + (s[0] as int - '0' as int))
  }

  /** Spaces, a sign, and digits up to the first other character. */
  function Number(s: string): int {
    if s != "" && s[0] in " \t\n\r" then Number(s[1..])
    else if s != "" && s[0] == '-' then -(Value(s[1..], 0) as int)
    else if s != "" && s[0] == '+' then Value(s[1..], 0)
    else Value(s, 0)
  }

  const LONG_MAX: int := 0x7FFF_FFFF

  /** String::toInt: a number too large for the 32 bits of a long is cut to the
      largest or the smallest one. */
  function ToInt(s: string): int {
    if Number(s) > LONG_MAX then LONG_MAX else if Number(s) < -LONG_MAX - 1 then -LONG_MAX - 1 else Number(s)
  }

  lemma {:induction false} ValueAppend(x: string, y: string, acc: nat)
    requires forall c :: c in x ==> IsDigit(c)
    ensures Value(x + y, acc) == Value(y, Value(x, acc))
    decreases |x|
  {
    if x == "" {
      assert x + y == y;
    } else {
      assert (x + y)[1..] == x[1..] + y;
      assert x[0] in x;
      forall c | c in x[1..] ensures IsDigit(c) {
        assert c in x;
      }
      ValueAppend(x[1..], y, acc * 10 + (x[0] as int - '0' as int));
    }
  }

  /** The digits, most significant first. */
  lemma {:induction false} DecimalIs(n: nat)
    ensures n < 10 ==> Decimal(n) == ["0123456789"[n]]
    ensures n >= 10 ==> Decimal(n) == Decimal(n / 10) + ["0123456789"[n % 10]]
  {
  }

  lemma {:induction false} ValueStops(x: string, y: string, acc: nat)
    ensures Value(x + "@" + y, acc) == Value(x, acc)
    decreases |x|
  {
    var s := x + "@" + y;
    assert !IsDigit('@');
    if x == "" {
      assert s[0] == '@';
    } else {
      assert s[0] == x[0] && s[1..] == x[1..] + "@" + y;
      if IsDigit(x[0]) {
        ValueStops(x[1..], y, acc * 10 + (x[0] as int - '0' as int));
      }
    }
  }

  /** A number is read up to the first character that is not one of its digits. */
  lemma {:induction false} NumberStops(x: string, y: string)
    ensures Number(x + "@" + y) == Number(x) && ToInt(x + "@" + y) == ToInt(x)
    decreases |x|
  {
    hide Value;
    var s := x + "@" + y;
    ValueStops(x, y, 0);
    if x == "" {
      assert s[0] == '@';
    } else {
      assert s[0] == x[0] && s[1..] == x[1..] + "@" + y;
      ValueStops(x[1..], y, 0);
      NumberStops(x[1..], y);
    }
  }

  lemma {:induction false} ValueOfDecimal(n: nat)
    ensures Value(Decimal(n), 0) == n
    decreases n
  {
    if n < 10 {
      assert [DigitOf(n)][1..] == "";
    } else {
      ValueOfDecimal(n / 10);
      ValueAppend(Decimal(n / 10), [DigitOf(n % 10)], 0);
      assert [DigitOf(n % 10)][1..] == "";
    }
  }

  lemma {:induction false} DecimalReads(n: nat)
    requires n <= LONG_MAX
    ensures ToInt(Decimal(n)) == n
  {
    var s := Decimal(n);
    assert s[0] in s && IsDigit(s[0]);
    ValueOfDecimal(n);
  }
}

/** URLs, how they are printed and how the client splits them. */
module Url {
  import opened Bytes
  import opened Text

  type port = p: nat | p < 0x1_0000

  datatype Parts = Parts(protocol: string, auth: Option<string>, host: string, port: Option<port>, path: string)

  /** A URL to print: its path is empty or starts with a slash. */
  predicate Printable(u: Parts) { u.path == "" || u.path[0] == '/' }

  function PortText(port: Option<port>): string { if port.Some? then ":" + Decimal(port.value) else "" }

  function HostPort(u: Parts): string { u.host + PortText(u.port) }

  function Authority(u: Parts): string {
    (if u.auth.Some? then u.auth.value + "@" else "") + HostPort(u)
  }

  function Print(u: Parts): string { u.protocol + "://" + Authority(u) + u.path }

  function SplitHost(protocol: string, auth: Option<string>, host: string, path: string): Parts {
    Parts(protocol, auth, Head(host, ':'),
          if ':' in host then Some(ToInt(Tail(host, ':')) % 0x1_0000) else None, path)
  }

  function SplitRest(protocol: string, authority: string, path: string): Parts {
    if '@' in authority then SplitHost(protocol, Some(Head(authority, '@')), Tail(authority, '@'), path)
    else SplitHost(protocol, None, authority, path)
  }

  lemma {:induction false} PrintIs(u: Parts)
    ensures Print(u) ==
            u.protocol + "://" + ((if u.auth.Some? then u.auth.value + "@" else "") +
                                  (u.host + if u.port.Some? then ":" + Decimal(u.port.value) else "")) + u.path
  {
  }

  /** beginInternal: None when there is no colon. The port is a uint16_t. */
  function Split(url: string): Option<Parts> {
    if ':' !in url then None
    else
      var rest := RemoveFront(url, |Head(url, ':')| + 3);
      Some(SplitRest(Head(url, ':'), Head(rest, '/'), if '/' in rest then rest[|Head(rest, '/')|..] else "/"))
  }

  lemma {:induction false} SplitFails(url: string)
    ensures Split(url).Some? <==> ':' in url
  {
  }

  /** The authority: userinfo up to the first '@', host up to the first colon behind. */
  lemma {:induction false} RestMeans(protocol: string, authority: string, path: string)
    returns (user: string, hostPort: string, digits: string)
    ensures var p := SplitRest(protocol, authority, path);
            && p.protocol == protocol && p.path == path
            && '@' !in user
            && (if '@' in authority then authority == user + "@" + hostPort
                else user == "" && authority == hostPort)
            && ':' !in p.host
            && (if ':' in hostPort
                then hostPort == p.host + ":" + digits && p.port == Some(ToInt(digits) % 0x1_0000)
                else digits == "" && hostPort == p.host && p.port == None)
  {
    hide Head, Tail, ToInt;
    HeadAndTail(authority, '@');
    user := if '@' in authority then Head(authority, '@') else "";
    hostPort := if '@' in authority then Tail(authority, '@') else authority;
    HeadAndTail(hostPort, ':');
    digits := if ':' in hostPort then Tail(hostPort, ':') else "";
  }

  lemma {:induction false} ProtocolIs(url: string)
    requires ':' in url
    ensures var protocol := Head(url, ':');
            && ':' !in protocol && protocol + ":" <= url
            && RemoveFront(url, |protocol| + 3) == if |protocol| + 3 <= |url| then url[|protocol| + 3..] else ""
  {
    hide Head, Tail;
    HeadAndTail(url, ':');
  }

  lemma {:induction false} PathIs(rest: string)
    ensures var authority := Head(rest, '/');
            && '/' !in authority
            && if '/' in rest
               then var path := rest[|authority|..]; rest == authority + path && path != "" && path[0] == '/'
               else rest == authority
  {
    hide Head, Tail;
    HeadAndTail(rest, '/');
  }

  /** The splitting in full, on the text. */
  lemma {:induction false} SplitMeans(url: string)
    returns (authority: string, user: string, hostPort: string, digits: string)
    requires ':' in url
    ensures Split(url).Some?
    ensures var p := Split(url).value;
            && ':' !in p.protocol && p.protocol + ":" <= url
            && var rest := if |p.protocol| + 3 <= |url| then url[|p.protocol| + 3..] else "";
               && '/' !in authority
               && (if '/' in rest then rest == authority + p.path && p.path != "" && p.path[0] == '/'
                   else rest == authority && p.path == "/")
               && '@' !in user
               && (if '@' in authority then authority == user + "@" + hostPort
                   else user == "" && authority == hostPort)
               && ':' !in p.host
               && (if ':' in hostPort
                   then hostPort == p.host + ":" + digits && p.port == Some(ToInt(digits) % 0x1_0000)
                   else digits == "" && hostPort == p.host && p.port == None)
  {
    hide Head, Tail, ToInt, RemoveFront, SplitRest;
    var protocol := Head(url, ':');
    ProtocolIs(url);
    var rest := RemoveFront(url, |protocol| + 3);
    PathIs(rest);
    authority := Head(rest, '/');
    user, hostPort, digits := RestMeans(protocol, authority, if '/' in rest then rest[|authority|..] else "/");
  }

  /** What ought to come back: an empty path comes back as the root. */
  function Wanted(u: Parts): Parts { u.(path := if u.path == "" then "/" else u.path) }

  /** No part contains a delimiter that the splitter would look for in it. */
  predicate Clean(u: Parts) {
    && ':' !in u.protocol
    && (u.auth.Some? ==> '/' !in u.auth.value && '@' !in u.auth.value)
    && (u.auth.None? ==> '@' !in u.host)
    && '/' !in u.host && ':' !in u.host
  }

  lemma {:induction false} DelimitersOf(u: Parts)
    ensures '/' in HostPort(u) <==> '/' in u.host
    ensures '@' in HostPort(u) <==> '@' in u.host
    ensures ':' in HostPort(u) <==> ':' in u.host || u.port.Some?
    ensures '/' in Authority(u) <==> '/' in u.host || (u.auth.Some? && '/' in u.auth.value)
  {
    assert !IsDigit('/') && !IsDigit('@') && !IsDigit(':');
  }

  /** A colon in the protocol cuts it short; without one, the rest is found. */
  lemma {:induction false} ProtocolPart(u: Parts)
    ensures ':' in Print(u)
    ensures Head(Print(u), ':') == u.protocol <==> ':' !in u.protocol
    ensures ':' !in u.protocol ==> RemoveFront(Print(u), |u.protocol| + 3) == Authority(u) + u.path
  {
    hide Head;
    var tail := "//" + (Authority(u) + u.path);
    assert Print(u) == u.protocol + [':'] + tail == u.protocol + ([':'] + tail);
    if ':' in u.protocol {
      CutInside(u.protocol, ':', [':'] + tail);
      assert |Head(u.protocol, ':')| < |u.protocol|;
    } else {
      CutAt(u.protocol, ':', tail);
      assert tail[2..] == Authority(u) + u.path;
    }
  }

  lemma {:induction false} WholeHead(s: string, c: char)
    requires c !in s
    ensures Head(s, c) == s
  {
  }

  /** Without a slash in the authority, authority and path are told apart. */
  lemma {:induction false} PathPart(u: Parts)
    requires Printable(u) && '/' !in Authority(u)
    ensures var rest := Authority(u) + u.path;
            && Head(rest, '/') == Authority(u)
            && (if '/' in rest then rest[|Head(rest, '/')|..] else "/") == Wanted(u).path
  {
    hide Head;
    var a := Authority(u);
    if u.path == "" {
      assert a + u.path == a;
      assert |Head(a, '/')| == |a|;
      WholeHead(a, '/');
    } else {
      CutAt(a, '/', u.path[1..]);
      assert a + u.path == a + ['/'] + u.path[1..];
    }
  }

  lemma {:induction false} RestKeepsProtocol(url: string)
    requires ':' in url
    ensures Split(url).value.protocol == Head(url, ':')
  {
  }

  lemma {:induction false} RestKeepsPath(protocol: string, authority: string, path: string)
    ensures var r := SplitRest(protocol, authority, path); r.protocol == protocol && r.path == path
    ensures forall auth, host {:trigger SplitHost(protocol, auth, host, path)} ::
              var r := SplitHost(protocol, auth, host, path);
              r.protocol == protocol && r.path == path && r.auth == auth
  {
  }

  lemma {:induction false} HostIsWithin(protocol: string, authority: string, path: string)
    requires '/' !in authority
    ensures '/' !in SplitRest(protocol, authority, path).host
  {
  }

  /** With one in the host, the host comes back wrong. */
  lemma {:induction false} SlashInHost(u: Parts)
    requires ':' !in u.protocol && '/' in Authority(u) && '/' in u.host
    ensures Split(Print(u)).Some? && Split(Print(u)).value.host != u.host
  {
    hide Head, Tail, ToInt, SplitRest, Authority, Print;
    ProtocolPart(u);
    var rest := Authority(u) + u.path;
    assert '/' !in Head(rest, '/');
    HostIsWithin(u.protocol, Head(rest, '/'), if '/' in rest then rest[|Head(rest, '/')|..] else "/");
  }

  /** With one in the userinfo, the path comes back too long. */
  lemma {:induction false} SlashInAuth(u: Parts)
    requires Printable(u) && ':' !in u.protocol && u.auth.Some? && '/' in u.auth.value
    ensures Split(Print(u)).Some? && Split(Print(u)).value.path != Wanted(u).path
  {
    hide Head, Tail, ToInt, SplitRest, HostPort, Print;
    ProtocolPart(u);
    var auth, behind := u.auth.value, "@" + HostPort(u) + u.path;
    var rest := Authority(u) + u.path;
    assert rest == auth + behind;
    CutInside(auth, '/', behind);
    assert |Head(rest, '/')| < |auth|;
    var path := rest[|Head(rest, '/')|..];
    assert |path| > 1 + |u.path|;
    RestKeepsPath(u.protocol, Head(rest, '/'), path);
  }

  /** The userinfo is told from the host exactly when it has no '@', or when there
      is none and the host has no '@'. */
  lemma {:induction false} AuthPart(u: Parts, path: string)
    ensures var clean := if u.auth.Some? then '@' !in u.auth.value else '@' !in u.host;
            && (clean ==> SplitRest(u.protocol, Authority(u), path) == SplitHost(u.protocol, u.auth, HostPort(u), path))
            && (!clean ==> SplitRest(u.protocol, Authority(u), path).auth != u.auth)
  {
    hide Head, Tail, ToInt;
    DelimitersOf(u);
    match u.auth
    case None =>
      assert Authority(u) == HostPort(u);
    case Some(auth) =>
      assert Authority(u) == auth + ['@'] + HostPort(u) == auth + (['@'] + HostPort(u));
      if '@' in auth {
        CutInside(auth, '@', ['@'] + HostPort(u));
        assert |Head(auth, '@')| < |auth|;
      } else {
        CutAt(auth, '@', HostPort(u));
      }
  }

  lemma {:induction false} ColonBeforePort(front: string, behind: string)
    requires ':' in front
    ensures |Head(front + behind, ':')| < |front|
  {
    hide IndexOf;
    CutInside(front, ':', behind);
  }

  lemma {:induction false} PortBehind(front: string, port: port)
    requires ':' !in front
    ensures var s := front + PortText(Some(port));
            ':' in s && Head(s, ':') == front && ToInt(Tail(s, ':')) == port
  {
    hide Head, Tail, ToInt, Decimal;
    CutAt(front, ':', Decimal(port));
    assert front + PortText(Some(port)) == front + [':'] + Decimal(port);
    DecimalReads(port);
  }

  /** The text before a port is found again exactly when it has no colon. */
  lemma {:induction false} BeforePort(front: string, port: Option<port>)
    ensures |Head(front + PortText(port), ':')| <= |front|
    ensures Head(front + PortText(port), ':') == front <==> ':' !in front
    ensures ':' !in front ==> (':' in front + PortText(port) <==> port.Some?)
    ensures ':' !in front && port.Some? ==> ToInt(Tail(front + PortText(port), ':')) == port.value
  {
    hide Head, Tail, ToInt, Decimal;
    if ':' in front {
      ColonBeforePort(front, PortText(port));
    } else if port.Some? {
      PortBehind(front, port.value);
    } else {
      assert front + PortText(port) == front;
      WholeHead(front, ':');
    }
  }

  /** Host and port come back exactly when the host has no colon. */
  lemma {:induction false} HostPart(u: Parts, path: string)
    ensures var r := SplitHost(u.protocol, u.auth, HostPort(u), path);
            && (r.host == u.host <==> ':' !in u.host)
            && (':' !in u.host ==> r.port == u.port)
  {
    hide Head, Tail, ToInt, PortText;
    BeforePort(u.host, u.port);
  }

  /** The round trip: a printed URL is split back into its own parts exactly when
      no part contains a delimiter that the splitter looks for in it. */
  lemma {:induction false} RoundTripIff(u: Parts)
    requires Printable(u)
    ensures Split(Print(u)) == Some(Wanted(u)) <==> Clean(u)
  {
    hide Head, Tail, ToInt, Authority, HostPort, Print, SplitRest, SplitHost;
    ProtocolPart(u);
    DelimitersOf(u);
    if ':' in u.protocol {
      RestKeepsProtocol(Print(u));
    } else if '/' in u.host {
      SlashInHost(u);
    } else if '/' in Authority(u) {
      SlashInAuth(u);
    } else {
      PathPart(u);
      AuthPart(u, Wanted(u).path);
      HostPart(u, Wanted(u).path);
      RestKeepsPath(u.protocol, Authority(u), Wanted(u).path);
      assert Split(Print(u)) == Some(SplitRest(u.protocol, Authority(u), Wanted(u).path));
    }
  }

  // ---- What the client keeps ---------------------------------------------------

  /** The client throws the userinfo away, and without a port keeps the last one. */
  function PortAfter(port: Option<port>, last: port): port { if port.Some? then port.value else last }

  predicate FieldsBack(r: Parts, u: Parts, last: port) {
    && r.protocol == u.protocol && r.host == u.host && r.path == Wanted(u).path
    && PortAfter(r.port, last) == PortAfter(u.port, last)
  }

  predicate AuthClean(u: Parts) {
    if u.auth.Some? then '@' !in u.auth.value else '@' !in u.host
  }

  /** The userinfo contains an '@', and what follows it up to a colon is the host
      itself, and what follows the colon reads as the port. */
  predicate Decoy(u: Parts, port: port) {
    && u.auth.Some? && '@' in u.auth.value
    && var w := Tail(u.auth.value, '@');
       ':' in w && Head(w, ':') == u.host && ToInt(Tail(w, ':')) % 0x1_0000 == port
  }

  predicate FieldsClean(u: Parts, last: port) {
    && ':' !in u.protocol
    && '/' !in u.host && (u.auth.Some? ==> '/' !in u.auth.value)
    && ((AuthClean(u) && ':' !in u.host) || Decoy(u, PortAfter(u.port, last)))
  }

  /** An '@' in a host without userinfo leaves less than the host. */
  lemma {:induction false} AtInHost(u: Parts, path: string)
    requires u.auth.None? && '@' in u.host
    ensures SplitRest(u.protocol, Authority(u), path).host != u.host
  {
    hide Head, ToInt, PortText;
    var port, n := PortText(u.port), |Head(u.host, '@')|;
    var t := u.host[n + 1..];
    assert Authority(u) == u.host + port;
    CutInside(u.host, '@', port);
    assert Tail(Authority(u), '@') == t + port;
    BeforePort(t, u.port);
  }

  lemma {:induction false} NoDecoy(u: Parts, w: string)
    requires ':' !in w
    ensures Head(w + ("@" + HostPort(u)), ':') != u.host
  {
    hide Head, PortText;
    var front := w + "@" + u.host;
    assert w + ("@" + HostPort(u)) == front + PortText(u.port);
    BeforePort(front, u.port);
    if ':' in u.host {
      assert ':' !in Head(front + PortText(u.port), ':');
    }
  }

  /** An '@' in the userinfo: host and port come back exactly for a decoy. */
  lemma {:induction false} AtInAuth(u: Parts, path: string, last: port)
    requires u.auth.Some? && '@' in u.auth.value
    ensures var r := SplitRest(u.protocol, Authority(u), path);
            (r.host == u.host && PortAfter(r.port, last) == PortAfter(u.port, last)) <==>
            Decoy(u, PortAfter(u.port, last))
  {
    hide Head, ToInt, HostPort;
    var auth, w, behind := u.auth.value, Tail(u.auth.value, '@'), "@" + HostPort(u);
    assert Authority(u) == auth + behind;
    CutInside(auth, '@', behind);
    var h := w + behind;
    assert Tail(Authority(u), '@') == h;
    if ':' in w {
      CutInside(w, ':', behind);
      assert Tail(h, ':') == Tail(w, ':') + "@" + HostPort(u);
      NumberStops(Tail(w, ':'), HostPort(u));
    } else {
      NoDecoy(u, w);
    }
  }

  lemma {:induction false} DecoyHasAt(u: Parts, port: port)
    ensures Decoy(u, port) ==> u.auth.Some? && !AuthClean(u)
  {
  }

  /** The same, once the path is split off. */
  lemma {:induction false} HostAndPortBackIff(u: Parts, path: string, last: port)
    ensures var r := SplitRest(u.protocol, Authority(u), path);
            (r.host == u.host && PortAfter(r.port, last) == PortAfter(u.port, last)) <==>
            (AuthClean(u) && ':' !in u.host) || Decoy(u, PortAfter(u.port, last))
  {
    hide Head, Tail, ToInt, Authority, HostPort, SplitRest, SplitHost, Decoy;
    DecoyHasAt(u, PortAfter(u.port, last));
    if AuthClean(u) {
      AuthPart(u, path);
      HostPart(u, path);
    } else if u.auth.None? {
      AtInHost(u, path);
    } else {
      AtInAuth(u, path, last);
    }
  }

  /** Protocol, host, port and path come back exactly when no part contains a
      delimiter that the splitter looks for in it, except for a decoy in the
      userinfo that spells out the same host and port. */
  lemma {:induction false} FieldsBackIff(u: Parts, last: port)
    requires Printable(u)
    ensures Split(Print(u)).Some?
    ensures FieldsBack(Split(Print(u)).value, u, last) <==> FieldsClean(u, last)
  {
    hide Head, Tail, ToInt, Authority, HostPort, Print, SplitRest, SplitHost, Decoy;
    ProtocolPart(u);
    DelimitersOf(u);
    if ':' in u.protocol {
      RestKeepsProtocol(Print(u));
    } else if '/' in u.host {
      SlashInHost(u);
    } else if '/' in Authority(u) {
      SlashInAuth(u);
    } else {
      var path := Wanted(u).path;
      PathPart(u);
      HostAndPortBackIff(u, path, last);
      RestKeepsPath(u.protocol, Authority(u), path);
      assert Split(Print(u)) == Some(SplitRest(u.protocol, Authority(u), path));
    }
  }

  /** http://x@h:9@h:9/ is a decoy: every field comes back, although the userinfo
      is taken to be "x" instead of "x@h:9". */
  lemma {:induction false} DecoyComesBack(last: port)
    ensures var u := Parts("http", Some("x@h:9"), "h", Some(9), "/");
            !Clean(u) && FieldsClean(u, last)
  {
    hide Head, Tail, ToInt;
    CutAt("x", '@', "h:9");
    CutAt("h", ':', "9");
    assert "x" + ['@'] + "h:9" == "x@h:9" && "h" + [':'] + "9" == "h:9";
    DecimalReads(9);
    assert Decimal(9) == "9";
  }

  /** Any other userinfo x@y spoils the host: http://x@y@h/ is taken to y@h. */
  lemma {:induction false} SecondAtBreaks(u: Parts, x: string, y: string, path: string)
    requires u.auth == Some(x + ['@'] + y) && '@' !in x && ':' !in y && ':' !in u.host
    ensures SplitRest(u.protocol, Authority(u), path).host == y + "@" + u.host
  {
    hide Head, Tail, ToInt, PortText;
    var front := y + "@" + u.host;
    assert Authority(u) == x + ['@'] + (front + PortText(u.port));
    CutAt(x, '@', front + PortText(u.port));
    BeforePort(front, u.port);
  }
}

/** The class HTTPClient, as far as the URL goes. */
module Http {
  import opened Bytes
  import opened Text
  import opened Url

  class HTTPClient {
    var protocol: string
    var host: string
    var port: port
    var path: string

    constructor ()
      ensures port == 0
    {
      protocol := "";
      host := "";
      port := 0;
      path := "";
    }

    /** The steps of beginInternal. */
    method TakeApart(address: string) returns (ok: bool)
      modifies this
      ensures ok <==> Split(address).Some?
      ensures !ok ==> protocol == old(protocol) && host == old(host) && port == old(port) && path == old(path)
      ensures ok ==>
                var p := Split(address).value;
                && protocol == p.protocol && host == p.host && path == p.path
                && port == (if p.port.Some? then p.port.value else old(port))
    {
      hide IndexOf, Head, Tail, ToInt, RemoveFront;
      var url := address;
      IndexSplits(url, ':');
      var index := IndexOf(url, ':');
      if index < 0 {
        ok := false;
        return;
      }
      protocol := url[..index];
      url := RemoveFront(url, index + 3);
      ghost var rest := url;
      IndexSplits(rest, '/');
      index := IndexOf(url, '/');
      if index == -1 {
        index := |url|;
        url := url + "/";
      }
      var theRest := url[..index];
      assert theRest == Head(rest, '/');
      FrontRemoved(url, index);
      url := RemoveFront(url, index);
      assert url == if '/' in rest then rest[|Head(rest, '/')|..] else "/";
      ghost var between := theRest;
      IndexSplits(between, '@');
      index := IndexOf(theRest, '@');
      if index >= 0 {
        theRest := RemoveFront(theRest, index + 1);
      }
      assert theRest == if '@' in between then Tail(between, '@') else between;
      IndexSplits(theRest, ':');
      index := IndexOf(theRest, ':');
      var theHost;
      if index >= 0 {
        theHost := theRest[..index];
        theRest := RemoveFront(theRest, index + 1);
        port := ToInt(theRest) % 0x1_0000;
      } else {
        theHost := theRest;
      }
      host := theHost;
      path := url;
      ok := true;
    }

    /** beginInternal, on the text itself: the protocol ends at the first colon; three
        characters further, the authority ends at the first slash; in it, the
        userinfo ends at the first '@' and the host at the first colon after that.
        Without a port the port of an earlier call stays. */
    method BeginInternal(address: string)
      returns (ok: bool, ghost authority: string, ghost user: string, ghost hostPort: string, ghost digits: string)
      modifies this
      ensures ok <==> ':' in address
      ensures ok ==>
                && ':' !in protocol && protocol + ":" <= address
                && var rest := if |protocol| + 3 <= |address| then address[|protocol| + 3..] else "";
                   && '/' !in authority
                   && (if '/' in rest then rest == authority + path && path != "" && path[0] == '/'
                       else rest == authority && path == "/")
                   && '@' !in user
                   && (if '@' in authority then authority == user + "@" + hostPort
                       else user == "" && authority == hostPort)
                   && ':' !in host
                   && (if ':' in hostPort then hostPort == host + ":" + digits && port == ToInt(digits) % 0x1_0000
                       else digits == "" && hostPort == host && port == old(port))
      ensures ok <==> Split(address).Some?
      ensures !ok ==> protocol == old(protocol) && host == old(host) && port == old(port) && path == old(path)
      ensures ok ==>
                var p := Split(address).value;
                && protocol == p.protocol && host == p.host && path == p.path
                && port == (if p.port.Some? then p.port.value else old(port))
    {
      hide Split, ToInt;
      authority, user, hostPort, digits := "", "", "", "";
      ok := TakeApart(address);
      SplitFails(address);
      if ok {
        authority, user, hostPort, digits := SplitMeans(address);
      }
    }

    /** begin on a printed URL gives its fields back, an empty path as the root and
        a missing port as the last one, exactly when the URL is clean in this sense. */
    method BeginPrinted(u: Parts) returns (ok: bool)
      requires Printable(u)
      modifies this
      ensures ok
      ensures FieldsClean(u, old(port)) <==>
              && protocol == u.protocol && host == u.host
              && path == (if u.path == "" then "/" else u.path)
              && port == if u.port.Some? then u.port.value else old(port)
    {
      hide FieldsClean, Print, Split;
      FieldsBackIff(u, port);
      ghost var authority, user, hostPort, digits;
      ok, authority, user, hostPort, digits := BeginInternal(Print(u));
    }
  }
}
