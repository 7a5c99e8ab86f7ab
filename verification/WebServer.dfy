/** The message processor of the web server deals complete requests to twelve dispatchers in turn. */
module RoundRobin {

  const WORKERS: nat := 12

  /** Every twelfth session, starting with the d-th. */
  function Dealt<T>(s: seq<T>, d: nat): seq<T> {
    if s == [] then []
    else
      var n := |s| - 1;
      Dealt(s[..n], d) + if n % WORKERS == d then [s[n]] else []
  }

  class MessageProcessor<T> {
    var qclients: seq<T>
    var worker: nat
    var dispatched: seq<seq<T>>
    ghost var arrived: seq<T>
    ghost var handled: nat

    constructor ()
      ensures Valid() && arrived == [] && handled == 0
    {
      qclients, worker, dispatched := [], 0, seq(WORKERS, _ => []);
      arrived, handled := [], 0;
    }

    /** The queue holds what arrived and was not handled, each dispatcher its share of the rest. */
    ghost predicate Valid()
      reads this
    {
      && handled <= |arrived| && qclients == arrived[handled..]
      && worker == handled % WORKERS
      && |dispatched| == WORKERS
      && (forall d :: 0 <= d < WORKERS ==> dispatched[d] == Dealt(arrived[..handled], d))
    }

    method OnNewClientMessage(session: T)
      requires Valid()
      modifies this`qclients, this`arrived
      ensures Valid() && arrived == old(arrived) + [session]
    {
      qclients := qclients + [session];
      arrived := arrived + [session];
      assert arrived[..handled] == old(arrived)[..handled];
    }

    /** One wakeup: the queue is drained, `worker` carries over to the next one. */
    method ProcessMessageQueue()
      requires Valid()
      modifies this`qclients, this`worker, this`dispatched, this`handled
      ensures Valid() && qclients == [] && handled == |arrived|
    {
      while qclients != []
        invariant Valid()
        decreases |qclients|
      {
        Dispatch();
      }
    }

    /** The branch `worker == d`: step on, hand the front over, pop it. */
    method Dispatch()
      requires Valid() && qclients != []
      modifies this`qclients, this`worker, this`dispatched, this`handled
      ensures Valid() && handled == old(handled) + 1 && qclients == old(qclients)[1..]
    {
      ghost var before := arrived[..handled];
      var front, d := qclients[0], worker;
      worker := if d == WORKERS - 1 then 0 else d + 1;
      dispatched := dispatched[d := dispatched[d] + [front]];
      qclients := qclients[1..];
      handled := handled + 1;
      assert arrived[..handled] == before + [front];
      NextTurn(|before|, d);
      forall e | 0 <= e < WORKERS ensures dispatched[e] == Dealt(before + [front], e) {
        DealtSnoc(before, front, e);
      }
    }
  }

  lemma {:induction false} DealtSnoc<T>(s: seq<T>, x: T, d: nat)
    ensures Dealt(s + [x], d) == if |s| % WORKERS == d then Dealt(s, d) + [x] else Dealt(s, d)
  {
    assert (s + [x])[..|s|] == s;
  }

  lemma {:induction false} NextTurn(n: nat, d: nat)
    requires d == n % WORKERS
    ensures (n + 1) % WORKERS == if d == WORKERS - 1 then 0 else d + 1
  {
  }

  datatype Event<T> = Arrival(session: T) | Wakeup

  function Arrivals<T>(events: seq<Event<T>>): seq<T> {
    if events == [] then []
    else
      var n := |events| - 1;
      Arrivals(events[..n]) + if events[n].Arrival? then [events[n].session] else []
  }

  /** How many sessions had arrived at the last wakeup. */
  function Handled<T>(events: seq<Event<T>>): nat {
    if events == [] then 0
    else
      var n := |events| - 1;
      if events[n].Wakeup? then |Arrivals(events[..n])| else Handled(events[..n])
  }

  /** Any run of arrivals and wakeups: each dispatcher has exactly its share of what was handled. */
  method Serve<T>(events: seq<Event<T>>) returns (p: MessageProcessor<T>)
    ensures p.Valid() && p.arrived == Arrivals(events) && p.handled == Handled(events)
    ensures |p.dispatched| == 12
    ensures forall d :: 0 <= d < 12 ==> p.dispatched[d] == Dealt(Arrivals(events)[..Handled(events)], d)
  {
    p := new MessageProcessor<T>();
    for i := 0 to |events|
      invariant p.Valid() && p.arrived == Arrivals(events[..i]) && p.handled == Handled(events[..i]) && fresh(p)
    {
      assert events[..i + 1][..i] == events[..i];
      match events[i] {
        case Arrival(session) => p.OnNewClientMessage(session);
        case Wakeup => p.ProcessMessageQueue();
      }
    }
    assert events[..|events|] == events;
  }

  // ---------------------------------------------------------------- what dealing in turn means

  lemma {:induction false} DealtLength<T>(s: seq<T>, d: nat)
    requires d < WORKERS
    ensures |Dealt(s, d)| == (|s| + WORKERS - 1 - d) / WORKERS
  {
    if s != [] {
      DealtLength(s[..|s| - 1], d);
      ShareGrows(|s| - 1, d);
    }
  }

  lemma {:induction false} ShareGrows(n: nat, d: nat)
    requires d < WORKERS
    ensures (n + WORKERS - d) / WORKERS == (n + WORKERS - 1 - d) / WORKERS + if n % WORKERS == d then 1 else 0
  {
  }

  /** The k-th session is the (k / 12)-th of dispatcher k mod 12: streams stay first-in first-out. */
  lemma {:induction false} DealtInTurn<T>(s: seq<T>, k: nat)
    requires k < |s|
    ensures k / 12 < |Dealt(s, k % 12)| && Dealt(s, k % 12)[k / 12] == s[k]
  {
    var n, d := |s| - 1, k % WORKERS;
    DealtLength(s[..n], d);
    if k < n {
      DealtInTurn(s[..n], k);
    }
  }

  /** Loads differ by one at most. */
  lemma {:induction false} DealtEvenly<T>(s: seq<T>, d: nat, e: nat)
    requires d < WORKERS && e < WORKERS
    ensures |Dealt(s, d)| <= |Dealt(s, e)| + 1
  {
    DealtLength(s, d);
    DealtLength(s, e);
  }

  /**
   No session is lost or handed out twice: the places (d, j) in the streams are exactly the
   places 12 * j + d in the order of arrival, and hold the same sessions.
   */
  lemma {:induction false} DealtAll<T>(s: seq<T>, d: nat, j: nat)
    requires d < 12
    ensures j < |Dealt(s, d)| <==> 12 * j + d < |s|
    ensures j < |Dealt(s, d)| ==> Dealt(s, d)[j] == s[12 * j + d]
  {
    DealtLength(s, d);
    var k := WORKERS * j + d;
    if k < |s| {
      assert k % WORKERS == d && k / WORKERS == j;
      DealtInTurn(s, k);
    }
  }
}

/** Links in a directory listing, and the parser that gets them back in a request. */
module LinkCodec {
  import opened Wrappers

  // ---------------------------------------------------------------- specification

  /** `replace(" ", "%20")` on a listed path. */
  function EncodeLink(path: string): string {
    if path == [] then [] else (if path[0] == ' ' then "%20" else [path[0]]) + EncodeLink(path[1..])
  }

  predicate Escaped(s: string) { |s| >= 3 && s[0] == '%' && s[1] == '2' && s[2] == '0' }

  /** `replace("%20", " ")` on a requested path. */
  function DecodeLink(s: string): string {
    if s == [] then [] else if Escaped(s) then " " + DecodeLink(s[3..]) else [s[0]] + DecodeLink(s[1..])
  }

  predicate Breaks(c: char) { c == '\r' || c == '\n' }

  /** `find_first_of("\r\n")`, or the length. */
  function LineEnd(s: string): (i: nat)
    ensures i <= |s|
    ensures i < |s| ==> Breaks(s[i])
    ensures forall j :: 0 <= j < i ==> !Breaks(s[j])
  {
    if s == [] || Breaks(s[0]) then 0 else 1 + LineEnd(s[1..])
  }

  /** `find_last_of(" ")`, or -1. */
  function LastSpace(s: string): (i: int)
    ensures -1 <= i < |s|
    ensures i >= 0 ==> s[i] == ' '
    ensures forall j :: i < j < |s| ==> s[j] != ' '
  {
    if s == [] then -1
    else if s[|s| - 1] == ' ' then |s| - 1 else LastSpace(s[..|s| - 1])
  }

  /** The path of a request; `None` where the C++ code would leave the bounds of its strings. */
  function RequestPath(header: string): Option<string> {
    var rv := LineEnd(header);
    if rv == |header| || rv - 1 < 4 then None
    else
      var line := header[4..rv - 1];
      var space := LastSpace(line);
      if space < 0 then None else Some(DecodeLink(line[..space]))
  }

  /** The first line break ends the line; `p` is a space of it behind the method and before its last character. */
  ghost predicate Delimits(header: string, rv: nat, p: nat) {
    && 4 <= p < rv - 1 && rv < |header| && header[p] == ' '
    && (header[rv] == '\r' || header[rv] == '\n')
    && forall j :: 0 <= j < rv ==> header[j] != '\r' && header[j] != '\n'
  }

  /** The requests the parser can handle, and what it takes as the path: everything up to the last such space. */
  lemma {:induction false} RequestPathIs(header: string)
    ensures RequestPath(header).Some? <==> exists rv: nat, p: nat :: Delimits(header, rv, p)
    ensures forall rv: nat, p: nat :: Delimits(header, rv, p) && (forall q :: p < q < rv - 1 ==> header[q] != ' ') ==>
              RequestPath(header) == Some(DecodeLink(header[4..p]))
  {
    var end := LineEnd(header);
    assert forall rv: nat, p: nat :: Delimits(header, rv, p) ==> end == rv;
    if end < |header| && end - 1 >= 4 {
      LastSpaceIn(header, end);
      var space := LastSpace(header[4..end - 1]);
      if space >= 0 { assert Delimits(header, end, (4 + space) as nat); }
    }
  }

  lemma {:induction false} LastSpaceIn(header: string, rv: nat)
    requires 4 <= rv - 1 && rv < |header|
    ensures var space := LastSpace(header[4..rv - 1]);
            if space < 0 then forall q :: 4 <= q < rv - 1 ==> header[q] != ' '
            else header[4 + space] == ' ' && 4 + space < rv - 1
                 && (forall q :: 4 + space < q < rv - 1 ==> header[q] != ' ')
                 && header[4..rv - 1][..space] == header[4..4 + space]
  {
    var line := header[4..rv - 1];
    assert forall q :: 4 <= q < rv - 1 ==> header[q] == line[q - 4];
  }

  // ---------------------------------------------------------------- the parser

  class HeaderParser {
    var requestHeader: string
    var requestPath: string
    var isDirty: bool

    constructor (header: string)
      ensures requestHeader == header && isDirty && requestPath == ""
    {
      requestHeader, requestPath, isDirty := header, "", true;
    }

    /** `parse`: works once per request, and only on one that has a request line. */
    method Parse() returns (defined: bool)
      modifies this`requestPath, this`isDirty
      ensures old(isDirty) ==> (defined <==> RequestPath(requestHeader).Some?)
      ensures old(isDirty) && defined ==> Some(requestPath) == RequestPath(requestHeader) && !isDirty
      ensures !old(isDirty) ==> defined && !isDirty && requestPath == old(requestPath)
    {
      if !isDirty {
        return true;
      }
      var rv := 0;
      while rv < |requestHeader| && !Breaks(requestHeader[rv])
        invariant rv <= |requestHeader| && forall j :: 0 <= j < rv ==> !Breaks(requestHeader[j])
      {
        rv := rv + 1;
      }
      assert rv == LineEnd(requestHeader);
      if rv == |requestHeader| || rv - 1 < 4 {
        return false;
      }
      var line := requestHeader[4..rv - 1];
      var space := |line| - 1;
      while space >= 0 && line[space] != ' '
        invariant -1 <= space < |line| && forall j :: space < j < |line| ==> line[j] != ' '
      {
        space := space - 1;
      }
      assert space == LastSpace(line);
      if space < 0 {
        return false;
      }
      requestPath := DecodeLink(line[..space]);
      isDirty := false;
      return true;
    }
  }

  // ---------------------------------------------------------------- the round trip

  ghost predicate HasEscape(s: string) { exists i :: 0 <= i <= |s| && Escaped(s[i..]) }

  lemma {:induction false} HasEscapeTail(s: string)
    requires s != []
    ensures HasEscape(s) <==> Escaped(s) || HasEscape(s[1..])
  {
    if HasEscape(s) {
      var i :| 0 <= i <= |s| && Escaped(s[i..]);
      if i == 0 { assert s[0..] == s; } else { assert s[1..][i - 1..] == s[i..]; }
    }
    if Escaped(s) { assert s[0..] == s; }
    if HasEscape(s[1..]) {
      var i :| 0 <= i <= |s[1..]| && Escaped(s[1..][i..]);
      assert s[1..][i..] == s[i + 1..];
    }
  }

  /** Encoding neither hides an escape that was there nor makes up one in another place. */
  lemma {:induction false} EscapedEncode(path: string)
    requires path != [] && path[0] != ' '
    ensures Escaped(EncodeLink(path)) <==> Escaped(path)
  {
    if |path| > 1 {
      assert EncodeLink(path)[1..] == EncodeLink(path[1..]);
      if |path| > 2 && path[1] != ' ' {
        assert EncodeLink(path[1..])[1..] == EncodeLink(path[2..]);
        assert path[1..][1..] == path[2..];
      }
    }
  }

  lemma {:induction false} DecodeEncode(path: string)
    ensures DecodeLink(EncodeLink(path)) == DecodeLink(path)
    decreases |path|
  {
    if path != [] {
      var link := EncodeLink(path);
      if path[0] == ' ' {
        DecodeEncode(path[1..]);
        assert link[3..] == EncodeLink(path[1..]);
      } else {
        EscapedEncode(path);
        if Escaped(path) {
          DecodeEncode(path[3..]);
          EncodeEscape(path);
          assert link[3..] == EncodeLink(path[3..]);
        } else {
          DecodeEncode(path[1..]);
          assert link[1..] == EncodeLink(path[1..]);
        }
      }
    }
  }

  lemma {:induction false} EncodeEscape(path: string)
    requires Escaped(path)
    ensures EncodeLink(path) == "%20" + EncodeLink(path[3..])
  {
    assert path[1..][1..] == path[2..] && path[2..][1..] == path[3..];
    assert EncodeLink(path[2..]) == "0" + EncodeLink(path[3..]);
    assert EncodeLink(path[1..]) == "2" + EncodeLink(path[2..]);
    assert EncodeLink(path) == "%" + EncodeLink(path[1..]);
  }

  lemma {:induction false} DecodeShortens(s: string)
    ensures |DecodeLink(s)| <= |s|
    ensures DecodeLink(s) == s <==> !HasEscape(s)
    decreases |s|
  {
    if s != [] {
      HasEscapeTail(s);
      if Escaped(s) {
        DecodeShortens(s[3..]);
      } else {
        DecodeShortens(s[1..]);
        assert s == [s[0]] + s[1..];
        assert DecodeLink(s)[1..] == DecodeLink(s[1..]);
      }
    }
  }

  /** A link has no space in it, and otherwise differs from the path in nothing. */
  lemma {:induction false} LinkHasNoSpace(path: string)
    ensures ' ' !in EncodeLink(path)
    ensures ' ' !in path ==> EncodeLink(path) == path
  {
    if path != [] {
      LinkHasNoSpace(path[1..]);
      assert path == [path[0]] + path[1..];
    }
  }

  /** A link leads back to the listed path iff the path does not itself contain "%20". */
  lemma {:induction false} LinkRoundTrip(path: string)
    ensures DecodeLink(EncodeLink(path)) == path <==> !HasEscape(path)
  {
    DecodeEncode(path);
    DecodeShortens(path);
  }

  ghost predicate OneLine(s: string) { forall i :: 0 <= i < |s| ==> !Breaks(s[i]) }

  lemma {:induction false} EncodeOneLine(path: string)
    requires OneLine(path)
    ensures OneLine(EncodeLink(path))
  {
    if path != [] { EncodeOneLine(path[1..]); }
  }

  /** The request line of section 3.1.1 of RFC 7230 for a link, and what follows it. */
  function Request(link: string, version: string, rest: string): string {
    "GET " + link + " " + version + "\r\n" + rest
  }

  /**
   Requesting the emitted link of a path makes the parser return that path, for any version
   word and any headers, exactly when the path is free of a literal "%20".
   */
  lemma {:induction false} RequestRoundTrip(path: string, version: string, rest: string)
    requires OneLine(path) && OneLine(version) && version != [] && ' ' !in version
    ensures RequestPath(Request(EncodeLink(path), version, rest)) == Some(DecodeLink(EncodeLink(path)))
    ensures RequestPath(Request(EncodeLink(path), version, rest)) == Some(path) <==> !HasEscape(path)
  {
    EncodeOneLine(path);
    RequestLine(EncodeLink(path), version, rest);
    LinkRoundTrip(path);
  }

  lemma {:induction false} RequestLine(link: string, version: string, rest: string)
    requires OneLine(link) && OneLine(version) && version != [] && ' ' !in version
    ensures RequestPath(Request(link, version, rest)) == Some(DecodeLink(link))
  {
    var header := Request(link, version, rest);
    var line := "GET " + link + " " + version;
    assert header == line + ("\r\n" + rest);
    var rv := |line|;
    assert OneLine(line);
    assert header[rv] == '\r';
    assert LineEnd(header) == rv by { assert forall j :: 0 <= j < rv ==> header[j] == line[j]; }
    var cut := version[..|version| - 1];
    assert header[4..rv - 1] == link + " " + cut;
    LastSpaceAt(link, cut, version);
    assert (link + " " + cut)[..|link|] == link;
  }

  lemma {:induction false} LastSpaceAt(link: string, cut: string, version: string)
    requires ' ' !in version && cut <= version
    ensures LastSpace(link + " " + cut) == |link|
  {
    var line := link + " " + cut;
    assert line[|link|] == ' ';
    forall j | |link| < j < |line| ensures line[j] != ' ' {
      assert line[j] == cut[j - |link| - 1] == version[j - |link| - 1];
      assert version[j - |link| - 1] in version;
    }
  }
}
