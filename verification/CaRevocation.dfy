/**
 Revocation information as text: `make_revocation_str` writes "time[,reason[,argument]]" into
 a database field, `unpack_revinfo` reads it back.
 */
module CaRevocation {
  import opened Wrappers
  import opened CText

  /** Which strings the ASN.1 library accepts. */
  datatype Asn1 = Asn1(
    utcTime: string -> bool, generalizedTime: string -> bool, objectId: string -> bool, anyTime: string -> bool)

  /** What the user asked for, with its argument. */
  datatype Revocation =
    | Unexplained
    | Reason(name: string)
    | Hold(instruction: string)
    | KeyCompromised(since: string)
    | CaCompromised(since: string)

  /** A table of reason words; the command's own one is `CRL_REASON_WORDS` below. */
  type Table = t: seq<string> | |t| == NUM_REASONS witness CRL_REASON_WORDS

  const NUM_REASONS: nat := 11
  const CRL_REASONS: nat := 8

  /** `crl_reasons`: eight reasons of a CRL and three pseudo reasons. */
  const CRL_REASON_WORDS: seq<string> := [
    "unspecified", "keyCompromise", "CACompromise", "affiliationChanged", "superseded",
    "cessationOfOperation", "certificateHold", "removeFromCRL", "holdInstruction", "keyTime", "CAkeyTime"
  ]

  // Codes of CRLReason, section 5.3.1 of RFC 5280
  const NO_STATUS: int := -1
  const KEY_COMPROMISE: int := 1
  const CA_COMPROMISE: int := 2
  const CERTIFICATE_HOLD: int := 6
  const REMOVE_FROM_CRL: int := 8

  /** What a revocation entry says. */
  datatype Info = Info(time: string, reason: int, hold: Option<string>, compromised: Option<string>)

  /** The first of the first `n` reasons that equals `s` up to case. */
  function ReasonIndex(words: Table, s: string, n: nat): (i: nat)
    requires n <= NUM_REASONS
    ensures i <= n
    ensures i < n ==> EqualIgnoringCase(s, words[i])
    ensures forall j :: 0 <= j < i ==> !EqualIgnoringCase(s, words[j])
    decreases n
  {
    if n == 0 then 0
    else
      var i := ReasonIndex(words, s, n - 1);
      if i < n - 1 then i else if EqualIgnoringCase(s, words[n - 1]) then n - 1 else n
  }

  // ---------------------------------------------------------------- writing

  /** The reason word and the argument that follow the time. */
  function Words(words: Table, r: Revocation, lib: Asn1): Option<(Option<string>, Option<string>)> {
    match r
    case Unexplained => Some((None, None))
    case Reason(name) =>
      var i := ReasonIndex(words, name, CRL_REASONS);
      if i == CRL_REASONS then None else Some((Some(words[i]), None))
    case Hold(oid) => if lib.objectId(oid) then Some((Some(words[8]), Some(oid))) else None
    case KeyCompromised(t) => if lib.generalizedTime(t) then Some((Some(words[9]), Some(t))) else None
    case CaCompromised(t) => if lib.generalizedTime(t) then Some((Some(words[10]), Some(t))) else None
  }

  function Part(w: Option<string>): string { if w.None? then "" else "," + w.value }

  function RevocationText(words: Table, r: Revocation, now: string, lib: Asn1): Option<string> {
    match Words(words, r, lib)
    case None => None
    case Some((reason, other)) => Some(Join(now, reason, other))
  }

  /** The format of the field: time[,reason[,argument]]. */
  function Join(time: string, reason: Option<string>, other: Option<string>): string {
    if reason.None? then time
    else if other.None? then time + "," + reason.value
    else time + "," + (reason.value + "," + other.value)
  }

  /** `OPENSSL_strlcat` behind `len` bytes that are in use: copies what fits and terminates it. */
  method Strlcat(buf: array<char>, len: nat, src: string) returns (len': nat)
    requires len < buf.Length
    modifies buf
    ensures len' == len + |Fitting(src, buf.Length - 1 - len)| && buf[len'] == '\0'
    ensures buf[..len'] == old(buf[..len]) + Fitting(src, buf.Length - 1 - len)
  {
    var fit := Fitting(src, buf.Length - 1 - len);
    for i := 0 to |fit|
      invariant forall k :: 0 <= k < len ==> buf[k] == old(buf[k])
      invariant forall k :: 0 <= k < i ==> buf[len + k] == fit[k]
    {
      buf[len + i] := fit[i];
    }
    len' := len + |fit|;
    buf[len'] := '\0';
  }

  function Fitting(src: string, room: nat): string { if |src| <= room then src else src[..room] }

  /** The loop over the reason table. */
  method FindReason(words: Table, s: string, n: nat) returns (i: nat)
    requires n <= NUM_REASONS
    ensures i == ReasonIndex(words, s, n)
  {
    i := 0;
    while i < n
      invariant i <= n
      invariant forall j :: 0 <= j < i ==> !EqualIgnoringCase(s, words[j])
    {
      if EqualIgnoringCase(s, words[i]) {
        return;
      }
      i := i + 1;
    }
  }

  /** `make_revocation_str`: the buffer it allocates holds the text and its terminator and nothing else. */
  method MakeRevocationStr(words: Table, r: Revocation, now: string, lib: Asn1) returns (str: array?<char>)
    ensures str == null <==> RevocationText(words, r, now, lib) == None
    ensures str != null ==> fresh(str) && str[..] == RevocationText(words, r, now, lib).value + ['\0']
  {
    var reason: Option<string>, other: Option<string> := None, None;
    match r {
      case Unexplained =>
      case Reason(name) =>
        var i := FindReason(words, name, CRL_REASONS);
        if i == CRL_REASONS {
          return null;
        }
        reason := Some(words[i]);
      case Hold(oid) =>
        if !lib.objectId(oid) {
          return null;
        }
        reason, other := Some(words[8]), Some(oid);
      case KeyCompromised(t) =>
        if !lib.generalizedTime(t) {
          return null;
        }
        reason, other := Some(words[9]), Some(t);
      case CaCompromised(t) =>
        if !lib.generalizedTime(t) {
          return null;
        }
        reason, other := Some(words[10]), Some(t);
    }
    assert Words(words, r, lib) == Some((reason, other));
    str := FillBuffer(now, reason, other);
  }

  method FillBuffer(now: string, reason: Option<string>, other: Option<string>) returns (buf: array<char>)
    requires other.Some? ==> reason.Some?
    ensures fresh(buf) && buf[..] == Join(now, reason, other) + ['\0']
  {
    var i := |now| + 1;
    if reason.Some? {
      i := i + |reason.value| + 1;
    }
    if other.Some? {
      i := i + |other.value| + 1;
    }
    buf := new char[i];
    WriteParts(buf, now, reason, other);
    JoinParts(now, reason, other);
  }

  /** The buffer holds the text as a C string. */
  ghost predicate Holds(buf: seq<char>, text: string) {
    |text| < |buf| && buf[..|text|] == text && buf[|text|] == '\0'
  }

  /** `OPENSSL_strlcpy` of the time, then `OPENSSL_strlcat` of the rest. */
  method WriteParts(buf: array<char>, now: string, reason: Option<string>, other: Option<string>)
    requires buf.Length == |now| + |Part(reason)| + |Part(other)| + 1
    modifies buf
    ensures buf[..] == now + Part(reason) + Part(other) + ['\0']
  {
    var len := Strlcat(buf, 0, now);
    len := AppendPart(buf, len, now, reason);
    len := AppendPart(buf, len, now + Part(reason), other);
    FilledUp(buf[..], now + Part(reason) + Part(other));
  }

  lemma {:induction false} FilledUp(buf: seq<char>, text: string)
    requires Holds(buf, text) && |buf| == |text| + 1
    ensures buf == text + ['\0']
  {
  }

  lemma {:induction false} JoinParts(time: string, reason: Option<string>, other: Option<string>)
    requires other.Some? ==> reason.Some?
    ensures time + Part(reason) + Part(other) == Join(time, reason, other)
  {
  }

  method AppendPart(buf: array<char>, len: nat, ghost text: string, w: Option<string>) returns (len': nat)
    requires Holds(buf[..], text) && len == |text| && len + |Part(w)| < buf.Length
    modifies buf
    ensures Holds(buf[..], text + Part(w)) && len' == len + |Part(w)|
  {
    PartAfter(text, w);
    if w.None? {
      return len;
    }
    len' := AppendText(buf, len, text, ",");
    len' := AppendText(buf, len', text + ",", w.value);
  }

  lemma {:induction false} PartAfter(text: string, w: Option<string>)
    ensures text + Part(w) == if w.None? then text else text + "," + w.value
  {
  }

  method AppendText(buf: array<char>, len: nat, ghost text: string, src: string) returns (len': nat)
    requires Holds(buf[..], text) && len == |text| && len + |src| < buf.Length
    modifies buf
    ensures Holds(buf[..], text + src) && len' == len + |src|
  {
    len' := Strlcat(buf, len, src);
    assert buf[..][..len'] == buf[..len'];
  }

  // ---------------------------------------------------------------- reading

  /** Position of the first comma, or the length. */
  function Comma(s: string): (i: nat)
    ensures i <= |s|
    ensures i < |s| ==> s[i] == ','
    ensures forall j :: 0 <= j < i ==> s[j] != ','
  {
    if s == [] || s[0] == ',' then 0 else 1 + Comma(s[1..])
  }

  /** Time, reason and argument; the argument may contain commas itself. */
  function Split(s: string): (string, Option<string>, Option<string>) {
    var i := Comma(s);
    if i == |s| then (s, None, None)
    else
      var rest := s[i + 1..];
      var j := Comma(rest);
      if j == |rest| then (s[..i], Some(rest), None) else (s[..i], Some(rest[..j]), Some(rest[j + 1..]))
  }

  function Unpack(words: Table, s: string, lib: Asn1): Option<Info> {
    var (time, reason, arg) := Split(s);
    Interpret(words, time, reason, arg, lib)
  }

  function Interpret(words: Table, time: string, reason: Option<string>, arg: Option<string>, lib: Asn1): Option<Info> {
    if !lib.utcTime(time) then None
    else if reason == None then Some(Info(time, NO_STATUS, None, None))
    else
      var i := ReasonIndex(words, reason.value, NUM_REASONS);
      if i == NUM_REASONS then None
      else if i == 7 then Some(Info(time, REMOVE_FROM_CRL, None, None))
      else if i == 8 then
        if arg.Some? && lib.objectId(arg.value) then Some(Info(time, CERTIFICATE_HOLD, arg, None)) else None
      else if i == 9 || i == 10 then
        if arg.Some? && lib.generalizedTime(arg.value)
        then Some(Info(time, if i == 9 then KEY_COMPROMISE else CA_COMPROMISE, None, arg))
        else None
      else Some(Info(time, i, None, None))
  }

  method StrChr(s: string, c: char) returns (i: nat)
    requires c == ','
    ensures i == Comma(s)
  {
    i := 0;
    while i < |s| && s[i] != c
      invariant i <= |s| && forall j :: 0 <= j < i ==> s[j] != ','
    {
      i := i + 1;
    }
  }

  /** `unpack_revinfo`: cut the copy at its first two commas, then interpret the pieces. */
  method UnpackRevinfo(words: Table, s: string, lib: Asn1) returns (r: Option<Info>)
    ensures r == Unpack(words, s, lib)
  {
    var time, reasonStr, argStr := SplitRevinfo(s);
    if !lib.utcTime(time) {
      return None;
    }
    if reasonStr == None {
      return Some(Info(time, NO_STATUS, None, None));
    }
    var i := FindReason(words, reasonStr.value, NUM_REASONS);
    if i == NUM_REASONS {
      return None;
    }
    var reason, hold: Option<string>, compromised: Option<string> := i, None, None;
    if i == 7 {
      reason := REMOVE_FROM_CRL;
    } else if i == 8 {
      if argStr == None || !lib.objectId(argStr.value) {
        return None;
      }
      reason, hold := CERTIFICATE_HOLD, argStr;
    } else if i == 9 || i == 10 {
      if argStr == None || !lib.generalizedTime(argStr.value) {
        return None;
      }
      reason, compromised := if i == 9 then KEY_COMPROMISE else CA_COMPROMISE, argStr;
    }
    return Some(Info(time, reason, hold, compromised));
  }

  method SplitRevinfo(s: string) returns (time: string, reason: Option<string>, arg: Option<string>)
    ensures (time, reason, arg) == Split(s)
  {
    time, reason, arg := s, None, None;
    var p := StrChr(s, ',');
    if p < |s| {
      time := s[..p];
      var rest := s[p + 1..];
      var q := StrChr(rest, ',');
      reason := Some(rest[..q]);
      assert q == |rest| ==> rest[..q] == rest;
      if q < |rest| {
        arg := Some(rest[q + 1..]);
      }
    }
  }

  // ---------------------------------------------------------------- the round trip

  ghost predicate CommaFree(s: string) { ',' !in s }

  lemma {:induction false} CommaOfPlain(a: string)
    requires CommaFree(a)
    ensures Comma(a) == |a|
  {
    assert forall j :: 0 <= j < |a| ==> a[j] in a;
  }

  lemma {:induction false} CommaAt(a: string, b: string)
    requires CommaFree(a)
    ensures Comma(a + "," + b) == |a|
  {
    var s := a + "," + b;
    assert s[|a|] == ',';
    assert forall j :: 0 <= j < |a| ==> s[j] == a[j] && a[j] in a;
  }

  lemma {:induction false} SplitTail(time: string, rest: string)
    requires CommaFree(time)
    ensures var s, j := time + "," + rest, Comma(rest);
            Split(s) == if j == |rest| then (time, Some(rest), None) else (time, Some(rest[..j]), Some(rest[j + 1..]))
  {
    var s := time + "," + rest;
    CommaAt(time, rest);
    assert s[|time| + 1..] == rest && s[..|time|] == time;
  }

  lemma {:induction false} SplitJoin(time: string, reason: Option<string>, other: Option<string>)
    requires CommaFree(time) && (reason.Some? ==> CommaFree(reason.value)) && (other.Some? ==> reason.Some?)
    ensures Split(Join(time, reason, other)) == (time, reason, other)
  {
    if reason == None {
      CommaOfPlain(time);
    } else if other == None {
      SplitTail(time, reason.value);
      CommaOfPlain(reason.value);
    } else {
      SplitTwo(time, reason.value, other.value);
    }
  }

  lemma {:induction false} SplitTwo(time: string, word: string, arg: string)
    requires CommaFree(time) && CommaFree(word)
    ensures Split(time + "," + (word + "," + arg)) == (time, Some(word), Some(arg))
  {
    var rest := word + "," + arg;
    SplitTail(time, rest);
    CommaAt(word, arg);
    assert rest[..|word|] == word && rest[|word| + 1..] == arg;
  }

  /** Every word is found at its own place, and none contains a comma. */
  ghost predicate Unambiguous(words: Table) {
    forall i {:trigger ReasonIndex(words, words[i], NUM_REASONS)} ::
      0 <= i < NUM_REASONS ==> ReasonIndex(words, words[i], NUM_REASONS) == i && CommaFree(words[i])
  }

  lemma {:induction false} CrlReasonsUnambiguous()
    ensures Unambiguous(CRL_REASON_WORDS)
  {
    forall i | 0 <= i < NUM_REASONS
      ensures ReasonIndex(CRL_REASON_WORDS, CRL_REASON_WORDS[i], NUM_REASONS) == i && CommaFree(CRL_REASON_WORDS[i])
    {
      CrlReasonIndex(i);
      CrlReasonCommaFree(i);
    }
  }

  lemma {:induction false} CrlReasonIndex(i: nat)
    requires i < NUM_REASONS
    ensures ReasonIndex(CRL_REASON_WORDS, CRL_REASON_WORDS[i], NUM_REASONS) == i
  {
    var w := CRL_REASON_WORDS;
    assert EqualIgnoringCase(w[i], w[i]);
    CrlReasonsDiffer(i, if ReasonIndex(w, w[i], NUM_REASONS) < i then ReasonIndex(w, w[i], NUM_REASONS) else i);
  }

  lemma {:induction false} CrlReasonCommaFree(i: nat)
    requires i < NUM_REASONS
    ensures CommaFree(CRL_REASON_WORDS[i])
  {
    assert forall k :: 0 <= k < |CRL_REASON_WORDS[i]| ==> CRL_REASON_WORDS[i][k] != ',';
  }

  /** Words of equal length differ in their first letter. */
  lemma {:induction false} CrlReasonsDiffer(i: nat, j: nat)
    requires i < NUM_REASONS && j < NUM_REASONS && EqualIgnoringCase(CRL_REASON_WORDS[i], CRL_REASON_WORDS[j])
    ensures i == j
  {
    var w := CRL_REASON_WORDS;
    assert |w[i]| > 0;
    assert ToLower(w[i][0]) == ToLower(w[j][0]);
  }

  /**
   The code that belongs to a request: by section 5.3.1 of RFC 5280 the eighth word has code 8,
   the others their position.
   */
  ghost predicate Explains(words: Table, r: Revocation, info: Info) {
    match r
    case Unexplained => info.reason == NO_STATUS && info.hold == None && info.compromised == None
    case Reason(name) =>
      && info.hold == None && info.compromised == None
      && exists i :: 0 <= i < CRL_REASONS && EqualIgnoringCase(name, words[i])
               && info.reason == if i == 7 then REMOVE_FROM_CRL else i
    case Hold(oid) => info.reason == CERTIFICATE_HOLD && info.hold == Some(oid) && info.compromised == None
    case KeyCompromised(t) => info.reason == KEY_COMPROMISE && info.hold == None && info.compromised == Some(t)
    case CaCompromised(t) => info.reason == CA_COMPROMISE && info.hold == None && info.compromised == Some(t)
  }

  /** The reason is one of the eight words up to case, or the argument is well formed. */
  ghost predicate ValidRequest(words: Table, r: Revocation, lib: Asn1) {
    match r
    case Unexplained => true
    case Reason(name) => exists i :: 0 <= i < 8 && EqualIgnoringCase(name, words[i])
    case Hold(oid) => lib.objectId(oid)
    case KeyCompromised(t) => lib.generalizedTime(t)
    case CaCompromised(t) => lib.generalizedTime(t)
  }

  /** A request is expressible iff it is valid. */
  lemma {:induction false} TextExists(words: Table, r: Revocation, now: string, lib: Asn1)
    ensures RevocationText(words, r, now, lib).Some? <==> ValidRequest(words, r, lib)
  {
    if r.Reason? && ReasonIndex(words, r.name, CRL_REASONS) < CRL_REASONS {
      assert EqualIgnoringCase(r.name, words[ReasonIndex(words, r.name, CRL_REASONS)]);
    }
  }

  /** Unpacking inverts writing, for every request, even when the argument contains commas. */
  lemma {:induction false} RoundTrip(words: Table, r: Revocation, now: string, lib: Asn1)
    requires Unambiguous(words)
    requires lib.utcTime(now) && CommaFree(now) && RevocationText(words, r, now, lib).Some?
    ensures var info := Unpack(words, RevocationText(words, r, now, lib).value, lib);
            info.Some? && info.value.time == now && Explains(words, r, info.value)
  {
    var (word, arg) := Words(words, r, lib).value;
    WordsExplain(words, r, now, lib);
    SplitJoin(now, word, arg);
  }

  /** What is written can be read if and only if the clock was a UTCTime. */
  lemma {:induction false} UnpacksIffUtc(words: Table, r: Revocation, now: string, lib: Asn1)
    requires Unambiguous(words) && CommaFree(now) && RevocationText(words, r, now, lib).Some?
    ensures Unpack(words, RevocationText(words, r, now, lib).value, lib).Some? <==> lib.utcTime(now)
  {
    var (word, arg) := Words(words, r, lib).value;
    if lib.utcTime(now) {
      RoundTrip(words, r, now, lib);
    } else {
      WordsPlain(words, r, lib);
      SplitJoin(now, word, arg);
    }
  }

  lemma {:induction false} WordsPlain(words: Table, r: Revocation, lib: Asn1)
    requires Unambiguous(words) && Words(words, r, lib).Some?
    ensures var (word, arg) := Words(words, r, lib).value;
            (word.Some? ==> CommaFree(word.value)) && (arg.Some? ==> word.Some?)
  {
    match r {
      case Unexplained =>
      case Reason(name) =>
        var i := ReasonIndex(words, name, CRL_REASONS);
        assert ReasonIndex(words, words[i], NUM_REASONS) == i;
      case Hold(_) => assert ReasonIndex(words, words[8], NUM_REASONS) == 8;
      case KeyCompromised(_) => assert ReasonIndex(words, words[9], NUM_REASONS) == 9;
      case CaCompromised(_) => assert ReasonIndex(words, words[10], NUM_REASONS) == 10;
    }
  }

  lemma {:induction false} WordsExplain(words: Table, r: Revocation, now: string, lib: Asn1)
    requires Unambiguous(words) && lib.utcTime(now) && Words(words, r, lib).Some?
    ensures var (word, arg) := Words(words, r, lib).value;
            var info := Interpret(words, now, word, arg, lib);
            && (word.Some? ==> CommaFree(word.value)) && (arg.Some? ==> word.Some?)
            && info.Some? && info.value.time == now && Explains(words, r, info.value)
  {
    match r {
      case Unexplained =>
      case Reason(name) => NameExplains(words, name, now, lib);
      case Hold(_) => assert ReasonIndex(words, words[8], NUM_REASONS) == 8;
      case KeyCompromised(_) => assert ReasonIndex(words, words[9], NUM_REASONS) == 9;
      case CaCompromised(_) => assert ReasonIndex(words, words[10], NUM_REASONS) == 10;
    }
  }

  lemma {:induction false} NameExplains(words: Table, name: string, now: string, lib: Asn1)
    requires Unambiguous(words) && lib.utcTime(now) && ReasonIndex(words, name, CRL_REASONS) < CRL_REASONS
    ensures var i := ReasonIndex(words, name, CRL_REASONS);
            && CommaFree(words[i])
            && Interpret(words, now, Some(words[i]), None, lib) ==
               Some(Info(now, if i == 7 then REMOVE_FROM_CRL else i, None, None))
  {
    var i := ReasonIndex(words, name, CRL_REASONS);
    assert ReasonIndex(words, words[i], NUM_REASONS) == i;
  }
}
