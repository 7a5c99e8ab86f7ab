/**
 `parse_name` of apps.c: reads "/type=value/type=value+type=value", with backslash escapes in
 the values, into a distinguished name, collecting each piece in a work buffer.
 */
module ParseName {
  import opened Wrappers

  /** An attribute and the number of the relative name it belongs to. */
  datatype Entry = Entry(nid: nat, value: string, rdn: nat)

  type Name = seq<Entry>

  datatype Error = NoSlash | NoEquals | DanglingEscape | Rejected

  /** `OBJ_txt2nid`, with 0 for an unknown type, and the attributes `X509_NAME_add_entry_by_NID` takes. */
  datatype Objects = Objects(nid: string -> nat, accepts: (nat, string) -> bool)

  // ---------------------------------------------------------------- grammar

  predicate Ends(s: string, multi: bool) {
    s == [] || s[0] == '/' || (multi && s[0] == '+')
  }

  /** A value, what is left behind it, and whether that starts with a '+'. */
  datatype Scan = Scan(value: string, rest: string, plus: bool)

  function ScanValue(s: string, multi: bool): Option<Scan> {
    if Ends(s, multi) then Some(Scan([], s, s != [] && s[0] == '+'))
    else if s[0] == '\\' then
      if |s| == 1 then None else Prefixed([s[1]], ScanValue(s[2..], multi))
    else Prefixed([s[0]], ScanValue(s[1..], multi))
  }

  function Prefixed(acc: string, scan: Option<Scan>): Option<Scan> {
    if scan.None? then None else Some(scan.value.(value := acc + scan.value.value))
  }

  function TypeEnd(s: string): (i: nat)
    ensures i <= |s|
    ensures i < |s| ==> s[i] == '='
    ensures forall j :: 0 <= j < i ==> s[j] != '='
  {
    if s == [] || s[0] == '=' then 0 else 1 + TypeEnd(s[1..])
  }

  /** `X509_NAME_add_entry` at the end: a new relative name, or the last one again. */
  function Added(name: Name, nid: nat, value: string, joined: bool): Name {
    var rdn := if name == [] then 0 else if joined then name[|name| - 1].rdn else name[|name| - 1].rdn + 1;
    name + [Entry(nid, value, rdn)]
  }

  /** One attribute on top of a name: unknown types are skipped. */
  function Extended(name: Name, typ: string, value: string, joined: bool, objects: Objects): Result<Name, Error> {
    var nid := objects.nid(typ);
    if nid == 0 then Success(name)
    else if !objects.accepts(nid, value) then Failure(Rejected)
    else Success(Added(name, nid, value, joined))
  }

  lemma {:induction false} ScanShorter(s: string, multi: bool)
    ensures ScanValue(s, multi).Some? ==> |ScanValue(s, multi).value.rest| <= |s|
    decreases |s|
  {
    if !Ends(s, multi) {
      if s[0] != '\\' { ScanShorter(s[1..], multi); } else if |s| > 1 { ScanShorter(s[2..], multi); }
    }
  }

  /** Everything behind the leading slash. */
  function Attributes(s: string, multi: bool, name: Name, joined: bool, objects: Objects): Result<Name, Error>
    decreases |s|
  {
    if s == [] then Success(name)
    else
      var e := TypeEnd(s);
      if e == |s| then Failure(NoEquals)
      else
        ScanShorter(s[e + 1..], multi);
        match ScanValue(s[e + 1..], multi)
        case None => Failure(DanglingEscape)
        case Some(Scan(value, rest, plus)) =>
          match Extended(name, s[..e], value, joined, objects)
          case Failure(error) => Failure(error)
          case Success(name) => Attributes(if rest == [] then [] else rest[1..], multi, name, plus, objects)
  }

  function Parsed(s: string, multi: bool, objects: Objects): Result<Name, Error> {
    if s == [] || s[0] != '/' then Failure(NoSlash) else Attributes(s[1..], multi, [], false, objects)
  }

  // ---------------------------------------------------------------- the pointer loops

  predicate NoNul(s: string) { forall i :: 0 <= i < |s| ==> s[i] != '\0' }

  /** Copies the type to the start of the buffer and terminates it. */
  method CollectType(cp: string, start: nat, work: array<char>) returns (i: nat)
    requires start <= |cp| && work.Length == |cp| + 1
    modifies work
    ensures start <= i <= |cp| && i - start == TypeEnd(cp[start..])
    ensures i < |cp| ==> work[..i - start] == cp[start..i] && work[i - start] == '\0'
  {
    i := start;
    while i < |cp| && cp[i] != '='
      invariant start <= i <= |cp|
      invariant forall j :: start <= j < i ==> cp[j] != '='
      invariant work[..i - start] == cp[start..i]
    {
      ghost var typ := work[..i - start];
      work[i - start] := cp[i];
      assert work[..i - start + 1] == typ + [cp[i]];
      i := i + 1;
    }
    TypeEndIs(cp[start..], i - start);
    if i < |cp| {
      work[i - start] := '\0';
    }
  }

  lemma {:induction false} TypeEndIs(s: string, k: nat)
    requires k <= |s| && (forall j :: 0 <= j < k ==> s[j] != '=') && (k == |s| || s[k] == '=')
    ensures TypeEnd(s) == k
  {
  }

  /** Copies the value behind the type, dropping backslashes; never ahead of what was read. */
  method CollectValue(cp: string, start: nat, work: array<char>, valstr: nat, multi: bool)
    returns (ok: bool, i: nat, bp: nat, plus: bool)
    requires valstr <= start <= |cp| && work.Length == |cp| + 1
    modifies work
    ensures work[..valstr] == old(work[..valstr])
    ensures ok <==> ScanValue(cp[start..], multi).Some?
    ensures ok ==> start <= i <= |cp| && valstr <= bp < work.Length && work[bp] == '\0'
                   && ScanValue(cp[start..], multi) == Some(Scan(work[valstr..bp], cp[i..], plus))
  {
    i, bp, plus := start, valstr, false;
    ghost var all, acc := ScanValue(cp[start..], multi), [];
    CollectedStart(all, cp, start, multi);
    while i < |cp| && cp[i] != '/'
      invariant start <= i <= |cp| && valstr <= bp && bp - valstr <= i - start && !plus
      invariant work[..valstr] == old(work[..valstr]) && work[valstr..bp] == acc
      invariant Collected(all, acc, cp, i, multi)
    {
      if multi && cp[i] == '+' {
        plus := true;
        break;
      }
      ok, i := CopyChar(cp, i, work, bp, multi, valstr, acc, all);
      if !ok {
        return false, i, bp, plus;
      }
      bp := bp + 1;
      acc := work[valstr..bp];
    }
    CollectedEnd(all, acc, cp, i, multi);
    PutChar(work, bp, '\0', valstr, acc);
    assert work[valstr..bp] == work[valstr..bp + 1][..|acc|] == acc;
    return true, i, bp, plus;
  }

  /** The body of the value loop: one character, which a backslash may precede. */
  method CopyChar(cp: string, start: nat, work: array<char>, bp: nat, multi: bool,
                  ghost valstr: nat, ghost acc: string, ghost all: Option<Scan>)
    returns (ok: bool, i: nat)
    requires start < |cp| && cp[start] != '/' && !(multi && cp[start] == '+')
    requires valstr <= bp < work.Length && work[valstr..bp] == acc && Collected(all, acc, cp, start, multi)
    modifies work
    ensures !ok ==> all.None?
    ensures work[..valstr] == old(work[..valstr])
    ensures ok ==> start < i <= |cp| && Collected(all, work[valstr..bp + 1], cp, i, multi)
  {
    i := start;
    if cp[i] == '\\' {
      i := i + 1;
      if i == |cp| {
        CollectedDangling(all, acc, cp, start, multi);
        return false, i;
      }
    }
    CollectedStep(all, acc, cp, start, i, multi);
    PutChar(work, bp, cp[i], valstr, acc);
    return true, i + 1;
  }

  /** `*bp++ = c` behind what has been collected so far. */
  method PutChar(work: array<char>, bp: nat, c: char, ghost valstr: nat, ghost acc: string)
    requires valstr <= bp < work.Length && work[valstr..bp] == acc
    modifies work
    ensures work[..valstr] == old(work[..valstr])
    ensures work[valstr..bp + 1] == acc + [c] && work[bp] == c
  {
    ghost var was := work[valstr..bp];
    work[bp] := c;
    assert work[valstr..bp + 1] == was + [c];
  }

  /** `acc` has been read, the rest of the value starts at `i`. */
  ghost predicate Collected(all: Option<Scan>, acc: string, cp: string, i: nat, multi: bool) {
    i <= |cp| && all == Prefixed(acc, ScanValue(cp[i..], multi))
  }

  lemma {:induction false} CollectedStart(all: Option<Scan>, cp: string, i: nat, multi: bool)
    requires i <= |cp| && all == ScanValue(cp[i..], multi)
    ensures Collected(all, [], cp, i, multi)
  {
    if all.Some? { assert [] + all.value.value == all.value.value; }
  }

  lemma {:induction false} CollectedEnd(all: Option<Scan>, acc: string, cp: string, i: nat, multi: bool)
    requires Collected(all, acc, cp, i, multi) && Ends(cp[i..], multi)
    ensures all == Some(Scan(acc, cp[i..], i < |cp| && cp[i] == '+'))
  {
    assert acc + [] == acc;
  }

  lemma {:induction false} CollectedDangling(all: Option<Scan>, acc: string, cp: string, i: nat, multi: bool)
    requires Collected(all, acc, cp, i, multi) && i + 1 == |cp| && cp[i] == '\\'
    ensures all.None?
  {
  }

  /** One turn of the copying loop: the character at `c` is taken. */
  lemma {:induction false} CollectedStep(all: Option<Scan>, acc: string, cp: string, i: nat, c: nat, multi: bool)
    requires Collected(all, acc, cp, i, multi) && i < |cp| && !Ends(cp[i..], multi)
    requires c == (if cp[i] == '\\' then i + 1 else i) < |cp|
    ensures Collected(all, acc + [cp[c]], cp, c + 1, multi)
  {
    assert cp[i..][c - i + 1..] == cp[c + 1..];
    var tail := ScanValue(cp[c + 1..], multi);
    assert ScanValue(cp[i..], multi) == Prefixed([cp[c]], tail);
    if tail.Some? {
      assert acc + ([cp[c]] + tail.value.value) == acc + [cp[c]] + tail.value.value;
    }
  }

  /** The first attribute of a list. */
  lemma {:induction false} AttributesHead(s: string, e: nat, multi: bool, name: Name, joined: bool,
                                          scan: Scan, objects: Objects)
    requires e == TypeEnd(s) < |s| && ScanValue(s[e + 1..], multi) == Some(scan)
    ensures var step := Extended(name, s[..e], scan.value, joined, objects);
            var rest := if scan.rest == [] then [] else scan.rest[1..];
            Attributes(s, multi, name, joined, objects) ==
              if step.Failure? then step else Attributes(rest, multi, step.value, scan.plus, objects)
  {
  }

  /** One turn of the outer loop, at the positions where type and value end. */
  lemma {:induction false} AttributesStep(cp: string, i: nat, e: nat, j: nat, multi: bool, name: Name,
                                          joined: bool, value: string, plus: bool, objects: Objects)
    requires i <= e < |cp| && e - i == TypeEnd(cp[i..]) && e < j <= |cp|
    requires ScanValue(cp[e + 1..], multi) == Some(Scan(value, cp[j..], plus))
    ensures var step, next := Extended(name, cp[i..e], value, joined, objects), if j < |cp| then j + 1 else j;
            Attributes(cp[i..], multi, name, joined, objects) ==
              if step.Failure? then step else Attributes(cp[next..], multi, step.value, plus, objects)
  {
    var s := cp[i..];
    assert s[..e - i] == cp[i..e] && s[e - i + 1..] == cp[e + 1..];
    AttributesHead(s, e - i, multi, name, joined, Scan(value, cp[j..], plus), objects);
    assert (if cp[j..] == [] then [] else cp[j..][1..]) == cp[if j < |cp| then j + 1 else j..];
  }

  lemma {:induction false} AttributesDangling(cp: string, i: nat, e: nat, multi: bool, name: Name,
                                              joined: bool, objects: Objects)
    requires i <= e < |cp| && e - i == TypeEnd(cp[i..]) && ScanValue(cp[e + 1..], multi).None?
    ensures Attributes(cp[i..], multi, name, joined, objects) == Failure(DanglingEscape)
  {
    assert cp[i..][e - i + 1..] == cp[e + 1..];
  }

  /** `parse_name`. Every write stays within the duplicate of the input that serves as buffer. */
  method Parse(input: string, multi: bool, objects: Objects) returns (r: Result<Name, Error>)
    requires NoNul(input)
    ensures r == Parsed(input, multi, objects)
  {
    if input == [] || input[0] != '/' {
      return Failure(NoSlash);
    }
    var cp := input[1..];
    var work := new char[|cp| + 1];
    var name: Name := [];
    var i, nextIsMulti := 0, false;
    assert cp[0..] == cp;
    while i < |cp|
      invariant i <= |cp|
      invariant Parsed(input, multi, objects) == Attributes(cp[i..], multi, name, nextIsMulti, objects)
    {
      var step := ParseAttribute(cp, i, work, multi, name, nextIsMulti, objects);
      if step.Failure? {
        return Failure(step.error);
      }
      name, i, nextIsMulti := step.value.0, step.value.1, step.value.2;
    }
    return Success(name);
  }

  /** The C string that starts at `from`: everything up to the first NUL. */
  method CString(work: array<char>, from: nat, ghost len: nat) returns (s: string)
    requires from + len < work.Length && work[from + len] == '\0' && NoNul(work[from..from + len])
    ensures s == work[from..from + len]
  {
    var n := from;
    while work[n] != '\0'
      invariant from <= n <= from + len
      decreases from + len - n
    {
      n := n + 1;
    }
    s := work[from..n];
  }

  lemma {:induction false} NoNulSlice(s: string, i: nat, j: nat)
    requires NoNul(s) && i <= j <= |s|
    ensures NoNul(s[i..j])
  {
    forall k | 0 <= k < j - i ensures s[i..j][k] != '\0' { assert s[i..j][k] == s[i + k]; }
  }

  /** A value read from a C string contains no NUL. */
  lemma {:induction false} ScanNoNul(s: string, multi: bool)
    requires NoNul(s)
    ensures ScanValue(s, multi).Some? ==> NoNul(ScanValue(s, multi).value.value)
    decreases |s|
  {
    if !Ends(s, multi) {
      if s[0] != '\\' { ScanNoNul(s[1..], multi); } else if |s| > 1 { ScanNoNul(s[2..], multi); }
    }
  }

  /** The body of the outer loop: one attribute, the position behind it, and whether a '+' follows. */
  method ParseAttribute(cp: string, i: nat, work: array<char>, multi: bool, name: Name, isMulti: bool, objects: Objects)
    returns (r: Result<(Name, nat, bool), Error>)
    requires i < |cp| && work.Length == |cp| + 1 && NoNul(cp)
    modifies work
    ensures r.Failure? ==> Attributes(cp[i..], multi, name, isMulti, objects) == Failure(r.error)
    ensures r.Success? ==>
              && i < r.value.1 <= |cp|
              && Attributes(cp[i..], multi, name, isMulti, objects) ==
                 Attributes(cp[r.value.1..], multi, r.value.0, r.value.2, objects)
  {
    var e, typ := ReadType(cp, i, work);
    if e == |cp| {
      return Failure(NoEquals);
    }
    var ok, j, value, plus := ReadValue(cp, e + 1, work, e - i + 1, multi);
    if !ok {
      AttributesDangling(cp, i, e, multi, name, isMulti, objects);
      return Failure(DanglingEscape);
    }
    AttributesStep(cp, i, e, j, multi, name, isMulti, value, plus, objects);
    var step := Extended(name, typ, value, isMulti, objects);
    if step.Failure? {
      return Failure(step.error);
    }
    return Success((step.value, if j < |cp| then j + 1 else j, plus));
  }

  /** The type as a C string at the start of the buffer. */
  method ReadType(cp: string, i: nat, work: array<char>) returns (e: nat, typ: string)
    requires i < |cp| && work.Length == |cp| + 1 && NoNul(cp)
    modifies work
    ensures i <= e <= |cp| && e - i == TypeEnd(cp[i..]) && (e < |cp| ==> typ == cp[i..e])
  {
    e := CollectType(cp, i, work);
    typ := "";
    if e < |cp| {
      NoNulSlice(cp, i, e);
      assert work[0..e - i] == cp[i..e];
      typ := CString(work, 0, e - i);
    }
  }

  /** The value as a C string behind it. */
  method ReadValue(cp: string, start: nat, work: array<char>, valstr: nat, multi: bool)
    returns (ok: bool, j: nat, value: string, plus: bool)
    requires valstr <= start <= |cp| && work.Length == |cp| + 1 && NoNul(cp)
    modifies work
    ensures ok <==> ScanValue(cp[start..], multi).Some?
    ensures ok ==> start <= j <= |cp| && ScanValue(cp[start..], multi) == Some(Scan(value, cp[j..], plus))
  {
    var bp;
    ok, j, bp, plus := CollectValue(cp, start, work, valstr, multi);
    value := "";
    if ok {
      NoNulSlice(cp, start, |cp|);
      assert cp[start..|cp|] == cp[start..];
      ScanNoNul(cp[start..], multi);
      value := CString(work, valstr, bp - valstr);
    }
  }

  // ---------------------------------------------------------------- printing

  /** `text` spells the value: separators are escaped, and anything else may be. */
  ghost predicate Spells(text: string, value: string, multi: bool) {
    if text == [] then value == []
    else if text[0] == '\\' then
      |text| > 1 && value != [] && value[0] == text[1] && Spells(text[2..], value[1..], multi)
    else !Ends(text, multi) && value != [] && value[0] == text[0] && Spells(text[1..], value[1..], multi)
  }

  /** The usual printer. */
  function Escape(value: string): string {
    if value == [] then []
    else (if value[0] in ['/', '+', '\\'] then ['\\', value[0]] else [value[0]]) + Escape(value[1..])
  }

  lemma {:induction false} EscapeSpells(value: string, multi: bool)
    ensures Spells(Escape(value), value, multi)
  {
    if value != [] {
      EscapeSpells(value[1..], multi);
      var text := Escape(value);
      if value[0] in ['/', '+', '\\'] {
        assert text[2..] == Escape(value[1..]);
      } else {
        assert text[1..] == Escape(value[1..]);
      }
    }
  }

  /** Reading a spelling gives the value and stops behind it. */
  lemma {:induction false} ScanOfSpelling(text: string, value: string, rest: string, multi: bool)
    requires Spells(text, value, multi) && Ends(rest, multi)
    ensures ScanValue(text + rest, multi) == Some(Scan(value, rest, rest != [] && rest[0] == '+'))
    decreases |text|
  {
    var s := text + rest;
    if text == [] {
      assert s == rest;
    } else {
      assert value == [value[0]] + value[1..];
      if text[0] == '\\' {
        ScanOfSpelling(text[2..], value[1..], rest, multi);
        assert s[2..] == text[2..] + rest;
      } else {
        ScanOfSpelling(text[1..], value[1..], rest, multi);
        assert s[1..] == text[1..] + rest;
      }
    }
  }

  /** Conversely, whatever is read was a spelling of the value, up to a separator or the end. */
  lemma {:induction false} ScanIsSpelling(s: string, multi: bool) returns (text: string)
    requires ScanValue(s, multi).Some?
    ensures var scan := ScanValue(s, multi).value;
            s == text + scan.rest && Spells(text, scan.value, multi) && Ends(scan.rest, multi)
    decreases |s|
  {
    if Ends(s, multi) {
      text := [];
    } else {
      var n := if s[0] == '\\' then 2 else 1;
      ScanUnfold(s, n, multi);
      var scan := ScanValue(s[n..], multi).value;
      var tail := ScanIsSpelling(s[n..], multi);
      SpellsAfter(s, n, tail, scan.value, scan.rest, multi);
      text := s[..n] + tail;
    }
  }

  lemma {:induction false} SpellsAfter(s: string, n: nat, tail: string, value: string, rest: string, multi: bool)
    requires !Ends(s, multi) && n == (if s[0] == '\\' then 2 else 1) <= |s|
    requires s[n..] == tail + rest && Spells(tail, value, multi)
    ensures s == s[..n] + tail + rest && Spells(s[..n] + tail, [s[n - 1]] + value, multi)
  {
    SpellsCons(s[..n], tail, value, multi);
    assert s == s[..n] + s[n..];
  }

  lemma {:induction false} ScanUnfold(s: string, n: nat, multi: bool)
    requires ScanValue(s, multi).Some? && !Ends(s, multi) && n == if s[0] == '\\' then 2 else 1
    ensures n <= |s| && ScanValue(s[n..], multi).Some?
    ensures var scan := ScanValue(s[n..], multi).value;
            ScanValue(s, multi) == Some(Scan([s[n - 1]] + scan.value, scan.rest, scan.plus))
  {
  }

  lemma {:induction false} SpellsCons(head: string, tail: string, value: string, multi: bool)
    requires Spells(tail, value, multi)
    requires (|head| == 2 && head[0] == '\\') || (|head| == 1 && head[0] != '\\' && !Ends(head, multi))
    ensures Spells(head + tail, [head[|head| - 1]] + value, multi)
  {
    var text, all := head + tail, [head[|head| - 1]] + value;
    assert text[|head|..] == tail && all[1..] == value;
  }

  /** An attribute as written: its separator, its type, and its value with a spelling. */
  datatype Attribute = Attribute(joined: bool, typ: string, value: string, text: string) {
    ghost predicate Valid(multi: bool) { '=' !in typ && Spells(text, value, multi) && (joined ==> multi) }

    function Written(): string { (if joined then "+" else "/") + typ + "=" + text }
  }

  function Written(attributes: seq<Attribute>): string {
    if attributes == [] then [] else attributes[0].Written() + Written(attributes[1..])
  }

  /** The name the attributes stand for. */
  function Built(name: Name, attributes: seq<Attribute>, objects: Objects): Result<Name, Error>
    decreases |attributes|
  {
    if attributes == [] then Success(name)
    else
      var a := attributes[0];
      match Extended(name, a.typ, a.value, a.joined, objects)
      case Failure(error) => Failure(error)
      case Success(name) => Built(name, attributes[1..], objects)
  }

  lemma {:induction false} WrittenStart(attributes: seq<Attribute>)
    requires attributes != []
    ensures var s := Written(attributes);
            s != [] && s[0] == (if attributes[0].joined then '+' else '/')
            && s[1..] == attributes[0].typ + "=" + (attributes[0].text + Written(attributes[1..]))
  {
    var a, tail := attributes[0], Written(attributes[1..]);
    var sep := if a.joined then "+" else "/";
    var body := a.typ + "=" + (a.text + tail);
    assert a.Written() + tail == sep + body;
    assert (sep + body)[1..] == body;
  }

  lemma {:induction false} TypeEndOf(typ: string, rest: string)
    requires '=' !in typ
    ensures TypeEnd(typ + "=" + rest) == |typ|
  {
    var s := typ + "=" + rest;
    assert forall j :: 0 <= j < |typ| ==> s[j] == typ[j] && typ[j] in typ;
    TypeEndIs(s, |typ|);
  }

  /** What may stand behind the last attribute: nothing, or a separator that separates nothing. */
  predicate Tail(tail: string, multi: bool) { tail == "" || tail == "/" || (multi && tail == "+") }

  /** Behind its separator, what was written is read back attribute by attribute. */
  lemma {:induction false} AttributesOfWritten(attributes: seq<Attribute>, tail: string, multi: bool, name: Name,
                                               objects: Objects)
    requires attributes != [] && Tail(tail, multi)
    requires forall k :: 0 <= k < |attributes| ==> attributes[k].Valid(multi)
    ensures Attributes(Written(attributes)[1..] + tail, multi, name, attributes[0].joined, objects) ==
            Built(name, attributes, objects)
    decreases |attributes|
  {
    var a, more := attributes[0], attributes[1..];
    var rest := Written(more) + tail;
    WrittenStart(attributes);
    assert Written(attributes)[1..] + tail == a.typ + "=" + (a.text + rest);
    RestEnds(more, tail, multi);
    ReadOne(a, rest, multi, name, objects);
    var step := Extended(name, a.typ, a.value, a.joined, objects);
    if step.Success? && more != [] {
      AttributesOfWritten(more, tail, multi, step.value, objects);
    }
  }

  /** One attribute in front of a separator or the end. */
  lemma {:induction false} ReadOne(a: Attribute, rest: string, multi: bool, name: Name, objects: Objects)
    requires a.Valid(multi) && Ends(rest, multi)
    ensures var step := Extended(name, a.typ, a.value, a.joined, objects);
            Attributes(a.typ + "=" + (a.text + rest), multi, name, a.joined, objects) ==
              if step.Failure? then step
              else
                var plus := rest != [] && rest[0] == '+';
                Attributes(if rest == [] then [] else rest[1..], multi, step.value, plus, objects)
  {
    var s := a.typ + "=" + (a.text + rest);
    TypeEndOf(a.typ, a.text + rest);
    assert s[..|a.typ|] == a.typ && s[|a.typ| + 1..] == a.text + rest;
    ScanOfSpelling(a.text, a.value, rest, multi);
    AttributesHead(s, |a.typ|, multi, name, a.joined, Scan(a.value, rest, rest != [] && rest[0] == '+'), objects);
  }

  lemma {:induction false} RestEnds(more: seq<Attribute>, tail: string, multi: bool)
    requires Tail(tail, multi) && forall k :: 0 <= k < |more| ==> more[k].Valid(multi)
    ensures var rest := Written(more) + tail;
            && Ends(rest, multi)
            && (more == [] ==> (if rest == [] then [] else rest[1..]) == [])
            && (more != [] ==> rest != [] && rest[1..] == Written(more)[1..] + tail
                               && (rest[0] == '+' <==> more[0].joined))
  {
    if more != [] {
      WrittenStart(more);
      assert more[0].Valid(multi);
    }
  }

  /** Parsing inverts writing, for every list of attributes and every spelling of their values. */
  lemma {:induction false} ParsedOfWritten(attributes: seq<Attribute>, tail: string, multi: bool, objects: Objects)
    requires attributes != [] && !attributes[0].joined && Tail(tail, multi)
    requires forall k :: 0 <= k < |attributes| ==> attributes[k].Valid(multi)
    ensures Parsed(Written(attributes) + tail, multi, objects) == Built([], attributes, objects)
  {
    WrittenStart(attributes);
    AttributesOfWritten(attributes, tail, multi, [], objects);
    assert (Written(attributes) + tail)[1..] == Written(attributes)[1..] + tail;
  }

  /** Conversely, what was read to the end was written in this way. */
  lemma {:induction false} ReadIsWritten(s: string, multi: bool, name: Name, joined: bool, objects: Objects)
    returns (attributes: seq<Attribute>, tail: string)
    requires s != [] && (joined ==> multi) && Attributes(s, multi, name, joined, objects).Success?
    ensures attributes != [] && attributes[0].joined == joined && Tail(tail, multi)
    ensures forall k :: 0 <= k < |attributes| ==> attributes[k].Valid(multi)
    ensures s == Written(attributes)[1..] + tail
    decreases |s|
  {
    var a, rest, step := ReadHead(s, multi, name, joined, objects);
    if |rest| <= 1 {
      attributes, tail := [a], rest;
      WrittenOne(a, rest);
    } else {
      var more;
      more, tail := ReadIsWritten(rest[1..], multi, step, rest[0] == '+', objects);
      attributes := [a] + more;
      WrittenMore(a, more, tail, rest);
    }
  }

  /** The first attribute of what was read to the end. */
  lemma {:induction false} ReadHead(s: string, multi: bool, name: Name, joined: bool, objects: Objects)
    returns (a: Attribute, rest: string, step: Name)
    requires s != [] && (joined ==> multi) && Attributes(s, multi, name, joined, objects).Success?
    ensures a.joined == joined && a.Valid(multi) && s == a.typ + "=" + (a.text + rest)
    ensures rest == [] || rest[0] == '/' || (multi && rest[0] == '+')
    ensures rest != [] ==> Attributes(rest[1..], multi, step, rest[0] == '+', objects).Success?
  {
    var e := TypeEnd(s);
    var value := s[e + 1..];
    AtEquals(s, e, multi, name, joined, objects);
    var scan := ScanValue(value, multi).value;
    var text := ScanIsSpelling(value, multi);
    PlusNeedsMulti(value, multi);
    a, rest := Attribute(joined, s[..e], scan.value, text), scan.rest;
    step := Extended(name, s[..e], scan.value, joined, objects).value;
  }

  lemma {:induction false} AtEquals(s: string, e: nat, multi: bool, name: Name, joined: bool, objects: Objects)
    requires s != [] && e == TypeEnd(s) && Attributes(s, multi, name, joined, objects).Success?
    ensures e < |s| && s == s[..e] + "=" + s[e + 1..] && '=' !in s[..e] && ScanValue(s[e + 1..], multi).Some?
    ensures var scan := ScanValue(s[e + 1..], multi).value;
            var step := Extended(name, s[..e], scan.value, joined, objects);
            && step.Success?
            && (scan.rest != [] ==> Attributes(scan.rest[1..], multi, step.value, scan.plus, objects).Success?)
  {
    HasEquals(s, e, multi, name, joined, objects);
    AttributesHead(s, e, multi, name, joined, ScanValue(s[e + 1..], multi).value, objects);
  }

  lemma {:induction false} HasEquals(s: string, e: nat, multi: bool, name: Name, joined: bool, objects: Objects)
    requires s != [] && e == TypeEnd(s) && Attributes(s, multi, name, joined, objects).Success?
    ensures e < |s| && s == s[..e] + "=" + s[e + 1..] && '=' !in s[..e] && ScanValue(s[e + 1..], multi).Some?
  {
    SplitAt(s, e);
  }

  lemma {:induction false} SplitAt(s: string, e: nat)
    requires e == TypeEnd(s) < |s|
    ensures s == s[..e] + "=" + s[e + 1..] && '=' !in s[..e]
  {
  }

  lemma {:induction false} WrittenOne(a: Attribute, tail: string)
    ensures Written([a])[1..] + tail == a.typ + "=" + (a.text + tail)
  {
    WrittenStart([a]);
    assert [a][1..] == [] && a.text + [] == a.text;
  }

  lemma {:induction false} PlusNeedsMulti(s: string, multi: bool)
    requires ScanValue(s, multi).Some?
    ensures var scan := ScanValue(s, multi).value;
            (scan.plus ==> multi) && (scan.plus <==> scan.rest != [] && scan.rest[0] == '+')
            && (scan.rest != [] && !scan.plus ==> scan.rest[0] == '/')
    decreases |s|
  {
    if !Ends(s, multi) {
      var n := if s[0] == '\\' then 2 else 1;
      ScanUnfold(s, n, multi);
      PlusNeedsMulti(s[n..], multi);
    }
  }

  lemma {:induction false} WrittenMore(a: Attribute, more: seq<Attribute>, tail: string, rest: string)
    requires more != [] && rest != [] && rest[0] == (if more[0].joined then '+' else '/')
    requires rest[1..] == Written(more)[1..] + tail
    ensures Written([a] + more)[1..] + tail == a.typ + "=" + (a.text + rest)
  {
    assert ([a] + more)[1..] == more;
    WrittenStart([a] + more);
    WrittenStart(more);
    SameFromHead(rest, Written(more), tail);
    Regroup(a.typ + "=", a.text, Written(more), tail);
  }

  lemma {:induction false} SameFromHead(rest: string, s: string, tail: string)
    requires rest != [] && s != [] && rest[0] == s[0] && rest[1..] == s[1..] + tail
    ensures rest == s + tail
  {
    assert rest == [rest[0]] + rest[1..];
  }

  lemma {:induction false} Regroup(head: string, text: string, s: string, tail: string)
    ensures head + (text + s) + tail == head + (text + (s + tail))
  {
  }

  /**
   The inputs that are accepted: a slash alone, or a list of attributes in any spelling, perhaps
   with a separator behind it, of which no known type has a value that is rejected.
   */
  lemma {:induction false} ParsesIff(input: string, multi: bool, objects: Objects)
    ensures Parsed(input, multi, objects).Success? <==>
            || input == "/"
            || exists attributes, tail :: IsListing(input, attributes, tail, multi) && AllAccepted(attributes, objects)
  {
    if Parsed(input, multi, objects).Success? && input != "/" {
      assert input[1..] != [];
      var attributes, tail := ReadIsWritten(input[1..], multi, [], false, objects);
      WrittenStart(attributes);
      assert input == Written(attributes) + tail;
      assert IsListing(input, attributes, tail, multi);
      ParsedOfWritten(attributes, tail, multi, objects);
      BuiltIff([], attributes, objects);
    }
    forall attributes, tail | IsListing(input, attributes, tail, multi) && AllAccepted(attributes, objects)
      ensures Parsed(input, multi, objects).Success?
    {
      ParsedOfWritten(attributes, tail, multi, objects);
      BuiltIff([], attributes, objects);
    }
  }

  ghost predicate IsListing(input: string, attributes: seq<Attribute>, tail: string, multi: bool) {
    && attributes != [] && !attributes[0].joined && Tail(tail, multi)
    && (forall k :: 0 <= k < |attributes| ==> attributes[k].Valid(multi))
    && input == Written(attributes) + tail
  }

  ghost predicate AllAccepted(attributes: seq<Attribute>, objects: Objects) {
    forall k :: 0 <= k < |attributes| && objects.nid(attributes[k].typ) != 0 ==>
      objects.accepts(objects.nid(attributes[k].typ), attributes[k].value)
  }

  /** A name is built unless a known type has a rejected value; unknown types do no harm. */
  lemma {:induction false} BuiltIff(name: Name, attributes: seq<Attribute>, objects: Objects)
    ensures Built(name, attributes, objects).Success? <==> AllAccepted(attributes, objects)
    ensures Built(name, attributes, objects).Failure? ==> Built(name, attributes, objects).error == Rejected
    decreases |attributes|
  {
    if attributes != [] {
      var a := attributes[0];
      AllAcceptedCons(attributes, objects);
      if Extended(name, a.typ, a.value, a.joined, objects).Success? {
        BuiltIff(Extended(name, a.typ, a.value, a.joined, objects).value, attributes[1..], objects);
      }
    }
  }

  lemma {:induction false} AllAcceptedCons(attributes: seq<Attribute>, objects: Objects)
    requires attributes != []
    ensures var a := attributes[0];
            AllAccepted(attributes, objects) <==>
              && (objects.nid(a.typ) != 0 ==> objects.accepts(objects.nid(a.typ), a.value))
              && AllAccepted(attributes[1..], objects)
  {
    var more := attributes[1..];
    assert forall k :: 0 <= k < |more| ==> more[k] == attributes[k + 1];
    assert forall k :: 1 <= k < |attributes| ==> attributes[k] == more[k - 1];
  }

  /** The attributes whose type is known. */
  function Known(attributes: seq<Attribute>, objects: Objects): seq<Attribute> {
    if attributes == [] then []
    else (if objects.nid(attributes[0].typ) != 0 then [attributes[0]] else []) + Known(attributes[1..], objects)
  }

  /** With known and accepted types, the name holds every attribute, and '+' alone joins them. */
  ghost predicate Holds(name: Name, attributes: seq<Attribute>, objects: Objects) {
    && |name| == |attributes|
    && (forall k :: 0 <= k < |name| ==>
          name[k].nid == objects.nid(attributes[k].typ) && name[k].value == attributes[k].value)
    && (name != [] ==> name[0].rdn == 0)
    && (forall k :: 1 <= k < |name| ==> name[k].rdn == name[k - 1].rdn + if attributes[k].joined then 0 else 1)
  }

  lemma {:induction false} HoldsSnoc(done: seq<Attribute>, name: Name, a: Attribute, objects: Objects)
    requires Holds(name, done, objects)
    ensures Holds(Added(name, objects.nid(a.typ), a.value, a.joined), done + [a], objects)
  {
    var n := |name|;
    var name' := Added(name, objects.nid(a.typ), a.value, a.joined);
    assert forall k :: 0 <= k < n ==> name'[k] == name[k] && (done + [a])[k] == done[k];
  }

  lemma {:induction false} BuiltHolds(done: seq<Attribute>, name: Name, attributes: seq<Attribute>, objects: Objects)
    requires Holds(name, done, objects) && AllAccepted(attributes, objects)
    ensures Built(name, attributes, objects).Success?
    ensures Holds(Built(name, attributes, objects).value, done + Known(attributes, objects), objects)
    decreases |attributes|
  {
    if attributes == [] {
      assert done + [] == done;
    } else {
      var a, known := attributes[0], Known(attributes[1..], objects);
      AllAcceptedCons(attributes, objects);
      if objects.nid(a.typ) == 0 {
        BuiltHolds(done, name, attributes[1..], objects);
        assert done + ([] + known) == done + known;
      } else {
        HoldsSnoc(done, name, a, objects);
        BuiltHolds(done + [a], Added(name, objects.nid(a.typ), a.value, a.joined), attributes[1..], objects);
        assert done + [a] + known == done + ([a] + known);
      }
    }
  }

  /**
   Every list of attributes is read back: the name holds those of known type in order, whatever
   their spelling, and a plus joins each to the one before it in the name.
   */
  lemma {:induction false} RoundTrip(attributes: seq<Attribute>, tail: string, multi: bool, objects: Objects)
    requires attributes != [] && !attributes[0].joined && Tail(tail, multi)
    requires forall k :: 0 <= k < |attributes| ==> attributes[k].Valid(multi)
    ensures var r := Parsed(Written(attributes) + tail, multi, objects);
            if AllAccepted(attributes, objects) then r.Success? && Holds(r.value, Known(attributes, objects), objects)
            else r == Failure(Rejected)
  {
    ParsedOfWritten(attributes, tail, multi, objects);
    BuiltIff([], attributes, objects);
    if AllAccepted(attributes, objects) {
      BuiltHolds([], [], attributes, objects);
      assert [] + Known(attributes, objects) == Known(attributes, objects);
    }
  }
}
