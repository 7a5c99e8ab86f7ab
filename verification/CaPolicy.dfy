/**
 The policy check of `do_body` in ca.c: the subject of a new certificate is assembled from
 the request's name, line by line of the policy section, with the CA's own name at hand.
 */
module CaPolicy {
  import opened Wrappers

  /** One attribute of a distinguished name: its object type and its ASN.1 string. */
  datatype NameEntry = NameEntry(nid: nat, value: string)

  type Name = seq<NameEntry>

  const NID_UNDEF: nat := 0

  /** One line of the policy section: attribute name and rule. */
  datatype Line = Line(attribute: string, rule: string)

  datatype Fault = UnknownAttribute | InvalidRule | NotSupplied | MandatoryMissing | AbsentFromCa | DifferentFromCa

  // ---------------------------------------------------------------- specification

  /** All entries of one type, in order. */
  function Of(name: Name, nid: nat): Name {
    if name == [] then []
    else if name[0].nid == nid then [name[0]] + Of(name[1..], nid)
    else Of(name[1..], nid)
  }

  /** What is wrong with one line, if anything. */
  ghost function LineFault(line: Line, nidOf: string -> nat, name: Name, ca: Name): Option<Fault> {
    var nid := nidOf(line.attribute);
    if nid == NID_UNDEF then Some(UnknownAttribute)
    else if line.rule == "optional" then None
    else if line.rule == "supplied" then
      if Of(name, nid) == [] then Some(NotSupplied) else None
    else if line.rule == "match" then
      if Of(name, nid) == [] then Some(MandatoryMissing)
      else if Of(ca, nid) == [] then Some(AbsentFromCa)
      else if exists e :: e in Of(name, nid) && e !in ca then Some(DifferentFromCa)
      else None
    else Some(InvalidRule)
  }

  /** In policy order, everything the request says about each attribute. */
  ghost function Subject(policy: seq<Line>, nidOf: string -> nat, name: Name): Name {
    if policy == [] then []
    else Subject(policy[..|policy| - 1], nidOf, name) + Of(name, nidOf(policy[|policy| - 1].attribute))
  }

  // ---------------------------------------------------------------- facts about names

  lemma {:induction false} OfConcat(a: Name, b: Name, nid: nat)
    ensures Of(a + b, nid) == Of(a, nid) + Of(b, nid)
  {
    if a == [] {
      assert a + b == b;
    } else {
      assert (a + b)[1..] == a[1..] + b;
      OfConcat(a[1..], b, nid);
    }
  }

  lemma {:induction false} OfMembers(name: Name, nid: nat, e: NameEntry)
    ensures e in Of(name, nid) <==> e in name && e.nid == nid
  {
    if name != [] {
      OfMembers(name[1..], nid, e);
      assert name == [name[0]] + name[1..];
    }
  }

  lemma {:induction false} OfNone(name: Name, nid: nat)
    requires forall k :: 0 <= k < |name| ==> name[k].nid != nid
    ensures Of(name, nid) == []
  {
    if name != [] { OfNone(name[1..], nid); }
  }

  /** Going from one entry of a type to the next collects exactly that entry. */
  lemma {:induction false} OfNext(name: Name, nid: nat, last: int, j: int)
    requires -1 <= last < j < |name| && name[j].nid == nid
    requires forall k :: last < k < j ==> name[k].nid != nid
    ensures Of(name[..j + 1], nid) == Of(name[..last + 1], nid) + [name[j]]
  {
    var gap := name[last + 1..j];
    assert name[..j + 1] == name[..last + 1] + gap + [name[j]];
    OfConcat(name[..last + 1] + gap, [name[j]], nid);
    OfConcat(name[..last + 1], gap, nid);
    OfNone(gap, nid);
  }

  lemma {:induction false} OfRest(name: Name, nid: nat, last: int)
    requires -1 <= last < |name|
    requires forall k :: last < k < |name| ==> name[k].nid != nid
    ensures Of(name, nid) == Of(name[..last + 1], nid)
  {
    assert name == name[..last + 1] + name[last + 1..];
    OfConcat(name[..last + 1], name[last + 1..], nid);
    OfNone(name[last + 1..], nid);
  }

  // ---------------------------------------------------------------- the loops

  /** `X509_NAME_get_index_by_OBJ`: the first entry of the type behind position `last`. */
  method IndexByObj(name: Name, nid: nat, last: int) returns (j: int)
    requires -1 <= last < |name|
    ensures j == -1 || last < j < |name|
    ensures j >= 0 ==> name[j].nid == nid && forall k :: last < k < j ==> name[k].nid != nid
    ensures j < 0 ==> forall k :: last < k < |name| ==> name[k].nid != nid
  {
    j := last + 1;
    while j < |name|
      invariant last < j <= |name|
      invariant forall k :: last < k < j ==> name[k].nid != nid
    {
      if name[j].nid == nid {
        return;
      }
      j := j + 1;
    }
    j := -1;
  }

  /** The `again2` search for a request entry among the CA's entries of its type. */
  method MatchCa(tne: NameEntry, ca: Name) returns (r: Result<int, Fault>)
    ensures r.Success? ==> 0 <= r.value < |ca| && ca[r.value] == tne
    ensures r.Failure? ==> tne !in ca && r.error == if Of(ca, tne.nid) == [] then AbsentFromCa else DifferentFromCa
  {
    var last2 := -1;
    while true
      invariant -1 <= last2 < |ca|
      invariant forall k :: 0 <= k <= last2 ==> ca[k] != tne
      invariant last2 >= 0 ==> ca[last2].nid == tne.nid
      decreases |ca| - last2
    {
      var j := IndexByObj(ca, tne.nid, last2);
      if j < 0 && last2 == -1 {
        OfNone(ca, tne.nid);
        return Failure(AbsentFromCa);
      }
      if j >= 0 {
        last2 := j;
        if ca[j].value == tne.value {
          return Success(j);
        }
      } else {
        OfMembers(ca, tne.nid, ca[last2]);
        return Failure(DifferentFromCa);
      }
    }
  }

  /** The `for (;;)` loop for one policy line: appends to the subject, or stops with a fault. */
  method ApplyLine(subject: Name, rule: string, nid: nat, name: Name, ca: Name,
                   ghost line: Line, ghost nidOf: string -> nat)
    returns (r: Result<Name, Fault>)
    requires rule == line.rule && nid == nidOf(line.attribute) != NID_UNDEF
    ensures r == match LineFault(line, nidOf, name, ca)
                 case Some(fault) => Failure(fault)
                 case None => Success(subject + Of(name, nid))
  {
    var out := subject;
    var last := -1;
    assert name[..0] == [];
    while true
      invariant -1 <= last < |name|
      invariant out == subject + Of(name[..last + 1], nid)
      invariant last >= 0 ==> name[last].nid == nid && rule in ["optional", "supplied", "match"]
      invariant last >= 0 && rule == "match" ==>
                  Of(ca, nid) != [] && forall e :: e in Of(name[..last + 1], nid) ==> e in ca
      decreases |name| - last
    {
      var j := IndexByObj(name, nid, last);
      var tne: Option<NameEntry> := None;
      if j < 0 {
        OfRest(name, nid, last);
        if last != -1 {
          OfMembers(name, nid, name[last]);
          break;
        }
      } else {
        OfNext(name, nid, last, j);
        OfMembers(name, nid, name[j]);
        tne := Some(name[j]);
      }
      last := j;

      var push: Option<NameEntry> := None;
      if rule == "optional" {
        push := tne;
      } else if rule == "supplied" {
        if tne == None {
          return Failure(NotSupplied);
        }
        push := tne;
      } else if rule == "match" {
        if tne == None {
          return Failure(MandatoryMissing);
        }
        var m := MatchCa(tne.value, ca);
        if m.Failure? {
          return Failure(m.error);
        }
        j := m.value;
        OfMembers(ca, nid, ca[j]);
        push := Some(ca[j]);
      } else {
        return Failure(InvalidRule);
      }
      if push.Some? {
        out := out + [push.value];
      }
      if j < 0 {
        break;
      }
    }
    return Success(out);
  }

  /**
   The whole policy loop. It succeeds iff no line is at fault, reports the fault of the first
   line that is, and on success has collected the request's entries in policy order.
   */
  method BuildSubject(policy: seq<Line>, nidOf: string -> nat, name: Name, ca: Name)
    returns (r: Result<Name, (nat, Fault)>)
    ensures r.Success? <==> forall i :: 0 <= i < |policy| ==> LineFault(policy[i], nidOf, name, ca) == None
    ensures r.Success? ==> r.value == Subject(policy, nidOf, name)
    ensures r.Failure? ==>
              && r.error.0 < |policy| && LineFault(policy[r.error.0], nidOf, name, ca) == Some(r.error.1)
              && forall i :: 0 <= i < r.error.0 ==> LineFault(policy[i], nidOf, name, ca) == None
  {
    var subject: Name := [];
    for i := 0 to |policy|
      invariant subject == Subject(policy[..i], nidOf, name)
      invariant forall k :: 0 <= k < i ==> LineFault(policy[k], nidOf, name, ca) == None
    {
      assert policy[..i + 1][..i] == policy[..i];
      var nid := nidOf(policy[i].attribute);
      if nid == NID_UNDEF {
        return Failure((i, UnknownAttribute));
      }
      var line := ApplyLine(subject, policy[i].rule, nid, name, ca, policy[i], nidOf);
      if line.Failure? {
        return Failure((i, line.error));
      }
      subject := line.value;
    }
    assert policy[..|policy|] == policy;
    return Success(subject);
  }

  // ---------------------------------------------------------------- consequences

  /** What each rule asks of the request and of the CA's name, entry by entry. */
  lemma {:induction false} FaultIs(line: Line, nidOf: string -> nat, name: Name, ca: Name)
    ensures var nid, fault := nidOf(line.attribute), LineFault(line, nidOf, name, ca);
            && (fault == Some(UnknownAttribute) <==> nid == 0)
            && (fault == Some(InvalidRule) <==> nid != 0 && line.rule !in {"optional", "supplied", "match"})
            && (line.rule == "optional" && nid != 0 ==> fault == None)
            && (line.rule == "supplied" && nid != 0 ==>
                  fault == if exists e :: e in name && e.nid == nid then None else Some(NotSupplied))
            && (line.rule == "match" && nid != 0 ==>
                  fault == if !exists e :: e in name && e.nid == nid then Some(MandatoryMissing)
                           else if !exists e :: e in ca && e.nid == nid then Some(AbsentFromCa)
                           else if exists e :: e in name && e.nid == nid && e !in ca then Some(DifferentFromCa)
                           else None)
  {
    var nid := nidOf(line.attribute);
    HasType(name, nid);
    HasType(ca, nid);
    forall e ensures e in Of(name, nid) <==> e in name && e.nid == nid { OfMembers(name, nid, e); }
  }

  lemma {:induction false} HasType(name: Name, nid: nat)
    ensures Of(name, nid) == [] <==> !exists e :: e in name && e.nid == nid
  {
    if Of(name, nid) != [] {
      OfMembers(name, nid, Of(name, nid)[0]);
    }
    forall e | e in name && e.nid == nid ensures Of(name, nid) != [] { OfMembers(name, nid, e); }
  }

  /** The order of the subject: line by line, and within a line as in the request. */
  lemma {:induction false} SubjectOrder(policy: seq<Line>, more: seq<Line>, nidOf: string -> nat, name: Name)
    ensures Subject(policy + more, nidOf, name) == Subject(policy, nidOf, name) + Subject(more, nidOf, name)
  {
    if more == [] {
      assert policy + more == policy;
    } else {
      var last := |more| - 1;
      assert (policy + more)[..|policy + more| - 1] == policy + more[..last];
      SubjectOrder(policy, more[..last], nidOf, name);
    }
  }

  lemma {:induction false} SubjectOfLine(line: Line, nidOf: string -> nat, a: Name, b: Name)
    ensures Subject([line], nidOf, a + b) == Subject([line], nidOf, a) + Subject([line], nidOf, b)
  {
    OfConcat(a, b, nidOf(line.attribute));
    assert [line][..0] == [];
  }

  /** When the CA signs its own request, "match" asks no more than "supplied". */
  lemma {:induction false} SelfSigned(attribute: string, nidOf: string -> nat, name: Name)
    ensures LineFault(Line(attribute, "match"), nidOf, name, name) == None
       <==> LineFault(Line(attribute, "supplied"), nidOf, name, name) == None
  {
    var nid := nidOf(attribute);
    forall e | e in Of(name, nid) ensures e in name { OfMembers(name, nid, e); }
  }

  /** An accepted subject holds nothing the request did not say, and every listed attribute it did say. */
  lemma {:induction false} SubjectMembers(policy: seq<Line>, nidOf: string -> nat, name: Name, e: NameEntry)
    ensures e in Subject(policy, nidOf, name) <==> e in name && Lists(policy, nidOf, e.nid)
  {
    if policy != [] {
      var last := |policy| - 1;
      SubjectMembers(policy[..last], nidOf, name, e);
      OfMembers(name, nidOf(policy[last].attribute), e);
      ListsSnoc(policy, nidOf, e.nid);
    }
  }

  /** Some line of the policy is about this type. */
  ghost predicate Lists(policy: seq<Line>, nidOf: string -> nat, nid: nat) {
    exists i :: 0 <= i < |policy| && nidOf(policy[i].attribute) == nid
  }

  lemma {:induction false} ListsSnoc(policy: seq<Line>, nidOf: string -> nat, nid: nat)
    requires policy != []
    ensures var last := |policy| - 1;
            Lists(policy, nidOf, nid) <==> Lists(policy[..last], nidOf, nid) || nidOf(policy[last].attribute) == nid
  {
    var last := |policy| - 1;
    if Lists(policy, nidOf, nid) {
      var i :| 0 <= i < |policy| && nidOf(policy[i].attribute) == nid;
      if i < last { assert policy[..last][i] == policy[i]; }
    }
    if Lists(policy[..last], nidOf, nid) {
      var i :| 0 <= i < last && nidOf(policy[..last][i].attribute) == nid;
      assert policy[i] == policy[..last][i];
    }
  }

  /** With "match", every subject entry of that type is literally an entry of the CA's name. */
  lemma {:induction false} MatchedComesFromCa(policy: seq<Line>, nidOf: string -> nat, name: Name, ca: Name,
                                              i: nat, e: NameEntry)
    requires forall k :: 0 <= k < |policy| ==> LineFault(policy[k], nidOf, name, ca) == None
    requires i < |policy| && policy[i].rule == "match"
    requires e in Subject(policy, nidOf, name) && e.nid == nidOf(policy[i].attribute)
    ensures e in ca
  {
    SubjectMembers(policy, nidOf, name, e);
    OfMembers(name, e.nid, e);
    assert LineFault(policy[i], nidOf, name, ca) == None;
  }
}
