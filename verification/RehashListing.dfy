/**
 What rehash's table holds after the links and files of a directory have been read, in
 whatever order the directory lists them, and what that means for the numbering of the links.
 */
module RehashListing {
  import opened Wrappers
  import opened RehashEntries
  import opened RehashSpec
  import Ids = RehashIds

  type Key = (nat, nat)

  /** The calls of `handle_symlink` for a link to a file, and of `do_file` for the file itself. */
  function LinkCall(key: Key, d: Entry): Call { Call(key.0, key.1, d.filename, None, false, d.oldId) }

  function FileCall(key: Key, d: Entry): Call { Call(key.0, key.1, d.filename, Some(d.digest), true, NO_ID) }

  /** A file, the links to it of which `oldId` is the lowest number, or both. */
  predicate ItemOk(d: Entry) { d.oldId <= NO_ID && (d.needed <==> d.digest != NO_DIGEST) }

  /** What a directory holds under one hash, when no certificate is there under two file names. */
  ghost predicate Listing(dir: seq<Entry>) {
    DistinctNames(dir) && DistinctDigests(dir) && forall i :: 0 <= i < |dir| ==> ItemOk(dir[i])
  }

  /** A link to the item, or the item itself if it is a file. */
  ghost predicate CallOf(c: Call, key: Key, d: Entry) {
    (IsLink(c, key, d.filename) && d.oldId <= c.oldId) || (d.needed && c == FileCall(key, d))
  }

  ghost predicate IsLink(c: Call, key: Key, name: string) { c.For(key, name) && !c.need && c.digest == None }

  ghost predicate CallFor(c: Call, key: Key, dir: seq<Entry>) { exists d :: d in dir && CallOf(c, key, d) }

  /** Under this hash, the run makes calls for the directory only. */
  ghost predicate ReadsOnly(calls: seq<Call>, key: Key, dir: seq<Entry>) {
    AllValid(calls) && forall c :: c in calls && c.Key() == key ==> CallFor(c, key, dir)
  }

  /** Every file is read, and the link with the lowest number to every item that has one. */
  ghost predicate ReadsAll(calls: seq<Call>, key: Key, dir: seq<Entry>) {
    forall d :: d in dir ==>
      (d.needed ==> FileCall(key, d) in calls) && ((d.needed && d.oldId == NO_ID) || LinkCall(key, d) in calls)
  }

  /** Every file is read after a link to it, and every link before any file. */
  ghost predicate LinksFirst(calls: seq<Call>, key: Key) {
    && (forall i, j :: 0 <= i < j < |calls| && calls[i].Key() == calls[j].Key() == key && calls[i].need ==>
          calls[j].need)
    && (forall j :: 0 <= j < |calls| && calls[j].Key() == key && calls[j].need ==>
          exists i :: 0 <= i < j && !calls[i].need && calls[i].For(key, calls[j].filename))
  }

  ghost predicate Roomy(calls: seq<Call>, key: Key, dir: seq<Entry>) {
    |dir| <= Ids.MAX_COLLISIONS || LinksFirst(calls, key)
  }

  // ---------------------------------------------------------------- the table after some of the calls

  /** The lowest number of the links to a file among some calls. */
  ghost function LowestId(calls: seq<Call>, key: Key, name: string): nat {
    if calls == [] then NO_ID
    else
      var c, m := calls[|calls| - 1], LowestId(calls[..|calls| - 1], key, name);
      if IsLink(c, key, name) && c.oldId < m then c.oldId else m
  }

  ghost predicate HasLink(calls: seq<Call>, key: Key, name: string) { exists c :: c in calls && IsLink(c, key, name) }

  /** What the table knows of an item after some calls. */
  ghost function Known(calls: seq<Call>, key: Key, d: Entry): Option<Entry> {
    var seen := FileCall(key, d) in calls;
    if !HasLink(calls, key, d.filename) && !seen then None
    else Some(Entry(d.filename, LowestId(calls, key, d.filename), seen, if seen then d.digest else NO_DIGEST))
  }

  ghost predicate Tracks(t: Table, calls: seq<Call>, key: Key, dir: seq<Entry>) {
    && (forall d :: d in dir ==> Find(t, key, d.filename) == Known(calls, key, d))
    && (forall e :: e in Bucket(t, key).entries ==> HasName(dir, e.filename))
  }

  ghost predicate HasName(dir: seq<Entry>, name: string) { exists d :: d in dir && d.filename == name }

  ghost function Names(es: seq<Entry>): set<string> { set e | e in es :: e.filename }

  lemma {:induction false} MemberCons(es: seq<Entry>)
    requires es != []
    ensures forall x :: x in es <==> x == es[0] || x in es[1..]
    ensures DistinctNames(es) ==> forall x :: x in es[1..] ==> x.filename != es[0].filename
  {
    assert forall i :: 1 <= i < |es| ==> es[i] == es[1..][i - 1];
    forall x | x in es ensures x == es[0] || x in es[1..] {
      var i :| 0 <= i < |es| && es[i] == x;
      if i > 0 { assert es[1..][i - 1] == x; }
    }
  }

  lemma {:induction false} NamesCard(es: seq<Entry>)
    requires DistinctNames(es)
    ensures |Names(es)| == |es|
  {
    if es == [] {
      assert Names(es) == {};
    } else {
      NamesCard(es[1..]);
      MemberCons(es);
      assert Names(es) == Names(es[1..]) + {es[0].filename};
    }
  }

  lemma {:induction false} CountNeededBound(es: seq<Entry>)
    ensures CountNeeded(es) <= |es|
    ensures (forall i :: 0 <= i < |es| ==> !es[i].needed) ==> CountNeeded(es) == 0
  {
    if es != [] { CountNeededBound(es[1..]); }
  }

  /** An entry of a bucket with distinct names is the one that is found under its name. */
  lemma {:induction false} FoundByName(t: Table, key: Key, e: Entry)
    requires DistinctNames(Bucket(t, key).entries) && e in Bucket(t, key).entries
    ensures Find(t, key, e.filename) == Some(e)
  {
    var es := Bucket(t, key).entries;
    var i :| 0 <= i < |es| && es[i] == e;
    assert IndexOf(es, e.filename) == i;
  }

  lemma {:induction false} SameName(dir: seq<Entry>, d: Entry, d': Entry)
    requires DistinctNames(dir) && d in dir && d' in dir && d.filename == d'.filename
    ensures d == d'
  {
  }

  /** A digest is in the bucket exactly when its file has been read. */
  lemma {:induction false} DigestSeen(t: Table, calls: seq<Call>, key: Key, dir: seq<Entry>, d: Entry)
    requires Listing(dir) && d in dir && d.needed
    requires ReadsOnly(calls, key, dir) && Tracks(t, calls, key, dir) && DistinctNames(Bucket(t, key).entries)
    ensures HasDigest(Bucket(t, key).entries, d.digest) <==> FileCall(key, d) in calls
  {
    var es := Bucket(t, key).entries;
    if FileCall(key, d) in calls {
      assert Find(t, key, d.filename) == Known(calls, key, d);
      assert es[IndexOf(es, d.filename)].digest == d.digest;
    }
    if HasDigest(es, d.digest) {
      var i :| 0 <= i < |es| && es[i].digest == d.digest;
      DigestOwner(t, calls, key, dir, d, es[i]);
    }
  }

  lemma {:induction false} DigestOwner(t: Table, calls: seq<Call>, key: Key, dir: seq<Entry>, d: Entry, e: Entry)
    requires Listing(dir) && d in dir && d.needed
    requires ReadsOnly(calls, key, dir) && Tracks(t, calls, key, dir) && DistinctNames(Bucket(t, key).entries)
    requires e in Bucket(t, key).entries && e.digest == d.digest
    ensures FileCall(key, d) in calls
  {
    assert HasName(dir, e.filename);
    var owner :| owner in dir && owner.filename == e.filename;
    FoundByName(t, key, e);
    assert Known(calls, key, owner) == Some(e);
    assert FileCall(key, owner) in calls;
    FileCallNeeded(calls, key, dir, owner);
    SameDigest(dir, d, owner);
  }

  lemma {:induction false} SameDigest(dir: seq<Entry>, d: Entry, d': Entry)
    requires DistinctDigests(dir) && d in dir && d' in dir && d.needed && d'.needed && d.digest == d'.digest
    ensures d == d'
  {
  }

  /** Only files are read as files. */
  lemma {:induction false} FileCallNeeded(calls: seq<Call>, key: Key, dir: seq<Entry>, d: Entry)
    requires Listing(dir) && d in dir && ReadsOnly(calls, key, dir) && FileCall(key, d) in calls
    ensures d.needed
  {
    assert CallFor(FileCall(key, d), key, dir);
    var d' :| d' in dir && CallOf(FileCall(key, d), key, d');
    SameName(dir, d, d');
  }

  /** A call for a name that is not in the bucket finds room for it. */
  lemma {:induction false} RoomLeft(t: Table, before: seq<Call>, c: Call, key: Key, dir: seq<Entry>, d: Entry)
    requires Listing(dir) && d in dir && CallOf(c, key, d)
    requires ReadsOnly(before, key, dir) && Roomy(before + [c], key, dir)
    requires Tracks(t, before, key, dir) && BucketInvariant(Bucket(t, key)) && Find(t, key, d.filename) == None
    ensures Bucket(t, key).numNeeded < Ids.MAX_COLLISIONS
  {
    assert CountNeeded(Bucket(t, key).entries) < Ids.MAX_COLLISIONS by {
      if |dir| <= Ids.MAX_COLLISIONS {
        FewNeeded(Bucket(t, key).entries, dir, d);
      } else {
        assert Known(before, key, d) == None;
        NoFileYet(t, before, c, key, dir, d);
        CountNeededBound(Bucket(t, key).entries);
      }
    }
  }

  lemma {:induction false} FewNeeded(es: seq<Entry>, dir: seq<Entry>, d: Entry)
    requires DistinctNames(es) && DistinctNames(dir) && d in dir && IndexOf(es, d.filename) == |es|
    requires forall e :: e in es ==> HasName(dir, e.filename)
    ensures CountNeeded(es) < |dir|
  {
    NamesCard(es);
    NamesCard(dir);
    assert d.filename !in Names(es);
    Ids.SubsetCard(Names(es) + {d.filename}, Names(dir));
    CountNeededBound(es);
  }

  lemma {:induction false} LinkedBefore(before: seq<Call>, c: Call, key: Key, dir: seq<Entry>, d: Entry)
    requires Listing(dir) && d in dir && c == FileCall(key, d)
    requires ReadsOnly(before, key, dir) && LinksFirst(before + [c], key)
    ensures HasLink(before, key, d.filename)
  {
    var calls := before + [c];
    assert calls[|before|] == c;
    var i :| 0 <= i < |before| && !calls[i].need && calls[i].For(key, d.filename);
    assert before[i] == calls[i] && before[i] in before;
    var d' :| d' in dir && CallOf(before[i], key, d');
    SameName(dir, d, d');
  }

  lemma {:induction false} NoFileYet(t: Table, before: seq<Call>, c: Call, key: Key, dir: seq<Entry>, d: Entry)
    requires Listing(dir) && d in dir && CallOf(c, key, d) && Known(before, key, d) == None
    requires ReadsOnly(before, key, dir) && LinksFirst(before + [c], key)
    requires Tracks(t, before, key, dir) && DistinctNames(Bucket(t, key).entries)
    ensures forall e :: e in Bucket(t, key).entries ==> !e.needed
  {
    if c.need {
      LinkedBefore(before, c, key, dir, d);
    } else {
      forall e | e in Bucket(t, key).entries ensures !e.needed {
        NotReadYet(t, before, c, key, dir, e);
      }
    }
  }

  lemma {:induction false} NotReadYet(t: Table, before: seq<Call>, c: Call, key: Key, dir: seq<Entry>, e: Entry)
    requires Listing(dir) && !c.need && c.Key() == key && LinksFirst(before + [c], key)
    requires Tracks(t, before, key, dir) && DistinctNames(Bucket(t, key).entries) && e in Bucket(t, key).entries
    ensures !e.needed
  {
    var calls := before + [c];
    assert HasName(dir, e.filename);
    var d :| d in dir && d.filename == e.filename;
    FoundByName(t, key, e);
    assert e.needed <==> FileCall(key, d) in before;
    forall i | 0 <= i < |before| ensures before[i] != FileCall(key, d) {
      assert before[i] == calls[i] && calls[|before|] == c;
    }
  }

  /** A link is always accepted, a file exactly the first time. */
  lemma {:induction false} Accepted(t: Table, before: seq<Call>, c: Call, key: Key, dir: seq<Entry>, d: Entry)
    requires Listing(dir) && d in dir && CallOf(c, key, d) && c.Valid()
    requires ReadsOnly(before, key, dir) && Roomy(before + [c], key, dir)
    requires Tracks(t, before, key, dir) && BucketInvariant(Bucket(t, key))
    ensures Add(t, c).1 <==> !(c.need && c in before)
  {
    if c.need {
      DigestSeen(t, before, key, dir, d);
    }
    if Find(t, key, d.filename) == None {
      RoomLeft(t, before, c, key, dir, d);
    }
  }

  /** A call for one item changes what is known of it, and of no other one. */
  lemma {:induction false} KnownStep(before: seq<Call>, c: Call, key: Key, d: Entry)
    ensures c.For(key, d.filename) || Known(before + [c], key, d) == Known(before, key, d)
    ensures CallOf(c, key, d) && c.Valid() && !(c.need && c in before) ==>
              var was := if Known(before, key, d) == None then Blank(d.filename) else Known(before, key, d).value;
              Known(before + [c], key, d) == Some(Touch(was, c))
    ensures c.need && c in before ==> Known(before + [c], key, d) == Known(before, key, d)
  {
    var calls := before + [c];
    assert calls[..|before|] == before && forall x :: x in calls <==> x in before || x == c;
    LowestIdBound(before, key, d.filename);
    assert HasLink(calls, key, d.filename) <==> HasLink(before, key, d.filename) || IsLink(c, key, d.filename);
  }

  lemma {:induction false} LowestIdBound(calls: seq<Call>, key: Key, name: string)
    ensures LowestId(calls, key, name) <= NO_ID
    ensures forall c :: c in calls && IsLink(c, key, name) ==> LowestId(calls, key, name) <= c.oldId
    ensures LowestId(calls, key, name) < NO_ID ==>
              exists c :: c in calls && IsLink(c, key, name) && c.oldId == LowestId(calls, key, name)
    ensures !HasLink(calls, key, name) ==> LowestId(calls, key, name) == NO_ID
  {
    if calls != [] {
      var before, c := calls[..|calls| - 1], calls[|calls| - 1];
      LowestIdBound(before, key, name);
      assert calls == before + [c];
      assert forall x :: x in calls <==> x in before || x == c;
    }
  }

  lemma {:induction false} TracksOwn(t: Table, before: seq<Call>, c: Call, key: Key, dir: seq<Entry>, d: Entry)
    requires Listing(dir) && d in dir && CallOf(c, key, d) && c.Valid()
    requires ReadsOnly(before, key, dir) && Roomy(before + [c], key, dir)
    requires Tracks(t, before, key, dir) && BucketInvariant(Bucket(t, key))
    ensures Find(Add(t, c).0, key, d.filename) == Known(before + [c], key, d)
  {
    AddFind(t, c, key, d.filename);
    KnownStep(before, c, key, d);
    Accepted(t, before, c, key, dir, d);
  }

  lemma {:induction false} TracksFind(t: Table, before: seq<Call>, c: Call, key: Key, dir: seq<Entry>, d: Entry)
    requires Listing(dir) && ReadsOnly(before + [c], key, dir) && Roomy(before + [c], key, dir) && d in dir && c.Valid()
    requires ReadsOnly(before, key, dir) && Tracks(t, before, key, dir) && BucketInvariant(Bucket(t, key))
    ensures Find(Add(t, c).0, key, d.filename) == Known(before + [c], key, d)
  {
    if c.For(key, d.filename) {
      assert c in before + [c];
      var d0 :| d0 in dir && CallOf(c, key, d0);
      SameName(dir, d, d0);
      TracksOwn(t, before, c, key, dir, d);
    } else {
      AddFind(t, c, key, d.filename);
      KnownStep(before, c, key, d);
    }
  }

  lemma {:induction false} TracksStep(t: Table, before: seq<Call>, c: Call, key: Key, dir: seq<Entry>)
    requires Listing(dir) && ReadsOnly(before + [c], key, dir) && Roomy(before + [c], key, dir) && c.Valid()
    requires ReadsOnly(before, key, dir) && Tracks(t, before, key, dir) && BucketInvariant(Bucket(t, key))
    ensures Tracks(Add(t, c).0, before + [c], key, dir)
  {
    forall d | d in dir ensures Find(Add(t, c).0, key, d.filename) == Known(before + [c], key, d) {
      TracksFind(t, before, c, key, dir, d);
    }
    if c.Key() == key {
      assert c in before + [c];
      var d0 :| d0 in dir && CallOf(c, key, d0);
      NamesGrow(Bucket(t, key), c, dir);
    }
  }

  lemma {:induction false} NamesGrow(b: Contents, c: Call, dir: seq<Entry>)
    requires c.Valid() && HasName(dir, c.filename)
    requires forall e :: e in b.entries ==> HasName(dir, e.filename)
    ensures forall e :: e in AddToBucket(b, c).0.entries ==> HasName(dir, e.filename)
  {
    var es, es' := b.entries, AddToBucket(b, c).0.entries;
    forall i | 0 <= i < |es'| ensures HasName(dir, es'[i].filename) {
      assert es'[i].filename == c.filename || (i < |es| && es'[i].filename == es[i].filename);
    }
  }

  /** After any part of the reading the table holds what was read. */
  lemma {:induction false} RunTracks(calls: seq<Call>, key: Key, dir: seq<Entry>)
    requires Listing(dir) && ReadsOnly(calls, key, dir) && Roomy(calls, key, dir)
    ensures Tracks(Run(calls).0, calls, key, dir)
    decreases |calls|
  {
    if calls != [] {
      var before, c := calls[..|calls| - 1], calls[|calls| - 1];
      assert calls == before + [c];
      RoomyBefore(calls, key, dir);
      RunTracks(before, key, dir);
      RunBucket(before, key);
      TracksStep(Run(before).0, before, c, key, dir);
    }
  }

  lemma {:induction false} RunBucket(calls: seq<Call>, key: Key)
    requires AllValid(calls)
    ensures BucketInvariant(Bucket(Run(calls).0, key))
  {
    if key in Run(calls).0 { RunKeepsBuckets(calls, key); }
  }

  lemma {:induction false} RoomyBefore(calls: seq<Call>, key: Key, dir: seq<Entry>)
    requires calls != [] && ReadsOnly(calls, key, dir) && Roomy(calls, key, dir)
    ensures ReadsOnly(calls[..|calls| - 1], key, dir) && Roomy(calls[..|calls| - 1], key, dir)
  {
    var before := calls[..|calls| - 1];
    assert forall i :: 0 <= i < |before| ==> before[i] == calls[i];
    if |dir| > Ids.MAX_COLLISIONS {
      forall j | 0 <= j < |before| && before[j].Key() == key && before[j].need
        ensures exists i :: 0 <= i < j && !before[i].need && before[i].For(key, before[j].filename)
      {
        var i :| 0 <= i < j && !calls[i].need && calls[i].For(key, calls[j].filename);
        assert !before[i].need && before[i].For(key, before[j].filename);
      }
    }
  }

  // ---------------------------------------------------------------- the table after all of the calls

  lemma {:induction false} NoRepeats(es: seq<Entry>, x: Entry)
    requires DistinctNames(es)
    ensures multiset(es)[x] == if x in es then 1 else 0
  {
    if es != [] {
      NoRepeats(es[1..], x);
      MemberCons(es);
      assert es == [es[0]] + es[1..];
    }
  }

  /** Two buckets hold the same entries, in some order. */
  ghost predicate Rearranged(a: seq<Entry>, b: seq<Entry>) {
    DistinctNames(a) && DistinctNames(b) && forall x :: x in a <==> x in b
  }

  lemma {:induction false} RearrangedMultiset(a: seq<Entry>, b: seq<Entry>)
    requires Rearranged(a, b)
    ensures multiset(a) == multiset(b) && |a| == |b|
  {
    forall x ensures multiset(a)[x] == multiset(b)[x] {
      NoRepeats(a, x);
      NoRepeats(b, x);
    }
    NamesCard(a);
    NamesCard(b);
    assert Names(a) == Names(b);
  }

  lemma {:induction false} KnownAll(calls: seq<Call>, key: Key, dir: seq<Entry>, d: Entry)
    requires Listing(dir) && d in dir && ReadsOnly(calls, key, dir) && ReadsAll(calls, key, dir)
    ensures Known(calls, key, d) == Some(d)
  {
    assert IsLink(LinkCall(key, d), key, d.filename);
    LowestIdBound(calls, key, d.filename);
    forall c | c in calls && IsLink(c, key, d.filename) ensures d.oldId <= c.oldId {
      assert CallFor(c, key, dir);
      var d' :| d' in dir && CallOf(c, key, d');
      SameName(dir, d, d');
    }
    if FileCall(key, d) in calls {
      FileCallNeeded(calls, key, dir, d);
    }
  }

  /** In whatever order a directory is read, its bucket holds exactly what the directory does. */
  lemma {:induction false} BucketIsListing(calls: seq<Call>, key: Key, dir: seq<Entry>)
    requires Listing(dir) && ReadsOnly(calls, key, dir) && ReadsAll(calls, key, dir) && Roomy(calls, key, dir)
    ensures var es := Bucket(Run(calls).0, key).entries;
            Rearranged(es, dir) && multiset(es) == multiset(dir)
  {
    var t := Run(calls).0;
    var es := Bucket(t, key).entries;
    RunTracks(calls, key, dir);
    RunBucket(calls, key);
    forall x ensures x in es <==> x in dir {
      if x in dir {
        KnownAll(calls, key, dir, x);
        assert Find(t, key, x.filename) == Some(x);
      }
      if x in es {
        FoundByName(t, key, x);
        assert HasName(dir, x.filename);
        var d :| d in dir && d.filename == x.filename;
        KnownAll(calls, key, dir, d);
      }
    }
    RearrangedMultiset(es, dir);
  }

  /** Of one certificate under two file names the name that is read first is taken, whichever that is. */
  lemma {:induction false} DuplicateKeepsFirst(key: Key, a: string, b: string, digest: Digest)
    ensures var f, g := FileCall(key, Entry(a, NO_ID, true, digest)), FileCall(key, Entry(b, NO_ID, true, digest));
            AllValid([f, g]) && Bucket(Run([f, g]).0, key).entries == [Entry(a, NO_ID, true, digest)]
  {
    var e := Entry(a, NO_ID, true, digest);
    var f, g := FileCall(key, e), FileCall(key, Entry(b, NO_ID, true, digest));
    var calls := [f, g];
    RunSnoc(calls, 0);
    RunSnoc(calls, 1);
    assert calls[..0] == [] && calls[..2] == calls;
    AcceptedCall(Contents([], 0), f, 0);
    assert Bucket(Run([]).0, key) == Contents([], 0) && Extended(Contents([], 0), f) == Contents([e], 1);
    assert Run(calls[..1]).0[key] == Contents([e], 1);
    assert HasDigest([e], digest) by { assert [e][0].digest == digest; }
  }

  // ---------------------------------------------------------------- what does not depend on the order

  ghost function NewNames(es: seq<Entry>, n: nat): set<string> {
    set e | e in es && e.needed && n <= e.oldId :: e.filename
  }

  lemma {:induction false} NewNamesCons(es: seq<Entry>, n: nat)
    requires es != [] && DistinctNames(es)
    ensures NewNames(es, n) ==
            NewNames(es[1..], n) + if es[0].needed && n <= es[0].oldId then {es[0].filename} else {}
    ensures es[0].filename !in NewNames(es[1..], n)
  {
    MemberCons(es);
  }

  lemma {:induction false} CountNewCard(es: seq<Entry>, n: nat)
    requires DistinctNames(es)
    ensures Ids.CountNew(es, n) == |NewNames(es, n)|
  {
    if es == [] {
      assert NewNames(es, n) == {};
    } else {
      CountNewCard(es[1..], n);
      NewNamesCons(es, n);
      Ids.CardPlus(NewNames(es[1..], n), es[0].filename);
    }
  }

  lemma {:induction false} CountNeededIsNew(es: seq<Entry>)
    ensures CountNeeded(es) == Ids.CountNew(es, 0)
  {
    if es != [] { CountNeededIsNew(es[1..]); }
  }

  lemma {:induction false} CountsRearranged(a: seq<Entry>, b: seq<Entry>, n: nat)
    requires Rearranged(a, b)
    ensures CountNeeded(a) == CountNeeded(b) && Ids.CountNew(a, n) == Ids.CountNew(b, n)
  {
    CountNeededIsNew(a);
    CountNeededIsNew(b);
    forall m ensures Ids.CountNew(a, m) == Ids.CountNew(b, m) {
      CountNewCard(a, m);
      CountNewCard(b, m);
      assert NewNames(a, m) == NewNames(b, m);
    }
  }

  lemma {:induction false} KeptRearranged(a: seq<Entry>, b: seq<Entry>, n: nat)
    requires Rearranged(a, b)
    ensures Ids.Kept(a, n) <= Ids.Kept(b, n)
  {
    forall k | k in Ids.Kept(a, n) ensures k in Ids.Kept(b, n) {
      var i :| 0 <= i < |a| && a[i].oldId < n && a[i].oldId == k;
      assert a[i] in b;
    }
  }

  lemma {:induction false} TightRearranged(a: seq<Entry>, b: seq<Entry>)
    requires Rearranged(a, b) && Ids.Tight(a)
    ensures Ids.Tight(b)
  {
    var n := CountNeeded(a);
    CountsRearranged(a, b, n);
    forall i, j | 0 <= i < j < |b| && b[i].needed && b[j].needed && b[i].oldId < n
      ensures b[i].oldId != b[j].oldId
    {
      assert b[i] in a && b[j] in a;
    }
    forall i | 0 <= i < |b| && !b[i].needed && b[i].oldId < n
      ensures exists j :: 0 <= j < |b| && b[j].needed && b[j].oldId == b[i].oldId
    {
      assert b[i] in a;
      var k :| 0 <= k < |a| && a[k].needed && a[k].oldId == b[i].oldId;
      assert a[k] in b;
    }
  }

  lemma {:induction false} MaskRearranged(a: seq<Entry>, b: seq<Entry>)
    requires Rearranged(a, b)
    ensures Ids.MaskSuffices(a) <==> Ids.MaskSuffices(b)
  {
    var n := CountNeeded(a);
    CountsRearranged(a, b, n);
    KeptRearranged(a, b, n);
    KeptRearranged(b, a, n);
    assert Ids.Kept(a, n) == Ids.Kept(b, n);
  }

  /** The outcome for a directory depends on what it holds and not on the order of reading. */
  lemma {:induction false} OutcomeOfReading(calls: seq<Call>, key: Key, dir: seq<Entry>)
    requires Listing(dir) && ReadsOnly(calls, key, dir) && ReadsAll(calls, key, dir) && Roomy(calls, key, dir)
    ensures var es := Bucket(Run(calls).0, key).entries;
            && CountNeeded(es) == CountNeeded(dir)
            && (Ids.GapFree(es, Ids.Plan(es)) <==> Ids.Tight(dir))
            && (Ids.MaskSuffices(es) <==> Ids.MaskSuffices(dir))
  {
    var es := Bucket(Run(calls).0, key).entries;
    var n := CountNeeded(dir);
    BucketIsListing(calls, key, dir);
    CountsRearranged(es, dir, n);
    MaskRearranged(es, dir);
    Ids.GapFreeIffTight(es);
    if Ids.Tight(dir) { TightRearranged(dir, es); }
    if Ids.Tight(es) { TightRearranged(es, dir); }
  }

  // ---------------------------------------------------------------- hashing a directory again

  lemma {:induction false} RelinkedMember(es: seq<Entry>, links: seq<Ids.Link>, r: Entry)
    requires |links| == |es| && r in Ids.Relinked(es, links)
    ensures exists i :: 0 <= i < |es| && es[i].needed && r == es[i].(oldId := links[i].id)
  {
    if !(es[0].needed && r == es[0].(oldId := links[0].id)) {
      RelinkedMember(es[1..], links[1..], r);
      var i :| 0 <= i < |es| - 1 && es[1..][i].needed && r == es[1..][i].(oldId := links[1..][i].id);
      assert es[i + 1].needed && r == es[i + 1].(oldId := links[i + 1].id);
    }
  }

  lemma {:induction false} RelinkedDistinct(es: seq<Entry>, links: seq<Ids.Link>)
    requires |links| == |es| && DistinctNames(es) && DistinctDigests(es)
    ensures DistinctNames(Ids.Relinked(es, links)) && DistinctDigests(Ids.Relinked(es, links))
  {
    if es != [] {
      var rest := Ids.Relinked(es[1..], links[1..]);
      RelinkedDistinct(es[1..], links[1..]);
      if es[0].needed {
        forall r | r in rest ensures r.filename != es[0].filename && r.digest != es[0].digest {
          RelinkedMember(es[1..], links[1..], r);
        }
        assert Ids.Relinked(es, links) == [es[0].(oldId := links[0].id)] + rest;
      } else {
        assert Ids.Relinked(es, links) == rest;
      }
    }
  }

  lemma {:induction false} RelinkedListing(es: seq<Entry>)
    requires DistinctNames(es) && DistinctDigests(es) && Ids.Tight(es) && CountNeeded(es) <= Ids.MAX_COLLISIONS
    requires forall i :: 0 <= i < |es| && es[i].needed ==> es[i].digest != NO_DIGEST
    ensures Listing(Ids.Relinked(es, Ids.Plan(es)))
    ensures forall d :: d in Ids.Relinked(es, Ids.Plan(es)) ==> d.needed && d.oldId < CountNeeded(es)
  {
    var links := Ids.Plan(es);
    Ids.TightIsGapFree(es);
    RelinkedDistinct(es, links);
    forall d | d in Ids.Relinked(es, links) ensures d.needed && d.oldId < CountNeeded(es) && d.digest != NO_DIGEST {
      RelinkedMember(es, links, d);
    }
  }

  /**
   Hashing a directory again: when a run over a directory ended in a tight bucket, then any run
   that reads the files and the links made for them, in any order, ends in a bucket with the
   same files, and keeps every link.
   */
  lemma {:induction false} SecondRunKeepsLinks(first: seq<Call>, second: seq<Call>, key: Key)
    requires AllValid(first)
    requires var es := Bucket(Run(first).0, key).entries;
             && Ids.Tight(es) && CountNeeded(es) <= Ids.MAX_COLLISIONS
             && (forall i :: 0 <= i < |es| && es[i].needed ==> es[i].digest != NO_DIGEST)
             && ReadsOnly(second, key, Ids.Relinked(es, Ids.Plan(es)))
             && ReadsAll(second, key, Ids.Relinked(es, Ids.Plan(es)))
    ensures var es, again := Bucket(Run(first).0, key).entries, Bucket(Run(second).0, key).entries;
            && multiset(again) == multiset(Ids.Relinked(es, Ids.Plan(es)))
            && forall i :: 0 <= i < |again| ==> Ids.Plan(again)[i] == Ids.Keep(again[i].oldId)
  {
    var es, again := Bucket(Run(first).0, key).entries, Bucket(Run(second).0, key).entries;
    var dir := Ids.Relinked(es, Ids.Plan(es));
    RunBucket(first, key);
    RelinkedListing(es);
    BucketIsListing(second, key, dir);
    RearrangedMultiset(again, dir);
    AllNeeded(again);
    Ids.AllocateKeepsAll(again, CountNeeded(again), Ids.Kept(again, CountNeeded(again)), 0);
  }
}
