/**
 rehash's table of (type, hash) buckets: what a run of `add_entry` calls computes.
 */
module RehashSpec {
  import opened Wrappers
  import opened RehashEntries
  import Ids = RehashIds

  /** The arguments of one `add_entry` call. */
  datatype Call = Call(kind: nat, hash: nat, filename: string, digest: Option<Digest>, need: bool, oldId: nat) {
    function Key(): (nat, nat) { (kind, hash) }

    /** What the two callers guarantee: a link is asked for only together with a digest. */
    predicate Valid() { (need ==> digest.Some?) && oldId < 0x1_0000 }

    predicate For(key: (nat, nat), name: string) { Key() == key && filename == name }
  }

  datatype Contents = Contents(entries: seq<Entry>, numNeeded: nat)

  type Table = map<(nat, nat), Contents>

  /** A zeroed SHA-1 digest and the id ~0, as a new `HENTRY` holds them. */
  const NO_DIGEST: Digest := [0, 0, 0, 0, 0, 0, 0, 0, 0, 0, 0, 0, 0, 0, 0, 0, 0, 0, 0, 0]
  const NO_ID: nat := 0xFFFF

  /** Chain index; the sum is taken in a 32-bit unsigned int. */
  function Slot(key: (nat, nat)): (s: nat)
    ensures s < 257
  {
    ((key.0 + key.1) % 0x1_0000_0000) % 257
  }

  function IndexOf(es: seq<Entry>, name: string): (i: nat)
    ensures i <= |es|
    ensures i < |es| ==> es[i].filename == name
    ensures forall j :: 0 <= j < i ==> es[j].filename != name
  {
    if es == [] || es[0].filename == name then 0 else 1 + IndexOf(es[1..], name)
  }

  predicate HasDigest(es: seq<Entry>, digest: Digest) {
    exists i :: 0 <= i < |es| && es[i].digest == digest
  }

  /** The last lines of `add_entry`: lower the id, mark the entry as needed once. */
  function Touch(e: Entry, c: Call): Entry
    requires c.Valid()
  {
    var e := if c.oldId < e.oldId then e.(oldId := c.oldId) else e;
    if c.need && !e.needed then e.(needed := true, digest := c.digest.value) else e
  }

  function Blank(name: string): Entry { Entry(name, NO_ID, false, NO_DIGEST) }

  /** One call on one bucket, and whether it was accepted; `num_needed` is an unsigned short. */
  function AddToBucket(b: Contents, c: Call): (r: (Contents, bool))
    requires c.Valid()
  {
    if c.digest.Some? && HasDigest(b.entries, c.digest.value) then (b, false)
    else
      var i := IndexOf(b.entries, c.filename);
      if i == |b.entries| && b.numNeeded >= Ids.MAX_COLLISIONS then (b, false)
      else
        var es := Grown(b.entries, c.filename);
        var n := if c.need && !es[i].needed then (b.numNeeded + 1) % 0x1_0000 else b.numNeeded;
        (Contents(es[i := Touch(es[i], c)], n), true)
  }

  /** A bucket after its entry `i` has taken a call in. */
  function Touched(b: Contents, c: Call, i: nat): Contents
    requires c.Valid() && i < |b.entries|
  {
    var n := if c.need && !b.entries[i].needed then (b.numNeeded + 1) % 0x1_0000 else b.numNeeded;
    Contents(b.entries[i := Touch(b.entries[i], c)], n)
  }

  /** A bucket after a new entry at its end has taken a call in. */
  function Extended(b: Contents, c: Call): Contents
    requires c.Valid()
  {
    var n := if c.need then (b.numNeeded + 1) % 0x1_0000 else b.numNeeded;
    Contents(b.entries + [Touch(Blank(c.filename), c)], n)
  }

  lemma {:induction false} TouchedNew(b: Contents, c: Call)
    requires c.Valid()
    ensures Touched(Contents(b.entries + [Blank(c.filename)], b.numNeeded), c, |b.entries|) == Extended(b, c)
  {
  }

  /** What a call does that passes the checks. */
  lemma {:induction false} AcceptedCall(b: Contents, c: Call, i: nat)
    requires c.Valid() && !(c.digest.Some? && HasDigest(b.entries, c.digest.value))
    requires i == IndexOf(b.entries, c.filename) && (i < |b.entries| || b.numNeeded < Ids.MAX_COLLISIONS)
    ensures AddToBucket(b, c) == (if i < |b.entries| then Touched(b, c, i) else Extended(b, c), true)
  {
    var es := Grown(b.entries, c.filename);
    if i == |b.entries| {
      assert es[i := Touch(es[i], c)] == b.entries + [Touch(Blank(c.filename), c)];
    }
  }

  function Bucket(t: Table, key: (nat, nat)): Contents {
    if key in t then t[key] else Contents([], 0)
  }

  function Add(t: Table, c: Call): (r: (Table, bool))
    requires c.Valid()
  {
    var (b, ok) := AddToBucket(Bucket(t, c.Key()), c);
    (t[c.Key() := b], ok)
  }

  // ---------------------------------------------------------------- runs

  ghost predicate AllValid(calls: seq<Call>) { forall i :: 0 <= i < |calls| ==> calls[i].Valid() }

  /** The table after a run from the empty table, and the calls that were accepted. */
  function Run(calls: seq<Call>): (r: (Table, seq<Call>))
    requires forall i :: 0 <= i < |calls| ==> calls[i].Valid()
  {
    if calls == [] then (map[], [])
    else
      var last := |calls| - 1;
      var (t, log) := Run(calls[..last]);
      var (t', ok) := Add(t, calls[last]);
      (t', if ok then log + [calls[last]] else log)
  }

  function Find(t: Table, key: (nat, nat), name: string): Option<Entry> {
    var es := Bucket(t, key).entries;
    var i := IndexOf(es, name);
    if i == |es| then None else Some(es[i])
  }

  ghost predicate DistinctNames(es: seq<Entry>) {
    forall i, j :: 0 <= i < j < |es| ==> es[i].filename != es[j].filename
  }

  ghost predicate DistinctDigests(es: seq<Entry>) {
    forall i, j :: 0 <= i < j < |es| && es[i].needed && es[j].needed ==> es[i].digest != es[j].digest
  }

  ghost predicate BucketInvariant(b: Contents) {
    && DistinctNames(b.entries)
    && DistinctDigests(b.entries)
    && b.numNeeded == CountNeeded(b.entries) % 0x1_0000
  }

  lemma {:induction false} CountNeededUpdate(es: seq<Entry>, i: nat, e: Entry)
    requires i < |es|
    ensures CountNeeded(es[i := e]) + (if es[i].needed then 1 else 0) == CountNeeded(es) + if e.needed then 1 else 0
  {
    assert es == es[..i] + [es[i]] + es[i + 1..];
    assert es[i := e] == es[..i] + [e] + es[i + 1..];
    CountNeededConcat(es[..i] + [es[i]], es[i + 1..]);
    CountNeededConcat(es[..i], [es[i]]);
    CountNeededConcat(es[..i] + [e], es[i + 1..]);
    CountNeededConcat(es[..i], [e]);
  }

  /** The entries of a bucket before `Touch` is applied to one of them. */
  function Grown(es: seq<Entry>, name: string): (r: seq<Entry>)
    ensures IndexOf(es, name) < |r|
  {
    if IndexOf(es, name) == |es| then es + [Blank(name)] else es
  }

  lemma {:induction false} AddToBucketCount(b: Contents, c: Call)
    requires c.Valid() && AddToBucket(b, c).1
    ensures var was := Grown(b.entries, c.filename)[IndexOf(b.entries, c.filename)];
            CountNeeded(AddToBucket(b, c).0.entries)
            == CountNeeded(b.entries) + if c.need && !was.needed then 1 else 0
  {
    var i := IndexOf(b.entries, c.filename);
    var es := Grown(b.entries, c.filename);
    CountNeededConcat(b.entries, [Blank(c.filename)]);
    assert CountNeeded([Blank(c.filename)]) == 0;
    CountNeededUpdate(es, i, Touch(es[i], c));
  }

  lemma {:induction false} AddToBucketDistinct(b: Contents, c: Call)
    requires c.Valid() && AddToBucket(b, c).1
    requires DistinctNames(b.entries) && DistinctDigests(b.entries)
    ensures DistinctNames(AddToBucket(b, c).0.entries) && DistinctDigests(AddToBucket(b, c).0.entries)
  {
    var es := Grown(b.entries, c.filename);
    assert DistinctNames(es) && DistinctDigests(es);
    var es' := AddToBucket(b, c).0.entries;
    assert forall j :: 0 <= j < |es| ==> es[j].filename == es'[j].filename;
  }

  lemma {:induction false} AddToBucketInvariant(b: Contents, c: Call)
    requires c.Valid() && BucketInvariant(b)
    ensures BucketInvariant(AddToBucket(b, c).0)
  {
    if AddToBucket(b, c).1 {
      AddToBucketCount(b, c);
      AddToBucketDistinct(b, c);
    }
  }

  /**
   Which calls are accepted: those without a digest that is there already, under this or any other
   file name, and either for a file that is there or into a bucket whose counter is below 256.
   */
  lemma {:induction false} AcceptedIff(t: Table, c: Call)
    requires c.Valid()
    ensures var b := if c.Key() in t then t[c.Key()] else Contents([], 0);
            Add(t, c).1 <==>
              && !(exists i :: 0 <= i < |b.entries| && c.digest == Some(b.entries[i].digest))
              && ((exists i :: 0 <= i < |b.entries| && b.entries[i].filename == c.filename) || b.numNeeded < 256)
  {
    var es := Bucket(t, c.Key()).entries;
    var i := IndexOf(es, c.filename);
    if i < |es| { assert es[i].filename == c.filename; }
    if c.digest.Some? && HasDigest(es, c.digest.value) {
      var k :| 0 <= k < |es| && es[k].digest == c.digest.value;
      assert c.digest == Some(es[k].digest);
    }
  }

  /** An accepted call changes the entry it names and no other one. */
  lemma {:induction false} AddFind(t: Table, c: Call, key: (nat, nat), name: string)
    requires c.Valid()
    ensures var (t', ok) := Add(t, c);
            && (!ok || !c.For(key, name) ==> Find(t', key, name) == Find(t, key, name))
            && (ok && c.For(key, name) ==>
                  var was := if Find(t, key, name) == None then Blank(name) else Find(t, key, name).value;
                  Find(t', key, name) == Some(Touch(was, c)))
  {
    var (t', ok) := Add(t, c);
    if key == c.Key() && ok {
      var es := Bucket(t, key).entries;
      var i := IndexOf(es, c.filename);
      var es' := Bucket(t', key).entries;
      assert forall j :: 0 <= j < |es| ==> es'[j].filename == es[j].filename;
      FindAgrees(es, es', name, i, c.filename);
    }
  }

  lemma {:induction false} FindAgrees(es: seq<Entry>, es': seq<Entry>, name: string, i: nat, other: string)
    requires i < |es'| && |es| <= |es'| <= |es| + 1
    requires forall j :: 0 <= j < |es| ==> es'[j].filename == es[j].filename
    requires forall j :: 0 <= j < |es| && j != i ==> es'[j] == es[j]
    requires |es'| > |es| ==> i == |es|
    requires i == IndexOf(es, other) && es'[i].filename == other
    ensures name == other ==> IndexOf(es', name) == i
    ensures name != other ==> (IndexOf(es', name) == |es'| <==> IndexOf(es, name) == |es|)
    ensures name != other && IndexOf(es, name) < |es| ==> es'[IndexOf(es', name)] == es[IndexOf(es, name)]
  {
    var j, j' := IndexOf(es, name), IndexOf(es', name);
    if j < |es| { assert es'[j].filename == name; }
    if j' < |es| { assert es[j'].filename == name; }
  }

  /**
   The invariant of every run: one bucket per (type, hash) with distinct file names, distinct
   digests among the needed entries, and a counter that counts them (in 16 bits).
   */
  lemma {:induction false} RunKeepsBuckets(calls: seq<Call>, key: (nat, nat))
    requires AllValid(calls)
    requires key in Run(calls).0
    ensures BucketInvariant(Run(calls).0[key])
  {
    var last := |calls| - 1;
    var t := Run(calls[..last]).0;
    if key in t {
      RunKeepsBuckets(calls[..last], key);
    }
    if key == calls[last].Key() {
      AddToBucketInvariant(Bucket(t, key), calls[last]);
    }
  }

  lemma {:induction false} RunDistinctNames(calls: seq<Call>)
    requires AllValid(calls)
    ensures forall key :: key in Run(calls).0 ==> DistinctNames(Run(calls).0[key].entries)
  {
    forall key | key in Run(calls).0 ensures DistinctNames(Run(calls).0[key].entries) {
      RunKeepsBuckets(calls, key);
    }
  }

  lemma {:induction false} RunSnoc(calls: seq<Call>, i: nat)
    requires AllValid(calls) && i < |calls|
    ensures var (t, log) := Run(calls[..i]);
            Run(calls[..i + 1]) == (Add(t, calls[i]).0, if Add(t, calls[i]).1 then log + [calls[i]] else log)
  {
    assert calls[..i + 1][..i] == calls[..i];
  }

  /** The call `c` of the log concerns this file, and is one that asked for a link. */
  ghost predicate Concerns(log: seq<Call>, i: int, key: (nat, nat), name: string) {
    0 <= i < |log| && log[i].For(key, name)
  }

  /** What the table has to say about one file, in terms of the accepted calls alone. */
  ghost predicate Summarises(e: Option<Entry>, log: seq<Call>, key: (nat, nat), name: string) {
    match e
    case None => forall i :: !Concerns(log, i, key, name)
    case Some(e) =>
      && e.filename == name
      && (forall i :: Concerns(log, i, key, name) ==> e.oldId <= log[i].oldId)
      && (exists i :: Concerns(log, i, key, name) && e.oldId == log[i].oldId)
      && (e.needed <==> exists i :: Concerns(log, i, key, name) && log[i].need)
      && (e.needed ==> exists i :: Concerns(log, i, key, name) && log[i].need && log[i].digest == Some(e.digest)
                                   && forall j :: j < i && Concerns(log, j, key, name) ==> !log[j].need)
  }

  lemma {:induction false} SummaryStep(e: Option<Entry>, log: seq<Call>, c: Call, key: (nat, nat), name: string)
    requires c.Valid() && c.For(key, name) && Summarises(e, log, key, name)
    ensures Summarises(Some(Touch(if e == None then Blank(name) else e.value, c)), log + [c], key, name)
  {
    var log' := log + [c];
    assert forall i :: 0 <= i < |log| ==> log'[i] == log[i];
    assert forall i :: i < |log| ==> (Concerns(log', i, key, name) <==> Concerns(log, i, key, name));
    assert Concerns(log', |log|, key, name);
  }

  lemma {:induction false} SummaryFrame(e: Option<Entry>, log: seq<Call>, c: Call, key: (nat, nat), name: string)
    requires !c.For(key, name) && Summarises(e, log, key, name)
    ensures Summarises(e, log + [c], key, name)
  {
    var log' := log + [c];
    assert forall i :: 0 <= i < |log| ==> log'[i] == log[i];
    assert forall i :: Concerns(log', i, key, name) <==> Concerns(log, i, key, name);
  }

  /**
   The table refines a map from files to summaries: a file is present iff a call for it was
   accepted, its id is the least accepted one, it is needed iff an accepted call said so, and
   it carries the digest of the first of those.
   */
  lemma {:induction false} RunSummarises(calls: seq<Call>, key: (nat, nat), name: string)
    requires AllValid(calls)
    ensures Summarises(Find(Run(calls).0, key, name), Run(calls).1, key, name)
  {
    if calls != [] {
      var last := |calls| - 1;
      var (t, log) := Run(calls[..last]);
      var c := calls[last];
      RunSummarises(calls[..last], key, name);
      AddFind(t, c, key, name);
      if Add(t, c).1 {
        if c.For(key, name) {
          SummaryStep(Find(t, key, name), log, c, key, name);
        } else {
          SummaryFrame(Find(t, key, name), log, c, key, name);
        }
      }
    }
  }

  // ---------------------------------------------------------------- a directory without links

  /** In a run over plain files every entry is needed and has no old id. */
  ghost predicate FreshBucket(b: Contents) {
    && |b.entries| == b.numNeeded <= Ids.MAX_COLLISIONS
    && (forall i :: 0 <= i < |b.entries| ==> b.entries[i].needed && b.entries[i].oldId == NO_ID)
  }

  lemma {:induction false} FreshBucketStep(b: Contents, c: Call)
    requires c.Valid() && c.need && c.oldId == NO_ID && FreshBucket(b)
    ensures FreshBucket(AddToBucket(b, c).0)
  {
    if AddToBucket(b, c).1 {
      var es, es' := Grown(b.entries, c.filename), AddToBucket(b, c).0.entries;
      assert forall j :: 0 <= j < |es| ==> es[j].oldId == NO_ID;
      assert forall j :: 0 <= j < |es'| ==> es'[j].needed && es'[j].oldId == NO_ID;
    }
  }

  lemma {:induction false} FilesOnlyRun(calls: seq<Call>, key: (nat, nat))
    requires AllValid(calls)
    requires forall i :: 0 <= i < |calls| ==> calls[i].need && calls[i].oldId == NO_ID
    requires key in Run(calls).0
    ensures FreshBucket(Run(calls).0[key])
  {
    var last := |calls| - 1;
    var t := Run(calls[..last]).0;
    if key in t {
      FilesOnlyRun(calls[..last], key);
    }
    if key == calls[last].Key() {
      FreshBucketStep(Bucket(t, key), calls[last]);
    }
  }

  lemma {:induction false} AllNeeded(es: seq<Entry>)
    requires forall i :: 0 <= i < |es| ==> es[i].needed
    ensures CountNeeded(es) == |es|
  {
    if es != [] { AllNeeded(es[1..]); }
  }

  /** Hashing a directory that has no links yet always gives every bucket the ids 0 .. n-1. */
  lemma {:induction false} FilesOnlyGapFree(calls: seq<Call>, key: (nat, nat))
    requires AllValid(calls)
    requires forall i :: 0 <= i < |calls| ==> calls[i].need && calls[i].oldId == NO_ID
    requires key in Run(calls).0
    ensures var es := Run(calls).0[key].entries;
            Ids.GapFree(es, Ids.Plan(es)) && Ids.WithinMask(Ids.Plan(es), CountNeeded(es))
  {
    FilesOnlyRun(calls, key);
    var es := Run(calls).0[key].entries;
    AllNeeded(es);
    Ids.GapFreeIffTight(es);
  }

  /** A link whose file is gone, then a file of the same hash: the run ends in a bucket with a gap. */
  lemma {:induction false} StaleLinkRun(hash: nat)
    ensures var calls := [Call(0, hash, "gone.pem", None, false, 0), Call(0, hash, "ca.pem", Some([1]), true, NO_ID)];
            && AllValid(calls) && (0, hash) in Run(calls).0
            && var es := Run(calls).0[(0, hash)].entries;
               Ids.Plan(es) == [Ids.Keep(0), Ids.New(1)] && !Ids.GapFree(es, Ids.Plan(es))
  {
    var link, file := Call(0, hash, "gone.pem", None, false, 0), Call(0, hash, "ca.pem", Some([1]), true, NO_ID);
    var calls := [link, file];
    RunSnoc(calls, 0);
    RunSnoc(calls, 1);
    assert calls[..0] == [] && calls[..2] == calls;
    var stale := Entry("gone.pem", 0, false, NO_DIGEST);
    var t := map[(0, hash) := Contents([stale], 0)];
    assert Grown([], "gone.pem") == [Blank("gone.pem")];
    assert AddToBucket(Contents([], 0), link) == (Contents([stale], 0), true) by {
      assert [Blank("gone.pem")][0 := stale] == [stale];
    }
    assert Add(map[], link) == (t, true);
    assert Grown([stale], "ca.pem") == [stale, Blank("ca.pem")];
    assert Add(t, file).0[(0, hash)].entries == [stale, Entry("ca.pem", NO_ID, true, [1])];
    Ids.StaleLinkLeavesGap(NO_DIGEST);
  }
}
