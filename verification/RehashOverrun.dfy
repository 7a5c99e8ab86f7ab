/**
 Two families of directories on which rehash leaves its bit mask: links that are stale sit on
 the ids the files need, and links let more files into a bucket than its limit says.
 */
module RehashOverrun {
  import opened RehashEntries
  import opened RehashSpec
  import opened RehashListing
  import Ids = RehashIds

  // ---------------------------------------------------------------- one order of reading

  function LinkCalls(key: Key, dir: seq<Entry>): seq<Call> {
    if dir == [] then []
    else (if dir[0].oldId < NO_ID || !dir[0].needed then [LinkCall(key, dir[0])] else []) + LinkCalls(key, dir[1..])
  }

  function FileCalls(key: Key, dir: seq<Entry>): seq<Call> {
    if dir == [] then [] else (if dir[0].needed then [FileCall(key, dir[0])] else []) + FileCalls(key, dir[1..])
  }

  /** The calls for a directory that lists its links first. */
  function Reading(key: Key, dir: seq<Entry>): seq<Call> { LinkCalls(key, dir) + FileCalls(key, dir) }

  ghost predicate IsLinkCall(c: Call, key: Key, dir: seq<Entry>) {
    exists d :: d in dir && (d.oldId < NO_ID || !d.needed) && c == LinkCall(key, d)
  }

  ghost predicate IsFileCall(c: Call, key: Key, dir: seq<Entry>) {
    exists d :: d in dir && d.needed && c == FileCall(key, d)
  }

  lemma {:induction false} LinkCallsMember(key: Key, dir: seq<Entry>, c: Call)
    ensures c in LinkCalls(key, dir) <==> IsLinkCall(c, key, dir)
  {
    if dir != [] {
      LinkCallsMember(key, dir[1..], c);
      MemberCons(dir);
    }
  }

  lemma {:induction false} FileCallsMember(key: Key, dir: seq<Entry>, c: Call)
    ensures c in FileCalls(key, dir) <==> IsFileCall(c, key, dir)
  {
    if dir != [] {
      FileCallsMember(key, dir[1..], c);
      MemberCons(dir);
    }
  }

  lemma {:induction false} ReadingReads(key: Key, dir: seq<Entry>)
    requires Listing(dir)
    ensures ReadsOnly(Reading(key, dir), key, dir) && ReadsAll(Reading(key, dir), key, dir)
  {
    var calls := Reading(key, dir);
    forall c ensures c in calls <==> IsLinkCall(c, key, dir) || IsFileCall(c, key, dir) {
      LinkCallsMember(key, dir, c);
      FileCallsMember(key, dir, c);
    }
    forall c | c in calls ensures c.Valid() && CallFor(c, key, dir) {
      if IsLinkCall(c, key, dir) {
        var d :| d in dir && (d.oldId < NO_ID || !d.needed) && c == LinkCall(key, d);
        assert CallOf(c, key, d);
      } else {
        var d :| d in dir && d.needed && c == FileCall(key, d);
        assert CallOf(c, key, d);
      }
    }
  }

  lemma {:induction false} ReadingLinksFirst(key: Key, dir: seq<Entry>)
    requires forall d :: d in dir && d.needed ==> d.oldId < NO_ID
    ensures LinksFirst(Reading(key, dir), key)
  {
    var links, files, calls := LinkCalls(key, dir), FileCalls(key, dir), Reading(key, dir);
    forall j | 0 <= j < |links| ensures !calls[j].need {
      LinkCallsMember(key, dir, links[j]);
    }
    forall j | |links| <= j < |calls|
      ensures calls[j].need && exists i :: 0 <= i < j && !calls[i].need && calls[i].For(key, calls[j].filename)
    {
      FileCallsMember(key, dir, files[j - |links|]);
      var d :| d in dir && d.needed && calls[j] == FileCall(key, d);
      LinkCallsMember(key, dir, LinkCall(key, d));
      var i :| 0 <= i < |links| && links[i] == LinkCall(key, d);
      assert calls[i] == LinkCall(key, d);
    }
  }

  // ---------------------------------------------------------------- the directories

  const LIMIT: nat := 294

  function Letter(i: nat): (c: char)
    requires i < 26
    ensures c as int == 97 + i
  {
    (97 + i) as char
  }

  /** A file name with an extension that `do_file` looks for; links sort before names with a 'z'. */
  function FileName(first: char, i: nat): (name: string)
    requires i < LIMIT
    ensures |name| == 7 && name[0] == first && name[1] == Letter(i / 26) && name[2] == Letter(i % 26)
  {
    [first, Letter(i / 26), Letter(i % 26)] + ".pem"
  }

  lemma {:induction false} FileNamesApart(first: char, i: nat, j: nat)
    requires i < LIMIT && j < LIMIT && i != j
    ensures FileName(first, i) != FileName(first, j)
  {
    if i / 26 != j / 26 {
      assert FileName(first, i)[1] != FileName(first, j)[1];
    } else {
      assert FileName(first, i)[2] != FileName(first, j)[2];
    }
  }

  /** Twenty bytes with three marks. */
  function Marks(a: nat, b: nat, c: nat): (r: Digest)
    ensures |r| == 20 && forall p :: 0 <= p < 20 ==> (r[p] == 1 <==> p == a || p == 6 + b || p == 13 + c)
  {
    seq(20, p => if p == a || p == 6 + b || p == 13 + c then 1 else 0)
  }

  /** A digest that is different for every number below the limit. */
  function FileDigest(i: nat): Digest
    requires i < LIMIT
  {
    Marks(i / 49, i / 7 % 7, i % 7)
  }

  /** Links with the ids 0 .. k-1 to files that are gone. */
  function StaleLinks(k: nat): (r: seq<Entry>)
    requires k <= LIMIT
    ensures |r| == k && forall i :: 0 <= i < k ==> r[i] == Entry(FileName('s', i), i, false, NO_DIGEST)
  {
    seq(k, i requires 0 <= i < k => Entry(FileName('s', i), i, false, NO_DIGEST))
  }

  /** Files without links. */
  function PlainFiles(m: nat): (r: seq<Entry>)
    requires m <= LIMIT
    ensures |r| == m && forall i :: 0 <= i < m ==> r[i] == Entry(FileName('z', i), NO_ID, true, FileDigest(i))
  {
    seq(m, i requires 0 <= i < m => Entry(FileName('z', i), NO_ID, true, FileDigest(i)))
  }

  /** Files with the links 0 .. n-1. */
  function LinkedFiles(n: nat): (r: seq<Entry>)
    requires n <= LIMIT
    ensures |r| == n && forall i :: 0 <= i < n ==> r[i] == Entry(FileName('z', i), i, true, FileDigest(i))
  {
    seq(n, i requires 0 <= i < n => Entry(FileName('z', i), i, true, FileDigest(i)))
  }

  lemma {:induction false} MarksApart(a: nat, b: nat, c: nat, a': nat, b': nat, c': nat)
    requires a < 6 && b < 7 && c < 7 && a' < 6 && b' < 7 && c' < 7
    requires Marks(a, b, c) == Marks(a', b', c')
    ensures a == a' && b == b' && c == c'
  {
    var r := Marks(a', b', c');
    assert r[a] == 1 && r[6 + b] == 1 && r[13 + c] == 1;
  }

  lemma {:induction false} BaseSeven(i: nat)
    requires i < LIMIT
    ensures i == 49 * (i / 49) + 7 * (i / 7 % 7) + i % 7 && i / 49 < 6
  {
  }

  lemma {:induction false} DigestsApart(i: nat, j: nat)
    requires i < LIMIT && j < LIMIT && FileDigest(i) == FileDigest(j)
    ensures i == j
  {
    BaseSeven(i);
    BaseSeven(j);
    MarksApart(i / 49, i / 7 % 7, i % 7, j / 49, j / 7 % 7, j % 7);
  }

  lemma {:induction false} DigestNotZero(i: nat)
    requires i < LIMIT
    ensures FileDigest(i) != NO_DIGEST
  {
    assert FileDigest(i)[i / 49] == 1 && i / 49 < 6 && NO_DIGEST[i / 49] == 0;
  }

  lemma {:induction false} StaleListing(k: nat, m: nat)
    requires k <= LIMIT && m <= LIMIT
    ensures Listing(StaleLinks(k) + PlainFiles(m))
  {
    StaleItems(k, m);
    StaleNames(k, m);
    StaleDigests(k, m);
  }

  lemma {:induction false} StaleItems(k: nat, m: nat)
    requires k <= LIMIT && m <= LIMIT
    ensures var dir := StaleLinks(k) + PlainFiles(m);
            forall i :: 0 <= i < |dir| ==> ItemOk(dir[i])
  {
    var files := PlainFiles(m);
    forall i | 0 <= i < m ensures ItemOk(files[i]) { DigestNotZero(i); }
  }

  lemma {:induction false} StaleDigests(k: nat, m: nat)
    requires k <= LIMIT && m <= LIMIT
    ensures DistinctDigests(StaleLinks(k) + PlainFiles(m))
  {
    var files := PlainFiles(m);
    forall i, j | 0 <= i < j < m ensures files[i].digest != files[j].digest {
      if FileDigest(i) == FileDigest(j) { DigestsApart(i, j); }
    }
    var dir := StaleLinks(k) + files;
    assert forall i :: 0 <= i < k ==> !dir[i].needed;
    assert forall i :: k <= i < |dir| ==> dir[i] == files[i - k];
  }

  lemma {:induction false} StaleNames(k: nat, m: nat)
    requires k <= LIMIT && m <= LIMIT
    ensures DistinctNames(StaleLinks(k) + PlainFiles(m))
  {
    var dir := StaleLinks(k) + PlainFiles(m);
    forall i, j | 0 <= i < j < |dir| ensures dir[i].filename != dir[j].filename {
      if j < k {
        FileNamesApart('s', i, j);
      } else if k <= i {
        FileNamesApart('z', i - k, j - k);
      } else {
        assert dir[i].filename[0] != dir[j].filename[0];
      }
    }
  }

  lemma {:induction false} LinkedListing(n: nat)
    requires n <= LIMIT
    ensures Listing(LinkedFiles(n))
  {
    var dir := LinkedFiles(n);
    forall i | 0 <= i < |dir| ensures ItemOk(dir[i]) { DigestNotZero(i); }
    forall i, j | 0 <= i < j < |dir| ensures dir[i].filename != dir[j].filename {
      FileNamesApart('z', i, j);
    }
    forall i, j | 0 <= i < j < |dir| ensures dir[i].digest != dir[j].digest {
      if dir[i].digest == dir[j].digest { DigestsApart(i, j); }
    }
  }

  // ---------------------------------------------------------------- their counts

  lemma {:induction false} CountNewConcat(a: seq<Entry>, b: seq<Entry>, n: nat)
    ensures Ids.CountNew(a + b, n) == Ids.CountNew(a, n) + Ids.CountNew(b, n)
  {
    if a == [] {
      assert a + b == b;
    } else {
      assert (a + b)[1..] == a[1..] + b;
      CountNewConcat(a[1..], b, n);
    }
  }

  lemma {:induction false} CountNewUniform(es: seq<Entry>, n: nat)
    ensures (forall i :: 0 <= i < |es| ==> es[i].needed && n <= es[i].oldId) ==> Ids.CountNew(es, n) == |es|
    ensures (forall i :: 0 <= i < |es| ==> !es[i].needed || es[i].oldId < n) ==> Ids.CountNew(es, n) == 0
  {
    if es != [] { CountNewUniform(es[1..], n); }
  }

  lemma {:induction false} StaleCounts(k: nat, m: nat)
    requires k <= LIMIT && m <= LIMIT
    ensures var dir := StaleLinks(k) + PlainFiles(m);
            CountNeeded(dir) == m && Ids.CountNew(dir, m) == m
  {
    var stale, files := StaleLinks(k), PlainFiles(m);
    CountNeededConcat(stale, files);
    CountNeededBound(stale);
    AllNeeded(files);
    CountNewConcat(stale, files, m);
    CountNewUniform(stale, m);
    CountNewUniform(files, m);
  }

  lemma {:induction false} StaleKept(k: nat, m: nat)
    requires k <= LIMIT && m <= LIMIT
    ensures Ids.Kept(StaleLinks(k) + PlainFiles(m), m) == Ids.Range(if k < m then k else m)
  {
    var dir, low := StaleLinks(k) + PlainFiles(m), if k < m then k else m;
    forall x: nat | x < low ensures x in Ids.Kept(dir, m) { assert dir[x].oldId == x; }
  }

  /** k stale links and m files: the mask suffices if and only if the ids in use fit into the cleared bytes. */
  lemma {:induction false} StaleFamily(k: nat, m: nat)
    requires k <= LIMIT && m <= LIMIT
    ensures Ids.MaskSuffices(StaleLinks(k) + PlainFiles(m)) <==>
            m <= Ids.MAX_COLLISIONS && (if k < m then k else m) + m <= Ids.ClearedBits(m)
  {
    StaleCounts(k, m);
    StaleKept(k, m);
  }

  /** n files with links 0 .. n-1: the mask suffices if and only if they are no more than 256. */
  lemma {:induction false} LinkedFamily(n: nat)
    requires n <= LIMIT
    ensures CountNeeded(LinkedFiles(n)) == n
    ensures Ids.MaskSuffices(LinkedFiles(n)) <==> n <= Ids.MAX_COLLISIONS
  {
    var dir := LinkedFiles(n);
    AllNeeded(dir);
    CountNewUniform(dir, n);
    assert Ids.Kept(dir, n) == Ids.Range(n) by {
      forall x: nat | x < n ensures x in Ids.Kept(dir, n) { assert dir[x].oldId == x; }
    }
  }

  // ---------------------------------------------------------------- the runs

  /**
   Stale links on the ids 0 .. k-1 and m files of the same hash, read in any order. With eight
   of each, the search for a free id leaves the one byte that was cleared.
   */
  lemma {:induction false} StaleLinksOverrun(calls: seq<Call>, key: Key, k: nat, m: nat)
    requires k + m <= Ids.MAX_COLLISIONS
    requires ReadsOnly(calls, key, StaleLinks(k) + PlainFiles(m)) && ReadsAll(calls, key, StaleLinks(k) + PlainFiles(m))
    ensures Ids.MaskSuffices(Bucket(Run(calls).0, key).entries) <==> (if k < m then k else m) + m <= Ids.ClearedBits(m)
    ensures k == m == 8 ==> !Ids.MaskSuffices(Bucket(Run(calls).0, key).entries)
  {
    StaleListing(k, m);
    StaleFamily(k, m);
    OutcomeOfReading(calls, key, StaleLinks(k) + PlainFiles(m));
  }

  /** There is such a run: the one that reads the links first. */
  lemma {:induction false} StaleLinksRun(key: Key)
    ensures var calls := Reading(key, StaleLinks(8) + PlainFiles(8));
            AllValid(calls) && !Ids.MaskSuffices(Bucket(Run(calls).0, key).entries)
  {
    StaleListing(8, 8);
    ReadingReads(key, StaleLinks(8) + PlainFiles(8));
    StaleLinksOverrun(Reading(key, StaleLinks(8) + PlainFiles(8)), key, 8, 8);
  }

  /**
   n links, then the n files they lead to. Since a file that is already in the bucket is not
   checked against the limit, all are let in: with 257 of them, 33 of the 32 bytes of the mask
   are cleared.
   */
  lemma {:induction false} ManyLinksRun(key: Key, n: nat)
    requires n <= LIMIT
    ensures AllValid(Reading(key, LinkedFiles(n)))
    ensures var es := Bucket(Run(Reading(key, LinkedFiles(n))).0, key).entries;
            CountNeeded(es) == n && (Ids.MaskSuffices(es) <==> n <= Ids.MAX_COLLISIONS)
  {
    var dir := LinkedFiles(n);
    LinkedListing(n);
    LinkedFamily(n);
    ReadingReads(key, dir);
    ReadingLinksFirst(key, dir);
    OutcomeOfReading(Reading(key, dir), key, dir);
  }
}
