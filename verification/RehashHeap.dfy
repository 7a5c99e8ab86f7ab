/**
 The chained hash table itself: `hash_table[257]`, bucket nodes linked by `next`, their entries
 linked from `first` to `last`, and `add_entry` working on them in place.
 */
module RehashHeap {
  import opened Wrappers
  import opened RehashEntries
  import opened RehashSpec
  import Ids = RehashIds

  const SLOTS: nat := 257

  // ---------------------------------------------------------------- entries

  /** `HENTRY`. The owner is the bucket in whose list the node is. */
  class EntryNode {
    var next: EntryNode?
    const filename: string
    var oldId: nat
    var needed: bool
    var digest: Digest
    ghost const owner: BucketNode

    constructor (filename: string, ghost owner: BucketNode)
      ensures next == null && this.filename == filename && this.owner == owner
      ensures Value() == Blank(filename)
    {
      this.filename, this.owner, next := filename, owner, null;
      oldId, needed, digest := NO_ID, false, NO_DIGEST;
    }

    ghost function Value(): Entry
      reads this`oldId, this`needed, this`digest
    {
      Entry(filename, oldId, needed, digest)
    }

    /** The last lines of `add_entry`: lower the id, mark the entry as needed once. */
    method Take(c: Call) returns (marked: bool)
      requires c.Valid()
      modifies this`oldId, this`needed, this`digest
      ensures Value() == Touch(old(Value()), c) && marked == (c.need && !old(needed))
    {
      if c.oldId < oldId {
        oldId := c.oldId;
      }
      marked := c.need && !needed;
      if marked {
        needed, digest := true, c.digest.value;
      }
    }
  }

  /** The nodes hold these entries. */
  ghost predicate Hold(list: seq<EntryNode>, es: seq<Entry>)
    reads list`oldId, list`needed, list`digest
  {
    |list| == |es| && forall k :: 0 <= k < |list| ==> list[k].Value() == es[k]
  }

  ghost predicate Within(list: seq<EntryNode>, cells: set<EntryNode>) { forall e :: e in list ==> e in cells }

  /** `list` are the nodes reachable from `first`, each of them once. */
  ghost predicate EntriesLinked(first: EntryNode?, list: seq<EntryNode>)
    reads list`next
  {
    && first == (if list == [] then null else list[0])
    && (forall k {:trigger list[k].next} :: 0 <= k < |list| ==>
          list[k].next == if k + 1 < |list| then list[k + 1] else null)
    && (forall i, j :: 0 <= i < j < |list| ==> list[i] != list[j])
  }

  // ---------------------------------------------------------------- buckets

  class BucketNode {
    var next: BucketNode?
    const kind: nat
    const hash: nat
    var first: EntryNode?
    var last: EntryNode?
    var numNeeded: nat
    ghost var list: seq<EntryNode>
    ghost var entries: seq<Entry>

    constructor (kind: nat, hash: nat, next: BucketNode?)
      ensures this.kind == kind && this.hash == hash && this.next == next
      ensures Valid() && list == [] && Value() == Contents([], 0)
    {
      this.kind, this.hash, this.next := kind, hash, next;
      first, last, numNeeded, list, entries := null, null, 0, [], [];
    }

    ghost function Key(): (nat, nat) { (kind, hash) }

    /** The list runs from `first` to `last` and holds the entries. */
    ghost predicate Valid()
      reads this, list
    {
      && EntriesLinked(first, list)
      && last == (if list == [] then null else list[|list| - 1])
      && (forall k :: 0 <= k < |list| ==> list[k].owner == this)
      && Hold(list, entries)
    }

    ghost function Value(): Contents
      reads this`entries, this`numNeeded
    {
      Contents(entries, numNeeded)
    }

    /** The search loop: stops at a duplicate digest, otherwise finds the entry of this file name. */
    method Search(name: string, digest: Option<Digest>)
      returns (duplicate: bool, found: EntryNode?, ghost at: nat)
      requires Valid() && DistinctNames(entries)
      ensures duplicate <==> digest.Some? && HasDigest(entries, digest.value)
      ensures !duplicate ==> at == IndexOf(entries, name)
      ensures !duplicate ==> found == if at < |list| then list[at] else null
    {
      found, at := null, |list|;
      var ep := first;
      ghost var k := 0;
      while ep != null
        invariant k <= |list| && ep == if k < |list| then list[k] else null
        invariant digest.Some? ==> forall j :: 0 <= j < k ==> entries[j].digest != digest.value
        invariant if at == |list| then found == null && forall j :: 0 <= j < k ==> entries[j].filename != name
                  else at == IndexOf(entries, name) < k && found == list[at]
        decreases |list| - k
      {
        assert ep.Value() == entries[k] && list[k].next == ep.next;
        if digest.Some? && digest.value == ep.digest {
          return true, found, at;
        }
        if ep.filename == name {
          found, at := ep, k;
          assert IndexOf(entries, name) == k;
          if digest == None {
            return false, found, at;
          }
        }
        ep, k := ep.next, k + 1;
      }
      return false, found, at;
    }

    /** A new entry at the end of the list. */
    method Append(name: string) returns (ep: EntryNode)
      requires Valid()
      modifies this`first, this`last, this`list, this`entries, list`next
      ensures Valid() && fresh(ep) && list == old(list) + [ep] && entries == old(entries) + [Blank(name)]
    {
      ghost var was := list;
      ep := new EntryNode(name, this);
      if last != null {
        last.next := ep;
      }
      if first == null {
        first := ep;
      }
      last := ep;
      list, entries := list + [ep], entries + [Blank(name)];
      assert forall k :: 0 <= k < |was| ==> list[k] == was[k] && list[k] != ep;
    }

    /** The entry of a node takes a call in, and is counted when it is marked. */
    method TouchEntry(ep: EntryNode, c: Call, ghost at: nat)
      requires Valid() && c.Valid() && at < |list| && list[at] == ep
      modifies ep`oldId, ep`needed, ep`digest, this`numNeeded, this`entries
      ensures Valid() && Value() == Touched(old(Value()), c, at)
    {
      ghost var was := Value();
      assert ep.Value() == was.entries[at] && forall k :: 0 <= k < |list| && k != at ==> list[k] != ep;
      var marked := ep.Take(c);
      if marked {
        numNeeded := (numNeeded + 1) % 0x1_0000;
      }
      entries := Touched(was, c, at).entries;
    }

    /** An entry for a new file name. */
    method AddNew(c: Call)
      requires Valid() && c.Valid()
      modifies this`first, this`last, this`list, this`entries, this`numNeeded, list`next
      ensures Valid() && old(list) <= list && fresh(list[|old(list)|..])
      ensures Value() == Extended(old(Value()), c)
    {
      ghost var was := Value();
      var ep := Append(c.filename);
      TouchEntry(ep, c, |was.entries|);
      TouchedNew(was, c);
    }

    /** Behind the checks: the entry that was found, or a new one, takes the call in. */
    method Accept(ep: EntryNode?, c: Call, ghost at: nat)
      requires Valid() && c.Valid() && at <= |list| && ep == if at < |list| then list[at] else null
      modifies this`first, this`last, this`list, this`entries, this`numNeeded, list
      ensures Valid() && old(list) <= list && fresh(list[|old(list)|..])
      ensures at < |old(entries)| ==> Value() == Touched(old(Value()), c, at)
      ensures at == |old(entries)| ==> Value() == Extended(old(Value()), c)
    {
      if ep == null {
        AddNew(c);
      } else {
        TouchEntry(ep, c, at);
      }
    }

    /** The part of `add_entry` that works inside one bucket. */
    method Add(c: Call) returns (errors: nat)
      requires Valid() && c.Valid() && DistinctNames(entries)
      modifies this`first, this`last, this`list, this`entries, this`numNeeded, list
      ensures Valid() && old(list) <= list && fresh(list[|old(list)|..])
      ensures Value() == AddToBucket(old(Value()), c).0
      ensures errors == if AddToBucket(old(Value()), c).1 then 0 else 1
    {
      ghost var at;
      var duplicate, ep;
      duplicate, ep, at := Search(c.filename, c.digest);
      if duplicate || (ep == null && numNeeded >= Ids.MAX_COLLISIONS) {
        return 1;
      }
      AcceptedCall(Value(), c, at);
      Accept(ep, c, at);
      return 0;
    }
  }

  // ---------------------------------------------------------------- chains

  /** `chain` are the buckets reachable from `head`. */
  ghost predicate Linked(head: BucketNode?, chain: seq<BucketNode>)
    reads chain`next
  {
    && head == (if chain == [] then null else chain[0])
    && (forall k {:trigger chain[k].next} :: 0 <= k < |chain| - 1 ==> chain[k].next == chain[k + 1])
    && (chain != [] ==> chain[|chain| - 1].next == null)
  }

  lemma {:induction false} PushLinked(bp: BucketNode, head: BucketNode?, chain: seq<BucketNode>)
    requires Linked(head, chain) && bp.next == head
    ensures Linked(bp, [bp] + chain)
  {
    var all := [bp] + chain;
    assert forall k :: 1 <= k < |all| ==> all[k] == chain[k - 1];
  }

  ghost predicate HasKey(chain: seq<BucketNode>, key: (nat, nat)) {
    exists k :: 0 <= k < |chain| && chain[k].Key() == key
  }

  ghost function Keys(nodes: set<BucketNode>): (r: set<(nat, nat)>)
    ensures forall b :: b in nodes ==> b.Key() in r
  {
    set b | b in nodes :: b.Key()
  }

  lemma KeysPlus(nodes: set<BucketNode>, b: BucketNode)
    ensures Keys(nodes + {b}) == Keys(nodes) + {b.Key()}
  {
  }

  /** Walks one chain. */
  method Walk(head: BucketNode?, kind: nat, hash: nat, ghost chain: seq<BucketNode>) returns (bp: BucketNode?)
    requires Linked(head, chain)
    ensures bp == null <==> !HasKey(chain, (kind, hash))
    ensures bp != null ==> bp in chain && bp.Key() == (kind, hash)
  {
    bp := head;
    ghost var k := 0;
    while bp != null && !(bp.kind == kind && bp.hash == hash)
      invariant k <= |chain|
      invariant bp == if k < |chain| then chain[k] else null
      invariant forall j :: 0 <= j < k ==> chain[j].Key() != (kind, hash)
      decreases |chain| - k
    {
      bp := bp.next;
      k := k + 1;
    }
  }

  // ---------------------------------------------------------------- the table

  class HashTable {
    const slots: array<BucketNode?>
    ghost var chains: seq<seq<BucketNode>>
    ghost var nodes: set<BucketNode>
    ghost var cells: set<EntryNode>

    constructor ()
      ensures Valid() && fresh(slots) && nodes == {} && cells == {}
    {
      slots := new BucketNode?[SLOTS](_ => null);
      chains, nodes, cells := seq(SLOTS, _ => []), {}, {};
    }

    ghost predicate Valid()
      reads this, slots, nodes, cells
    {
      Chained() && Filled()
    }

    /** Every slot heads the chain of the buckets whose key belongs there; no key occurs twice. */
    ghost predicate Chained()
      reads this`chains, this`nodes, slots, nodes`next
    {
      && slots.Length == |chains| == SLOTS
      && (forall b {:trigger Slot(b.Key())} :: b in nodes ==> b in chains[Slot(b.Key())])
      && (forall s, b :: 0 <= s < SLOTS && b in chains[s] ==> b in nodes)
      && (forall s :: 0 <= s < SLOTS ==> Linked(slots[s], chains[s]))
      && (forall b, d :: b in nodes && d in nodes && b.Key() == d.Key() ==> b == d)
    }

    /** The buckets are in order, and their entries are all among the cells. */
    ghost predicate Filled()
      reads this`nodes, this`cells, nodes, cells
    {
      forall b {:trigger b.Valid()} :: b in nodes ==> Within(b.list, cells) && b.Valid()
    }

    /** The buckets hold exactly the table `t`. */
    ghost predicate Represents(t: Table)
      reads this`nodes, nodes`entries, nodes`numNeeded
    {
      && t.Keys == Keys(nodes)
      && (forall b :: b in nodes ==> t[b.Key()] == b.Value())
    }

    method FindBucket(kind: nat, hash: nat) returns (bp: BucketNode?)
      requires Chained()
      ensures bp == null ==> forall b :: b in nodes ==> b.Key() != (kind, hash)
      ensures bp != null ==> bp in nodes && bp.Key() == (kind, hash)
    {
      bp := Walk(slots[Slot((kind, hash))], kind, hash, chains[Slot((kind, hash))]);
      forall b | b in nodes && b.Key() == (kind, hash) ensures bp != null {
        assert b in chains[Slot(b.Key())];
      }
    }

    /** Puts an empty bucket at the head of its chain. */
    method PushBucket(kind: nat, hash: nat) returns (bp: BucketNode)
      requires Chained() && forall b :: b in nodes ==> b.Key() != (kind, hash)
      modifies this`chains, this`nodes, slots
      ensures Chained() && fresh(bp) && nodes == old(nodes) + {bp}
      ensures bp.Valid() && bp.list == [] && bp.Key() == (kind, hash) && bp.Value() == Contents([], 0)
    {
      var s := Slot((kind, hash));
      bp := new BucketNode(kind, hash, slots[s]);
      slots[s] := bp;
      chains := chains[s := [bp] + chains[s]];
      nodes := nodes + {bp};
      assert Linked(slots[s], chains[s]) by { PushLinked(bp, old(slots[s]), old(chains[s])); }
      forall b | b in nodes ensures b in chains[Slot(b.Key())] {
        if b != bp { assert b in old(chains)[Slot(b.Key())]; }
      }
    }

    /** The bucket of a key, made if it is not there yet. */
    method GetBucket(kind: nat, hash: nat) returns (bp: BucketNode)
      requires Chained() && Filled()
      modifies this`chains, this`nodes, slots
      ensures Chained() && Filled() && nodes == old(nodes) + {bp} && bp.Key() == (kind, hash)
      ensures bp !in old(nodes) ==>
                fresh(bp) && bp.Value() == Contents([], 0) && forall b :: b in old(nodes) ==> b.Key() != bp.Key()
    {
      var b := FindBucket(kind, hash);
      if b != null {
        return b;
      }
      bp := PushBucket(kind, hash);
      forall b | b in nodes ensures Within(b.list, cells) && b.Valid() {
        if b != bp { StaysValid(b); }
      }
    }

    /** The call on the bucket that was found or made. */
    method AddIn(bp: BucketNode, c: Call) returns (errors: nat)
      requires Filled() && c.Valid() && bp in nodes && DistinctNames(bp.entries)
      modifies this`cells, bp`first, bp`last, bp`list, bp`entries, bp`numNeeded, bp.list
      ensures Filled() && fresh(cells - old(cells))
      ensures bp.Value() == AddToBucket(old(bp.Value()), c).0
      ensures errors == if AddToBucket(old(bp.Value()), c).1 then 0 else 1
    {
      assert bp.Valid();
      errors := bp.Add(c);
      cells := cells + set e | e in bp.list[|old(bp.list)|..];
      WithinGrown(old(bp.list), bp.list, old(cells), cells);
      forall b | b in nodes ensures Within(b.list, cells) && b.Valid() {
        if b != bp { OtherStaysValid(b, bp); }
      }
    }

    /** `add_entry` on the pointers: one bucket gets the call, all others stay what they were. */
    method Put(c: Call) returns (errors: nat, ghost bp: BucketNode)
      requires Valid() && c.Valid() && forall b :: b in nodes ==> DistinctNames(b.entries)
      modifies this, slots, nodes, cells
      ensures Valid() && nodes == old(nodes) + {bp} && fresh(nodes - old(nodes)) && fresh(cells - old(cells))
      ensures bp.Key() == c.Key() && (bp !in old(nodes) ==> forall b :: b in old(nodes) ==> b.Key() != bp.Key())
      ensures forall b :: b in old(nodes) && b != bp ==> b.Value() == old(b.Value())
      ensures var was := if bp in old(nodes) then old(bp.Value()) else Contents([], 0);
              bp.Value() == AddToBucket(was, c).0 && errors == if AddToBucket(was, c).1 then 0 else 1
    {
      var b := GetBucket(c.kind, c.hash);
      bp := b;
      assert b.Valid();
      errors := AddIn(b, c);
    }

    /** `add_entry`: one call on the pointer structure is one `Add` on the table it represents. */
    method AddEntry(c: Call, ghost t: Table) returns (errors: nat)
      requires Valid() && Represents(t) && c.Valid()
      requires forall key :: key in t ==> DistinctNames(t[key].entries)
      modifies this, slots, nodes, cells
      ensures Valid() && fresh(nodes - old(nodes)) && fresh(cells - old(cells))
      ensures Represents(Add(t, c).0)
      ensures errors == if Add(t, c).1 then 0 else 1
    {
      ghost var before := Snapshot(this, t);
      ghost var bp;
      errors, bp := Put(c);
      RepresentsAfter(this, before, bp, c, t);
    }
  }

  /** Every bucket is in one of the 257 chains, which type and hash select in 32-bit arithmetic. */
  lemma {:induction false} InItsChain(h: HashTable, b: BucketNode)
    requires h.Chained() && b in h.nodes
    ensures h.slots.Length == |h.chains| == 257
    ensures forall s :: 0 <= s < 257 ==> (b in h.chains[s] ==> Linked(h.slots[s], h.chains[s]))
    ensures b in h.chains[(b.kind + b.hash) % 0x1_0000_0000 % 257]
  {
    assert b in h.chains[Slot(b.Key())];
  }

  /** The contents of all buckets before a call. */
  lemma {:induction false} Snapshot(h: HashTable, t: Table) returns (before: map<BucketNode, Contents>)
    requires h.Represents(t) && forall key :: key in t ==> DistinctNames(t[key].entries)
    ensures before.Keys == h.nodes && t.Keys == Keys(before.Keys)
    ensures forall b :: b in before ==> before[b] == b.Value() == t[b.Key()] && DistinctNames(b.entries)
  {
    before := map b | b in h.nodes :: b.Value();
  }

  lemma {:induction false} RepresentsAfter(h: HashTable, before: map<BucketNode, Contents>, bp: BucketNode,
                                           c: Call, t: Table)
    requires c.Valid() && bp.Key() == c.Key() && h.nodes == before.Keys + {bp}
    requires t.Keys == Keys(before.Keys) && forall b :: b in before ==> t[b.Key()] == before[b]
    requires forall b, d :: b in h.nodes && d in h.nodes && b.Key() == d.Key() ==> b == d
    requires forall b :: b in before && b != bp ==> b.Value() == before[b]
    requires bp.Value() == AddToBucket(if bp in before then before[bp] else Contents([], 0), c).0
    ensures h.Represents(Add(t, c).0)
    ensures Bucket(t, c.Key()) == if bp in before then before[bp] else Contents([], 0)
  {
    KeysPlus(before.Keys, bp);
  }

  lemma {:induction false} WithinGrown(was: seq<EntryNode>, list: seq<EntryNode>,
                                       cells: set<EntryNode>, grown: set<EntryNode>)
    requires was <= list && Within(was, cells) && grown == cells + set e | e in list[|was|..]
    ensures Within(list, grown)
  {
    assert list == was + list[|was|..];
  }

  /** A bucket whose fields and entries are left alone stays in order. */
  twostate lemma StaysValid(new b: BucketNode)
    requires old(allocated(b)) && old(b.Valid()) && unchanged(b) && forall e :: e in old(b.list) ==> unchanged(e)
    ensures b.Valid()
  {
    forall k | 0 <= k < |b.list|
      ensures b.list[k].next == old(b.list[k].next) && b.list[k].Value() == old(b.list[k].Value())
    {
      assert b.list[k] in old(b.list);
    }
  }

  /** Buckets do not share entries: a change to one of them leaves the others in order. */
  twostate lemma OtherStaysValid(new b: BucketNode, new bp: BucketNode)
    requires old(allocated(b)) && old(allocated(bp)) && old(b.Valid()) && old(bp.Valid()) && b != bp
    requires unchanged(b) && forall e: EntryNode :: old(allocated(e)) && e !in old(bp.list) ==> unchanged(e)
    ensures b.Valid()
  {
    forall e | e in old(b.list) ensures unchanged(e) {
      assert e.owner == b && old(allocated(e));
      assert e !in old(bp.list);
    }
    StaysValid(b);
  }

  /** One more call of a run. */
  method AddNext(h: HashTable, calls: seq<Call>, i: nat) returns (errors: nat)
    requires AllValid(calls) && i < |calls| && h.Valid() && h.Represents(Run(calls[..i]).0)
    modifies h, h.slots, h.nodes, h.cells
    ensures h.Valid() && h.Represents(Run(calls[..i + 1]).0)
    ensures fresh(h.nodes - old(h.nodes)) && fresh(h.cells - old(h.cells))
    ensures errors == 1 + |Run(calls[..i]).1| - |Run(calls[..i + 1]).1|
  {
    RunDistinctNames(calls[..i]);
    RunSnoc(calls, i);
    errors := h.AddEntry(calls[i], Run(calls[..i]).0);
  }

  /** A whole run from the empty table; the errors are the calls that were not accepted. */
  method AddAll(calls: seq<Call>) returns (h: HashTable, errors: nat)
    requires AllValid(calls)
    ensures h.Valid() && h.Represents(Run(calls).0)
    ensures errors == |calls| - |Run(calls).1|
  {
    h := new HashTable();
    errors := 0;
    for i := 0 to |calls|
      invariant h.Valid() && h.Represents(Run(calls[..i]).0)
      invariant fresh(h) && fresh(h.slots) && fresh(h.nodes) && fresh(h.cells)
      invariant errors == i - |Run(calls[..i]).1|
    {
      var e := AddNext(h, calls, i);
      errors := errors + e;
    }
    assert calls[..|calls|] == calls;
  }
}
