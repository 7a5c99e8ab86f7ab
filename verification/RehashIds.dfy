/**
 The id allocator of rehash's `do_dir`.

 Every bucket holds the files and links that share one (type, hash) pair. A link is
 named "hash.id" and lookup by hash probes id 0, 1, 2, ... until a name is missing, so
 the ids of the needed entries have to be exactly 0 .. numNeeded-1. The source keeps
 every old id below `num_needed` and fills the holes with the help of a bit mask.
 */
module RehashEntries {

  type Digest = seq<bv8>

  /** What `HENTRY` holds, apart from its link to the next entry. */
  datatype Entry = Entry(filename: string, oldId: nat, needed: bool, digest: Digest)

  function CountNeeded(es: seq<Entry>): nat {
    if es == [] then 0 else (if es[0].needed then 1 else 0) + CountNeeded(es[1..])
  }

  lemma {:induction false} CountNeededConcat(a: seq<Entry>, b: seq<Entry>)
    ensures CountNeeded(a + b) == CountNeeded(a) + CountNeeded(b)
  {
    if a == [] {
      assert a + b == b;
    } else {
      assert (a + b)[1..] == a[1..] + b;
      CountNeededConcat(a[1..], b);
    }
  }
}

module RehashBitMask {

  function Bit(k: nat): bv8
    requires k < 8
  {
    1 << k
  }

  predicate IsSet(mask: seq<bv8>, bit: nat)
    requires bit / 8 < |mask|
  {
    mask[bit / 8] & Bit(bit % 8) != 0
  }

  lemma {:induction false} BitValue(k: nat)
    requires k < 8
    ensures Bit(k) == if k == 0 then 1 else if k == 1 then 2 else if k == 2 then 4 else if k == 3 then 8
                      else if k == 4 then 16 else if k == 5 then 32 else if k == 6 then 64 else 128
  {
    if k == 0 {} else if k == 1 {} else if k == 2 {} else if k == 3 {} else if k == 4 {}
    else if k == 5 {} else if k == 6 {} else { assert k == 7; }
  }

  lemma {:induction false} OrBit(x: bv8, i: nat, j: nat)
    requires i < 8 && j < 8
    ensures ((x | Bit(i)) & Bit(j) != 0) <==> (i == j || x & Bit(j) != 0)
  {
    BitValue(i);
    BitValue(j);
  }

  method BitSet(mask: array<bv8>, bit: nat)
    requires bit / 8 < mask.Length
    modifies mask
    ensures forall b: nat :: b / 8 < mask.Length ==> (IsSet(mask[..], b) <==> b == bit || IsSet(old(mask[..]), b))
  {
    ghost var was := mask[..];
    mask[bit / 8] := mask[bit / 8] | Bit(bit % 8);
    forall b: nat | b / 8 < mask.Length
      ensures IsSet(mask[..], b) <==> b == bit || IsSet(was, b)
    {
      if b / 8 == bit / 8 {
        OrBit(was[b / 8], bit % 8, b % 8);
      }
    }
  }
}

module RehashIds {
  import opened Wrappers
  import opened RehashEntries
  import opened RehashBitMask

  const MAX_COLLISIONS: nat := 256

  /** What `do_dir` does with one entry: keep its link, make a new one, or delete it. */
  datatype Link = Keep(id: nat) | New(id: nat) | Drop(id: nat)

  // ---------------------------------------------------------------- specification

  /** The old ids that are marked in the mask before any id is handed out. */
  ghost function Kept(es: seq<Entry>, n: nat): set<nat> {
    set i | 0 <= i < |es| && es[i].oldId < n :: es[i].oldId
  }

  function FirstFree(used: set<nat>, next: nat): (id: nat)
    ensures next <= id && id !in used
    ensures forall k :: next <= k < id ==> k in used
    decreases From(used, next)
  {
    if next !in used then next
    else
      assert next in From(used, next) && From(used, next + 1) == From(used, next) - {next};
      FirstFree(used, next + 1)
  }

  function From(used: set<nat>, next: nat): set<nat> {
    set k | k in used && next <= k
  }

  /** One entry of the second pass: its link, and the marks and position after it. */
  function Step(e: Entry, n: nat, used: set<nat>, next: nat): (r: (Link, set<nat>, nat)) {
    if e.oldId < n then (Keep(e.oldId), used, next)
    else if e.needed then
      var id := FirstFree(used, next);
      (New(id), used + {id}, id)
    else (Drop(e.oldId), used, next)
  }

  function Allocate(es: seq<Entry>, n: nat, used: set<nat>, next: nat): (links: seq<Link>)
    ensures |links| == |es|
  {
    if es == [] then []
    else
      var (link, used', next') := Step(es[0], n, used, next);
      [link] + Allocate(es[1..], n, used', next')
  }

  /** The plan for a whole bucket whose counter is `n`, for a mask without a size limit. */
  ghost function PlanFor(es: seq<Entry>, n: nat): (links: seq<Link>)
    ensures |links| == |es|
  {
    Allocate(es, n, Kept(es, n), 0)
  }

  /** The plan for a bucket whose counter has not wrapped around. */
  ghost function Plan(es: seq<Entry>): (links: seq<Link>)
    ensures |links| == |es|
  {
    PlanFor(es, CountNeeded(es))
  }

  /** Number of bits that the `memset` of `do_dir` clears. */
  function ClearedBits(n: nat): nat { 8 * ((n + 7) / 8) }

  /** No new id is searched for outside the cleared part of the mask. */
  ghost predicate WithinMask(links: seq<Link>, n: nat) {
    n <= MAX_COLLISIONS && BelowCleared(links, n)
  }

  ghost predicate BelowCleared(links: seq<Link>, n: nat) {
    forall i :: 0 <= i < |links| && links[i].New? ==> links[i].id < ClearedBits(n)
  }

  /** The needed entries own each id of 0 .. n-1 exactly once. */
  ghost predicate GapFree(es: seq<Entry>, links: seq<Link>)
    requires |links| == |es|
  {
    var n := CountNeeded(es);
    && (forall i :: 0 <= i < |es| && es[i].needed ==> !links[i].Drop? && links[i].id < n)
    && (forall i, j :: 0 <= i < j < |es| && es[i].needed && es[j].needed ==> links[i].id != links[j].id)
    && NeededIds(es, links) == Range(n)
  }

  ghost function NeededIds(es: seq<Entry>, links: seq<Link>): set<nat>
    requires |links| == |es|
  {
    set i | 0 <= i < |es| && es[i].needed :: links[i].id
  }

  function Range(n: nat): (r: set<nat>)
    ensures forall k :: k in r <==> 0 <= k < n
    ensures |r| == n
  {
    if n == 0 then {} else Range(n - 1) + {n - 1}
  }

  /**
   A condition on the bucket alone: needed entries do not share an old id below their number,
   and no superfluous link sits on an id that a needed entry does not already hold.
   */
  ghost predicate Tight(es: seq<Entry>) {
    var n := CountNeeded(es);
    && (forall i, j :: 0 <= i < j < |es| && es[i].needed && es[j].needed && es[i].oldId < n ==>
          es[i].oldId != es[j].oldId)
    && (forall i :: 0 <= i < |es| && !es[i].needed && es[i].oldId < n ==>
          exists j :: 0 <= j < |es| && es[j].needed && es[j].oldId == es[i].oldId)
  }

  // ---------------------------------------------------------------- every bucket

  /** Old ids are kept, and a new id is the least one that is neither kept nor given out earlier. */
  ghost predicate LinkFills(es: seq<Entry>, n: nat, used: set<nat>, links: seq<Link>, i: nat)
    requires i < |es| == |links|
  {
    match links[i]
    case Keep(id) => es[i].oldId == id < n
    case Drop(id) => n <= es[i].oldId == id && !es[i].needed
    case New(id) =>
      && n <= es[i].oldId && es[i].needed && id !in used
      && (forall j :: 0 <= j < i && links[j].New? ==> links[j].id < id)
      && (forall k :: 0 <= k < id ==> k in used || exists j :: 0 <= j < i && links[j] == New(k))
  }

  lemma {:induction false} PlanFills(es: seq<Entry>, i: nat)
    requires i < |es|
    ensures LinkFills(es, CountNeeded(es), Kept(es, CountNeeded(es)), Plan(es), i)
  {
    PlanForFills(es, CountNeeded(es), i);
  }

  lemma {:induction false} PlanForFills(es: seq<Entry>, n: nat, i: nat)
    requires i < |es|
    ensures LinkFills(es, n, Kept(es, n), PlanFor(es, n), i)
  {
    AllocateFillsAt(es, n, Kept(es, n), 0, i);
  }

  lemma {:induction false} AllocateFillsAt(es: seq<Entry>, n: nat, used: set<nat>, next: nat, i: nat)
    requires i < |es|
    requires forall k :: 0 <= k < next ==> k in used
    ensures LinkFills(es, n, used, Allocate(es, n, used, next), i)
    decreases i
  {
    if i > 0 {
      var (link, used', next') := Step(es[0], n, used, next);
      var rest := Allocate(es[1..], n, used', next');
      AllocateFillsAt(es[1..], n, used', next', i - 1);
      if rest[i - 1].New? && link.New? {
        AllocateAbove(es[1..], n, used', next');
      }
      LinkFillsCons(es, n, used, link, rest, used', i);
    }
  }

  lemma {:induction false} LinkFillsCons(es: seq<Entry>, n: nat, used: set<nat>, link: Link,
                                         rest: seq<Link>, used': set<nat>, i: nat)
    requires 0 < i < |es| == |rest| + 1
    requires LinkFills(es[1..], n, used', rest, i - 1)
    requires used' == if link.New? then used + {link.id} else used
    requires rest[i - 1].New? && link.New? ==> link.id < rest[i - 1].id
    ensures LinkFills(es, n, used, [link] + rest, i)
  {
    var links := [link] + rest;
    if links[i].New? {
      forall k | 0 <= k < links[i].id && k !in used
        ensures exists j :: 0 <= j < i && links[j] == New(k)
      {
        if link == New(k) {
          assert links[0] == New(k);
        } else {
          var j :| 0 <= j < i - 1 && rest[j] == New(k);
          assert links[j + 1] == New(k);
        }
      }
    }
  }

  lemma {:induction false} AllocateAbove(es: seq<Entry>, n: nat, used: set<nat>, next: nat)
    requires next in used
    ensures var links := Allocate(es, n, used, next);
            forall i :: 0 <= i < |es| && links[i].New? ==> next < links[i].id
  {
    if es != [] {
      var links := Allocate(es, n, used, next);
      if es[0].oldId < n || !es[0].needed {
        AllocateAbove(es[1..], n, used, next);
        assert links[1..] == Allocate(es[1..], n, used, next);
      } else {
        var id := FirstFree(used, next);
        AllocateAbove(es[1..], n, used + {id}, id);
        assert links[1..] == Allocate(es[1..], n, used + {id}, id);
      }
      forall i | 1 <= i < |es| ensures links[i] == links[1..][i - 1] {}
    }
  }

  // ---------------------------------------------------------------- when it is gap-free

  lemma {:induction false} SubsetCard<T>(a: set<T>, b: set<T>)
    requires a <= b
    ensures |a| <= |b|
    ensures |a| == |b| ==> a == b
  {
    if a != {} {
      var x :| x in a;
      SubsetCard(a - {x}, b - {x});
      assert a == (a - {x}) + {x} && b == (b - {x}) + {x};
    }
  }

  lemma {:induction false} NeededIdsSnoc(es: seq<Entry>, links: seq<Link>, e: Entry, link: Link)
    requires |es| == |links|
    ensures NeededIds(es + [e], links + [link]) == NeededIds(es, links) + if e.needed then {link.id} else {}
  {
    var es', links' := es + [e], links + [link];
    assert forall i :: 0 <= i < |es| ==> es'[i] == es[i] && links'[i] == links[i];
    assert es'[|es|] == e && links'[|es|] == link;
    forall x | x in NeededIds(es, links) ensures x in NeededIds(es', links') {
      var i :| 0 <= i < |es| && es[i].needed && links[i].id == x;
      assert es'[i].needed && links'[i].id == x;
    }
  }

  /** Distinct ids of the needed entries are as many as the needed entries. */
  lemma {:induction false} NeededIdsCard(es: seq<Entry>, links: seq<Link>)
    requires |es| == |links| && NeededApart(es, links)
    ensures |NeededIds(es, links)| == CountNeeded(es)
  {
    if es == [] {
      assert NeededIds(es, links) == {};
    } else {
      var last := |es| - 1;
      NeededApartInit(es, links);
      NeededIdsCard(es[..last], links[..last]);
      NeededIdsCardSnoc(es[..last], links[..last], es[last], links[last]);
      assert es == es[..last] + [es[last]] && links == links[..last] + [links[last]];
    }
  }

  lemma {:induction false} NeededApartInit(es: seq<Entry>, links: seq<Link>)
    requires |es| == |links| > 0 && NeededApart(es, links)
    ensures var last := |es| - 1;
            && NeededApart(es[..last], links[..last])
            && (es[last].needed ==> links[last].id !in NeededIds(es[..last], links[..last]))
  {
  }

  lemma {:induction false} NeededIdsCardSnoc(es: seq<Entry>, links: seq<Link>, e: Entry, link: Link)
    requires |es| == |links| && |NeededIds(es, links)| == CountNeeded(es)
    requires e.needed ==> link.id !in NeededIds(es, links)
    ensures |NeededIds(es + [e], links + [link])| == CountNeeded(es + [e])
  {
    NeededIdsSnoc(es, links, e, link);
    CountNeededConcat(es, [e]);
    CardPlus(NeededIds(es, links), link.id);
  }

  ghost predicate NeededApart(es: seq<Entry>, links: seq<Link>)
    requires |es| == |links|
  {
    forall i, j :: 0 <= i < j < |es| && es[i].needed && es[j].needed ==> links[i].id != links[j].id
  }

  lemma {:induction false} CardPlus<T>(s: set<T>, x: T)
    ensures |s + {x}| == |s| + (if x in s then 0 else 1) && s + {} == s
  {
    if x in s { assert s + {x} == s; }
  }

  lemma {:induction false} PlanDistinct(es: seq<Entry>, i: nat, j: nat)
    requires Tight(es)
    requires i < j < |es| && es[i].needed && es[j].needed
    ensures Plan(es)[i].id != Plan(es)[j].id
  {
    var n := CountNeeded(es);
    PlanFills(es, i);
    PlanFills(es, j);
    assert es[i].oldId < n ==> es[i].oldId in Kept(es, n);
    assert es[j].oldId < n ==> es[j].oldId in Kept(es, n);
  }

  lemma {:induction false} KeptAreNeeded(es: seq<Entry>)
    requires Tight(es)
    ensures Kept(es, CountNeeded(es)) <= NeededIds(es, Plan(es))
  {
    var n := CountNeeded(es);
    forall k | k in Kept(es, n) ensures k in NeededIds(es, Plan(es)) {
      var i :| 0 <= i < |es| && es[i].oldId < n && es[i].oldId == k;
      var j :| 0 <= j < |es| && es[j].needed && es[j].oldId == k;
      PlanFills(es, j);
      assert Plan(es)[j].id == k;
    }
  }

  /** Everything up to a new id is an id of some needed entry. */
  lemma {:induction false} BelowNewIsNeeded(es: seq<Entry>, i: nat)
    requires Tight(es)
    requires i < |es| && Plan(es)[i].New?
    ensures Range(Plan(es)[i].id + 1) <= NeededIds(es, Plan(es))
  {
    forall k: nat | k <= Plan(es)[i].id ensures k in NeededIds(es, Plan(es)) {
      BelowNewIsNeededAt(es, i, k);
    }
  }

  lemma {:induction false} BelowNewIsNeededAt(es: seq<Entry>, i: nat, k: nat)
    requires Tight(es)
    requires i < |es| && Plan(es)[i].New? && k <= Plan(es)[i].id
    ensures k in NeededIds(es, Plan(es))
  {
    var links := Plan(es);
    PlanFills(es, i);
    if k == links[i].id {
      assert es[i].needed;
    } else if k in Kept(es, CountNeeded(es)) {
      KeptAreNeeded(es);
    } else {
      var j :| 0 <= j < i && links[j] == New(k);
      PlanFills(es, j);
      assert es[j].needed && links[j].id == k;
    }
  }

  /** Pigeonhole: in a tight bucket every search ends below the number of needed entries. */
  lemma {:induction false} TightIsGapFree(es: seq<Entry>)
    requires Tight(es)
    ensures GapFree(es, Plan(es))
  {
    var n := CountNeeded(es);
    var links := Plan(es);
    forall i, j | 0 <= i < j < |es| && es[i].needed && es[j].needed
      ensures links[i].id != links[j].id
    {
      PlanDistinct(es, i, j);
    }
    assert NeededApart(es, links);
    NeededIdsCard(es, links);
    forall i | 0 <= i < |es| && es[i].needed
      ensures !links[i].Drop? && links[i].id < n
    {
      NeededBelow(es, i);
    }
    assert NeededIds(es, links) <= Range(n);
    SubsetCard(NeededIds(es, links), Range(n));
  }

  lemma {:induction false} NeededBelow(es: seq<Entry>, i: nat)
    requires Tight(es)
    requires i < |es| && es[i].needed
    requires |NeededIds(es, Plan(es))| == CountNeeded(es)
    ensures !Plan(es)[i].Drop? && Plan(es)[i].id < CountNeeded(es)
  {
    PlanFills(es, i);
    if Plan(es)[i].New? {
      BelowNewIsNeeded(es, i);
      SubsetCard(Range(Plan(es)[i].id + 1), NeededIds(es, Plan(es)));
    }
  }

  lemma {:induction false} GapFreeIsTight(es: seq<Entry>)
    requires GapFree(es, Plan(es))
    ensures Tight(es)
  {
    var n := CountNeeded(es);
    var links := Plan(es);
    forall i | 0 <= i < |es| && !es[i].needed && es[i].oldId < n
      ensures exists j :: 0 <= j < |es| && es[j].needed && es[j].oldId == es[i].oldId
    {
      var k := es[i].oldId;
      assert k in Kept(es, n);
      assert k in NeededIds(es, links);
      var j :| 0 <= j < |es| && es[j].needed && links[j].id == k;
      PlanFills(es, j);
      assert links[j].Keep?;
    }
    forall i, j | 0 <= i < j < |es| && es[i].needed && es[j].needed && es[i].oldId < n
      ensures es[i].oldId != es[j].oldId
    {
      PlanFills(es, i);
      PlanFills(es, j);
      assert links[i].id != links[j].id;
    }
  }

  /** The exact condition under which the code produces a usable directory. */
  lemma {:induction false} GapFreeIffTight(es: seq<Entry>)
    ensures GapFree(es, Plan(es)) <==> Tight(es)
    ensures Tight(es) && CountNeeded(es) <= MAX_COLLISIONS ==> WithinMask(Plan(es), CountNeeded(es))
  {
    if Tight(es) {
      TightIsGapFree(es);
      forall i | 0 <= i < |es| && Plan(es)[i].New? ensures es[i].needed { PlanFills(es, i); }
    }
    if GapFree(es, Plan(es)) {
      GapFreeIsTight(es);
    }
  }

  // ---------------------------------------------------------------- when the mask suffices

  /** The number of entries that get a new link. */
  function CountNew(es: seq<Entry>, n: nat): nat {
    if es == [] then 0 else (if es[0].needed && n <= es[0].oldId then 1 else 0) + CountNew(es[1..], n)
  }

  /**
   A condition on the bucket alone: the mask has room for what is cleared, and as many bits are
   cleared as ids are in use at the end.
   */
  ghost predicate MaskFits(es: seq<Entry>, n: nat) {
    n <= MAX_COLLISIONS && |Kept(es, n)| + CountNew(es, n) <= ClearedBits(n)
  }

  ghost predicate MaskSuffices(es: seq<Entry>) { MaskFits(es, CountNeeded(es)) }

  ghost function NewIds(links: seq<Link>): set<nat> { set i | 0 <= i < |links| && links[i].New? :: links[i].id }

  lemma {:induction false} NewIdsCons(link: Link, rest: seq<Link>)
    ensures NewIds([link] + rest) == NewIds(rest) + if link.New? then {link.id} else {}
  {
    var links := [link] + rest;
    assert forall i :: 0 <= i < |rest| ==> links[i + 1] == rest[i];
    forall x | x in NewIds(rest) ensures x in NewIds(links) {
      var i :| 0 <= i < |rest| && rest[i].New? && rest[i].id == x;
      assert links[i + 1].New? && links[i + 1].id == x;
    }
    if link.New? { assert links[0].id in NewIds(links); }
  }

  /** The new ids are as many as the entries that get one, and leave no hole below themselves. */
  lemma {:induction false} NewIdsOf(es: seq<Entry>, n: nat, used: set<nat>, next: nat)
    requires forall k :: 0 <= k < next ==> k in used
    ensures var ids := NewIds(Allocate(es, n, used, next));
            && ids !! used && |ids| == CountNew(es, n)
            && forall x :: x in ids ==> Range(x) <= used + ids
  {
    if es == [] {
      assert NewIds([]) == {};
    } else {
      var (link, used', next') := Step(es[0], n, used, next);
      var rest := Allocate(es[1..], n, used', next');
      NewIdsOf(es[1..], n, used', next');
      NewIdsCons(link, rest);
      if link.New? {
        assert link.id !in NewIds(rest);
        assert Range(link.id) <= used;
      }
    }
  }

  /** The plan stays within the cleared part of the mask if and only if the bucket is small enough. */
  lemma {:induction false} WithinIffSuffices(es: seq<Entry>, n: nat)
    ensures WithinMask(PlanFor(es, n), n) <==> MaskFits(es, n)
  {
    var kept, ids, cleared := Kept(es, n), NewIds(PlanFor(es, n)), ClearedBits(n);
    NewIdsOf(es, n, kept, 0);
    assert |kept + ids| == |kept| + |ids|;
    assert kept <= Range(cleared);
    if BelowCleared(PlanFor(es, n), n) {
      assert kept + ids <= Range(cleared);
      SubsetCard(kept + ids, Range(cleared));
    } else {
      var i :| 0 <= i < |es| && PlanFor(es, n)[i].New? && cleared <= PlanFor(es, n)[i].id;
      var x := PlanFor(es, n)[i].id;
      assert x in ids && Range(x + 1) <= kept + ids;
      SubsetCard(Range(x + 1), kept + ids);
    }
  }

  // ---------------------------------------------------------------- links that are deleted again

  /** A link is made, and a later entry of the bucket has it deleted as superfluous. */
  ghost predicate DeletesNewLink(links: seq<Link>) {
    exists i, j :: 0 <= i < j < |links| && links[i].New? && links[j] == Drop(links[i].id)
  }

  /**
   A condition on the bucket alone: a superfluous link behind the counter has an id that the
   entries before it reach with their new links.
   */
  ghost predicate Overtaken(es: seq<Entry>, n: nat, j: nat)
    requires j < |es|
  {
    !es[j].needed && n <= es[j].oldId < |Kept(es, n)| + CountNew(es[..j], n)
  }

  lemma {:induction false} AllocatePrefix(es: seq<Entry>, n: nat, used: set<nat>, next: nat, j: nat)
    requires j <= |es|
    ensures Allocate(es, n, used, next)[..j] == Allocate(es[..j], n, used, next)
    decreases j
  {
    if j > 0 {
      var (link, used', next') := Step(es[0], n, used, next);
      AllocatePrefix(es[1..], n, used', next', j - 1);
      assert es[..j][1..] == es[1..][..j - 1];
      assert Allocate(es, n, used, next)[..j] == [link] + Allocate(es[1..], n, used', next')[..j - 1];
    }
  }

  /** An id behind the counter is given out to the first `j` entries if and only if they need that many. */
  lemma {:induction false} ReachesIff(es: seq<Entry>, n: nat, j: nat, k: nat)
    requires j <= |es| && n <= k
    ensures k in NewIds(PlanFor(es, n)[..j]) <==> k < |Kept(es, n)| + CountNew(es[..j], n)
  {
    var kept, ids := Kept(es, n), NewIds(PlanFor(es, n)[..j]);
    AllocatePrefix(es, n, kept, 0, j);
    NewIdsOf(es[..j], n, kept, 0);
    assert k !in kept && |kept + ids| == |kept| + |ids|;
    forall x, y: nat | x in kept + ids && k <= x && y < x ensures y in kept + ids {
      assert x in ids && y in Range(x);
    }
    ClosedAbove(kept + ids, k);
  }

  /** A set that contains everything below its members from `k` on reaches `k` by its size. */
  lemma {:induction false} ClosedAbove(all: set<nat>, k: nat)
    requires forall x, y: nat :: x in all && k <= x && y < x ==> y in all
    ensures k in all <==> k < |all|
  {
    if k in all {
      ReachedBySize(all, k);
    } else {
      assert forall x :: x in all ==> x in Range(k);
      SubsetCard(all, Range(k));
    }
  }

  lemma {:induction false} ReachedBySize(all: set<nat>, k: nat)
    requires k in all && forall y: nat :: y < k ==> y in all
    ensures k < |all|
  {
    SubsetCard(Range(k + 1), all);
  }

  /** Exactly when the code deletes a link that it has just made. */
  lemma {:induction false} DeletesIffOvertaken(es: seq<Entry>, n: nat)
    ensures DeletesNewLink(PlanFor(es, n)) <==> exists j :: 0 <= j < |es| && Overtaken(es, n, j)
  {
    var links := PlanFor(es, n);
    if DeletesNewLink(links) {
      var i, j :| 0 <= i < j < |links| && links[i].New? && links[j] == Drop(links[i].id);
      PlanForFills(es, n, j);
      assert links[..j][i].New? && links[..j][i].id == es[j].oldId;
      ReachesIff(es, n, j, es[j].oldId);
      assert Overtaken(es, n, j);
    }
    if j :| 0 <= j < |es| && Overtaken(es, n, j) {
      PlanForFills(es, n, j);
      ReachesIff(es, n, j, es[j].oldId);
      var i :| 0 <= i < j && links[..j][i].New? && links[..j][i].id == es[j].oldId;
      assert links[i].New? && links[j] == Drop(links[i].id);
    }
  }

  /** In a tight bucket every link that was made stays. */
  lemma {:induction false} TightKeepsNewLinks(es: seq<Entry>)
    requires Tight(es)
    ensures !DeletesNewLink(Plan(es))
  {
    TightIsGapFree(es);
    forall i | 0 <= i < |es| && Plan(es)[i].New? ensures Plan(es)[i].id < CountNeeded(es) {
      PlanFills(es, i);
    }
    forall j | 0 <= j < |es| && Plan(es)[j].Drop? ensures CountNeeded(es) <= Plan(es)[j].id {
      PlanFills(es, j);
    }
  }

  /** A file and behind it two stale links on 0 and 1: the link made for the file is deleted. */
  lemma {:induction false} NewLinkDeleted(digest: Digest)
    ensures DeletesNewLink(Plan([
              Entry("ca.pem", 65535, true, digest), Entry("a.pem", 0, false, []), Entry("b.pem", 1, false, [])]))
  {
    var file, a, b := Entry("ca.pem", 65535, true, digest), Entry("a.pem", 0, false, []), Entry("b.pem", 1, false, []);
    var es := [file, a, b];
    assert es[1..] == [a, b] && [a, b][1..] == [b] && [b][1..] == [];
    assert CountNeeded([b]) == CountNeeded([]) == 0;
    assert CountNeeded([a, b]) == CountNeeded([b]) && CountNeeded(es) == 1 + CountNeeded([a, b]);
    assert Kept(es, 1) == {0} by { assert es[1].oldId == 0; }
    assert es[..2] == [file, a] && [file, a][1..] == [a] && [a][1..] == [];
    assert CountNew([a], 1) == CountNew([], 1) == 0;
    assert CountNew([file, a], 1) == 1 + CountNew([a], 1);
    assert Overtaken(es, 1, 2);
    DeletesIffOvertaken(es, 1);
  }

  /** A stale link on id 0 leaves the only needed file with id 1. */
  lemma {:induction false} StaleLinkLeavesGap(digest: Digest)
    ensures var es := [Entry("gone.pem", 0, false, digest), Entry("ca.pem", 65535, true, [1])];
            Plan(es) == [Keep(0), New(1)] && !GapFree(es, Plan(es))
  {
    var stale, file := Entry("gone.pem", 0, false, digest), Entry("ca.pem", 65535, true, [1]);
    var es := [stale, file];
    assert es[1..] == [file] && [file][1..] == [];
    assert CountNeeded([file]) == 1 && CountNeeded(es) == 1;
    assert Kept(es, 1) == {0} by { assert es[0].oldId == 0; }
    assert FirstFree({0}, 0) == 1;
    assert Allocate([file], 1, {0}, 0) == [New(1)];
    assert Plan(es) == [Keep(0), New(1)];
    assert es[1].needed;
  }

  /** The bucket that the next run over the directory finds: the needed entries, with the ids they were given. */
  function Relinked(es: seq<Entry>, links: seq<Link>): (r: seq<Entry>)
    requires |links| == |es|
    ensures |r| == CountNeeded(es)
  {
    if es == [] then []
    else (if es[0].needed then [es[0].(oldId := links[0].id)] else []) + Relinked(es[1..], links[1..])
  }

  lemma {:induction false} AllocateKeepsAll(es: seq<Entry>, n: nat, used: set<nat>, next: nat)
    requires forall i :: 0 <= i < |es| ==> es[i].oldId < n
    ensures forall i :: 0 <= i < |es| ==> Allocate(es, n, used, next)[i] == Keep(es[i].oldId)
  {
    if es != [] { AllocateKeepsAll(es[1..], n, used, next); }
  }

  // ---------------------------------------------------------------- the loops of do_dir

  /**
   The two passes over one bucket. `stack` is whatever the uninitialised `idmask` held.
   `None` stands for the runs whose outcome the C code does not define: clearing more than
   the 32 bytes of the mask, or testing a bit outside the cleared bytes.
   */
  method AssignIds(es: seq<Entry>, numNeeded: nat, stack: seq<bv8>) returns (r: Option<seq<Link>>)
    requires numNeeded == CountNeeded(es) % 0x1_0000
    requires |stack| == MAX_COLLISIONS / 8
    ensures r.Some? <==> MaskFits(es, numNeeded)
    ensures r.Some? ==> r.value == PlanFor(es, numNeeded)
    ensures (r.Some? && GapFree(es, r.value)) <==> CountNeeded(es) <= MAX_COLLISIONS && Tight(es)
  {
    r := TwoPasses(es, numNeeded, stack);
    DefinedIff(es, numNeeded);
  }

  lemma {:induction false} DefinedIff(es: seq<Entry>, n: nat)
    requires n == CountNeeded(es) % 0x1_0000
    ensures WithinMask(PlanFor(es, n), n) <==> MaskFits(es, n)
    ensures WithinMask(PlanFor(es, n), n) && GapFree(es, PlanFor(es, n)) <==>
            CountNeeded(es) <= MAX_COLLISIONS && Tight(es)
  {
    WithinIffSuffices(es, n);
    if n == CountNeeded(es) {
      GapFreeIffTight(es);
    } else if WithinMask(PlanFor(es, n), n) {
      WrappedHasGap(es, n);
    }
  }

  /** After the 16-bit counter has wrapped around, some of the ids up to 65535 are missing. */
  lemma {:induction false} WrappedHasGap(es: seq<Entry>, n: nat)
    requires MAX_COLLISIONS < CountNeeded(es) && WithinMask(PlanFor(es, n), n)
    ensures !GapFree(es, PlanFor(es, n))
  {
    var links := PlanFor(es, n);
    forall i | 0 <= i < |es| && es[i].needed ensures links[i].id < MAX_COLLISIONS {
      PlanForFills(es, n, i);
    }
    assert MAX_COLLISIONS !in NeededIds(es, links);
  }

  method TwoPasses(es: seq<Entry>, numNeeded: nat, stack: seq<bv8>) returns (r: Option<seq<Link>>)
    requires |stack| == MAX_COLLISIONS / 8
    ensures r == if WithinMask(PlanFor(es, numNeeded), numNeeded) then Some(PlanFor(es, numNeeded)) else None
  {
    if numNeeded > MAX_COLLISIONS {
      return None;
    }
    var idmask := new bv8[MAX_COLLISIONS / 8](i requires 0 <= i < |stack| => stack[i]);
    MarkKept(idmask, es, numNeeded);
    r := FillGaps(idmask, es, numNeeded);
  }

  /** The pass that keeps, creates and deletes links. */
  method FillGaps(idmask: array<bv8>, es: seq<Entry>, n: nat) returns (r: Option<seq<Link>>)
    requires Represents(idmask[..], Kept(es, n), n)
    modifies idmask
    ensures var plan := Allocate(es, n, Kept(es, n), 0);
            r == if BelowCleared(plan, n) then Some(plan) else None
  {
    ghost var plan := Allocate(es, n, Kept(es, n), 0);
    ghost var used: set<nat> := Kept(es, n);
    ghost var rest := plan;
    var nextid: nat := 0;
    var links: seq<Link> := [];
    for i := 0 to |es|
      invariant |links| == i
      invariant Represents(idmask[..], used, n)
      invariant rest == Allocate(es[i..], n, used, nextid)
      invariant plan == links + rest
      invariant BelowCleared(links, n)
    {
      assert es[i..][0] == es[i] && es[i..][1..] == es[i + 1..];
      assert plan[i] == rest[0] == Step(es[i], n, used, nextid).0;
      ghost var used';
      var link, next;
      link, used', next := LinkEntry(idmask, es[i], n, used, nextid);
      if link == None {
        return None;
      }
      links, rest, used, nextid := links + [link.value], rest[1..], used', next;
    }
    assert es[|es|..] == [] && plan == links;
    return Some(links);
  }

  /** The branches for one entry. */
  method LinkEntry(idmask: array<bv8>, e: Entry, n: nat, ghost used: set<nat>, nextid: nat)
    returns (link: Option<Link>, ghost used': set<nat>, next: nat)
    requires Represents(idmask[..], used, n)
    modifies idmask
    ensures var step := Step(e, n, used, nextid);
            if step.0.New? && step.0.id >= ClearedBits(n) then link == None
            else link == Some(step.0) && used' == step.1 && next == step.2 && Represents(idmask[..], used', n)
  {
    used', next := used, nextid;
    if e.oldId < n {
      link := Some(Keep(e.oldId));
    } else if e.needed {
      next := SearchFree(idmask, nextid, n, used);
      if next >= ClearedBits(n) {
        return None, used, next;
      }
      MarkUsed(idmask, next, n, used);
      used' := used + {next};
      link := Some(New(next));
    } else {
      link := Some(Drop(e.oldId));
    }
  }

  method MarkUsed(idmask: array<bv8>, id: nat, n: nat, ghost used: set<nat>)
    requires Represents(idmask[..], used, n) && id < ClearedBits(n)
    modifies idmask
    ensures Represents(idmask[..], used + {id}, n)
  {
    BitSet(idmask, id);
  }

  /** `memset` followed by the pass that marks the old ids. */
  method MarkKept(idmask: array<bv8>, es: seq<Entry>, n: nat)
    requires ClearedBits(n) <= 8 * idmask.Length
    modifies idmask
    ensures Represents(idmask[..], Kept(es, n), n)
  {
    for b := 0 to (n + 7) / 8
      invariant forall c :: 0 <= c < b ==> idmask[c] == 0
    {
      idmask[b] := 0;
    }
    for i := 0 to |es|
      invariant Represents(idmask[..], Kept(es[..i], n), n)
    {
      assert es[..i + 1] == es[..i] + [es[i]];
      KeptSnoc(es[..i], es[i], n);
      if es[i].oldId < n {
        MarkUsed(idmask, es[i].oldId, n, Kept(es[..i], n));
      }
    }
    assert es[..|es|] == es;
  }

  /** `while (bit_isset(idmask, nextid)) nextid++`, up to the end of the cleared bytes. */
  method SearchFree(idmask: array<bv8>, nextid: nat, n: nat, ghost used: set<nat>) returns (id: nat)
    requires Represents(idmask[..], used, n)
    ensures if FirstFree(used, nextid) < ClearedBits(n) then id == FirstFree(used, nextid) else ClearedBits(n) <= id
  {
    id := nextid;
    while id < ClearedBits(n) && IsSet(idmask[..], id)
      invariant nextid <= id <= FirstFree(used, nextid)
    {
      id := id + 1;
    }
  }

  /** The cleared part of the mask holds exactly the set `used`. */
  ghost predicate Represents(mask: seq<bv8>, used: set<nat>, n: nat) {
    && ClearedBits(n) <= 8 * |mask|
    && forall b: nat {:trigger IsSet(mask, b)} :: b < ClearedBits(n) ==> (IsSet(mask, b) <==> b in used)
  }

  lemma {:induction false} KeptSnoc(es: seq<Entry>, e: Entry, n: nat)
    ensures Kept(es + [e], n) == Kept(es, n) + if e.oldId < n then {e.oldId} else {}
  {
    var all := es + [e];
    forall k | k in Kept(es, n) ensures k in Kept(all, n) {
      var i :| 0 <= i < |es| && es[i].oldId < n && es[i].oldId == k;
      assert all[i].oldId == k;
    }
    if e.oldId < n { assert all[|es|].oldId == e.oldId; }
  }
}
