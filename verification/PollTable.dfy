/**
 The descriptor table of the poll server: closed connections leave slots with fd == -1, and a
 pass over the table shifts the later slots down.
 */
module PollTable {
  import opened Wrappers

  datatype Slot = Slot(fd: int, events: int, revents: int)

  predicate Dead(s: Slot) { s.fd == -1 }

  ghost predicate HasDead(s: seq<Slot>) { exists k :: 0 <= k < |s| && Dead(s[k]) }

  // ---------------------------------------------------------------- specification

  /**
   One pass: a dead slot is dropped, but the slot that moves into its place is not looked at
   (`skip`), because the loop counter advances all the same.
   */
  function Pass(s: seq<Slot>, skip: bool): seq<Slot> {
    if s == [] then []
    else if Dead(s[0]) && !skip then Pass(s[1..], true)
    else [s[0]] + Pass(s[1..], false)
  }

  function Live(s: seq<Slot>): seq<Slot> {
    if s == [] then [] else (if Dead(s[0]) then [] else [s[0]]) + Live(s[1..])
  }

  function Passes(s: seq<Slot>, n: nat): seq<Slot>
    decreases n
  {
    if n == 0 then s else Passes(Pass(s, false), n - 1)
  }

  function Max(a: nat, b: nat): nat { if a < b then b else a }

  /** The longest run of dead slots, when `open` of them precede. */
  function LongestRun(s: seq<Slot>, open: nat): nat {
    if s == [] then open
    else if Dead(s[0]) then LongestRun(s[1..], open + 1)
    else Max(open, LongestRun(s[1..], 0))
  }

  function Pow2(n: nat): (p: nat)
    ensures p > 0
  {
    if n == 0 then 1 else 2 * Pow2(n - 1)
  }

  // ---------------------------------------------------------------- the loops

  /**
   The squeeze at the end of the poll loop. `None` stands for the runs that read a slot behind
   the array: those on a full table with a dead slot.
   */
  method Squeeze(fds: array<Slot>, nfds: nat) returns (r: Option<nat>)
    requires nfds <= fds.Length
    modifies fds
    ensures r.None? <==> nfds == fds.Length && HasDead(old(fds[..nfds]))
    ensures r.Some? ==> r.value <= nfds && fds[..r.value] == Pass(old(fds[..nfds]), false)
    ensures fds[nfds..] == old(fds[nfds..])
  {
    var n := nfds;
    ghost var was := fds[..nfds];
    ghost var all := Pass(was, false);
    var i := 0;
    ReachedStart(fds[..n], all);
    while i < n
      invariant n <= nfds && i <= n + 1
      invariant nfds == fds.Length ==> Untouched(fds[..n], was, i)
      invariant fds[nfds..] == old(fds[nfds..])
      invariant Reached(fds[..n], i, all)
    {
      if fds[i].fd == -1 && n == fds.Length {
        FoundDead(fds[..n], was, i);
        return None;
      }
      if nfds == fds.Length { StillUntouched(fds[..n], was, i); }
      n := Look(fds, i, n, nfds, all);
      i := i + 1;
    }
    ReachedEnd(fds[..n], i, all);
    if nfds == fds.Length { NeverDead(fds[..n], was, i); }
    return Some(n);
  }

  /** One round of the loop: a dead slot is overwritten by those behind it. */
  method Look(fds: array<Slot>, i: nat, n: nat, ghost nfds: nat, ghost all: seq<Slot>) returns (n': nat)
    requires i < n <= nfds <= fds.Length && Reached(fds[..n], i, all) && (fds[i].fd == -1 ==> n < fds.Length)
    modifies fds
    ensures n - 1 <= n' <= n && Reached(fds[..n'], i + 1, all) && fds[nfds..] == old(fds[nfds..])
    ensures !Dead(old(fds[i])) ==> n' == n && fds[..n] == old(fds[..n])
  {
    ghost var table := fds[..n];
    if fds[i].fd == -1 {
      DropStep(table, i, all);
      ShiftDown(fds, i, n);
      return n - 1;
    }
    KeepStep(table, i, all);
    return n;
  }

  /** No dead slot has been found so far, and nothing was moved. */
  ghost predicate Untouched(table: seq<Slot>, was: seq<Slot>, i: nat) {
    table == was && i <= |was| && !HasDead(was[..i])
  }

  lemma {:induction false} FoundDead(table: seq<Slot>, was: seq<Slot>, i: nat)
    requires Untouched(table, was, i) && i < |table| && Dead(table[i])
    ensures HasDead(was)
  {
  }

  lemma {:induction false} NeverDead(table: seq<Slot>, was: seq<Slot>, i: nat)
    requires Untouched(table, was, i) && i >= |table|
    ensures !HasDead(was)
  {
    assert was[..i] == was;
  }

  lemma {:induction false} StillUntouched(table: seq<Slot>, was: seq<Slot>, i: nat)
    requires Untouched(table, was, i) && i < |table| && !Dead(table[i])
    ensures Untouched(table, was, i + 1)
  {
    assert was[..i + 1] == was[..i] + [was[i]];
  }

  /** The pass has looked at the first `i` slots of the table as it is now. */
  ghost predicate Reached(table: seq<Slot>, i: nat, all: seq<Slot>) {
    all == if i <= |table| then table[..i] + Pass(table[i..], false) else table
  }

  lemma {:induction false} ReachedStart(table: seq<Slot>, all: seq<Slot>)
    requires all == Pass(table, false)
    ensures Reached(table, 0, all)
  {
    assert table[0..] == table && [] + all == all;
  }

  lemma {:induction false} ReachedEnd(table: seq<Slot>, i: nat, all: seq<Slot>)
    requires Reached(table, i, all) && i >= |table|
    ensures all == table
  {
    if i == |table| { assert table[i..] == [] && table[..i] + [] == table; }
  }

  lemma {:induction false} KeepStep(table: seq<Slot>, i: nat, all: seq<Slot>)
    requires i < |table| && !Dead(table[i]) && Reached(table, i, all)
    ensures Reached(table, i + 1, all)
  {
    assert table[i..][1..] == table[i + 1..];
    assert table[..i] + ([table[i]] + Pass(table[i + 1..], false)) == table[..i + 1] + Pass(table[i + 1..], false);
  }

  lemma {:induction false} DropStep(table: seq<Slot>, i: nat, all: seq<Slot>)
    requires i < |table| && Dead(table[i]) && Reached(table, i, all)
    ensures Reached(table[..i] + table[i + 1..], i + 1, all)
  {
    var t := table[..i] + table[i + 1..];
    assert table[i..][1..] == table[i + 1..];
    assert Pass(table[i..], false) == Pass(table[i + 1..], true);
    if i + 1 < |table| {
      assert table[i + 1..][0] == table[i + 1] && table[i + 1..][1..] == table[i + 2..] == t[i + 1..];
      assert table[..i] + ([table[i + 1]] + Pass(table[i + 2..], false)) == t[..i + 1] + Pass(t[i + 1..], false);
    } else {
      assert table[i + 1..] == [];
      assert t == table[..i] && table[..i] + [] == table[..i];
    }
  }

  /** The inner loop: every slot from `i` on takes over its successor. */
  method ShiftDown(fds: array<Slot>, i: nat, n: nat)
    requires i < n < fds.Length
    modifies fds
    ensures fds[..n - 1] == old(fds[..n])[..i] + old(fds[..n])[i + 1..]
    ensures forall k :: n <= k < fds.Length ==> fds[k] == old(fds[k])
  {
    for j := i to n
      invariant forall k :: 0 <= k < i ==> fds[k] == old(fds[k])
      invariant forall k :: i <= k < j ==> fds[k] == old(fds[k + 1])
      invariant forall k :: j <= k < fds.Length ==> fds[k] == old(fds[k])
    {
      fds[j] := fds[j + 1];
    }
  }

  // ---------------------------------------------------------------- what a pass does

  /** Live slots survive, in order and unchanged. */
  lemma {:induction false} PassKeepsLive(s: seq<Slot>, skip: bool)
    ensures Live(Pass(s, skip)) == Live(s)
  {
    if s != [] {
      if Dead(s[0]) && !skip {
        PassKeepsLive(s[1..], true);
        assert [] + Live(s[1..]) == Live(s[1..]);
      } else {
        PassKeepsLive(s[1..], false);
        assert Pass(s, skip)[1..] == Pass(s[1..], false);
      }
    }
  }

  /** Of a maximal run of k dead slots, k / 2 are left: those in odd places. */
  function Odds(s: seq<Slot>): (r: seq<Slot>)
    ensures |r| == |s| / 2
  {
    if |s| < 2 then [] else [s[1]] + Odds(s[2..])
  }

  lemma {:induction false} RunIsHalved(run: seq<Slot>, rest: seq<Slot>)
    requires forall k :: 0 <= k < |run| ==> Dead(run[k])
    requires rest == [] || !Dead(rest[0])
    ensures Pass(run + rest, false) == Odds(run) + Pass(rest, false)
  {
    var s := run + rest;
    if run == [] {
      assert s == rest && [] + Pass(rest, false) == Pass(rest, false);
    } else if |run| == 1 {
      assert s[1..] == rest;
      assert Pass(rest, true) == Pass(rest, false);
    } else {
      assert s[1..][0] == run[1] && s[1..][1..] == run[2..] + rest;
      RunIsHalved(run[2..], rest);
    }
  }

  /** The table gets shorter as long as it holds a dead slot. */
  lemma {:induction false} PassShrinks(s: seq<Slot>, skip: bool)
    ensures |Pass(s, skip)| <= |s|
    ensures !skip && |Pass(s, skip)| == |s| ==> forall k :: 0 <= k < |s| ==> !Dead(s[k])
  {
    if s != [] {
      if Dead(s[0]) && !skip {
        PassShrinks(s[1..], true);
      } else {
        PassShrinks(s[1..], false);
      }
    }
  }

  /** A pass halves the longest run, with or without slots that precede. */
  lemma {:induction false} PassHalvesRuns(s: seq<Slot>, skip: bool, open: nat)
    ensures LongestRun(Pass(s, skip), open) == LongestRun(s, 2 * open + if skip then 1 else 0) / 2
  {
    if s != [] {
      if Dead(s[0]) && !skip {
        PassHalvesRuns(s[1..], true, open);
      } else {
        var r := Pass(s, skip);
        assert r[0] == s[0] && r[1..] == Pass(s[1..], false);
        PassHalvesRuns(s[1..], false, if Dead(s[0]) then open + 1 else 0);
      }
    }
  }

  lemma {:induction false} NoRunIffLive(s: seq<Slot>, open: nat)
    ensures LongestRun(s, open) >= open
    ensures LongestRun(s, 0) == 0 <==> Live(s) == s
    ensures |Live(s)| <= |s|
  {
    if s != [] {
      NoRunIffLive(s[1..], if Dead(s[0]) then open + 1 else 0);
      if Dead(s[0]) {
        NoRunIffLive(s[1..], 1);
        assert |Live(s)| < |s|;
      } else {
        assert s == [s[0]] + s[1..];
        assert Live(s)[1..] == Live(s[1..]);
      }
    }
  }

  lemma {:induction false} DivTwice(x: nat, p: nat)
    requires p > 0
    ensures x / 2 / p == x / (2 * p)
  {
    var q, r := x / (2 * p), x % (2 * p);
    assert x == 2 * p * q + r;
    var h := r / 2;
    assert h < p && x / 2 == p * q + h;
    assert (p * q + h) / p == q by { DivOf(p, q, h); }
  }

  lemma DivOf(p: nat, q: nat, h: nat)
    requires h < p
    ensures (p * q + h) / p == q
  {
    var d := (p * q + h) / p;
    assert d * p <= p * q + h < d * p + p;
    assert d < q ==> (d + 1) * p <= q * p;
    assert d > q ==> (q + 1) * p <= d * p;
  }

  lemma {:induction false} PassesHalve(s: seq<Slot>, n: nat)
    ensures Live(Passes(s, n)) == Live(s)
    ensures LongestRun(Passes(s, n), 0) == LongestRun(s, 0) / Pow2(n)
    decreases n
  {
    if n > 0 {
      PassesHalve(Pass(s, false), n - 1);
      PassKeepsLive(s, false);
      PassHalvesRuns(s, false, 0);
      DivTwice(LongestRun(s, 0), Pow2(n - 1));
    }
  }

  /** After n passes exactly the live slots are left iff no run was as long as 2^n. */
  lemma {:induction false} CleanAfter(s: seq<Slot>, n: nat)
    ensures Passes(s, n) == Live(s) <==> LongestRun(s, 0) < Pow2(n)
  {
    PassesHalve(s, n);
    var r := Passes(s, n);
    NoRunIffLive(r, 0);
    DivZero(LongestRun(s, 0), Pow2(n));
  }

  lemma DivZero(x: nat, p: nat)
    requires p > 0
    ensures x / p == 0 <==> x < p
  {
    if x >= p { assert x / p >= 1; }
  }

  /** Of two neighbours that were closed together, one is left after a pass. */
  lemma {:induction false} NeighbourLeft(a: Slot, b: Slot)
    requires Dead(a) && Dead(b)
    ensures Pass([a, b], false) == [b] && Live([a, b]) == []
  {
    assert [a, b][1..] == [b] && [b][1..] == [];
    assert Pass([b], true) == [b] + Pass([], false) && Live([b]) == [] + Live([]);
  }
}
