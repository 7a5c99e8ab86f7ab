/**
 How the ca command commits its database: `rotate_serial` and `rotate_index` replace files by
 renaming, and undo by hand what was done when a later rename fails.
 */
module CaDisk {
  import opened Wrappers

  type Files = map<string, string>

  datatype Renamed = Done | NoEntry | OtherError

  ghost function Get(f: Files, path: string): seq<string> {
    if path in f then [f[path]] else []
  }

  function Moved(f: Files, src: string, dst: string): Files
    requires src in f
  {
    (f - {src})[dst := f[src]]
  }

  /**
   How an open file takes a text: writing reports a failure unless the text has at most
   `accepts` characters, and `keeps` of them are in the file once it is closed. Output is
   buffered, so the two are independent.
   */
  datatype Medium = Medium(accepts: nat, keeps: nat)

  /** What arrives of a text; `None`: the file cannot be opened. */
  function Arrived(medium: Option<Medium>, text: string): (r: Option<string>)
    ensures r.Some? <==> medium.Some?
    ensures r.Some? ==> r.value <= text && (r.value == text <==> |text| <= medium.value.keeps)
  {
    if medium.None? then None else Some(if medium.value.keeps < |text| then text[..medium.value.keeps] else text)
  }

  predicate Reported(medium: Option<Medium>, text: string) { medium.Some? && |text| <= medium.value.accepts }

  /**
   The directory. `faults(n)` says that the n-th rename fails for a reason other than a
   missing source, `media(n)` what becomes of the n-th attempt to write a file; `history` lists
   every state the directory went through, so that a claim about all of it covers a run that is
   stopped at any point.
   */
  class Disk {
    var files: Files
    var calls: nat
    var writes: nat
    const faults: nat -> bool
    const media: nat -> Option<Medium>
    ghost var history: seq<Files>

    /** The files are the last state of the history. */
    ghost predicate Valid()
      reads this
    {
      |history| > 0 && history[|history| - 1] == files
    }

    constructor (files: Files, faults: nat -> bool, media: nat -> Option<Medium>)
      ensures Valid() && history == [files] && calls == 0 && writes == 0
      ensures this.files == files && this.faults == faults && this.media == media
    {
      this.files, this.faults, this.media := files, faults, media;
      calls, writes, history := 0, 0, [files];
    }

    method Rename(src: string, dst: string) returns (r: Renamed)
      requires Valid()
      modifies this`files, this`calls, this`history
      ensures Valid() && calls == old(calls) + 1 && history == old(history) + [files]
      ensures r == if src !in old(files) then NoEntry else if faults(old(calls)) then OtherError else Done
      ensures files == if r == Done then Moved(old(files), src, dst) else old(files)
    {
      r := if src !in files then NoEntry else if faults(calls) then OtherError else Done;
      if r == Done {
        files := (files - {src})[dst := files[src]];
      }
      calls, history := calls + 1, history + [files];
    }

    /** Opens the file for writing, which empties it, writes the text and closes the file. */
    method Write(path: string, text: string) returns (isOpen: bool, reported: bool)
      requires Valid()
      modifies this`files, this`writes, this`history
      ensures Valid() && writes == old(writes) + 1
      ensures isOpen <==> media(old(writes)).Some?
      ensures reported <==> Reported(media(old(writes)), text)
      ensures !isOpen ==> files == old(files) && history == old(history)
      ensures isOpen ==>
                && path in files && files == old(files)[path := files[path]] && files[path] <= text
                && Arrived(media(old(writes)), text) == Some(files[path])
                && history == old(history) + [old(files)[path := ""], files]
    {
      var medium := media(writes);
      writes := writes + 1;
      isOpen, reported := medium.Some?, false;
      if isOpen {
        files := files[path := ""];
        history := history + [files];
        files := files[path := if medium.value.keeps < |text| then text[..medium.value.keeps] else text];
        history := history + [files];
        reported := |text| <= medium.value.accepts;
      }
    }
  }
}

module CaRotate {
  import opened CaDisk
  import opened Wrappers

  const BSIZE: nat := 256

  /** A live file, the version to be installed and the name the live one is kept under. */
  datatype Triple = Triple(live: string, incoming: string, kept: string) {
    ghost predicate Distinct() { live != incoming && live != kept && incoming != kept }

    ghost function Names(): set<string> { {live, incoming, kept} }
  }

  function SerialNames(file: string, newSuffix: string, oldSuffix: string): Triple {
    Triple(file, file + "." + newSuffix, file + "." + oldSuffix)
  }

  function AttrNames(file: string, newSuffix: string, oldSuffix: string): Triple {
    Triple(file + ".attr", file + ".attr." + newSuffix, file + ".attr." + oldSuffix)
  }

  // ---------------------------------------------------------------- specification

  /** The live file becomes the kept one, the incoming one becomes live. */
  ghost function Shifted(f: Files, t: Triple): Files
    requires t.incoming in f && t.live != t.incoming && t.kept != t.incoming
  {
    Moved(Displaced(f, t), t.incoming, t.live)
  }

  /** The live file has been set aside. */
  ghost function Displaced(f: Files, t: Triple): Files {
    if t.live in f then Moved(f, t.live, t.kept) else f
  }

  /** What was live at the start is still there, under its own name or the kept one. */
  ghost predicate Preserved(now: Files, start: Files, t: Triple) {
    t.live in start ==> Get(now, t.live) == Get(start, t.live) || Get(now, t.kept) == Get(start, t.live)
  }

  ghost predicate AllPreserved(history: seq<Files>, from: nat, start: Files, t: Triple) {
    forall i :: from <= i < |history| ==> Preserved(history[i], start, t)
  }

  /** The incoming version is where it was, and so is the live file if and only if `cond` holds. */
  ghost predicate RestoredIff(now: Files, start: Files, t: Triple, cond: bool) {
    Get(now, t.incoming) == Get(start, t.incoming) && (Get(now, t.live) == Get(start, t.live) <==> cond)
  }

  /** Undoing can bring an unrelated kept file to life: when there was no live one. */
  ghost predicate Undoable(start: Files, t: Triple) { t.live in start || t.kept !in start }

  /** Only names of the triple differ. */
  ghost predicate Framed(now: Files, start: Files, names: set<string>) {
    forall path :: path !in names ==> Get(now, path) == Get(start, path)
  }

  ghost predicate AllFramed(history: seq<Files>, from: nat, start: Files, names: set<string>) {
    forall i :: from <= i < |history| ==> Framed(history[i], start, names)
  }

  lemma MovedGet(f: Files, src: string, dst: string)
    requires src in f && src != dst
    ensures Get(Moved(f, src, dst), src) == [] && Get(Moved(f, src, dst), dst) == Get(f, src)
    ensures Framed(Moved(f, src, dst), f, {src, dst})
  {
  }

  lemma ShiftedGet(f: Files, t: Triple)
    requires t.Distinct() && t.incoming in f
    ensures var g := Shifted(f, t);
            && Get(g, t.live) == Get(f, t.incoming) && Get(g, t.incoming) == []
            && Get(g, t.kept) == (if t.live in f then Get(f, t.live) else Get(f, t.kept))
            && Framed(g, f, t.Names())
  {
    if t.live in f { MovedGet(f, t.live, t.kept); }
    MovedGet(Displaced(f, t), t.incoming, t.live);
  }

  // ---------------------------------------------------------------- which rename fails

  /** No rename after the n-th one is disturbed. */
  ghost predicate QuietAfter(faults: nat -> bool, n: nat) { forall k :: n < k ==> !faults(k) }

  /** The first of the two renames of a rotation that fails when they are numbers n and n + 1; 2 if none does. */
  ghost function FailingStep(start: Files, t: Triple, faults: nat -> bool, n: nat): nat {
    if t.live in start && faults(n) then 0
    else if t.incoming !in start || faults(n + 1) then 1
    else 2
  }

  /** The same for the four renames of an index and its attribute file; 4 if none fails. */
  ghost function FailingStepOfBoth(start: Files, ix: Triple, at: Triple, faults: nat -> bool, n: nat): nat {
    var step := FailingStep(start, ix, faults, n);
    if step < 2 then step else 2 + FailingStep(start, at, faults, n + 2)
  }

  // ---------------------------------------------------------------- rotate_serial

  /** `rotate_serial`, which is also the first half of `rotate_index`. */
  method Rotate(disk: Disk, t: Triple) returns (ok: bool)
    requires disk.Valid() && t.Distinct()
    modifies disk`files, disk`calls, disk`history
    ensures disk.Valid() && old(disk.history) <= disk.history
    ensures AllPreserved(disk.history, |old(disk.history)|, old(disk.files), t)
    ensures AllFramed(disk.history, |old(disk.history)|, old(disk.files), t.Names())
    ensures Preserved(disk.files, old(disk.files), t) && Framed(disk.files, old(disk.files), t.Names())
    ensures ok <==> FailingStep(old(disk.files), t, disk.faults, old(disk.calls)) == 2
    ensures ok ==> disk.files == Shifted(old(disk.files), t) && disk.calls == old(disk.calls) + 2
    ensures var step := FailingStep(old(disk.files), t, disk.faults, old(disk.calls));
            !ok ==>
              && disk.calls > old(disk.calls) + step
              && (QuietAfter(disk.faults, old(disk.calls) + step) ==>
                    RestoredIff(disk.files, old(disk.files), t, step == 0 || Undoable(old(disk.files), t)))
  {
    ghost var start := disk.files;
    var r := disk.Rename(t.live, t.kept);
    if r == OtherError {
      return false;
    }
    ok := Install(disk, t, start);
  }

  /** The second rename, and the undo of the first one when it fails. */
  method Install(disk: Disk, t: Triple, ghost start: Files) returns (ok: bool)
    requires disk.Valid() && t.Distinct() && disk.files == Displaced(start, t)
    modifies disk`files, disk`calls, disk`history
    ensures disk.Valid() && old(disk.history) <= disk.history
    ensures AllPreserved(disk.history, |old(disk.history)|, start, t)
    ensures AllFramed(disk.history, |old(disk.history)|, start, t.Names())
    ensures Preserved(disk.files, start, t) && Framed(disk.files, start, t.Names())
    ensures disk.calls > old(disk.calls)
    ensures ok <==> t.incoming in start && !disk.faults(old(disk.calls))
    ensures ok ==> disk.files == Shifted(start, t) && disk.calls == old(disk.calls) + 1
    ensures !ok && QuietAfter(disk.faults, old(disk.calls)) ==>
              RestoredIff(disk.files, start, t, Undoable(start, t))
  {
    DisplacedGet(start, t);
    var r := disk.Rename(t.incoming, t.live);
    if r != Done {
      var undo := disk.Rename(t.kept, t.live);
      UndoneGet(disk.files, start, t, undo);
      return false;
    }
    ShiftedGet(start, t);
    return true;
  }

  lemma {:induction false} DisplacedGet(start: Files, t: Triple)
    requires t.Distinct()
    ensures Preserved(Displaced(start, t), start, t) && Framed(Displaced(start, t), start, t.Names())
    ensures Get(Displaced(start, t), t.incoming) == Get(start, t.incoming)
  {
    if t.live in start { MovedGet(start, t.live, t.kept); }
  }

  /** What the undo of a set-aside live file leaves. */
  lemma {:induction false} UndoneGet(now: Files, start: Files, t: Triple, undo: Renamed)
    requires t.Distinct() && (undo == NoEntry <==> t.kept !in Displaced(start, t))
    requires now == if undo == Done then Moved(Displaced(start, t), t.kept, t.live) else Displaced(start, t)
    ensures Preserved(now, start, t) && Framed(now, start, t.Names())
    ensures undo != OtherError ==> RestoredIff(now, start, t, Undoable(start, t))
  {
    DisplacedGet(start, t);
    if t.live in start { MovedGet(start, t.live, t.kept); }
    if undo == Done { MovedGet(Displaced(start, t), t.kept, t.live); }
  }

  /** The two renames with which `rotate_index` takes back an index that was already installed. */
  method TakeBack(disk: Disk, t: Triple, ghost start: Files)
    requires disk.Valid() && t.Distinct() && t.incoming in start
    requires Get(disk.files, t.live) == Get(start, t.incoming) && Get(disk.files, t.incoming) == []
    requires Get(disk.files, t.kept) == if t.live in start then Get(start, t.live) else Get(start, t.kept)
    modifies disk`files, disk`calls, disk`history
    ensures disk.Valid() && old(disk.history) <= disk.history
    ensures AllPreserved(disk.history, |old(disk.history)|, start, t)
    ensures AllFramed(disk.history, |old(disk.history)|, old(disk.files), t.Names())
    ensures Preserved(disk.files, start, t) && Framed(disk.files, old(disk.files), t.Names())
    ensures (forall n :: old(disk.calls) <= n ==> !disk.faults(n)) ==>
              RestoredIff(disk.files, start, t, Undoable(start, t))
  {
    var _ := disk.Rename(t.live, t.incoming);
    var _ := disk.Rename(t.kept, t.live);
  }

  // ---------------------------------------------------------------- rotate_index

  /** The old contents of both live files are still there, and no other name is touched. */
  ghost predicate Held(now: Files, start: Files, ix: Triple, at: Triple) {
    Preserved(now, start, ix) && Preserved(now, start, at) && Framed(now, start, ix.Names() + at.Names())
  }

  ghost predicate AllHeld(history: seq<Files>, from: nat, start: Files, ix: Triple, at: Triple) {
    forall i :: from <= i < |history| ==> Held(history[i], start, ix, at)
  }

  /**
   What a rotation that failed at `step` and was undone leaves: each live file is as it was if
   and only if its own undo, where there was one, met no kept file without a live one.
   */
  ghost predicate RolledBack(now: Files, start: Files, ix: Triple, at: Triple, step: nat) {
    && RestoredIff(now, start, ix, step == 0 || Undoable(start, ix))
    && RestoredIff(now, start, at, step < 3 || Undoable(start, at))
  }

  ghost predicate TwoApart(ix: Triple, at: Triple) {
    ix.Distinct() && at.Distinct() && ix.Names() !! at.Names()
  }

  /** `rotate_index` on the triples of the index and of its attribute file. */
  method RotateBoth(disk: Disk, ix: Triple, at: Triple) returns (ok: bool)
    requires disk.Valid() && TwoApart(ix, at)
    modifies disk`files, disk`calls, disk`history
    ensures disk.Valid() && old(disk.history) <= disk.history
    ensures AllHeld(disk.history, |old(disk.history)|, old(disk.files), ix, at)
    ensures Held(disk.files, old(disk.files), ix, at)
    ensures ok <==> FailingStepOfBoth(old(disk.files), ix, at, disk.faults, old(disk.calls)) == 4
    ensures ok ==>
              && ix.incoming in old(disk.files) && at.incoming in Shifted(old(disk.files), ix)
              && disk.files == Shifted(Shifted(old(disk.files), ix), at)
    ensures var step := FailingStepOfBoth(old(disk.files), ix, at, disk.faults, old(disk.calls));
            !ok && QuietAfter(disk.faults, old(disk.calls) + step) ==>
              RolledBack(disk.files, old(disk.files), ix, at, step)
  {
    ghost var start, from := disk.files, |disk.history|;
    ok := Rotate(disk, ix);
    forall i | from <= i < |disk.history| ensures Held(disk.history[i], start, ix, at) {
      HeldInFirst(disk.history[i], start, ix, at);
    }
    HeldInFirst(disk.files, start, ix, at);
    if ok {
      ShiftedApart(start, ix, at);
      ok := RotateSecond(disk, ix, at, start);
    }
  }

  /** The second half of `rotate_index`, which takes the first one back when it fails. */
  method RotateSecond(disk: Disk, ix: Triple, at: Triple, ghost start: Files) returns (ok: bool)
    requires disk.Valid() && TwoApart(ix, at)
    requires ix.incoming in start && disk.files == Shifted(start, ix)
    modifies disk`files, disk`calls, disk`history
    ensures disk.Valid() && old(disk.history) <= disk.history
    ensures AllHeld(disk.history, |old(disk.history)|, start, ix, at) && Held(disk.files, start, ix, at)
    ensures ok <==> FailingStep(old(disk.files), at, disk.faults, old(disk.calls)) == 2
    ensures ok ==> at.incoming in Shifted(start, ix) && disk.files == Shifted(Shifted(start, ix), at)
    ensures var step := FailingStep(old(disk.files), at, disk.faults, old(disk.calls));
            !ok && QuietAfter(disk.faults, old(disk.calls) + step) ==>
              RolledBack(disk.files, start, ix, at, 2 + step)
  {
    ghost var from := |disk.history|;
    ok := Rotate(disk, at);
    ghost var after, undoing := disk.files, |disk.history|;
    forall i | from <= i < undoing ensures Held(disk.history[i], start, ix, at) {
      HeldInSecond(disk.history[i], start, ix, at);
    }
    HeldInSecond(after, start, ix, at);
    if !ok {
      TakeBack(disk, ix, start);
      forall i | undoing <= i < |disk.history| ensures Held(disk.history[i], start, ix, at) {
        HeldInUndo(disk.history[i], after, start, ix, at);
      }
      HeldInUndo(disk.files, after, start, ix, at);
      RestoredBoth(disk.files, after, start, ix, at);
    }
  }

  lemma HeldInFirst(now: Files, start: Files, ix: Triple, at: Triple)
    requires TwoApart(ix, at) && Preserved(now, start, ix) && Framed(now, start, ix.Names())
    ensures Held(now, start, ix, at) && RestoredIff(now, start, at, true)
  {
    assert at.live in at.Names() && at.incoming in at.Names();
    assert Get(now, at.live) == Get(start, at.live);
  }

  /** While the second triple rotates, the first one stays as it was installed. */
  lemma HeldInSecond(now: Files, start: Files, ix: Triple, at: Triple)
    requires TwoApart(ix, at) && ix.incoming in start
    requires Preserved(now, Shifted(start, ix), at) && Framed(now, Shifted(start, ix), at.Names())
    ensures Held(now, start, ix, at)
    ensures Get(now, ix.live) == Get(start, ix.incoming) && Get(now, ix.incoming) == []
    ensures Get(now, ix.kept) == if ix.live in start then Get(start, ix.live) else Get(start, ix.kept)
  {
    ShiftedGet(start, ix);
    ShiftedApart(start, ix, at);
    assert ix.live in ix.Names() && ix.kept in ix.Names() && ix.incoming in ix.Names();
    assert Get(now, ix.kept) == Get(Shifted(start, ix), ix.kept);
  }

  lemma HeldInUndo(now: Files, after: Files, start: Files, ix: Triple, at: Triple)
    requires TwoApart(ix, at) && Held(after, start, ix, at)
    requires Preserved(now, start, ix) && Framed(now, after, ix.Names())
    ensures Held(now, start, ix, at)
  {
    assert at.live in at.Names() && at.kept in at.Names();
    assert Get(now, at.live) == Get(after, at.live) && Get(now, at.kept) == Get(after, at.kept);
  }

  /** Taking the first triple back does not disturb what was undone of the second one. */
  lemma RestoredBoth(now: Files, after: Files, start: Files, ix: Triple, at: Triple)
    requires TwoApart(ix, at) && ix.incoming in start && Framed(now, after, ix.Names())
    ensures forall cond :: RestoredIff(now, start, at, cond) <==> RestoredIff(after, Shifted(start, ix), at, cond)
    ensures Undoable(start, at) <==> Undoable(Shifted(start, ix), at)
  {
    ShiftedApart(start, ix, at);
    assert at.live in at.Names() && at.incoming in at.Names();
    assert Get(now, at.live) == Get(after, at.live) && Get(now, at.incoming) == Get(after, at.incoming);
    assert Get(Shifted(start, ix), at.kept) == Get(start, at.kept);
  }

  /** Rotating one triple leaves another one, and the renames of it that will fail, as they are. */
  lemma ShiftedApart(f: Files, t: Triple, other: Triple)
    requires t.Distinct() && t.incoming in f && t.Names() !! other.Names()
    ensures var g := Shifted(f, t);
            && Get(g, other.live) == Get(f, other.live) && Get(g, other.incoming) == Get(f, other.incoming)
            && Get(g, other.kept) == Get(f, other.kept)
    ensures forall faults: nat -> bool, n: nat ::
              FailingStep(Shifted(f, t), other, faults, n) == FailingStep(f, other, faults, n)
  {
    ShiftedGet(f, t);
    assert other.live in other.Names() && other.incoming in other.Names() && other.kept in other.Names();
    assert Get(Shifted(f, t), other.live) == Get(f, other.live);
    assert Get(Shifted(f, t), other.incoming) == Get(f, other.incoming);
  }

  /**
   With no live file but a kept one from earlier, undoing a failed installation revives the kept
   one: by the contract of `Rotate`, the rotation below fails at its second rename and ends
   with a live file that was not there.
   */
  lemma {:induction false} KeptFileRevived()
    ensures var start := map["serial.new" := "02", "serial.old" := "01"];
            var t, faults := Triple("serial", "serial.new", "serial.old"), (n: nat) => n == 1;
            && FailingStep(start, t, faults, 0) == 1 && QuietAfter(faults, 1) && !Undoable(start, t)
            && forall now :: RestoredIff(now, start, t, Undoable(start, t)) ==> t.live !in start && t.live in now
  {
  }

  // ---------------------------------------------------------------- the callers' names

  /** A name, a suffix and `extra` more characters fit into one of the buffers. */
  predicate Fits(file: string, suffix: string, extra: nat) { |file| + |suffix| + extra < BSIZE }

  method RotateSerial(disk: Disk, file: string, newSuffix: string, oldSuffix: string) returns (ok: bool)
    requires disk.Valid() && SerialNames(file, newSuffix, oldSuffix).Distinct()
    modifies disk`files, disk`calls, disk`history
    ensures disk.Valid() && old(disk.history) <= disk.history
    ensures var t := SerialNames(file, newSuffix, oldSuffix);
            && AllPreserved(disk.history, |old(disk.history)|, old(disk.files), t)
            && AllFramed(disk.history, |old(disk.history)|, old(disk.files), t.Names())
            && Preserved(disk.files, old(disk.files), t) && Framed(disk.files, old(disk.files), t.Names())
    ensures !(Fits(file, newSuffix, 1) && Fits(file, oldSuffix, 1)) ==>
              !ok && disk.files == old(disk.files) && disk.history == old(disk.history)
    ensures Fits(file, newSuffix, 1) && Fits(file, oldSuffix, 1) ==>
              var t := SerialNames(file, newSuffix, oldSuffix);
              var step := FailingStep(old(disk.files), t, disk.faults, old(disk.calls));
              && (ok <==> step == 2)
              && (ok ==> disk.files == Shifted(old(disk.files), t) && disk.calls == old(disk.calls) + 2)
              && (!ok && QuietAfter(disk.faults, old(disk.calls) + step) ==>
                    RestoredIff(disk.files, old(disk.files), t, step == 0 || Undoable(old(disk.files), t)))
    ensures ok <==>
            && |file| + |newSuffix| + 1 < 256 && |file| + |oldSuffix| + 1 < 256
            && file + "." + newSuffix in old(disk.files)
            && !(file in old(disk.files) && disk.faults(old(disk.calls))) && !disk.faults(old(disk.calls) + 1)
    ensures ok ==>
              && Get(disk.files, file) == Get(old(disk.files), file + "." + newSuffix)
              && Get(disk.files, file + "." + newSuffix) == []
              && (file in old(disk.files) ==> Get(disk.files, file + "." + oldSuffix) == Get(old(disk.files), file))
    ensures forall path :: path !in {file, file + "." + newSuffix, file + "." + oldSuffix} ==>
              Get(disk.files, path) == Get(old(disk.files), path)
    ensures file in old(disk.files) ==>
              forall i :: |old(disk.history)| <= i < |disk.history| ==>
                || Get(disk.history[i], file) == Get(old(disk.files), file)
                || Get(disk.history[i], file + "." + oldSuffix) == Get(old(disk.files), file)
  {
    if |file| + |newSuffix| + 1 >= BSIZE || |file| + |oldSuffix| + 1 >= BSIZE {
      return false;
    }
    ghost var start := disk.files;
    ok := Rotate(disk, SerialNames(file, newSuffix, oldSuffix));
    if ok { ShiftedGet(start, SerialNames(file, newSuffix, oldSuffix)); }
  }

  method RotateIndex(disk: Disk, file: string, newSuffix: string, oldSuffix: string) returns (ok: bool)
    requires disk.Valid()
    requires TwoApart(SerialNames(file, newSuffix, oldSuffix), AttrNames(file, newSuffix, oldSuffix))
    modifies disk`files, disk`calls, disk`history
    ensures disk.Valid() && old(disk.history) <= disk.history
    ensures var ix, at := SerialNames(file, newSuffix, oldSuffix), AttrNames(file, newSuffix, oldSuffix);
            && AllHeld(disk.history, |old(disk.history)|, old(disk.files), ix, at)
            && Held(disk.files, old(disk.files), ix, at)
    ensures !(Fits(file, newSuffix, 6) && Fits(file, oldSuffix, 6)) ==>
              !ok && disk.files == old(disk.files) && disk.history == old(disk.history)
    ensures Fits(file, newSuffix, 6) && Fits(file, oldSuffix, 6) ==>
              var ix, at := SerialNames(file, newSuffix, oldSuffix), AttrNames(file, newSuffix, oldSuffix);
              var step := FailingStepOfBoth(old(disk.files), ix, at, disk.faults, old(disk.calls));
              && (ok <==> step == 4)
              && (ok ==> ix.incoming in old(disk.files) && at.incoming in Shifted(old(disk.files), ix)
                         && disk.files == Shifted(Shifted(old(disk.files), ix), at))
              && (!ok && QuietAfter(disk.faults, old(disk.calls) + step) ==>
                    RolledBack(disk.files, old(disk.files), ix, at, step))
    ensures ok <==>
            && |file| + |newSuffix| + 6 < 256 && |file| + |oldSuffix| + 6 < 256
            && file + "." + newSuffix in old(disk.files) && file + ".attr." + newSuffix in old(disk.files)
            && !(file in old(disk.files) && disk.faults(old(disk.calls))) && !disk.faults(old(disk.calls) + 1)
            && !(file + ".attr" in old(disk.files) && disk.faults(old(disk.calls) + 2))
            && !disk.faults(old(disk.calls) + 3)
    ensures ok ==>
              && Get(disk.files, file) == Get(old(disk.files), file + "." + newSuffix)
              && (file in old(disk.files) ==> Get(disk.files, file + "." + oldSuffix) == Get(old(disk.files), file))
              && Get(disk.files, file + ".attr") == Get(old(disk.files), file + ".attr." + newSuffix)
              && (file + ".attr" in old(disk.files) ==>
                    Get(disk.files, file + ".attr." + oldSuffix) == Get(old(disk.files), file + ".attr"))
    ensures file in old(disk.files) ==>
              forall i :: |old(disk.history)| <= i < |disk.history| ==>
                || Get(disk.history[i], file) == Get(old(disk.files), file)
                || Get(disk.history[i], file + "." + oldSuffix) == Get(old(disk.files), file)
  {
    if |file| + |newSuffix| + 6 >= BSIZE || |file| + |oldSuffix| + 6 >= BSIZE {
      return false;
    }
    ghost var start := disk.files;
    ghost var ix, at := SerialNames(file, newSuffix, oldSuffix), AttrNames(file, newSuffix, oldSuffix);
    ok := RotateBoth(disk, SerialNames(file, newSuffix, oldSuffix), AttrNames(file, newSuffix, oldSuffix));
    if ok { ShiftedBoth(start, ix, at); }
  }

  /** What the rotation of two triples leaves under their six names. */
  lemma {:induction false} ShiftedBoth(f: Files, ix: Triple, at: Triple)
    requires TwoApart(ix, at) && ix.incoming in f && at.incoming in Shifted(f, ix)
    ensures var g := Shifted(Shifted(f, ix), at);
            && Get(g, ix.live) == Get(f, ix.incoming) && Get(g, at.live) == Get(f, at.incoming)
            && (ix.live in f ==> Get(g, ix.kept) == Get(f, ix.live))
            && (at.live in f ==> Get(g, at.kept) == Get(f, at.live))
  {
    ShiftedGet(f, ix);
    ShiftedApart(f, ix, at);
    ShiftedGet(Shifted(f, ix), at);
    ShiftedApart(Shifted(f, ix), at, ix);
  }

  /** With the suffixes the command uses, the six index names never collide. */
  lemma NamesDistinct(file: string)
    ensures SerialNames(file, "new", "old").Distinct() && AttrNames(file, "new", "old").Distinct()
    ensures SerialNames(file, "new", "old").Names() !! AttrNames(file, "new", "old").Names()
  {
    var n := |file|;
    var s, a := SerialNames(file, "new", "old"), AttrNames(file, "new", "old");
    assert s.incoming[n + 1] == 'n' && s.kept[n + 1] == 'o';
    assert a.live[n + 1] == 'a' && a.incoming[n + 6] == 'n' && a.kept[n + 6] == 'o';
    assert |s.live| == n && |s.incoming| == |s.kept| == n + 4;
    assert |a.live| == n + 5 && |a.incoming| == |a.kept| == n + 9;
  }
}
