/**
 The commit of a signing run of the ca command: what is saved, in which order it is installed,
 and what every state on the way satisfies.
 */
module CaCommit {
  import opened CaDisk
  import opened CaRotate
  import opened Wrappers

  // ---------------------------------------------------------------- save_serial and save_index

  /** `save_serial`, which does not notice an incomplete write. */
  method SaveSerial(disk: Disk, file: string, suffix: string, serial: string) returns (ok: bool)
    requires disk.Valid()
    modifies disk`files, disk`writes, disk`history
    ensures disk.Valid() && old(disk.history) <= disk.history
    ensures AllFramed(disk.history, |old(disk.history)|, old(disk.files), {file + "." + suffix})
    ensures Framed(disk.files, old(disk.files), {file + "." + suffix})
    ensures ok <==> Fits(file, suffix, 1) && disk.media(old(disk.writes)).Some?
    ensures ok ==> disk.writes == old(disk.writes) + 1
    ensures ok ==> Get(disk.files, file + "." + suffix) == [Arrived(disk.media(old(disk.writes)), serial).value]
    ensures !ok ==> disk.files == old(disk.files)
  {
    if |file| + |suffix| + 1 >= BSIZE {
      return false;
    }
    var isOpen, _ := disk.Write(file + "." + suffix, serial);
    return isOpen;
  }

  /**
   `save_index`. It looks at what `TXT_DB_write` reports, the number of bytes handed to the
   output buffer, which is 0 for an empty index; what is lost when the file is closed goes
   unnoticed, and so does everything about the attribute file once that is open.
   */
  method SaveIndex(disk: Disk, file: string, suffix: string, index: string, attr: string) returns (ok: bool)
    requires disk.Valid() && file + "." + suffix != file + ".attr." + suffix
    modifies disk`files, disk`writes, disk`history
    ensures disk.Valid() && old(disk.history) <= disk.history
    ensures AllFramed(disk.history, |old(disk.history)|, old(disk.files),
              {file + "." + suffix, file + ".attr." + suffix})
    ensures Framed(disk.files, old(disk.files), {file + "." + suffix, file + ".attr." + suffix})
    ensures ok <==>
            && Fits(file, suffix, 6) && index != "" && Reported(disk.media(old(disk.writes)), index)
            && disk.media(old(disk.writes) + 1).Some?
    ensures ok ==>
              && Get(disk.files, file + "." + suffix) == [Arrived(disk.media(old(disk.writes)), index).value]
              && Get(disk.files, file + ".attr." + suffix) == [Arrived(disk.media(old(disk.writes) + 1), attr).value]
  {
    if |file| + |suffix| + 6 >= BSIZE {
      return false;
    }
    var isOpen, reported := disk.Write(file + "." + suffix, index);
    if !isOpen {
      return false;
    }
    var j := if reported then |index| else -1;
    if j <= 0 {
      return false;
    }
    isOpen, reported := disk.Write(file + ".attr." + suffix, attr);
    return isOpen;
  }

  // ---------------------------------------------------------------- the whole commit

  /** The live index is not a new one, unless the live serial is the one saved with it. */
  ghost predicate SerialFirst(now: Files, start: Files, st: Triple, ix: Triple, saved: Option<string>) {
    ix.live !in now || Get(now, ix.live) == Get(start, ix.live) || (saved.Some? && Get(now, st.live) == [saved.value])
  }

  /** The three triples of a commit. */
  datatype Names = Names(st: Triple, ix: Triple, at: Triple) {
    ghost predicate Apart() {
      && st.Distinct() && ix.Distinct() && at.Distinct()
      && st.Names() !! ix.Names() && ix.Names() !! at.Names() && st.Names() !! at.Names()
    }

    ghost function Incoming(): set<string> { {st.incoming, ix.incoming, at.incoming} }
  }

  function CommitNames(serialFile: string, dbFile: string): Names {
    Names(SerialNames(serialFile, "new", "old"), SerialNames(dbFile, "new", "old"), AttrNames(dbFile, "new", "old"))
  }

  /** Nothing is lost, and the serial is never behind the index. */
  ghost predicate Safe(now: Files, start: Files, n: Names, saved: Option<string>) {
    && SerialFirst(now, start, n.st, n.ix, saved)
    && Preserved(now, start, n.st) && Preserved(now, start, n.ix) && Preserved(now, start, n.at)
  }

  ghost predicate AllSafe(history: seq<Files>, from: nat, start: Files, n: Names, saved: Option<string>) {
    forall i :: from <= i < |history| ==> Safe(history[i], start, n, saved)
  }

  /** The first disturbed rename of a rotation whose incoming file is there; 2 if there is none. */
  ghost function DisturbedStep(start: Files, t: Triple, faults: nat -> bool, c: nat): nat {
    if t.live in start && faults(c) then 0 else if faults(c + 1) then 1 else 2
  }

  /** The same for the six renames of a commit; 6 if none is disturbed. */
  ghost function FirstDisturbed(start: Files, n: Names, faults: nat -> bool, c: nat): nat {
    var a, b := DisturbedStep(start, n.st, faults, c), DisturbedStep(start, n.ix, faults, c + 2);
    if a < 2 then a else if b < 2 then 2 + b else 4 + DisturbedStep(start, n.at, faults, c + 4)
  }

  /** All three files are open, and no failure to write the index is reported. */
  ghost predicate Saves(serialFile: string, dbFile: string, index: string, media: nat -> Option<Medium>, w: nat) {
    && Fits(serialFile, "new", 1) && media(w).Some?
    && Fits(dbFile, "new", 6) && index != "" && Reported(media(w + 1), index) && media(w + 2).Some?
  }

  lemma SafeWhileSaving(now: Files, start: Files, n: Names, saved: Option<string>)
    requires n.Apart() && Framed(now, start, n.Incoming())
    ensures Safe(now, start, n, saved)
    ensures Get(now, n.st.live) == Get(start, n.st.live)
    ensures Get(now, n.ix.live) == Get(start, n.ix.live) && Get(now, n.at.live) == Get(start, n.at.live)
  {
    assert n.st.live in n.st.Names() && n.ix.live in n.ix.Names() && n.at.live in n.at.Names();
    assert n.st.incoming in n.st.Names() && n.ix.incoming in n.ix.Names() && n.at.incoming in n.at.Names();
    assert Get(now, n.ix.live) == Get(start, n.ix.live);
  }

  lemma SafeWhileRotatingSerial(now: Files, ready: Files, start: Files, n: Names, saved: Option<string>)
    requires n.Apart() && Framed(ready, start, n.Incoming())
    requires Framed(now, ready, n.st.Names()) && Preserved(now, ready, n.st)
    ensures Safe(now, start, n, saved)
    ensures Get(now, n.ix.live) == Get(start, n.ix.live) && Get(now, n.at.live) == Get(start, n.at.live)
  {
    SafeWhileSaving(ready, start, n, saved);
    assert n.ix.live in n.ix.Names() && n.at.live in n.at.Names();
    assert Get(now, n.ix.live) == Get(ready, n.ix.live);
    assert Get(now, n.at.live) == Get(ready, n.at.live);
  }

  lemma SafeWhileRotatingIndex(now: Files, ready: Files, start: Files, n: Names, saved: Option<string>)
    requires n.Apart() && Framed(ready, start, n.Incoming())
    requires n.st.incoming in ready && saved == Some(ready[n.st.incoming])
    requires Held(now, Shifted(ready, n.st), n.ix, n.at)
    ensures Safe(now, start, n, saved) && Get(now, n.st.live) == [saved.value]
  {
    var mid := Shifted(ready, n.st);
    ShiftedGet(ready, n.st);
    ShiftedApart(ready, n.st, n.ix);
    ShiftedApart(ready, n.st, n.at);
    SafeWhileSaving(ready, start, n, saved);
    assert n.st.live in n.st.Names() && n.st.kept in n.st.Names();
    assert Get(now, n.st.live) == Get(mid, n.st.live) && Get(now, n.st.kept) == Get(mid, n.st.kept);
  }

  /** With incoming files in place, only disturbances make a rotation fail. */
  lemma FailsIfDisturbed(ready: Files, start: Files, n: Names, faults: nat -> bool, c: nat)
    requires n.Apart() && Framed(ready, start, n.Incoming())
    requires n.st.incoming in ready && n.ix.incoming in ready && n.at.incoming in ready
    ensures var first := FirstDisturbed(start, n, faults, c);
            var step, rest := FailingStep(ready, n.st, faults, c), FailingStepOfBoth(ready, n.ix, n.at, faults, c + 2);
            && first == (if step < 2 then step else 2 + rest) && first <= 6
            && FailingStepOfBoth(Shifted(ready, n.st), n.ix, n.at, faults, c + 2) == rest
  {
    SafeWhileSaving(ready, start, n, None);
    ShiftedApart(ready, n.st, n.ix);
    ShiftedApart(ready, n.st, n.at);
    assert Get(ready, n.st.live) == Get(start, n.st.live);
  }

  /** The new serial and index are live, and what was live is kept. */
  ghost predicate Installed(now: Files, start: Files, n: Names, serial: string, index: string, attr: string) {
    && Get(now, n.st.live) == [serial] && Get(now, n.ix.live) == [index] && Get(now, n.at.live) == [attr]
    && (n.st.live in start ==> Get(now, n.st.kept) == Get(start, n.st.live))
    && (n.ix.live in start ==> Get(now, n.ix.kept) == Get(start, n.ix.live))
    && (n.at.live in start ==> Get(now, n.at.kept) == Get(start, n.at.live))
  }

  lemma ShiftedAll(ready: Files, start: Files, n: Names)
    requires n.Apart() && Framed(ready, start, n.Incoming())
    requires n.st.incoming in ready && n.ix.incoming in Shifted(ready, n.st)
    requires n.at.incoming in Shifted(Shifted(ready, n.st), n.ix)
    ensures n.ix.incoming in ready && n.at.incoming in ready
    ensures Installed(Shifted(Shifted(Shifted(ready, n.st), n.ix), n.at), start, n,
                      ready[n.st.incoming], ready[n.ix.incoming], ready[n.at.incoming])
  {
    var mid := Shifted(ready, n.st);
    SafeWhileSaving(ready, start, n, None);
    ShiftedGet(ready, n.st);
    ShiftedApart(ready, n.st, n.ix);
    ShiftedApart(ready, n.st, n.at);
    ShiftedGet(mid, n.ix);
    ShiftedApart(mid, n.ix, n.st);
    ShiftedApart(mid, n.ix, n.at);
    ShiftedGet(Shifted(mid, n.ix), n.at);
    ShiftedApart(Shifted(mid, n.ix), n.at, n.st);
    ShiftedApart(Shifted(mid, n.ix), n.at, n.ix);
  }

  /** The incoming files hold what was saved. */
  ghost predicate Ready(now: Files, start: Files, n: Names, serial: Option<string>, index: Option<string>,
                        attr: Option<string>)
  {
    && Framed(now, start, n.Incoming()) && serial.Some? && index.Some? && attr.Some?
    && Get(now, n.st.incoming) == [serial.value] && Get(now, n.ix.incoming) == [index.value]
    && Get(now, n.at.incoming) == [attr.value]
  }

  /** The first half of the commit: `save_serial`, then `save_index`. */
  method Save(disk: Disk, serialFile: string, dbFile: string, serial: string, index: string, attr: string)
    returns (ok: bool)
    requires disk.Valid() && CommitNames(serialFile, dbFile).Apart()
    modifies disk`files, disk`writes, disk`history
    ensures disk.Valid() && old(disk.history) <= disk.history
    ensures var names := CommitNames(serialFile, dbFile).Incoming();
            AllFramed(disk.history, |old(disk.history)|, old(disk.files), names)
            && Framed(disk.files, old(disk.files), names)
    ensures ok <==> Saves(serialFile, dbFile, index, disk.media, old(disk.writes))
    ensures ok ==> var w := old(disk.writes);
                   Ready(disk.files, old(disk.files), CommitNames(serialFile, dbFile),
                         Arrived(disk.media(w), serial), Arrived(disk.media(w + 1), index),
                         Arrived(disk.media(w + 2), attr))
  {
    ghost var start, from, n := disk.files, |disk.history|, CommitNames(serialFile, dbFile);
    assert n.st.incoming in n.st.Names() && n.ix.incoming in n.ix.Names() && n.at.incoming in n.at.Names();
    ok := SaveSerial(disk, serialFile, "new", serial);
    ghost var mid, next := disk.files, |disk.history|;
    forall i | from <= i < next ensures Framed(disk.history[i], start, n.Incoming()) {
      FramedMore(disk.history[i], start, start, {n.st.incoming}, n.Incoming());
    }
    FramedMore(mid, start, start, {n.st.incoming}, n.Incoming());
    if ok {
      ok := SaveIndex(disk, dbFile, "new", index, attr);
      forall i | next <= i < |disk.history| ensures Framed(disk.history[i], start, n.Incoming()) {
        FramedMore(disk.history[i], mid, start, {n.ix.incoming, n.at.incoming}, n.Incoming());
      }
      FramedMore(disk.files, mid, start, {n.ix.incoming, n.at.incoming}, n.Incoming());
      assert Get(disk.files, n.st.incoming) == Get(mid, n.st.incoming);
    }
  }

  lemma FramedMore(now: Files, mid: Files, start: Files, few: set<string>, many: set<string>)
    requires Framed(now, mid, few) && Framed(mid, start, many) && few <= many
    ensures Framed(now, start, many)
  {
  }

  ghost predicate LiveAsBefore(now: Files, start: Files, t: Triple) { Get(now, t.live) == Get(start, t.live) }

  /**
   What is left of a commit whose rename number `first` fails while nothing else does: a live
   file is as before if and only if its own rename was not reached or its undo worked, except
   that a serial that was already installed stays.
   */
  ghost predicate UndoneFrom(now: Files, start: Files, n: Names, first: nat, saved: string) {
    && (if first < 2 then LiveAsBefore(now, start, n.st) <==> first == 0 || Undoable(start, n.st)
        else Get(now, n.st.live) == [saved])
    && (LiveAsBefore(now, start, n.ix) <==> first <= 2 || Undoable(start, n.ix))
    && (LiveAsBefore(now, start, n.at) <==> first <= 4 || Undoable(start, n.at))
  }

  /** The second half of the commit: `rotate_serial`, then `rotate_index`. */
  method RotateAll(disk: Disk, serialFile: string, dbFile: string, ghost start: Files, ghost serial: Option<string>,
                   ghost index: Option<string>, ghost attr: Option<string>)
    returns (ok: bool)
    requires disk.Valid() && CommitNames(serialFile, dbFile).Apart()
    requires Fits(serialFile, "new", 1) && Fits(dbFile, "new", 6)
    requires Ready(disk.files, start, CommitNames(serialFile, dbFile), serial, index, attr)
    modifies disk`files, disk`calls, disk`history
    ensures disk.Valid() && old(disk.history) <= disk.history
    ensures var n := CommitNames(serialFile, dbFile);
            AllSafe(disk.history, |old(disk.history)|, start, n, serial) && Safe(disk.files, start, n, serial)
    ensures var n := CommitNames(serialFile, dbFile);
            var first := FirstDisturbed(start, n, disk.faults, old(disk.calls));
            && (ok <==> first == 6)
            && (ok ==> Installed(disk.files, start, n, serial.value, index.value, attr.value))
            && (!ok && QuietAfter(disk.faults, old(disk.calls) + first) ==>
                  UndoneFrom(disk.files, start, n, first, serial.value))
  {
    ghost var n := CommitNames(serialFile, dbFile);
    ghost var ready, from, c := disk.files, |disk.history|, disk.calls;
    assert |"new"| == |"old"|;
    FailsIfDisturbed(ready, start, n, disk.faults, c);
    ok := RotateSerial(disk, serialFile, "new", "old");
    ghost var mid, next := disk.files, |disk.history|;
    forall i | from <= i < next ensures Safe(disk.history[i], start, n, serial) {
      SafeWhileRotatingSerial(disk.history[i], ready, start, n, serial);
    }
    SafeWhileRotatingSerial(mid, ready, start, n, serial);
    if ok {
      ok := RotateIndexLast(disk, dbFile, n, ready, start);
    } else {
      UndoneInSerial(mid, ready, start, n, FailingStep(ready, n.st, disk.faults, c), serial.value);
    }
  }

  /** The index is rotated when the serial is in place. */
  method RotateIndexLast(disk: Disk, dbFile: string, ghost n: Names, ghost ready: Files, ghost start: Files)
    returns (ok: bool)
    requires disk.Valid() && n.Apart() && Fits(dbFile, "new", 6) && Framed(ready, start, n.Incoming())
    requires n.ix == SerialNames(dbFile, "new", "old") && n.at == AttrNames(dbFile, "new", "old")
    requires n.st.incoming in ready && n.ix.incoming in ready && n.at.incoming in ready
    requires disk.files == Shifted(ready, n.st)
    modifies disk`files, disk`calls, disk`history
    ensures disk.Valid() && old(disk.history) <= disk.history
    ensures AllSafe(disk.history, |old(disk.history)|, start, n, Some(ready[n.st.incoming]))
    ensures Safe(disk.files, start, n, Some(ready[n.st.incoming]))
    ensures var step := FailingStepOfBoth(old(disk.files), n.ix, n.at, disk.faults, old(disk.calls));
            && (ok <==> step == 4)
            && (ok ==> Installed(disk.files, start, n,
                                 ready[n.st.incoming], ready[n.ix.incoming], ready[n.at.incoming]))
            && (!ok && QuietAfter(disk.faults, old(disk.calls) + step) ==>
                  UndoneFrom(disk.files, start, n, 2 + step, ready[n.st.incoming]))
  {
    ghost var mid, from, saved := disk.files, |disk.history|, Some(ready[n.st.incoming]);
    ghost var step := FailingStepOfBoth(mid, n.ix, n.at, disk.faults, disk.calls);
    ok := RotateIndex(disk, dbFile, "new", "old");
    forall i | from <= i < |disk.history| ensures Safe(disk.history[i], start, n, saved) {
      SafeWhileRotatingIndex(disk.history[i], ready, start, n, saved);
    }
    SafeWhileRotatingIndex(disk.files, ready, start, n, saved);
    if ok {
      ShiftedAll(ready, start, n);
    } else {
      UndoneAfterSerial(disk.files, ready, start, n, step);
    }
  }

  /** Saving leaves the live and the kept files alone. */
  lemma {:induction false} ReadyIsStart(ready: Files, start: Files, n: Names)
    requires n.Apart() && Framed(ready, start, n.Incoming())
    ensures forall t <- {n.st, n.ix, n.at} ::
              && Get(ready, t.live) == Get(start, t.live) && Get(ready, t.kept) == Get(start, t.kept)
              && (Undoable(ready, t) <==> Undoable(start, t))
  {
    assert n.st.incoming in n.st.Names() && n.ix.incoming in n.ix.Names() && n.at.incoming in n.at.Names();
    forall t | t in {n.st, n.ix, n.at}
      ensures Get(ready, t.live) == Get(start, t.live) && Get(ready, t.kept) == Get(start, t.kept)
    {
      assert t.live in t.Names() && t.kept in t.Names();
    }
  }

  lemma {:induction false} UndoneInSerial(now: Files, ready: Files, start: Files, n: Names, step: nat, saved: string)
    requires n.Apart() && Framed(ready, start, n.Incoming()) && Framed(now, ready, n.st.Names()) && step < 2
    ensures RestoredIff(now, ready, n.st, step == 0 || Undoable(ready, n.st)) ==>
              UndoneFrom(now, start, n, step, saved)
  {
    ReadyIsStart(ready, start, n);
    assert n.st in {n.st, n.ix, n.at} && n.ix in {n.st, n.ix, n.at} && n.at in {n.st, n.ix, n.at};
    assert n.ix.live in n.ix.Names() && n.at.live in n.at.Names();
    assert Get(now, n.ix.live) == Get(ready, n.ix.live) && Get(now, n.at.live) == Get(ready, n.at.live);
  }

  /** Rotating the serial changes neither what the index's undo needs nor what it restores. */
  lemma {:induction false} UndoneAfterSerial(now: Files, ready: Files, start: Files, n: Names, step: nat)
    requires n.Apart() && Framed(ready, start, n.Incoming()) && n.st.incoming in ready
    requires Get(now, n.st.live) == [ready[n.st.incoming]]
    ensures RolledBack(now, Shifted(ready, n.st), n.ix, n.at, step) ==>
              UndoneFrom(now, start, n, 2 + step, ready[n.st.incoming])
  {
    ReadyIsStart(ready, start, n);
    ShiftedApart(ready, n.st, n.ix);
    ShiftedApart(ready, n.st, n.at);
    assert n.ix in {n.st, n.ix, n.at} && n.at in {n.st, n.ix, n.at};
    assert Undoable(Shifted(ready, n.st), n.ix) <==> Undoable(start, n.ix) by {
      assert Get(Shifted(ready, n.st), n.ix.kept) == Get(start, n.ix.kept);
      assert Get(Shifted(ready, n.st), n.ix.live) == Get(start, n.ix.live);
    }
    assert Undoable(Shifted(ready, n.st), n.at) <==> Undoable(start, n.at) by {
      assert Get(Shifted(ready, n.st), n.at.kept) == Get(start, n.at.kept);
      assert Get(Shifted(ready, n.st), n.at.live) == Get(start, n.at.live);
    }
  }

  /**
   The commit of `ca_main`: save the serial and the index under their new names, write the
   certificates (`certsWritten` says whether that went through), then rotate the serial and
   only after that the index.
   */
  method CommitSteps(disk: Disk, serialFile: string, dbFile: string, serial: string, index: string, attr: string,
                certsWritten: bool)
    returns (ok: bool)
    requires disk.Valid() && CommitNames(serialFile, dbFile).Apart()
    modifies disk
    ensures disk.Valid() && old(disk.history) <= disk.history
    ensures var n, saved := CommitNames(serialFile, dbFile), Arrived(disk.media(old(disk.writes)), serial);
            && AllSafe(disk.history, |old(disk.history)|, old(disk.files), n, saved)
            && Safe(disk.files, old(disk.files), n, saved)
    ensures var n, w := CommitNames(serialFile, dbFile), old(disk.writes);
            && (ok <==>
                && Saves(serialFile, dbFile, index, disk.media, w) && certsWritten
                && FirstDisturbed(old(disk.files), n, disk.faults, old(disk.calls)) == 6)
            && (ok ==> Installed(disk.files, old(disk.files), n, Arrived(disk.media(w), serial).value,
                                 Arrived(disk.media(w + 1), index).value, Arrived(disk.media(w + 2), attr).value))
    ensures var n, w := CommitNames(serialFile, dbFile), old(disk.writes);
            var first := FirstDisturbed(old(disk.files), n, disk.faults, old(disk.calls));
            if !Saves(serialFile, dbFile, index, disk.media, w) || !certsWritten
            then forall t <- {n.st, n.ix, n.at} :: LiveAsBefore(disk.files, old(disk.files), t)
            else !ok && QuietAfter(disk.faults, old(disk.calls) + first) ==>
                   UndoneFrom(disk.files, old(disk.files), n, first, Arrived(disk.media(w), serial).value)
  {
    ghost var start, from, w := disk.files, |disk.history|, disk.writes;
    ghost var n, saved := CommitNames(serialFile, dbFile), Arrived(disk.media(w), serial);
    ok := Save(disk, serialFile, dbFile, serial, index, attr);
    forall i | from <= i < |disk.history| ensures Safe(disk.history[i], start, n, saved) {
      SafeWhileSaving(disk.history[i], start, n, saved);
    }
    SafeWhileSaving(disk.files, start, n, saved);
    if !ok || !certsWritten {
      return false;
    }
    ok := RotateAll(disk, serialFile, dbFile, start, saved,
                    Arrived(disk.media(w + 1), index), Arrived(disk.media(w + 2), attr));
  }

  /** The names that `BIO_snprintf` makes. */
  lemma {:induction false} NamesByLetter(serialFile: string, dbFile: string)
    ensures CommitNames(serialFile, dbFile) == Names(
              Triple(serialFile, serialFile + ".new", serialFile + ".old"),
              Triple(dbFile, dbFile + ".new", dbFile + ".old"),
              Triple(dbFile + ".attr", dbFile + ".attr.new", dbFile + ".attr.old"))
  {
    assert "." + "new" == ".new" && "." + "old" == ".old" && ".attr." + "new" == ".attr.new";
    assert serialFile + "." + "new" == serialFile + ".new" && serialFile + "." + "old" == serialFile + ".old";
    assert dbFile + "." + "new" == dbFile + ".new" && dbFile + "." + "old" == dbFile + ".old";
    assert dbFile + ".attr." + "new" == dbFile + ".attr.new" && dbFile + ".attr." + "old" == dbFile + ".attr.old";
  }

  /** The contents are under the name, or under the one it is set aside under. */
  ghost predicate Kept(now: Files, start: Files, file: string, aside: string) {
    file in start ==> Get(now, file) == Get(start, file) || Get(now, aside) == Get(start, file)
  }

  /** A live index that is new meets the live serial that was saved with it, and no old file is lost. */
  ghost predicate SafeByName(now: Files, start: Files, serialFile: string, dbFile: string, saved: Option<string>) {
    && (|| dbFile !in now || Get(now, dbFile) == Get(start, dbFile)
        || (saved.Some? && Get(now, serialFile) == [saved.value]))
    && Kept(now, start, serialFile, serialFile + ".old") && Kept(now, start, dbFile, dbFile + ".old")
    && Kept(now, start, dbFile + ".attr", dbFile + ".attr.old")
  }

  /**
   The commit as the files see it: when it succeeds, what is then under which name, and what
   holds in every state on the way, whatever fails and wherever it stops.
   */
  method Commit(disk: Disk, serialFile: string, dbFile: string, serial: string, index: string, attr: string,
                certsWritten: bool)
    returns (ok: bool)
    requires disk.Valid() && CommitNames(serialFile, dbFile).Apart()
    modifies disk
    ensures disk.Valid() && old(disk.history) <= disk.history
    ensures var w, c := old(disk.writes), old(disk.calls);
            ok <==>
              && |serialFile| + 4 < 256 && |dbFile| + 9 < 256 && index != "" && certsWritten
              && disk.media(w).Some? && disk.media(w + 1).Some? && disk.media(w + 2).Some?
              && |index| <= disk.media(w + 1).value.accepts
              && !(serialFile in old(disk.files) && disk.faults(c)) && !disk.faults(c + 1)
              && !(dbFile in old(disk.files) && disk.faults(c + 2)) && !disk.faults(c + 3)
              && !(dbFile + ".attr" in old(disk.files) && disk.faults(c + 4)) && !disk.faults(c + 5)
    ensures var w := old(disk.writes);
            ok ==>
              && disk.media(w).Some? && disk.media(w + 1).Some? && disk.media(w + 2).Some?
              && Get(disk.files, serialFile) == [Arrived(disk.media(w), serial).value]
              && Get(disk.files, dbFile) == [Arrived(disk.media(w + 1), index).value]
              && Get(disk.files, dbFile + ".attr") == [Arrived(disk.media(w + 2), attr).value]
    ensures ok ==>
              && (serialFile in old(disk.files) ==>
                    Get(disk.files, serialFile + ".old") == Get(old(disk.files), serialFile))
              && (dbFile in old(disk.files) ==> Get(disk.files, dbFile + ".old") == Get(old(disk.files), dbFile))
              && (dbFile + ".attr" in old(disk.files) ==>
                    Get(disk.files, dbFile + ".attr.old") == Get(old(disk.files), dbFile + ".attr"))
    ensures forall i :: |old(disk.history)| <= i < |disk.history| ==>
              SafeByName(disk.history[i], old(disk.files), serialFile, dbFile,
                         Arrived(disk.media(old(disk.writes)), serial))
    ensures SafeByName(disk.files, old(disk.files), serialFile, dbFile, Arrived(disk.media(old(disk.writes)), serial))
    ensures var n, w := CommitNames(serialFile, dbFile), old(disk.writes);
            var first := FirstDisturbed(old(disk.files), n, disk.faults, old(disk.calls));
            if !Saves(serialFile, dbFile, index, disk.media, w) || !certsWritten
            then forall t <- {n.st, n.ix, n.at} :: LiveAsBefore(disk.files, old(disk.files), t)
            else !ok && QuietAfter(disk.faults, old(disk.calls) + first) ==>
                   UndoneFrom(disk.files, old(disk.files), n, first, Arrived(disk.media(w), serial).value)
  {
    NamesByLetter(serialFile, dbFile);
    ok := CommitSteps(disk, serialFile, dbFile, serial, index, attr, certsWritten);
  }

  /** By the contract of `Commit`, a commit of this index succeeds when no rename is disturbed. */
  ghost predicate Commits(start: Files, media: nat -> Option<Medium>, index: string) {
    var n, faults := CommitNames("serial", "index"), (k: nat) => false;
    && n.Apart() && Saves("serial", "index", index, media, 0)
    && FirstDisturbed(start, n, faults, 0) == 6
  }

  lemma {:induction false} CommitsIfReported(start: Files, media: nat -> Option<Medium>, index: string)
    requires media(0).Some? && index != "" && Reported(media(1), index) && media(2).Some?
    ensures Commits(start, media, index)
  {
    var n, faults := CommitNames("serial", "index"), (k: nat) => false;
    NamesDistinct("serial");
    NamesDistinct("index");
    FirstLetterApart("serial", "index");
  }

  /**
   Since `save_serial` looks at no write, a commit can succeed and leave an empty serial file
   behind: the one below does, and by `Arrived` exactly those that keep too little do.
   */
  lemma {:induction false} EmptySerialInstalled(start: Files)
    ensures var media := (k: nat) => Some(Medium(100, if k == 0 then 0 else 100));
            Commits(start, media, "V\n") && Arrived(media(0), "02") == Some("")
  {
    CommitsIfReported(start, (k: nat) => Some(Medium(100, if k == 0 then 0 else 100)), "V\n");
  }

  /** An index that fits into the output buffer and is lost when the file is closed is installed as empty. */
  lemma {:induction false} EmptyIndexInstalled(start: Files)
    ensures var media := (k: nat) => Some(Medium(100, if k == 1 then 0 else 100));
            Commits(start, media, "V\n") && Arrived(media(1), "V\n") == Some("")
  {
    CommitsIfReported(start, (k: nat) => Some(Medium(100, if k == 1 then 0 else 100)), "V\n");
  }

  lemma FirstLetterApart(serialFile: string, dbFile: string)
    requires |serialFile| > 0 && |dbFile| > 0 && serialFile[0] != dbFile[0]
    ensures var n := CommitNames(serialFile, dbFile);
            n.st.Names() !! n.ix.Names() && n.st.Names() !! n.at.Names()
  {
    var n := CommitNames(serialFile, dbFile);
    assert forall s <- n.st.Names() :: |s| > 0 && s[0] == serialFile[0];
    assert forall s <- n.ix.Names() + n.at.Names() :: |s| > 0 && s[0] == dbFile[0];
  }
}
