/**
 When a cms command line is accepted, and what it is then: the options, read from left to
 right, fall into groups of a signer, a signer with its key, or a key with its signer.
 */
module CmsPairing {
  import opened Wrappers
  import opened CmsOptions

  // ---------------------------------------------------------------- reading in groups

  /** The -signer and -inkey options, in order. */
  function Files(args: seq<Arg>): seq<Arg> {
    if args == [] then []
    else
      var n := |args| - 1;
      if args[n].KeyOpt? then Files(args[..n]) else Files(args[..n]) + [args[n]]
  }

  /** The command line is a sequence of the groups "-signer", "-signer -inkey" and "-inkey -signer". */
  predicate Grouped(w: seq<Arg>) {
    || w == []
    || (w[0].Signer? && Grouped(w[1..]))
    || (|w| >= 2 && w[0].Signer? && w[1].InKey? && Grouped(w[2..]))
    || (|w| >= 2 && w[0].InKey? && w[1].Signer? && Grouped(w[2..]))
  }

  function After(p: (string, string), rest: Option<seq<(string, string)>>): Option<seq<(string, string)>> {
    if rest.None? then None else Some([p] + rest.value)
  }

  /** The signers with their keys: a signer takes the key next to it, and itself when there is none. */
  function Pairs(w: seq<Arg>): Option<seq<(string, string)>> {
    if w == [] then Some([])
    else if |w| >= 2 && w[0].Signer? && w[1].InKey? then After((w[0].file, w[1].file), Pairs(w[2..]))
    else if |w| >= 2 && w[0].InKey? && w[1].Signer? then After((w[1].file, w[0].file), Pairs(w[2..]))
    else if w[0].Signer? then After((w[0].file, w[0].file), Pairs(w[1..]))
    else None
  }

  /** Taking a key whenever one follows never spoils a grouping. */
  lemma {:induction false} PairsIffGrouped(w: seq<Arg>)
    ensures Pairs(w).Some? <==> Grouped(w)
    decreases |w|
  {
    if w != [] {
      PairsIffGrouped(w[1..]);
      if |w| >= 2 {
        PairsIffGrouped(w[2..]);
        assert w[1..][1..] == w[2..];
        if w[0].Signer? && w[1].InKey? && Grouped(w[1..]) {
          assert |w| >= 3 && w[1..][1] == w[2] && w[2].Signer? && w[1..][2..] == w[3..] && Grouped(w[3..]);
          assert w[2..][0] == w[2] && w[2..][1..] == w[3..];
        }
      }
    }
  }

  // ---------------------------------------------------------------- the machine reads in groups

  function Zip(signers: seq<string>, keys: seq<string>): seq<(string, string)>
    requires |signers| == |keys|
  {
    seq(|signers|, i requires 0 <= i < |signers| => (signers[i], keys[i]))
  }

  /** What has been read of the group that is not finished. */
  function Open(s: State): seq<Arg> {
    if s.signer.Some? && s.key.Some? then [Signer(s.signer.value), InKey(s.key.value)]
    else if s.signer.Some? then [Signer(s.signer.value)]
    else if s.key.Some? then [InKey(s.key.value)]
    else []
  }

  /** The pairs that are finished, and those that will come of the open group and what follows. */
  function Joined(s: State, w: seq<Arg>): Option<seq<(string, string)>>
    requires |s.signers| == |s.keys|
  {
    var rest := Pairs(Open(s) + w);
    if rest.None? then None else Some(Zip(s.signers, s.keys) + rest.value)
  }

  lemma {:induction false} JoinedPushed(s: State, w: seq<Arg>)
    requires s.signer.Some? && |s.signers| == |s.keys| && (s.key.Some? || w == [] || w[0].Signer?)
    ensures Joined(s, w) == Joined(Pushed(s), w)
  {
    var t := Pushed(s);
    var p := (t.signers[|s.signers|], t.keys[|s.keys|]);
    assert Zip(t.signers, t.keys) == Zip(s.signers, s.keys) + [p];
    assert (Open(s) + w)[|Open(s)|..] == w && Open(t) + w == w;
    assert Pairs(Open(s) + w) == After(p, Pairs(w));
    if Pairs(w).Some? {
      assert Zip(s.signers, s.keys) + ([p] + Pairs(w).value) == Zip(t.signers, t.keys) + Pairs(w).value;
    }
  }

  lemma {:induction false} StepJoined(s: State, a: Arg, w: seq<Arg>)
    requires |s.signers| == |s.keys| && !a.KeyOpt?
    ensures Step(s, a).Failure? ==> Step(s, a).error == InKeyWithoutSigner && Joined(s, [a] + w).None?
    ensures Step(s, a).Success? ==>
              var t := Step(s, a).value;
              |t.signers| == |t.keys| && Open(t) != [] && Joined(s, [a] + w) == Joined(t, w)
  {
    match a {
      case Signer(file) => SignerJoined(s, file, w);
      case InKey(file) => InKeyJoined(s, file, w);
    }
  }

  lemma {:induction false} SignerJoined(s: State, file: string, w: seq<Arg>)
    requires |s.signers| == |s.keys|
    ensures var t := Step(s, Signer(file)).value;
            |t.signers| == |t.keys| && Open(t) != [] && Joined(s, [Signer(file)] + w) == Joined(t, w)
  {
    var a, t := Signer(file), Step(s, Signer(file)).value;
    if s.signer.Some? {
      JoinedPushed(s, [a] + w);
      assert Open(Pushed(s)) + ([a] + w) == Open(t) + w;
    } else if s.key.Some? {
      var k := s.key.value;
      var read, kept := Open(s) + ([a] + w), Open(t) + w;
      assert read[0] == InKey(k) && read[1] == a && read[2..] == w;
      assert kept[0] == a && kept[1] == InKey(k) && kept[2..] == w;
    } else {
      assert Open(s) + ([a] + w) == Open(t) + w;
    }
  }

  lemma {:induction false} InKeyJoined(s: State, file: string, w: seq<Arg>)
    requires |s.signers| == |s.keys|
    ensures var r := Step(s, InKey(file));
            && (r.Failure? ==> r.error == InKeyWithoutSigner && Joined(s, [InKey(file)] + w).None?)
            && (r.Success? ==>
                  && |r.value.signers| == |r.value.keys| && Open(r.value) != []
                  && Joined(s, [InKey(file)] + w) == Joined(r.value, w))
  {
    var a, r := InKey(file), Step(s, InKey(file));
    if s.key.Some? && s.signer.Some? {
      JoinedPushed(s, [a] + w);
      assert Open(Pushed(s)) + ([a] + w) == Open(r.value) + w;
    } else if s.key.Some? {
      var read := Open(s) + ([a] + w);
      assert read[0] == InKey(s.key.value) && read[1] == a;
    } else {
      assert Open(s) + ([a] + w) == Open(r.value) + w;
    }
  }

  /** A run from the start with a signer or a key in front. */
  lemma {:induction false} RunJoined(args: seq<Arg>, w: seq<Arg>)
    requires args != [] ==> !args[0].KeyOpt?
    ensures match Run(args)
            case Failure(e) => e == InKeyWithoutSigner && Pairs(Files(args) + w).None?
            case Success(s) =>
              |s.signers| == |s.keys| && (args != [] ==> Open(s) != []) && Pairs(Files(args) + w) == Joined(s, w)
    decreases |args|
  {
    if args == [] {
      assert [] + w == w && Zip([], []) == [];
      if Pairs(w).Some? { assert [] + Pairs(w).value == Pairs(w).value; }
    } else {
      var n := |args| - 1;
      var init, a := args[..n], args[n];
      if a.KeyOpt? {
        RunJoined(init, w);
      } else {
        RunJoined(init, [a] + w);
        assert Files(args) + w == Files(init) + ([a] + w);
        if Run(init).Success? { StepJoined(Run(init).value, a, w); }
      }
    }
  }

  lemma {:induction false} KeyOptFirst(args: seq<Arg>)
    requires args != [] && args[0].KeyOpt?
    ensures Run(args) == Failure(NoKeySpecified)
  {
    assert args[..1][..0] == [];
    FailurePersists(args, 1);
  }

  /**
   The outcome of every command line, in terms of the options alone: it is refused when it is
   empty, when it starts with -keyopt, or when the other options do not fall into groups; and
   otherwise it yields the groups, each signer with the key next to it or with its own file.
   */
  lemma {:induction false} OutcomeIs(args: seq<Arg>)
    ensures args == [] ==> Outcome(args) == Failure(NoSigner)
    ensures args != [] && args[0].KeyOpt? ==> Outcome(args) == Failure(NoKeySpecified)
    ensures args != [] && !args[0].KeyOpt? && !Grouped(Files(args)) ==> Outcome(args) == Failure(InKeyWithoutSigner)
    ensures args != [] && !args[0].KeyOpt? && Grouped(Files(args)) ==>
              && Outcome(args).Success? && |Outcome(args).value.signers| == |Outcome(args).value.keys|
              && Pairs(Files(args)) == Some(Zip(Outcome(args).value.signers, Outcome(args).value.keys))
  {
    PairsIffGrouped(Files(args));
    if args != [] && args[0].KeyOpt? {
      KeyOptFirst(args);
    } else if args != [] {
      RunJoined(args, []);
      assert Files(args) + [] == Files(args);
      if Run(args).Success? { FinishJoined(Run(args).value); }
    }
  }

  lemma {:induction false} FinishJoined(s: State)
    requires |s.signers| == |s.keys| && Open(s) != []
    ensures match Finish(s)
            case Failure(e) => e == InKeyWithoutSigner && Joined(s, []).None?
            case Success(t) => |t.signers| == |t.keys| && Joined(s, []) == Some(Zip(t.signers, t.keys))
  {
    assert Open(s) + [] == Open(s);
    if s.signer.Some? {
      JoinedPushed(s, []);
      var t := Pushed(s);
      assert Open(t) + [] == [] && Zip(t.signers, t.keys) + [] == Zip(t.signers, t.keys);
    }
  }

  /** Two keys that stand before their signers. */
  lemma {:induction false} KeysFirst(ka: string, a: string, kb: string, b: string)
    ensures var r := Outcome([InKey(ka), Signer(a), InKey(kb), Signer(b)]);
            r.Success? && r.value.signers == [a, b] && r.value.keys == [ka, kb]
  {
    var args := [InKey(ka), Signer(a), InKey(kb), Signer(b)];
    assert args[..3] == [InKey(ka), Signer(a), InKey(kb)] && args[..3][..2] == [InKey(ka), Signer(a)];
    assert args[..3][..2][..1] == [InKey(ka)] && [InKey(ka)][..0] == [];
    assert Run([InKey(ka)]) == Success(START.(key := Some(ka)));
    assert Run(args[..3][..2]) == Success(START.(key := Some(ka), signer := Some(a)));
    assert Run(args[..3]).value.signers == [a] && Run(args[..3]).value.keys == [ka];
    assert Outcome(args).value.signers == [a] + [b] && Outcome(args).value.keys == [ka] + [kb];
  }
}
