/**
 How the cms command pairs signers with keys. `-signer`, `-inkey` and `-keyopt` may come in any
 order; two parallel lists and a list of per-key parameters are built while they are read.
 */
module CmsOptions {
  import opened Wrappers

  datatype Arg = Signer(file: string) | InKey(file: string) | KeyOpt(param: string)

  datatype Error = InKeyWithoutSigner | NoKeySpecified | NoSigner

  /** A node of the `cms_key_param` list. */
  datatype Param = Param(idx: nat, args: seq<string>)

  datatype State = State(
    signer: Option<string>, key: Option<string>, signers: seq<string>, keys: seq<string>, params: seq<Param>)

  // ---------------------------------------------------------------- specification

  const START := State(None, None, [], [], [])

  /** The pair under construction joins the lists; a signer without a key is its own key file. */
  function Pushed(s: State): State
    requires s.signer.Some?
  {
    s.(signer := None, key := None,
       signers := s.signers + [s.signer.value],
       keys := s.keys + [if s.key.Some? then s.key.value else s.signer.value])
  }

  function Noted(params: seq<Param>, idx: nat, arg: string): seq<Param> {
    var n := |params|;
    if n == 0 || params[n - 1].idx != idx then params + [Param(idx, [arg])]
    else params[n - 1 := params[n - 1].(args := params[n - 1].args + [arg])]
  }

  function Step(s: State, a: Arg): Result<State, Error> {
    match a
    case Signer(file) => Success((if s.signer.Some? then Pushed(s) else s).(signer := Some(file)))
    case InKey(file) =>
      if s.key.Some? && s.signer.None? then Failure(InKeyWithoutSigner)
      else Success((if s.key.Some? then Pushed(s) else s).(key := Some(file)))
    case KeyOpt(param) =>
      var idx := |s.keys| + (if s.key.Some? || s.signer.Some? then 1 else 0) - 1;
      if idx < 0 then Failure(NoKeySpecified) else Success(s.(params := Noted(s.params, idx, param)))
  }

  function Run(args: seq<Arg>): Result<State, Error> {
    if args == [] then Success(START)
    else
      match Run(args[..|args| - 1])
      case Failure(e) => Failure(e)
      case Success(s) => Step(s, args[|args| - 1])
  }

  /** The check behind the option loop of a signing run. */
  function Finish(s: State): Result<State, Error> {
    if s.key.Some? && s.signer.None? then Failure(InKeyWithoutSigner)
    else
      var t := if s.signer.Some? then Pushed(s) else s;
      if t.signers == [] then Failure(NoSigner) else Success(t.(signer := None, key := None))
  }

  function Outcome(args: seq<Arg>): Result<State, Error> {
    match Run(args)
    case Failure(e) => Failure(e)
    case Success(s) => Finish(s)
  }

  // ---------------------------------------------------------------- the option loop

  class Machine {
    var signerfile: Option<string>
    var keyfile: Option<string>
    var sksigners: seq<string>
    var skkeys: seq<string>
    var params: seq<Param>

    constructor ()
      ensures Value() == START
    {
      signerfile, keyfile, sksigners, skkeys, params := None, None, [], [], [];
    }

    ghost function Value(): State
      reads this
    {
      State(signerfile, keyfile, sksigners, skkeys, params)
    }

    method Option(a: Arg) returns (error: Option<Error>)
      modifies this
      ensures Step(old(Value()), a) == if error.Some? then Failure(error.value) else Success(Value())
    {
      match a {
        case Signer(file) =>
          if signerfile.Some? {
            sksigners := sksigners + [signerfile.value];
            if keyfile == None {
              keyfile := signerfile;
            }
            skkeys := skkeys + [keyfile.value];
            keyfile := None;
          }
          signerfile := Some(file);
        case InKey(file) =>
          if keyfile.Some? {
            if signerfile == None {
              return Some(InKeyWithoutSigner);
            }
            sksigners := sksigners + [signerfile.value];
            signerfile := None;
            skkeys := skkeys + [keyfile.value];
          }
          keyfile := Some(file);
        case KeyOpt(param) =>
          var keyidx := -1;
          if keyfile.Some? || signerfile.Some? {
            keyidx := keyidx + 1;
          }
          keyidx := keyidx + |skkeys|;
          if keyidx < 0 {
            return Some(NoKeySpecified);
          }
          if params == [] || params[|params| - 1].idx != keyidx {
            params := params + [Param(keyidx, [])];
          }
          var last := |params| - 1;
          params := params[last := params[last].(args := params[last].args + [param])];
          assert [] + [param] == [param];
          assert params == Noted(old(params), keyidx, param);
      }
      return None;
    }

    method End() returns (error: Option<Error>)
      modifies this
      ensures Finish(old(Value())) == if error.Some? then Failure(error.value) else Success(Value())
    {
      if keyfile.Some? && signerfile == None {
        return Some(InKeyWithoutSigner);
      }
      if signerfile.Some? {
        sksigners := sksigners + [signerfile.value];
        if keyfile == None {
          keyfile := signerfile;
        }
        skkeys := skkeys + [keyfile.value];
      }
      if sksigners == [] {
        return Some(NoSigner);
      }
      signerfile, keyfile := None, None;
      return None;
    }
  }

  /** A whole command line. */
  method ReadOptions(args: seq<Arg>) returns (r: Result<State, Error>)
    ensures r == Outcome(args)
  {
    var m := new Machine();
    for i := 0 to |args|
      invariant Run(args[..i]) == Success(m.Value()) && fresh(m)
    {
      assert args[..i + 1][..i] == args[..i];
      var error := m.Option(args[i]);
      if error.Some? {
        FailurePersists(args, i + 1);
        return Failure(error.value);
      }
    }
    assert args[..|args|] == args;
    var error := m.End();
    if error.Some? {
      return Failure(error.value);
    }
    return Success(State(m.signerfile, m.keyfile, m.sksigners, m.skkeys, m.params));
  }

  lemma {:induction false} FailurePersists(args: seq<Arg>, k: nat)
    requires k <= |args| && Run(args[..k]).Failure?
    ensures Run(args) == Run(args[..k])
  {
    var n := |args|;
    if k == n {
      assert args[..k] == args;
    } else {
      assert args[..n - 1][..k] == args[..k];
      FailurePersists(args[..n - 1], k);
    }
  }

  // ---------------------------------------------------------------- what the lists hold

  function SignerArgs(args: seq<Arg>): seq<string> {
    if args == [] then []
    else SignerArgs(args[..|args| - 1]) + if args[|args| - 1].Signer? then [args[|args| - 1].file] else []
  }

  function KeyArgs(args: seq<Arg>): seq<string> {
    if args == [] then []
    else KeyArgs(args[..|args| - 1]) + if args[|args| - 1].InKey? then [args[|args| - 1].file] else []
  }

  function Pending(o: Option<string>): seq<string> { if o.Some? then [o.value] else [] }

  /** The keys are the given ones in order, every other key being its signer's own file. */
  ghost predicate Explained(signers: seq<string>, keys: seq<string>, given: seq<string>)
    requires |signers| == |keys|
  {
    if keys == [] then given == []
    else
      var n := |keys| - 1;
      || (keys[n] == signers[n] && Explained(signers[..n], keys[..n], given))
      || (given != [] && keys[n] == given[|given| - 1] && Explained(signers[..n], keys[..n], given[..|given| - 1]))
  }

  ghost predicate Increasing(params: seq<Param>) {
    forall i, j :: 0 <= i < j < |params| ==> params[i].idx < params[j].idx
  }

  /** The lists in step with the options read so far. */
  ghost predicate InStep(s: State, args: seq<Arg>) {
    && |s.signers| == |s.keys|
    && s.signers + Pending(s.signer) == SignerArgs(args)
    && (exists given :: given + Pending(s.key) == KeyArgs(args) && Explained(s.signers, s.keys, given))
    && (s.keys != [] ==> s.signer.Some? || s.key.Some?)
    && Increasing(s.params) && (forall i :: 0 <= i < |s.params| ==> s.params[i].idx <= |s.keys|)
    && (s.params != [] ==> s.signer.Some? || s.key.Some?)
  }

  lemma {:induction false} PushedInStep(s: State, given: seq<string>)
    requires s.signer.Some? && |s.signers| == |s.keys| && Explained(s.signers, s.keys, given)
    ensures |Pushed(s).signers| == |Pushed(s).keys|
    ensures Explained(Pushed(s).signers, Pushed(s).keys, given + Pending(s.key))
  {
    var t := Pushed(s);
    var n := |s.keys|;
    assert t.signers[..n] == s.signers && t.keys[..n] == s.keys;
    assert given + [] == given;
    if s.key.Some? { assert (given + [s.key.value])[..|given|] == given; }
  }

  lemma {:induction false} SignerInStep(s: State, args: seq<Arg>, file: string)
    requires InStep(s, args)
    ensures InStep(Step(s, Signer(file)).value, args + [Signer(file)])
  {
    var given :| given + Pending(s.key) == KeyArgs(args) && Explained(s.signers, s.keys, given);
    var all := args + [Signer(file)];
    assert all[..|args|] == args;
    assert KeyArgs(all) == KeyArgs(args) + [] == KeyArgs(args);
    if s.signer.Some? {
      PushedInStep(s, given);
      assert KeyArgs(args) + Pending(None) == KeyArgs(all);
    }
  }

  lemma {:induction false} InKeyInStep(s: State, args: seq<Arg>, file: string)
    requires InStep(s, args) && Step(s, InKey(file)).Success?
    ensures InStep(Step(s, InKey(file)).value, args + [InKey(file)])
  {
    var given :| given + Pending(s.key) == KeyArgs(args) && Explained(s.signers, s.keys, given);
    var all := args + [InKey(file)];
    assert all[..|args|] == args;
    assert SignerArgs(all) == SignerArgs(args) + [] == SignerArgs(args);
    if s.key.Some? {
      PushedInStep(s, given);
      assert Pushed(s).signers + [] == Pushed(s).signers;
    } else {
      assert given + [] == given;
    }
    assert KeyArgs(args) + Pending(Some(file)) == KeyArgs(all);
  }

  lemma {:induction false} KeyOptInStep(s: State, args: seq<Arg>, param: string)
    requires InStep(s, args) && Step(s, KeyOpt(param)).Success?
    ensures InStep(Step(s, KeyOpt(param)).value, args + [KeyOpt(param)])
  {
    var given :| given + Pending(s.key) == KeyArgs(args) && Explained(s.signers, s.keys, given);
    var t, all := Step(s, KeyOpt(param)).value, args + [KeyOpt(param)];
    KeyOptArgs(args, param);
    NotedIncreasing(s.params, |s.keys|, param);
    assert t == s.(params := Noted(s.params, |s.keys|, param));
    assert given + Pending(t.key) == KeyArgs(all) && Explained(t.signers, t.keys, given);
  }

  lemma {:induction false} NotedIncreasing(params: seq<Param>, idx: nat, param: string)
    requires Increasing(params) && forall i :: 0 <= i < |params| ==> params[i].idx <= idx
    ensures var r := Noted(params, idx, param);
            Increasing(r) && r != [] && forall i :: 0 <= i < |r| ==> r[i].idx <= idx
  {
  }

  lemma {:induction false} KeyOptArgs(args: seq<Arg>, param: string)
    ensures SignerArgs(args + [KeyOpt(param)]) == SignerArgs(args)
    ensures KeyArgs(args + [KeyOpt(param)]) == KeyArgs(args)
  {
    assert (args + [KeyOpt(param)])[..|args|] == args;
  }

  lemma {:induction false} StepInStep(s: State, args: seq<Arg>, a: Arg)
    requires InStep(s, args) && Step(s, a).Success?
    ensures InStep(Step(s, a).value, args + [a])
  {
    match a {
      case Signer(file) => SignerInStep(s, args, file);
      case InKey(file) => InKeyInStep(s, args, file);
      case KeyOpt(param) => KeyOptInStep(s, args, param);
    }
  }

  lemma {:induction false} RunInStep(args: seq<Arg>)
    requires Run(args).Success?
    ensures InStep(Run(args).value, args)
  {
    if args == [] {
      assert [] + Pending(None) == KeyArgs(args) && Explained([], [], []);
    } else {
      var n := |args| - 1;
      RunInStep(args[..n]);
      StepInStep(Run(args[..n]).value, args[..n], args[n]);
      assert args[..n] + [args[n]] == args;
    }
  }

  /**
   A signing run that succeeds has all -signer files in order, a key for each of them: the -inkey
   files in order where they were given, the signer's own file elsewhere.
   */
  lemma {:induction false} OutcomeLists(args: seq<Arg>)
    requires Outcome(args).Success?
    ensures var s := Outcome(args).value;
            && s.signers == SignerArgs(args) && s.signers != [] && |s.keys| == |s.signers|
            && Explained(s.signers, s.keys, KeyArgs(args))
            && Increasing(s.params) && (forall i :: 0 <= i < |s.params| ==> s.params[i].idx < |s.keys|)
  {
    var s := Run(args).value;
    RunInStep(args);
    var given :| given + Pending(s.key) == KeyArgs(args) && Explained(s.signers, s.keys, given);
    if s.signer.Some? {
      PushedInStep(s, given);
    }
  }

  // ---------------------------------------------------------------- which pair an option belongs to

  /** The -keyopt arguments, each with the number of pairs that were complete when it was read. */
  function KeyOptLog(args: seq<Arg>): seq<(nat, string)> {
    if args == [] then []
    else
      var n := |args| - 1;
      KeyOptLog(args[..n]) +
        if args[n].KeyOpt? && Run(args[..n]).Success? then [(|Run(args[..n]).value.keys|, args[n].param)] else []
  }

  function Tagged(p: Param): (r: seq<(nat, string)>)
    ensures |r| == |p.args|
  {
    seq(|p.args|, i requires 0 <= i < |p.args| => (p.idx, p.args[i]))
  }

  function Flat(params: seq<Param>): seq<(nat, string)> {
    if params == [] then [] else Flat(params[..|params| - 1]) + Tagged(params[|params| - 1])
  }

  lemma {:induction false} FlatNoted(params: seq<Param>, idx: nat, arg: string)
    ensures Flat(Noted(params, idx, arg)) == Flat(params) + [(idx, arg)]
  {
    var n := |params|;
    var r := Noted(params, idx, arg);
    if n == 0 || params[n - 1].idx != idx {
      assert r[..n] == params && Tagged(Param(idx, [arg])) == [(idx, arg)];
    } else {
      assert r[..n - 1] == params[..n - 1];
      assert Tagged(r[n - 1]) == Tagged(params[n - 1]) + [(idx, arg)];
    }
  }

  /** Read along the list, the recorded parameters are the -keyopt options in order, each at its pair. */
  lemma {:induction false} ParamsAreKeyOpts(args: seq<Arg>)
    requires Run(args).Success?
    ensures Flat(Run(args).value.params) == KeyOptLog(args)
  {
    if args != [] {
      var n := |args| - 1;
      ParamsAreKeyOpts(args[..n]);
      RunInStep(args[..n]);
      var s := Run(args[..n]).value;
      if args[n].KeyOpt? {
        FlatNoted(s.params, |s.keys|, args[n].param);
      }
    }
  }

  /** What is at position `n` of a list, or still under construction for it. */
  ghost predicate Occupies(list: seq<string>, open: Option<string>, n: nat, file: string) {
    if n < |list| then list[n] == file else n == |list| && open == Some(file)
  }

  /** Nothing that was put into `s` is lost or moved in `t`. */
  ghost predicate Becomes(s: State, t: State) {
    && |s.signers| == |s.keys| && |t.signers| == |t.keys|
    && s.signers <= t.signers && s.keys <= t.keys
    && (s.signer.Some? ==> Occupies(t.signers, t.signer, |s.keys|, s.signer.value))
    && (s.key.Some? ==> Occupies(t.keys, t.key, |s.keys|, s.key.value))
  }

  lemma {:induction false} BecomesStep(s: State, t: State, a: Arg)
    requires Becomes(s, t) && Step(t, a).Success?
    ensures Becomes(s, Step(t, a).value)
  {
  }

  lemma {:induction false} BecomesRun(args: seq<Arg>, k: nat)
    requires k <= |args| && Run(args).Success?
    ensures Run(args[..k]).Success? && Becomes(Run(args[..k]).value, Run(args).value)
  {
    var n := |args|;
    if k == n {
      assert args[..k] == args;
      RunInStep(args);
    } else {
      BecomesRun(args[..n - 1], k);
      assert args[..n - 1][..k] == args[..k];
      BecomesStep(Run(args[..k]).value, Run(args[..n - 1]).value, args[n - 1]);
    }
  }

  /**
   A -keyopt in the k-th place goes to the pair that was under construction then: its position in
   the final lists is where the signer and the key named so far for that pair end up.
   */
  lemma {:induction false} KeyOptPair(args: seq<Arg>, k: nat)
    requires Outcome(args).Success? && k < |args| && args[k].KeyOpt?
    ensures Run(args[..k]).Success?
    ensures var s, t := Run(args[..k]).value, Outcome(args).value;
            && (s.signer.Some? || s.key.Some?) && |s.keys| < |t.keys| == |t.signers|
            && (s.signer.Some? ==> t.signers[|s.keys|] == s.signer.value)
            && (s.key.Some? ==> t.keys[|s.keys|] == s.key.value)
  {
    BecomesRun(args, k);
    BecomesRun(args, k + 1);
    assert args[..k + 1][..k] == args[..k];
    RunInStep(args[..k]);
    RunInStep(args);
  }
}
