/**
 The command's own table of revocation reasons, by name: what each word is written as, and which
 code and argument it is read as.
 */
module CaReasons {
  import opened Wrappers
  import opened CText
  import opened CaRevocation

  // ---------------------------------------------------------------- letters

  /** The same character, or the capital and the small form of one letter of ASCII. */
  predicate SameLetter(c: char, d: char) {
    || c == d
    || (65 <= c as int <= 90 && d as int == c as int + 32)
    || (65 <= d as int <= 90 && c as int == d as int + 32)
  }

  ghost predicate CaseVariant(s: string, word: string) {
    |s| == |word| && forall i :: 0 <= i < |s| ==> SameLetter(s[i], word[i])
  }

  lemma {:induction false} LowerIffSameLetter(c: char, d: char)
    ensures ToLower(c) == ToLower(d) <==> SameLetter(c, d)
  {
  }

  /** `strcasecmp` */
  lemma {:induction false} EqualIffVariant(s: string, word: string)
    ensures EqualIgnoringCase(s, word) <==> CaseVariant(s, word)
  {
    if |s| == |word| {
      forall i | 0 <= i < |s| ensures ToLower(s[i]) == ToLower(word[i]) <==> SameLetter(s[i], word[i]) {
        LowerIffSameLetter(s[i], word[i]);
      }
    }
  }

  // ---------------------------------------------------------------- reading

  /** What a revocation field says, word by word. */
  ghost function Meaning(time: string, word: Option<string>, arg: Option<string>, lib: Asn1): Option<Info> {
    if !lib.utcTime(time) then None
    else if word == None then Some(Info(time, -1, None, None))
    else if CaseVariant(word.value, "unspecified") then Some(Info(time, 0, None, None))
    else if CaseVariant(word.value, "keyCompromise") then Some(Info(time, 1, None, None))
    else if CaseVariant(word.value, "CACompromise") then Some(Info(time, 2, None, None))
    else if CaseVariant(word.value, "affiliationChanged") then Some(Info(time, 3, None, None))
    else if CaseVariant(word.value, "superseded") then Some(Info(time, 4, None, None))
    else if CaseVariant(word.value, "cessationOfOperation") then Some(Info(time, 5, None, None))
    else if CaseVariant(word.value, "certificateHold") then Some(Info(time, 6, None, None))
    else if CaseVariant(word.value, "removeFromCRL") then Some(Info(time, 8, None, None))
    else if CaseVariant(word.value, "holdInstruction") && arg.Some? && lib.objectId(arg.value)
    then Some(Info(time, 6, arg, None))
    else if CaseVariant(word.value, "keyTime") && arg.Some? && lib.generalizedTime(arg.value)
    then Some(Info(time, 1, None, arg))
    else if CaseVariant(word.value, "CAkeyTime") && arg.Some? && lib.generalizedTime(arg.value)
    then Some(Info(time, 2, None, arg))
    else None
  }

  /** At most one word of the table equals a string up to case. */
  lemma {:induction false} VariantOfOne(s: string, i: nat, j: nat)
    requires i < NUM_REASONS && j < NUM_REASONS
    requires CaseVariant(s, CRL_REASON_WORDS[i]) && CaseVariant(s, CRL_REASON_WORDS[j])
    ensures i == j
  {
    EqualIffVariant(s, CRL_REASON_WORDS[i]);
    EqualIffVariant(s, CRL_REASON_WORDS[j]);
    CrlReasonsDiffer(i, j);
  }

  lemma {:induction false} IndexOfVariant(s: string, n: nat, i: nat)
    requires i < n <= NUM_REASONS && CaseVariant(s, CRL_REASON_WORDS[i])
    ensures ReasonIndex(CRL_REASON_WORDS, s, n) == i
  {
    EqualIffVariant(s, CRL_REASON_WORDS[i]);
    var j := ReasonIndex(CRL_REASON_WORDS, s, n);
    EqualIffVariant(s, CRL_REASON_WORDS[j]);
    VariantOfOne(s, i, j);
  }

  lemma {:induction false} VariantAtIndex(s: string, n: nat)
    requires n <= NUM_REASONS
    ensures var i := ReasonIndex(CRL_REASON_WORDS, s, n);
            if i < n then CaseVariant(s, CRL_REASON_WORDS[i])
            else forall j :: 0 <= j < n ==> !CaseVariant(s, CRL_REASON_WORDS[j])
  {
    forall j | 0 <= j < n ensures EqualIgnoringCase(s, CRL_REASON_WORDS[j]) <==> CaseVariant(s, CRL_REASON_WORDS[j]) {
      EqualIffVariant(s, CRL_REASON_WORDS[j]);
    }
  }

  /** The table, word by word. */
  lemma {:induction false} TableByName()
    ensures var w := CRL_REASON_WORDS;
            && w[0] == "unspecified" && w[1] == "keyCompromise" && w[2] == "CACompromise"
            && w[3] == "affiliationChanged" && w[4] == "superseded" && w[5] == "cessationOfOperation"
            && w[6] == "certificateHold" && w[7] == "removeFromCRL" && w[8] == "holdInstruction"
            && w[9] == "keyTime" && w[10] == "CAkeyTime"
  {
  }

  lemma {:induction false} InterpretIs(time: string, word: Option<string>, arg: Option<string>, lib: Asn1)
    ensures Interpret(CRL_REASON_WORDS, time, word, arg, lib) == Meaning(time, word, arg, lib)
  {
    if word.Some? {
      var i := ReasonIndex(CRL_REASON_WORDS, word.value, NUM_REASONS);
      VariantAtIndex(word.value, NUM_REASONS);
      if i < NUM_REASONS {
        MeaningOfWord(time, word.value, arg, lib, i);
        InterpretWord(CRL_REASON_WORDS, time, word.value, arg, lib);
      } else {
        TableByName();
      }
    }
  }

  /** The code and argument that belong to a place of the table. */
  ghost function CodeAt(time: string, i: nat, arg: Option<string>, lib: Asn1): Option<Info> {
    if i < 7 then Some(Info(time, i, None, None))
    else if i == 7 then Some(Info(time, 8, None, None))
    else if i == 8 then if arg.Some? && lib.objectId(arg.value) then Some(Info(time, 6, arg, None)) else None
    else if arg.Some? && lib.generalizedTime(arg.value) then Some(Info(time, if i == 9 then 1 else 2, None, arg))
    else None
  }

  lemma {:induction false} InterpretWord(words: Table, time: string, word: string, arg: Option<string>, lib: Asn1)
    requires ReasonIndex(words, word, NUM_REASONS) < NUM_REASONS
    ensures Interpret(words, time, Some(word), arg, lib) ==
            if lib.utcTime(time) then CodeAt(time, ReasonIndex(words, word, NUM_REASONS), arg, lib) else None
  {
  }

  lemma {:induction false} MeaningOfWord(time: string, word: string, arg: Option<string>, lib: Asn1, i: nat)
    requires i < NUM_REASONS && CaseVariant(word, CRL_REASON_WORDS[i])
    ensures Meaning(time, Some(word), arg, lib) == if lib.utcTime(time) then CodeAt(time, i, arg, lib) else None
  {
    forall j | 0 <= j < NUM_REASONS && j != i ensures !CaseVariant(word, CRL_REASON_WORDS[j]) {
      if CaseVariant(word, CRL_REASON_WORDS[j]) { VariantOfOne(word, i, j); }
    }
    TableByName();
  }

  /** Reading any field, of whatever form: which words are known, what they need, and what they mean. */
  lemma {:induction false} UnpackIs(time: string, word: Option<string>, arg: Option<string>, lib: Asn1)
    requires CommaFree(time) && (word.Some? ==> CommaFree(word.value)) && (arg.Some? ==> word.Some?)
    ensures var field := if word == None then time else if arg == None then time + "," + word.value
                         else time + "," + (word.value + "," + arg.value);
            Unpack(CRL_REASON_WORDS, field, lib) == Meaning(time, word, arg, lib)
  {
    SplitJoin(time, word, arg);
    InterpretIs(time, word, arg, lib);
  }

  /** Every field has one of these forms. */
  lemma {:induction false} FieldForms(field: string) returns (time: string, word: Option<string>, arg: Option<string>)
    ensures CommaFree(time) && (word.Some? ==> CommaFree(word.value)) && (arg.Some? ==> word.Some?)
    ensures field == if word == None then time else if arg == None then time + "," + word.value
                     else time + "," + (word.value + "," + arg.value)
  {
    var i := AtComma(field);
    if i == |field| {
      return field, None, None;
    }
    var rest := field[i + 1..];
    var j := AtComma(rest);
    if j == |rest| {
      return field[..i], Some(rest), None;
    }
    return field[..i], Some(rest[..j]), Some(rest[j + 1..]);
  }

  lemma {:induction false} AtComma(s: string) returns (i: nat)
    ensures i <= |s| && CommaFree(s[..i]) && (i == |s| ==> CommaFree(s)) && (i < |s| ==> s == s[..i] + "," + s[i + 1..])
  {
    i := Comma(s);
    if i < |s| {
      assert s == s[..i] + [s[i]] + s[i + 1..];
    } else {
      assert s[..i] == s;
    }
  }

  // ---------------------------------------------------------------- writing

  /** What is written for a valid request, by name. */
  lemma {:induction false} TextIs(r: Revocation, now: string, lib: Asn1)
    ensures r.Unexplained? ==> RevocationText(CRL_REASON_WORDS, r, now, lib) == Some(now)
    ensures r.Hold? && lib.objectId(r.instruction) ==>
              RevocationText(CRL_REASON_WORDS, r, now, lib) ==
              Some(now + "," + ("holdInstruction" + "," + r.instruction))
    ensures r.KeyCompromised? && lib.generalizedTime(r.since) ==>
              RevocationText(CRL_REASON_WORDS, r, now, lib) == Some(now + "," + ("keyTime" + "," + r.since))
    ensures r.CaCompromised? && lib.generalizedTime(r.since) ==>
              RevocationText(CRL_REASON_WORDS, r, now, lib) == Some(now + "," + ("CAkeyTime" + "," + r.since))
  {
    TableByName();
  }

  /** A reason is written as the word of the table, in the table's own spelling, and read as its code. */
  lemma {:induction false} ReasonReads(name: string, i: nat, now: string, lib: Asn1)
    requires i < 8 && CaseVariant(name, CRL_REASON_WORDS[i]) && lib.utcTime(now) && CommaFree(now)
    ensures RevocationText(CRL_REASON_WORDS, Reason(name), now, lib) == Some(now + "," + CRL_REASON_WORDS[i])
    ensures Unpack(CRL_REASON_WORDS, now + "," + CRL_REASON_WORDS[i], lib) ==
            Some(Info(now, if i == 7 then 8 else i, None, None))
  {
    CrlReasonsUnambiguous();
    IndexOfVariant(name, 8, i);
    ReasonReadsIn(CRL_REASON_WORDS, name, i, now, lib);
  }

  lemma {:induction false} ReasonReadsIn(words: Table, name: string, i: nat, now: string, lib: Asn1)
    requires Unambiguous(words) && i == ReasonIndex(words, name, 8) < 8 && lib.utcTime(now) && CommaFree(now)
    ensures RevocationText(words, Reason(name), now, lib) == Some(now + "," + words[i])
    ensures Unpack(words, now + "," + words[i], lib) == Some(Info(now, if i == 7 then 8 else i, None, None))
  {
    NameExplains(words, name, now, lib);
    SplitJoin(now, Some(words[i]), None);
  }

  /** The name is written as the word, and read back as the code. */
  ghost predicate ReadsAs(name: string, word: string, code: int, now: string, lib: Asn1) {
    CaseVariant(name, word) ==>
      && RevocationText(CRL_REASON_WORDS, Reason(name), now, lib) == Some(now + "," + word)
      && Unpack(CRL_REASON_WORDS, now + "," + word, lib) == Some(Info(now, code, None, None))
  }

  /** The codes of section 5.3.1 of RFC 5280, for every spelling of the names in capital and small letters. */
  lemma {:induction false} ReasonCodes(name: string, now: string, lib: Asn1)
    requires lib.utcTime(now) && CommaFree(now)
    ensures ReadsAs(name, "unspecified", 0, now, lib) && ReadsAs(name, "keyCompromise", 1, now, lib)
    ensures ReadsAs(name, "CACompromise", 2, now, lib) && ReadsAs(name, "affiliationChanged", 3, now, lib)
    ensures ReadsAs(name, "superseded", 4, now, lib) && ReadsAs(name, "cessationOfOperation", 5, now, lib)
    ensures ReadsAs(name, "certificateHold", 6, now, lib) && ReadsAs(name, "removeFromCRL", 8, now, lib)
  {
    TableByName();
    forall i: nat | i < 8
      ensures ReadsAs(name, CRL_REASON_WORDS[i], if i == 7 then 8 else i, now, lib)
    {
      if CaseVariant(name, CRL_REASON_WORDS[i]) { ReasonReads(name, i, now, lib); }
    }
  }

  lemma {:induction false} CapitalsRead(now: string, lib: Asn1)
    requires lib.utcTime(now) && CommaFree(now)
    ensures RevocationText(CRL_REASON_WORDS, Reason("KEYCOMPROMISE"), now, lib) == Some(now + "," + "keyCompromise")
    ensures Unpack(CRL_REASON_WORDS, now + "," + "keyCompromise", lib) == Some(Info(now, 1, None, None))
  {
    CapitalsVary();
    TableByName();
    ReasonReads("KEYCOMPROMISE", 1, now, lib);
  }

  lemma {:induction false} CapitalsVary()
    ensures CaseVariant("KEYCOMPROMISE", "keyCompromise")
  {
    var s, w := "KEYCOMPROMISE", "keyCompromise";
    assert SameLetter(s[0], w[0]) && SameLetter(s[1], w[1]) && SameLetter(s[2], w[2]) && SameLetter(s[3], w[3]);
    assert SameLetter(s[4], w[4]) && SameLetter(s[5], w[5]) && SameLetter(s[6], w[6]) && SameLetter(s[7], w[7]);
    assert SameLetter(s[8], w[8]) && SameLetter(s[9], w[9]) && SameLetter(s[10], w[10]);
    assert SameLetter(s[11], w[11]) && SameLetter(s[12], w[12]);
  }
}
