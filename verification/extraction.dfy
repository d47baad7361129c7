/**
 * `extractSigs`: for every signed template, a row with one `""` slot per
 * input; each instruction then overwrites the slot at its index with the
 * lowercase hexadecimal of the signature read back from that input.
 */
module Extraction {
  import opened Wrappers
  import opened Bytes
  import opened Psbt

  /** The input holds a signature `extractSigs` can read without throwing. */
  predicate HasSignature(input: Input) {
    if input.tapLeafScript.Some? || input.tapKeySig.Some? then
      input.tapKeySig.Some? || |input.tapScriptSig| > 0
    else
      |input.partialSig| > 0
  }

  /**
   * The signature read back from input `index` of template `t`, by
   * precedence: `tapKeySig`; else, when `tapLeafScript` is present, the
   * first `tapScriptSig`; else the first `partialSig`'s signature, or no
   * bytes when that entry has none. A missing list is a TypeError.
   */
  function SignatureOf(input: Input, t: nat, index: nat): (r: Result<seq<Byte>, Error>)
    ensures r.Success? <==> HasSignature(input)
    ensures input.tapKeySig.Some? ==> r == Success(input.tapKeySig.value)
    ensures input.tapKeySig.None? && input.tapLeafScript.Some? ==>
      r == if |input.tapScriptSig| > 0 then Success(input.tapScriptSig[0]) else Failure(MissingScriptSig(t, index))
    ensures input.tapKeySig.None? && input.tapLeafScript.None? ==>
      r == if |input.partialSig| > 0 then Success(input.partialSig[0].GetOr([])) else Failure(MissingPartialSig(t, index))
  {
    if input.tapLeafScript.Some? || input.tapKeySig.Some? then
      if input.tapKeySig.Some? then Success(input.tapKeySig.value)
      else if |input.tapScriptSig| > 0 then Success(input.tapScriptSig[0])
      else Failure(MissingScriptSig(t, index))
    else if |input.partialSig| > 0 then Success(input.partialSig[0].GetOr([]))
    else Failure(MissingPartialSig(t, index))
  }

  /** The row `extractSigs` builds for template `t` after its first `|instrs|` instructions. */
  function ExtractRow(inputs: seq<Input>, t: nat, instrs: seq<Instruction>): (r: Result<seq<string>, Error>)
    ensures r.Success? ==> |r.value| == |inputs|
  {
    if |instrs| == 0 then Success(seq(|inputs|, _ => ""))
    else
      var n := |instrs| - 1;
      var done := ExtractRow(inputs, t, instrs[..n]);
      if done.Failure? then done
      else
        var index := instrs[n].index;
        if index >= |inputs| then Failure(InputOutOfRange(t, index))
        else
          var sig := SignatureOf(inputs[index], t, index);
          if sig.Failure? then Failure(sig.error)
          else Success(done.value[index := Hex(sig.value)])
  }

  /** The signature matrix `extractSigs` returns: one row per template. */
  function ExtractAll(psbts: seq<Template>, toSign: seq<seq<Instruction>>): (r: Result<seq<seq<string>>, Error>)
    ensures r.Success? ==> |toSign| >= |psbts| && |r.value| == |psbts|
  {
    if |psbts| == 0 then Success([])
    else
      var n := |psbts| - 1;
      var done := ExtractAll(psbts[..n], toSign);
      if done.Failure? then done
      else if |toSign| <= n then Failure(MissingInstructions(n))
      else
        var row := ExtractRow(psbts[n].inputs, n, toSign[n]);
        if row.Failure? then Failure(row.error)
        else Success(done.value + [row.value])
  }

  /** An instruction `extractSigs` can read back: its input exists and holds a signature. */
  predicate Readable(inputs: seq<Input>, args: Instruction) {
    args.index < |inputs| && HasSignature(inputs[args.index])
  }

  /**
   * `row` is the extracted row of a template: one slot per input, the
   * hexadecimal signature of every input an instruction names and `""`
   * for every other input.
   */
  ghost predicate RowMatches(row: seq<string>, inputs: seq<Input>, t: nat, instrs: seq<Instruction>) {
    && |row| == |inputs|
    && forall k :: 0 <= k < |inputs| ==>
         if k in Targets(instrs) then
           SignatureOf(inputs[k], t, k).Success? && row[k] == Hex(SignatureOf(inputs[k], t, k).value)
         else
           row[k] == ""
  }

  /** Extracting a row succeeds exactly when every instruction is readable. */
  lemma {:induction false} ExtractRowSucceedsIff(inputs: seq<Input>, t: nat, instrs: seq<Instruction>)
    ensures ExtractRow(inputs, t, instrs).Success? <==> forall j :: 0 <= j < |instrs| ==> Readable(inputs, instrs[j])
  {
    if |instrs| > 0 {
      var n := |instrs| - 1;
      var prefix := instrs[..n];
      ExtractRowSucceedsIff(inputs, t, prefix);
      assert forall j :: 0 <= j < n ==> prefix[j] == instrs[j];
    }
  }

  /**
   * The extracted row: untouched slots stay `""`, and every slot an
   * instruction names holds that input's signature in hexadecimal, however
   * often and in whatever order the index is named.
   */
  lemma {:induction false} ExtractRowSlots(inputs: seq<Input>, t: nat, instrs: seq<Instruction>)
    requires ExtractRow(inputs, t, instrs).Success?
    ensures RowMatches(ExtractRow(inputs, t, instrs).value, inputs, t, instrs)
  {
    if |instrs| > 0 {
      var n := |instrs| - 1;
      var prefix := instrs[..n];
      ExtractRowSlots(inputs, t, prefix);
      assert Targets(instrs) == Targets(prefix) + {instrs[n].index};
    }
  }

  lemma {:induction false} ExtractRowFailurePersists(inputs: seq<Input>, t: nat, instrs: seq<Instruction>, n: nat)
    requires n <= |instrs| && ExtractRow(inputs, t, instrs[..n]).Failure?
    ensures ExtractRow(inputs, t, instrs) == ExtractRow(inputs, t, instrs[..n])
  {
    if n < |instrs| {
      var m := |instrs| - 1;
      assert instrs[..m][..n] == instrs[..n];
      ExtractRowFailurePersists(inputs, t, instrs[..m], n);
    } else {
      assert instrs[..n] == instrs;
    }
  }

  lemma {:induction false} ExtractAllFailurePersists(psbts: seq<Template>, toSign: seq<seq<Instruction>>, n: nat)
    requires n <= |psbts| && ExtractAll(psbts[..n], toSign).Failure?
    ensures ExtractAll(psbts, toSign) == ExtractAll(psbts[..n], toSign)
  {
    if n < |psbts| {
      var m := |psbts| - 1;
      assert psbts[..m][..n] == psbts[..n];
      ExtractAllFailurePersists(psbts[..m], toSign, n);
    } else {
      assert psbts[..n] == psbts;
    }
  }

  /** A failure while extracting row `i` aborts the whole of `extractSigs` with that error. */
  lemma ExtractAllAbortsAt(psbts: seq<Template>, toSign: seq<seq<Instruction>>, i: nat, e: Error)
    requires i < |psbts| && ExtractAll(psbts[..i], toSign).Success?
    requires if i < |toSign| then ExtractRow(psbts[i].inputs, i, toSign[i]) == Failure(e)
             else e == MissingInstructions(i)
    ensures ExtractAll(psbts, toSign) == Failure(e)
  {
    assert psbts[..i + 1][..i] == psbts[..i];
    ExtractAllFailurePersists(psbts, toSign, i + 1);
  }

  lemma {:induction false} ExtractAllRows(psbts: seq<Template>, toSign: seq<seq<Instruction>>)
    requires ExtractAll(psbts, toSign).Success?
    ensures forall i :: 0 <= i < |psbts| ==> ExtractRow(psbts[i].inputs, i, toSign[i]) == Success(ExtractAll(psbts, toSign).value[i])
  {
    if |psbts| > 0 {
      var n := |psbts| - 1;
      var prefix := psbts[..n];
      ExtractAllRows(prefix, toSign);
      var out := ExtractAll(psbts, toSign).value;
      var before := ExtractAll(prefix, toSign).value;
      assert out == before + [ExtractRow(psbts[n].inputs, n, toSign[n]).value];
      forall i | 0 <= i < n ensures ExtractRow(psbts[i].inputs, i, toSign[i]) == Success(out[i]) {
        assert prefix[i] == psbts[i] && out[i] == before[i];
      }
    }
  }

  /**
   * The signature matrix: one row per template and, in row `i`, one slot per
   * input of template `i`, holding the hexadecimal signature of every input
   * an instruction names and `""` elsewhere.
   */
  lemma ExtractAllMatrix(psbts: seq<Template>, toSign: seq<seq<Instruction>>)
    requires ExtractAll(psbts, toSign).Success?
    ensures |ExtractAll(psbts, toSign).value| == |psbts| <= |toSign|
    ensures forall i :: 0 <= i < |psbts| ==>
      RowMatches(ExtractAll(psbts, toSign).value[i], psbts[i].inputs, i, toSign[i])
  {
    ExtractAllRows(psbts, toSign);
    forall i | 0 <= i < |psbts|
      ensures RowMatches(ExtractAll(psbts, toSign).value[i], psbts[i].inputs, i, toSign[i])
    {
      ExtractRowSlots(psbts[i].inputs, i, toSign[i]);
    }
  }

  /** `extractSigs` succeeds exactly when every template has its instructions and each is readable. */
  lemma {:induction false} ExtractAllSucceedsIff(psbts: seq<Template>, toSign: seq<seq<Instruction>>)
    ensures ExtractAll(psbts, toSign).Success? <==>
      && |toSign| >= |psbts|
      && forall i, j :: 0 <= i < |psbts| && 0 <= j < |toSign[i]| ==> Readable(psbts[i].inputs, toSign[i][j])
  {
    if |psbts| > 0 {
      var n := |psbts| - 1;
      var prefix := psbts[..n];
      ExtractAllSucceedsIff(prefix, toSign);
      assert forall i :: 0 <= i < n ==> prefix[i] == psbts[i];
      if n < |toSign| {
        ExtractRowSucceedsIff(psbts[n].inputs, n, toSign[n]);
      }
    }
  }

  /**
   * `extractSigs(psbts, toSignInputs)`: pushes a row of `""` per template and
   * writes `sigs[i][index]` for each of its instructions; it agrees with
   * `ExtractAll`, whose lemmas above say what the matrix holds.
   */
  method ExtractSigs(psbts: seq<Template>, toSignInputs: seq<seq<Instruction>>)
    returns (r: Result<seq<seq<string>>, Error>)
    ensures r == ExtractAll(psbts, toSignInputs)
    ensures r.Success? ==> |r.value| == |psbts|
  {
    var sigs: seq<seq<string>> := [];
    var i := 0;
    while i < |psbts|
      invariant 0 <= i <= |psbts|
      invariant ExtractAll(psbts[..i], toSignInputs) == Success(sigs)
    {
      assert psbts[..i + 1][..i] == psbts[..i];
      if i >= |toSignInputs| {
        ExtractAllAbortsAt(psbts, toSignInputs, i, MissingInstructions(i));
        return Failure(MissingInstructions(i));
      }
      var inputs := psbts[i].inputs;
      var row: seq<string> := seq(|inputs|, _ => "");
      var j := 0;
      while j < |toSignInputs[i]|
        invariant 0 <= j <= |toSignInputs[i]|
        invariant ExtractRow(inputs, i, toSignInputs[i][..j]) == Success(row)
      {
        assert toSignInputs[i][..j + 1][..j] == toSignInputs[i][..j];
        var index := toSignInputs[i][j].index;
        if index >= |inputs| {
          ExtractRowFailurePersists(inputs, i, toSignInputs[i], j + 1);
          ExtractAllAbortsAt(psbts, toSignInputs, i, InputOutOfRange(i, index));
          return Failure(InputOutOfRange(i, index));
        }
        var input := inputs[index];
        var sig: seq<Byte>;
        if input.tapLeafScript.Some? || input.tapKeySig.Some? {
          if input.tapKeySig.Some? {
            sig := input.tapKeySig.value;
          } else if |input.tapScriptSig| > 0 {
            sig := input.tapScriptSig[0];
          } else {
            ExtractRowFailurePersists(inputs, i, toSignInputs[i], j + 1);
            ExtractAllAbortsAt(psbts, toSignInputs, i, MissingScriptSig(i, index));
            return Failure(MissingScriptSig(i, index));
          }
        } else if |input.partialSig| > 0 {
          sig := input.partialSig[0].GetOr([]);
        } else {
          ExtractRowFailurePersists(inputs, i, toSignInputs[i], j + 1);
          ExtractAllAbortsAt(psbts, toSignInputs, i, MissingPartialSig(i, index));
          return Failure(MissingPartialSig(i, index));
        }
        row := row[index := Hex(sig)];
        j := j + 1;
      }
      assert toSignInputs[i][..j] == toSignInputs[i];
      sigs := sigs + [row];
      i := i + 1;
    }
    assert psbts[..i] == psbts;
    r := Success(sigs);
  }
}
