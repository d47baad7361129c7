/**
 * `signPsbt`: derives the raw and the tweaked signer once, then walks the
 * templates and, within each, its instructions in order, asking the PSBT
 * library to sign one input per instruction, by the script path (with the
 * TapLeaf hash of the input's first leaf) when the input carries
 * `tapLeafScript` and by `signInput` otherwise.
 *
 * The library's signing routines are not modelled: they are the two
 * functions of a `Library`, each mapping the input it signs to the input
 * with the signature written in. Every call is also recorded, with its
 * template, input index, signer and leaf hash, in a trace.
 */
module Signing {
  import opened Wrappers
  import opened Taproot
  import opened Psbt

  /** bitcoinjs-lib's `psbt.signTaprootInput(index, signer, leafHash)` and `psbt.signInput(index, signer)`. */
  datatype Library = Library(
    signTaprootInput: (Input, Signer, Hash) -> Input,
    signInput: (Input, Signer) -> Input)

  /** One signing call: which template, which input, which key and, on the script path, which leaf hash. */
  datatype SignCall = SignCall(template: nat, index: nat, signer: Signer, leafHash: Option<Hash>)

  /** The library leaves the `tapLeafScript` of the input it signs as it was. */
  ghost predicate PreservesLeaves(lib: Library) {
    && (forall input, signer, hash :: lib.signTaprootInput(input, signer, hash).tapLeafScript == input.tapLeafScript)
    && (forall input, signer :: lib.signInput(input, signer).tapLeafScript == input.tapLeafScript)
  }

  /** `args.disableTweakSigner === true ? keyPair : tweakedSigner`. */
  function SelectSigner(args: Instruction, key: KeyPair): (s: Signer)
    ensures s == Raw(key) <==> args.disableTweakSigner == Some(true)
    ensures s != Raw(key) ==> s == TweakedSigner(key)
  {
    if args.disableTweakSigner == Some(true) then Raw(key) else TweakedSigner(key)
  }

  /** An instruction `signPsbt` can carry out: its input exists and does not carry an empty leaf list. */
  predicate Signable(inputs: seq<Input>, args: Instruction) {
    args.index < |inputs| && !HasEmptyLeafList(inputs[args.index])
  }

  /** Every template has its instruction list and every instruction is signable. */
  predicate SignableRequest(templates: seq<Template>, toSign: seq<seq<Instruction>>) {
    && |toSign| >= |templates|
    && forall i, j :: 0 <= i < |templates| && 0 <= j < |toSign[i]| ==> Signable(templates[i].inputs, toSign[i][j])
  }

  /** The leaf hash the script path signs with: that of the input's first leaf; none on the key path. */
  function LeafHashOf(input: Input): Option<Hash>
    requires !HasEmptyLeafList(input)
  {
    match input.tapLeafScript
    case Some(leaves) => Some(TapLeafHash(leaves[0]))
    case None => None
  }

  /** One iteration of the inner loop of `signPsbt`, on the current inputs of template `t`. */
  function SignStep(inputs: seq<Input>, t: nat, args: Instruction, key: KeyPair, lib: Library)
    : (r: Result<(seq<Input>, SignCall), Error>)
    ensures r.Success? <==> Signable(inputs, args)
    ensures r.Success? ==> |r.value.0| == |inputs|
    ensures r.Success? ==> forall k :: 0 <= k < |inputs| && k != args.index ==> r.value.0[k] == inputs[k]
    ensures r.Success? && inputs[args.index].tapLeafScript.Some? ==>
      r.value.0[args.index] ==
        lib.signTaprootInput(inputs[args.index], SelectSigner(args, key), TapLeafHash(inputs[args.index].tapLeafScript.value[0]))
    ensures r.Success? && inputs[args.index].tapLeafScript.None? ==>
      r.value.0[args.index] == lib.signInput(inputs[args.index], SelectSigner(args, key))
  {
    if args.index >= |inputs| then Failure(InputOutOfRange(t, args.index))
    else if HasEmptyLeafList(inputs[args.index]) then Failure(EmptyLeafList(t, args.index))
    else
      var input := inputs[args.index];
      var signer := SelectSigner(args, key);
      var hash := LeafHashOf(input);
      var signedInput :=
        if hash.Some? then lib.signTaprootInput(input, signer, hash.value) else lib.signInput(input, signer);
      Success((inputs[args.index := signedInput], SignCall(t, args.index, signer, hash)))
  }

  /**
   * The inner loop of `signPsbt` over the instructions of template `t`: the
   * signed inputs and the calls made. Only inputs named by an instruction
   * change, one call is made per instruction, in order, with the raw or
   * the tweaked signer.
   */
  function SignTemplate(inputs: seq<Input>, t: nat, instrs: seq<Instruction>, key: KeyPair, lib: Library)
    : (r: Result<(seq<Input>, seq<SignCall>), Error>)
    ensures r.Success? ==> |r.value.0| == |inputs| && |r.value.1| == |instrs|
  {
    if |instrs| == 0 then Success((inputs, []))
    else
      var n := |instrs| - 1;
      var done := SignTemplate(inputs, t, instrs[..n], key, lib);
      if done.Failure? then done
      else
        var step := SignStep(done.value.0, t, instrs[n], key, lib);
        if step.Failure? then Failure(step.error)
        else Success((step.value.0, done.value.1 + [step.value.1]))
  }

  /** Number of sign calls for the first `n` templates: the sum of their instruction counts. */
  function InstructionCount(toSign: seq<seq<Instruction>>, n: nat): nat
    requires n <= |toSign|
  {
    if n == 0 then 0 else InstructionCount(toSign, n - 1) + |toSign[n - 1]|
  }

  /**
   * The whole of `signPsbt` on already-parsed templates: the signed templates
   * in input order and the trace of sign calls. Every call signs with the raw
   * key pair or with its one tweaked signer; calls come template by template.
   */
  function SignAll(templates: seq<Template>, toSign: seq<seq<Instruction>>, key: KeyPair, lib: Library)
    : (r: Result<(seq<Template>, seq<SignCall>), Error>)
    ensures r.Success? ==>
      && |toSign| >= |templates|
      && |r.value.0| == |templates|
      && |r.value.1| == InstructionCount(toSign, |templates|)
  {
    if |templates| == 0 then Success(([], []))
    else
      var n := |templates| - 1;
      var done := SignAll(templates[..n], toSign, key, lib);
      if done.Failure? then done
      else if |toSign| <= n then Failure(MissingInstructions(n))
      else
        var signed := SignTemplate(templates[n].inputs, n, toSign[n], key, lib);
        if signed.Failure? then Failure(signed.error)
        else Success((done.value.0 + [Template(signed.value.0)], done.value.1 + signed.value.1))
  }

  lemma {:induction false} SignTemplatePrefix(inputs: seq<Input>, t: nat, instrs: seq<Instruction>, key: KeyPair, lib: Library)
    requires |instrs| > 0 && SignTemplate(inputs, t, instrs, key, lib).Success?
    ensures SignTemplate(inputs, t, instrs[..|instrs| - 1], key, lib).Success?
    ensures SignStep(SignTemplate(inputs, t, instrs[..|instrs| - 1], key, lib).value.0, t, instrs[|instrs| - 1], key, lib).Success?
  {
  }

  /** `after` has as many inputs as `before`, and those no instruction names are as they were. */
  ghost predicate OnlyTargetsChanged(before: seq<Input>, after: seq<Input>, instrs: seq<Instruction>) {
    && |after| == |before|
    && forall k :: 0 <= k < |before| && k !in Targets(instrs) ==> after[k] == before[k]
  }

  /** Signing one template changes only the inputs its instructions name. */
  lemma {:induction false} SignTemplateFrame(inputs: seq<Input>, t: nat, instrs: seq<Instruction>, key: KeyPair, lib: Library)
    requires SignTemplate(inputs, t, instrs, key, lib).Success?
    ensures OnlyTargetsChanged(inputs, SignTemplate(inputs, t, instrs, key, lib).value.0, instrs)
  {
    if |instrs| > 0 {
      var n := |instrs| - 1;
      SignTemplatePrefix(inputs, t, instrs, key, lib);
      SignTemplateFrame(inputs, t, instrs[..n], key, lib);
      assert Targets(instrs) == Targets(instrs[..n]) + {instrs[n].index};
    }
  }

  /** With a library that keeps leaf lists, every input keeps its `tapLeafScript` through signing. */
  lemma {:induction false} SignTemplateKeepsLeaves(inputs: seq<Input>, t: nat, instrs: seq<Instruction>, key: KeyPair, lib: Library)
    requires PreservesLeaves(lib)
    requires SignTemplate(inputs, t, instrs, key, lib).Success?
    ensures forall k :: 0 <= k < |inputs| ==>
      SignTemplate(inputs, t, instrs, key, lib).value.0[k].tapLeafScript == inputs[k].tapLeafScript
  {
    if |instrs| > 0 {
      SignTemplatePrefix(inputs, t, instrs, key, lib);
      SignTemplateKeepsLeaves(inputs, t, instrs[..|instrs| - 1], key, lib);
    }
  }

  /**
   * Signing a template succeeds exactly when every instruction names an
   * existing input that does not carry an empty leaf list.
   */
  lemma {:induction false} SignTemplateSucceedsIff(inputs: seq<Input>, t: nat, instrs: seq<Instruction>, key: KeyPair, lib: Library)
    requires PreservesLeaves(lib)
    ensures SignTemplate(inputs, t, instrs, key, lib).Success? <==>
      forall j :: 0 <= j < |instrs| ==> Signable(inputs, instrs[j])
  {
    if |instrs| > 0 {
      var n := |instrs| - 1;
      var prefix := instrs[..n];
      SignTemplateSucceedsIff(inputs, t, prefix, key, lib);
      assert (forall j :: 0 <= j < |instrs| ==> Signable(inputs, instrs[j])) <==>
        (forall j :: 0 <= j < n ==> Signable(inputs, prefix[j])) && Signable(inputs, instrs[n])
      by {
        assert forall j :: 0 <= j < n ==> prefix[j] == instrs[j];
      }
      var done := SignTemplate(inputs, t, prefix, key, lib);
      if done.Success? {
        SignTemplateKeepsLeaves(inputs, t, prefix, key, lib);
        SignStepSucceedsIff(done.value.0, t, instrs[n], key, lib);
        assert Signable(done.value.0, instrs[n]) == Signable(inputs, instrs[n]);
      }
    }
  }

  lemma SignStepSucceedsIff(inputs: seq<Input>, t: nat, args: Instruction, key: KeyPair, lib: Library)
    ensures SignStep(inputs, t, args, key, lib).Success? <==> Signable(inputs, args)
  {
  }

  /**
   * The trace of signing one template: the `j`-th call is for instruction
   * `j`, at its input index, with the key it selects, and on the script path
   * exactly when the input carries `tapLeafScript`, with the hash of its
   * first leaf.
   */
  lemma {:induction false} SignTemplateTrace(inputs: seq<Input>, t: nat, instrs: seq<Instruction>, key: KeyPair, lib: Library)
    requires PreservesLeaves(lib)
    requires SignTemplate(inputs, t, instrs, key, lib).Success?
    ensures forall j :: 0 <= j < |instrs| ==>
      && Signable(inputs, instrs[j])
      && SignTemplate(inputs, t, instrs, key, lib).value.1[j] ==
        SignCall(t, instrs[j].index, SelectSigner(instrs[j], key), LeafHashOf(inputs[instrs[j].index]))
  {
    if |instrs| > 0 {
      var n := |instrs| - 1;
      var prefix := instrs[..n];
      SignTemplatePrefix(inputs, t, instrs, key, lib);
      SignTemplateTrace(inputs, t, prefix, key, lib);
      SignTemplateKeepsLeaves(inputs, t, prefix, key, lib);
      var done := SignTemplate(inputs, t, prefix, key, lib).value;
      var calls := SignTemplate(inputs, t, instrs, key, lib).value.1;
      SignStepCall(done.0, inputs, t, instrs[n], key, lib);
      assert calls == done.1 + [SignStep(done.0, t, instrs[n], key, lib).value.1];
      forall j | 0 <= j < |instrs|
        ensures Signable(inputs, instrs[j])
        ensures calls[j] == SignCall(t, instrs[j].index, SelectSigner(instrs[j], key), LeafHashOf(inputs[instrs[j].index]))
      {
        if j < n {
          assert prefix[j] == instrs[j] && calls[j] == done.1[j];
        }
      }
    }
  }

  /** A step on inputs whose leaf lists are those of `inputs` records the call `inputs` calls for. */
  lemma SignStepCall(current: seq<Input>, inputs: seq<Input>, t: nat, args: Instruction, key: KeyPair, lib: Library)
    requires |current| == |inputs|
    requires forall k :: 0 <= k < |inputs| ==> current[k].tapLeafScript == inputs[k].tapLeafScript
    requires SignStep(current, t, args, key, lib).Success?
    ensures Signable(inputs, args)
    ensures SignStep(current, t, args, key, lib).value.1 ==
      SignCall(t, args.index, SelectSigner(args, key), LeafHashOf(inputs[args.index]))
  {
  }

  lemma {:induction false} SignAllPrefix(templates: seq<Template>, toSign: seq<seq<Instruction>>, key: KeyPair, lib: Library)
    requires |templates| > 0 && SignAll(templates, toSign, key, lib).Success?
    ensures var n := |templates| - 1;
      && n < |toSign|
      && SignAll(templates[..n], toSign, key, lib).Success?
      && SignTemplate(templates[n].inputs, n, toSign[n], key, lib).Success?
      && SignAll(templates, toSign, key, lib).value ==
           (SignAll(templates[..n], toSign, key, lib).value.0
              + [Template(SignTemplate(templates[n].inputs, n, toSign[n], key, lib).value.0)],
            SignAll(templates[..n], toSign, key, lib).value.1
              + SignTemplate(templates[n].inputs, n, toSign[n], key, lib).value.1)
  {
  }

  lemma {:induction false} InstructionCountMonotonic(toSign: seq<seq<Instruction>>, i: nat, n: nat)
    requires i < n <= |toSign|
    ensures InstructionCount(toSign, i) + |toSign[i]| <= InstructionCount(toSign, n)
  {
    if i < n - 1 {
      InstructionCountMonotonic(toSign, i, n - 1);
    }
  }

  /**
   * `signPsbt` succeeds exactly when every template has an instruction list
   * and every instruction names an existing input without an empty leaf list.
   */
  lemma {:induction false} SignAllSucceedsIff(templates: seq<Template>, toSign: seq<seq<Instruction>>, key: KeyPair, lib: Library)
    requires PreservesLeaves(lib)
    ensures SignAll(templates, toSign, key, lib).Success? <==> SignableRequest(templates, toSign)
  {
    if |templates| > 0 {
      var n := |templates| - 1;
      SignAllSucceedsIff(templates[..n], toSign, key, lib);
      SignableRequestSplit(templates, toSign);
      if n < |toSign| {
        SignTemplateSucceedsIff(templates[n].inputs, n, toSign[n], key, lib);
      }
    }
  }

  lemma SignableRequestSplit(templates: seq<Template>, toSign: seq<seq<Instruction>>)
    requires |templates| > 0
    ensures var n := |templates| - 1;
      SignableRequest(templates, toSign) <==>
        && SignableRequest(templates[..n], toSign)
        && n < |toSign|
        && forall j :: 0 <= j < |toSign[n]| ==> Signable(templates[n].inputs, toSign[n][j])
  {
    var n := |templates| - 1;
    var prefix := templates[..n];
    assert forall i :: 0 <= i < n ==> prefix[i] == templates[i];
  }

  /**
   * `signPsbt` returns one template per template given, in order, each with
   * as many inputs as before, and changes only the inputs its instructions name.
   */
  lemma {:induction false} SignAllFrame(templates: seq<Template>, toSign: seq<seq<Instruction>>, key: KeyPair, lib: Library)
    requires SignAll(templates, toSign, key, lib).Success?
    ensures forall i :: 0 <= i < |templates| ==>
      OnlyTargetsChanged(templates[i].inputs, SignAll(templates, toSign, key, lib).value.0[i].inputs, toSign[i])
  {
    if |templates| > 0 {
      var n := |templates| - 1;
      var prefix := templates[..n];
      SignAllPrefix(templates, toSign, key, lib);
      SignAllFrame(prefix, toSign, key, lib);
      SignTemplateFrame(templates[n].inputs, n, toSign[n], key, lib);
      var before := SignAll(prefix, toSign, key, lib).value.0;
      var last := SignTemplate(templates[n].inputs, n, toSign[n], key, lib).value.0;
      forall i | 0 <= i < |templates|
        ensures OnlyTargetsChanged(templates[i].inputs, (before + [Template(last)])[i].inputs, toSign[i])
      {
        if i < n {
          assert prefix[i] == templates[i] && (before + [Template(last)])[i] == before[i];
        }
      }
    }
  }

  /**
   * Returned template `i` holds exactly the inputs the inner loop produced
   * on template `i`: `signPsbt` pushes each signed template, in order.
   */
  lemma {:induction false} SignAllTemplates(templates: seq<Template>, toSign: seq<seq<Instruction>>, key: KeyPair, lib: Library)
    requires SignAll(templates, toSign, key, lib).Success?
    ensures forall i :: 0 <= i < |templates| ==> SignedTemplateAt(templates, toSign, key, lib, SignAll(templates, toSign, key, lib).value.0, i)
  {
    if |templates| > 0 {
      var n := |templates| - 1;
      var prefix := templates[..n];
      SignAllPrefix(templates, toSign, key, lib);
      SignAllTemplates(prefix, toSign, key, lib);
      var before := SignAll(prefix, toSign, key, lib).value.0;
      var last := SignTemplate(templates[n].inputs, n, toSign[n], key, lib);
      var out := before + [Template(last.value.0)];
      assert SignAll(templates, toSign, key, lib).value.0 == out;
      forall i | 0 <= i < |templates| ensures SignedTemplateAt(templates, toSign, key, lib, out, i) {
        if i < n {
          assert SignedTemplateAt(prefix, toSign, key, lib, before, i);
          assert prefix[i] == templates[i] && out[i] == before[i];
        }
      }
    }
  }

  /** Template `i` of `out` is what the inner loop of `signPsbt` makes of template `i`. */
  ghost predicate SignedTemplateAt(templates: seq<Template>, toSign: seq<seq<Instruction>>, key: KeyPair, lib: Library,
                                   out: seq<Template>, i: nat)
    requires i < |templates| <= |toSign|
  {
    && i < |out|
    && SignTemplate(templates[i].inputs, i, toSign[i], key, lib).Success?
    && out[i] == Template(SignTemplate(templates[i].inputs, i, toSign[i], key, lib).value.0)
  }

  /**
   * The call at position `InstructionCount(toSign, i) + j` of a trace is the
   * one instruction `j` of template `i` asks for: at its index, with the key
   * it selects and, exactly when the input carries `tapLeafScript`, the
   * TapLeaf hash of its first leaf.
   */
  ghost predicate CallFor(calls: seq<SignCall>, templates: seq<Template>, toSign: seq<seq<Instruction>>, key: KeyPair, i: nat, j: nat) {
    && i < |templates| && i < |toSign| && j < |toSign[i]|
    && Signable(templates[i].inputs, toSign[i][j])
    && InstructionCount(toSign, i) + j < |calls|
    && calls[InstructionCount(toSign, i) + j] ==
         SignCall(i, toSign[i][j].index, SelectSigner(toSign[i][j], key),
                  LeafHashOf(templates[i].inputs[toSign[i][j].index]))
  }

  /**
   * The trace of `signPsbt`: template by template, one call per instruction
   * in instruction order, each as `CallFor` describes.
   */
  lemma {:induction false} SignAllTrace(templates: seq<Template>, toSign: seq<seq<Instruction>>, key: KeyPair, lib: Library)
    requires PreservesLeaves(lib)
    requires SignAll(templates, toSign, key, lib).Success?
    ensures SignableRequest(templates, toSign)
    ensures forall i, j :: 0 <= i < |templates| && 0 <= j < |toSign[i]| ==>
      CallFor(SignAll(templates, toSign, key, lib).value.1, templates, toSign, key, i, j)
  {
    SignAllSucceedsIff(templates, toSign, key, lib);
    if |templates| > 0 {
      var n := |templates| - 1;
      var prefix := templates[..n];
      SignAllPrefix(templates, toSign, key, lib);
      SignAllTrace(prefix, toSign, key, lib);
      var calls := SignAll(templates, toSign, key, lib).value.1;
      var before := SignAll(prefix, toSign, key, lib).value.1;
      var more := SignTemplate(templates[n].inputs, n, toSign[n], key, lib).value.1;
      SignTemplateTrace(templates[n].inputs, n, toSign[n], key, lib);
      forall i, j | 0 <= i < |templates| && 0 <= j < |toSign[i]|
        ensures CallFor(calls, templates, toSign, key, i, j)
      {
        TraceExtends(templates, toSign, key, before, more, i, j);
      }
    }
  }

  /** Appending the calls of the last template keeps the earlier calls where they were. */
  lemma TraceExtends(templates: seq<Template>, toSign: seq<seq<Instruction>>, key: KeyPair,
                     before: seq<SignCall>, more: seq<SignCall>, i: nat, j: nat)
    requires 0 < |templates| <= |toSign| && i < |templates| && j < |toSign[i]|
    requires |before| == InstructionCount(toSign, |templates| - 1)
    requires i < |templates| - 1 ==> CallFor(before, templates[..|templates| - 1], toSign, key, i, j)
    requires i == |templates| - 1 ==>
      && Signable(templates[i].inputs, toSign[i][j])
      && j < |more|
      && more[j] == SignCall(i, toSign[i][j].index, SelectSigner(toSign[i][j], key),
                             LeafHashOf(templates[i].inputs[toSign[i][j].index]))
    ensures CallFor(before + more, templates, toSign, key, i, j)
  {
    var n := |templates| - 1;
    if i < n {
      InstructionCountMonotonic(toSign, i, n);
      assert templates[..n][i] == templates[i];
    }
  }

  /** The tweak is derived once: every call signs with the raw key pair or with its one tweaked signer. */
  lemma {:induction false} SignAllSigners(templates: seq<Template>, toSign: seq<seq<Instruction>>, key: KeyPair, lib: Library)
    requires SignAll(templates, toSign, key, lib).Success?
    ensures forall c :: c in SignAll(templates, toSign, key, lib).value.1 ==>
      c.signer == Raw(key) || c.signer == Tweaked(key, TaggedHash("TapTweak", XOnlyPubKey(key.publicKey)))
  {
    if |templates| > 0 {
      var n := |templates| - 1;
      SignAllPrefix(templates, toSign, key, lib);
      SignAllSigners(templates[..n], toSign, key, lib);
      var more := SignTemplate(templates[n].inputs, n, toSign[n], key, lib).value.1;
      SignTemplateSigners(templates[n].inputs, n, toSign[n], key, lib);
    }
  }

  lemma {:induction false} SignTemplateSigners(inputs: seq<Input>, t: nat, instrs: seq<Instruction>, key: KeyPair, lib: Library)
    requires SignTemplate(inputs, t, instrs, key, lib).Success?
    ensures forall c :: c in SignTemplate(inputs, t, instrs, key, lib).value.1 ==>
      c.signer == Raw(key) || c.signer == TweakedSigner(key)
  {
    if |instrs| > 0 {
      SignTemplatePrefix(inputs, t, instrs, key, lib);
      SignTemplateSigners(inputs, t, instrs[..|instrs| - 1], key, lib);
    }
  }

  lemma {:induction false} SignTemplateFailurePersists(inputs: seq<Input>, t: nat, instrs: seq<Instruction>, key: KeyPair, lib: Library, n: nat)
    requires n <= |instrs| && SignTemplate(inputs, t, instrs[..n], key, lib).Failure?
    ensures SignTemplate(inputs, t, instrs, key, lib) == SignTemplate(inputs, t, instrs[..n], key, lib)
  {
    if n < |instrs| {
      var m := |instrs| - 1;
      assert instrs[..m][..n] == instrs[..n];
      SignTemplateFailurePersists(inputs, t, instrs[..m], key, lib, n);
    } else {
      assert instrs[..n] == instrs;
    }
  }

  lemma {:induction false} SignAllFailurePersists(templates: seq<Template>, toSign: seq<seq<Instruction>>, key: KeyPair, lib: Library, n: nat)
    requires n <= |templates| && SignAll(templates[..n], toSign, key, lib).Failure?
    ensures SignAll(templates, toSign, key, lib) == SignAll(templates[..n], toSign, key, lib)
  {
    if n < |templates| {
      var m := |templates| - 1;
      assert templates[..m][..n] == templates[..n];
      SignAllFailurePersists(templates[..m], toSign, key, lib, n);
    } else {
      assert templates[..n] == templates;
    }
  }

  /** A failure while signing template `i` aborts the whole of `signPsbt` with that error. */
  lemma SignAllAbortsAt(templates: seq<Template>, toSign: seq<seq<Instruction>>, key: KeyPair, lib: Library, i: nat, e: Error)
    requires i < |templates| && SignAll(templates[..i], toSign, key, lib).Success?
    requires if i < |toSign| then SignTemplate(templates[i].inputs, i, toSign[i], key, lib) == Failure(e)
             else e == MissingInstructions(i)
    ensures SignAll(templates, toSign, key, lib) == Failure(e)
  {
    assert templates[..i + 1][..i] == templates[..i];
    SignAllFailurePersists(templates, toSign, key, lib, i + 1);
  }

  lemma StepFailureAborts(inputs0: seq<Input>, t: nat, instrs: seq<Instruction>, key: KeyPair, lib: Library,
                          j: nat, inputs: seq<Input>, signed: seq<SignCall>, e: Error)
    requires j < |instrs| && SignTemplate(inputs0, t, instrs[..j], key, lib) == Success((inputs, signed))
    requires SignStep(inputs, t, instrs[j], key, lib) == Failure(e)
    ensures SignTemplate(inputs0, t, instrs, key, lib) == Failure(e)
  {
    assert instrs[..j + 1][..j] == instrs[..j];
    SignTemplateFailurePersists(inputs0, t, instrs, key, lib, j + 1);
  }

  lemma StepSuccessExtends(inputs0: seq<Input>, t: nat, instrs: seq<Instruction>, key: KeyPair, lib: Library,
                           j: nat, inputs: seq<Input>, signed: seq<SignCall>)
    requires j < |instrs| && SignTemplate(inputs0, t, instrs[..j], key, lib) == Success((inputs, signed))
    requires SignStep(inputs, t, instrs[j], key, lib).Success?
    ensures SignTemplate(inputs0, t, instrs[..j + 1], key, lib) ==
      Success((SignStep(inputs, t, instrs[j], key, lib).value.0, signed + [SignStep(inputs, t, instrs[j], key, lib).value.1]))
  {
    assert instrs[..j + 1][..j] == instrs[..j];
  }

  /**
   * The inner loop of `signPsbt` for template `i`: one sign call per
   * instruction, in order, on the inputs as the earlier calls left them.
   * `keyPair` and `tweakedSigner` are the signers derived once by the caller.
   */
  method SignInstructions(inputs0: seq<Input>, i: nat, instrs: seq<Instruction>,
                          keyPair: Signer, tweakedSigner: Signer, key: KeyPair, lib: Library)
    returns (r: Result<(seq<Input>, seq<SignCall>), Error>)
    requires keyPair == Raw(key) && tweakedSigner == TweakedSigner(key)
    ensures r == SignTemplate(inputs0, i, instrs, key, lib)
    ensures r.Success? ==> |r.value.0| == |inputs0| && |r.value.1| == |instrs|
  {
    var inputs := inputs0;
    var signed: seq<SignCall> := [];
    var j := 0;
    while j < |instrs|
      invariant 0 <= j <= |instrs|
      invariant SignTemplate(inputs0, i, instrs[..j], key, lib) == Success((inputs, signed))
    {
      var args := instrs[j];
      var signer := if args.disableTweakSigner == Some(true) then keyPair else tweakedSigner;
      if args.index >= |inputs| {
        r := Failure(InputOutOfRange(i, args.index));
        StepFailureAborts(inputs0, i, instrs, key, lib, j, inputs, signed, r.error);
        return;
      }
      var input := inputs[args.index];
      var hash: Option<Hash> := None;
      var signedInput: Input;
      if input.tapLeafScript.Some? {
        if |input.tapLeafScript.value| == 0 {
          r := Failure(EmptyLeafList(i, args.index));
          StepFailureAborts(inputs0, i, instrs, key, lib, j, inputs, signed, r.error);
          return;
        }
        var tapLeaf := input.tapLeafScript.value[0];
        var leafHash := TaggedHash("TapLeaf", LeafPayload(tapLeaf));
        signedInput := lib.signTaprootInput(input, signer, leafHash);
        hash := Some(leafHash);
      } else {
        signedInput := lib.signInput(input, signer);
      }
      assert SignStep(inputs, i, args, key, lib)
        == Success((inputs[args.index := signedInput], SignCall(i, args.index, signer, hash)));
      StepSuccessExtends(inputs0, i, instrs, key, lib, j, inputs, signed);
      inputs := inputs[args.index := signedInput];
      signed := signed + [SignCall(i, args.index, signer, hash)];
      j := j + 1;
    }
    assert instrs[..j] == instrs;
    r := Success((inputs, signed));
  }

  /**
   * `signPsbt(data, wif)`: with the key pair decoded from `wif`, derives the
   * raw and the tweaked signer once, signs every template in turn and
   * returns the signed templates in input order together with the calls
   * made; it agrees with `SignAll`, whose lemmas above say what that is.
   */
  method SignPsbt(templates: seq<Template>, toSignInputs: seq<seq<Instruction>>, key: KeyPair, lib: Library)
    returns (r: Result<(seq<Template>, seq<SignCall>), Error>)
    ensures r == SignAll(templates, toSignInputs, key, lib)
    ensures r.Success? ==> |r.value.0| == |templates|
  {
    var keyPair := Raw(key);
    var tweakedSigner := TweakedSigner(key);
    var psbts: seq<Template> := [];
    var calls: seq<SignCall> := [];
    var i := 0;
    while i < |templates|
      invariant 0 <= i <= |templates|
      invariant SignAll(templates[..i], toSignInputs, key, lib) == Success((psbts, calls))
    {
      if i >= |toSignInputs| {
        SignAllAbortsAt(templates, toSignInputs, key, lib, i, MissingInstructions(i));
        return Failure(MissingInstructions(i));
      }
      var signed := SignInstructions(templates[i].inputs, i, toSignInputs[i], keyPair, tweakedSigner, key, lib);
      if signed.Failure? {
        SignAllAbortsAt(templates, toSignInputs, key, lib, i, signed.error);
        return Failure(signed.error);
      }
      assert templates[..i + 1][..i] == templates[..i];
      psbts := psbts + [Template(signed.value.0)];
      calls := calls + signed.value.1;
      i := i + 1;
    }
    assert templates[..i] == templates;
    r := Success((psbts, calls));
  }
}
