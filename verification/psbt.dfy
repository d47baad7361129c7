/**
 * The parts of a parsed PSBT that the co-signing engine reads, and the
 * per-template signing instructions the marketplace sends with it.
 * Parsing (`Psbt.fromHex`) belongs to bitcoinjs-lib and is not modelled:
 * templates arrive already parsed.
 */
module Psbt {
  import opened Wrappers
  import opened Bytes
  import opened Taproot

  /**
   * One PSBT input. `tapLeafScript` is `None` when the field is absent; an
   * absent `tapScriptSig` or `partialSig` list is the empty sequence (the
   * engine treats both alike). A `partialSig` entry is `None` when its
   * `signature` field is missing.
   */
  datatype Input = Input(
    tapLeafScript: Option<seq<Leaf>>,
    tapKeySig: Option<seq<Byte>>,
    tapScriptSig: seq<seq<Byte>>,
    partialSig: seq<Option<seq<Byte>>>)

  /** `tapLeafScript` is present but holds no leaf (an empty array is still truthy in JavaScript). */
  predicate HasEmptyLeafList(input: Input) {
    input.tapLeafScript.Some? && |input.tapLeafScript.value| == 0
  }

  /** A partially-signed transaction template: its inputs, in order. */
  datatype Template = Template(inputs: seq<Input>)

  /** One entry of `toSignInputs[i]`: which input to sign, and with which key. */
  datatype Instruction = Instruction(index: nat, disableTweakSigner: Option<bool>)

  /** The TypeErrors the engine can raise, named by where they happen. */
  datatype Error =
    | MissingInstructions(template: nat)          // toSignInputs[i] is undefined
    | InputOutOfRange(template: nat, index: nat)  // psbt.data.inputs[index] is undefined
    | EmptyLeafList(template: nat, index: nat)    // tapLeafScript is [], so tapLeafScript[0] is undefined
    | MissingScriptSig(template: nat, index: nat) // tapScriptSig is absent or empty
    | MissingPartialSig(template: nat, index: nat) // partialSig is absent or empty

  /** The set of input indices a template's instructions name. */
  function Targets(instrs: seq<Instruction>): (s: set<nat>)
    ensures forall j :: 0 <= j < |instrs| ==> instrs[j].index in s
    ensures forall k :: k in s ==> exists j :: 0 <= j < |instrs| && instrs[j].index == k
  {
    if |instrs| == 0 then {}
    else
      var prefix := instrs[..|instrs| - 1];
      assert forall j :: 0 <= j < |prefix| ==> prefix[j] == instrs[j];
      Targets(prefix) + {instrs[|instrs| - 1].index}
  }
}
