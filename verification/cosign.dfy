/**
 * The co-signing round trip every order operation runs: `signPsbt` on the
 * templates and instructions the marketplace returned, then `extractSigs`
 * on the signed templates with the same instructions.
 */
module CoSign {
  import opened Psbt
  import opened Taproot
  import opened Signing
  import opened Wrappers
  import opened Extraction

  /**
   * The matrix sent back has one row per template received and, in row `i`,
   * one slot per input of template `i` as received, with `""` in every slot
   * no instruction names, whatever the library wrote into the templates.
   */
  lemma CoSignMatrixShape(templates: seq<Template>, toSign: seq<seq<Instruction>>, key: KeyPair, lib: Library,
                           psbts: seq<Template>, calls: seq<SignCall>, sigs: seq<seq<string>>)
    requires SignAll(templates, toSign, key, lib) == Success((psbts, calls))
    requires ExtractAll(psbts, toSign) == Success(sigs)
    ensures |sigs| == |templates|
    ensures forall i :: 0 <= i < |templates| ==>
              && |sigs[i]| == |templates[i].inputs|
              && forall k :: 0 <= k < |sigs[i]| && k !in Targets(toSign[i]) ==> sigs[i][k] == ""
  {
    SignAllFrame(templates, toSign, key, lib);
    ExtractAllMatrix(psbts, toSign);
  }
}
