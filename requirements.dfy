/**
 * The requirement check that create_archive runs on user_config and on the archive
 * metadata: every key of the required-config ("prompts") map must be present in the
 * supplied map. Without the helper a missing key fails at once; with the helper the
 * missing value is solicited (the answer is an injected function of the key and its
 * description) and stored.
 */
module Requirements {
  import opened Values

  /** The map check_requirements leaves behind with the helper: what was supplied, plus every missing required key filled by its answer. */
  function Populated(toPopulate: Document, prompts: Document, answer: (string, Value) -> Value): (r: Document)
    ensures r.Keys == toPopulate.Keys + prompts.Keys
    ensures forall k :: k in toPopulate ==> r[k] == toPopulate[k]
    ensures forall k :: k in prompts && k !in toPopulate ==> r[k] == answer(k, prompts[k])
  {
    toPopulate + map k | k in prompts.Keys - toPopulate.Keys :: answer(k, prompts[k])
  }

  /** Once everything required is supplied, the helper has nothing to add. */
  lemma PopulatedComplete(toPopulate: Document, prompts: Document, answer: (string, Value) -> Value)
    requires prompts.Keys <= toPopulate.Keys
    ensures Populated(toPopulate, prompts, answer) == toPopulate
  {
    assert prompts.Keys - toPopulate.Keys == {};
  }

  /** Visiting one more required key that was supplied changes nothing. */
  lemma PopulatedStepSupplied(toPopulate: Document, prompts: Document, answer: (string, Value) -> Value, k: string, d: Value)
    requires k !in prompts && k in toPopulate
    ensures Populated(toPopulate, prompts[k := d], answer) == Populated(toPopulate, prompts, answer)
  {
    var before := Populated(toPopulate, prompts, answer);
    var after := Populated(toPopulate, prompts[k := d], answer);
    assert after.Keys == before.Keys;
    assert forall j :: j in after ==> after[j] == before[j];
  }

  /** Visiting one more required key that was missing adds its answer. */
  lemma PopulatedStepMissing(toPopulate: Document, prompts: Document, answer: (string, Value) -> Value, k: string, d: Value)
    requires k !in prompts && k !in toPopulate
    ensures Populated(toPopulate, prompts[k := d], answer) == Populated(toPopulate, prompts, answer)[k := answer(k, d)]
  {
    var before := Populated(toPopulate, prompts, answer)[k := answer(k, d)];
    var after := Populated(toPopulate, prompts[k := d], answer);
    assert after.Keys == before.Keys;
    assert forall j :: j in after ==> after[j] == before[j];
  }

  /** check_requirements(to_populate, prompts, helper): Ok with the (possibly filled-in) map, or the first missing key it met. */
  method CheckRequirements(toPopulate: Document, prompts: Document, helper: bool, answer: (string, Value) -> Value)
    returns (r: Result<Document>)
    ensures helper ==> r == Ok(Populated(toPopulate, prompts, answer))
    ensures !helper ==> (r.Ok? <==> prompts.Keys <= toPopulate.Keys)
    ensures !helper && r.Ok? ==> r.value == toPopulate
    ensures r.Err? ==> r.error.MissingRequirement? && r.error.key in prompts && r.error.key !in toPopulate
                       && r.error.description == prompts[r.error.key]
  {
    var populated := toPopulate;
    var todo := prompts.Keys;
    while todo != {}
      invariant todo <= prompts.Keys
      invariant populated == Populated(toPopulate, prompts - todo, answer)
      invariant !helper ==> populated == toPopulate && (prompts.Keys - todo) <= toPopulate.Keys
      decreases todo
    {
      var k :| k in todo;
      assert prompts - (todo - {k}) == (prompts - todo)[k := prompts[k]];
      if k in toPopulate {
        PopulatedStepSupplied(toPopulate, prompts - todo, answer, k, prompts[k]);
      } else {
        PopulatedStepMissing(toPopulate, prompts - todo, answer, k, prompts[k]);
        if !helper {
          return Err(MissingRequirement(k, prompts[k]));
        }
        populated := populated[k := answer(k, prompts[k])];
      }
      todo := todo - {k};
    }
    assert prompts - todo == prompts;
    r := Ok(populated);
  }
}
