/** Required agent inputs must arrive before a run starts. */
module AgentInputs {
  import opened Text
  import opened AgentSpec

  datatype Reason = NotSupplied | Empty

  datatype MissingInput = MissingInput(key: string, prompt: string, reason: Reason)

  /** Blank text and an empty list are not answers. */
  predicate Blank(v: Value) { (v.Str? && Trim(v.s) == "") || (v.List? && v.items == []) }

  function Gap(d: InputDeclaration, supplied: Value): seq<MissingInput> {
    if !d.required then []
    else if supplied.Undefined? || supplied.Null? then [MissingInput(d.key, d.prompt, NotSupplied)]
    else if Blank(supplied) then [MissingInput(d.key, d.prompt, Empty)]
    else []
  }

  function Missing(ds: seq<InputDeclaration>, inputs: Values): seq<MissingInput> {
    if ds == [] then []
    else Missing(ds[..|ds| - 1], inputs) + Gap(ds[|ds| - 1], Get(inputs, ds[|ds| - 1].key))
  }

  /** `validateAgentInputs`: ready when nothing is missing. */
  method ValidateAgentInputs(spec: Spec, inputs: Values) returns (missing: seq<MissingInput>)
    ensures missing == Missing(spec.inputs, inputs)
  {
    missing := [];
    var i := 0;
    while i < |spec.inputs|
      invariant i <= |spec.inputs| && missing == Missing(spec.inputs[..i], inputs)
    {
      assert spec.inputs[..i + 1][..i] == spec.inputs[..i];
      var d := spec.inputs[i];
      if d.required {
        var supplied := Get(inputs, d.key);
        if supplied.Undefined? || supplied.Null? {
          missing := missing + [MissingInput(d.key, d.prompt, NotSupplied)];
        } else if Blank(supplied) {
          missing := missing + [MissingInput(d.key, d.prompt, Empty)];
        }
      }
      i := i + 1;
    }
    assert spec.inputs[..|spec.inputs|] == spec.inputs;
  }

  predicate Answered(v: Value) { !v.Undefined? && !v.Null? && !Blank(v) }

  /** Ready exactly when every required input has an answer. */
  lemma {:induction false} ReadyExactly(ds: seq<InputDeclaration>, inputs: Values)
    ensures Missing(ds, inputs) == [] <==>
            forall i :: 0 <= i < |ds| && ds[i].required ==> Answered(Get(inputs, ds[i].key))
  {
    hide Blank;
    if ds != [] {
      var (front, d) := (ds[..|ds| - 1], ds[|ds| - 1]);
      ReadyExactly(front, inputs);
      assert forall i :: 0 <= i < |front| ==> front[i] == ds[i];
      assert Gap(d, Get(inputs, d.key)) == [] <==> (d.required ==> Answered(Get(inputs, d.key)));
      hide Gap, Answered, Get;
    }
  }

  /** Ready exactly when every required input was supplied with an answer, or was not supplied at all
      under a name that every object inherits: that one reads as answered. */
  lemma ReadyUnsuppliedExactly(ds: seq<InputDeclaration>, inputs: Values)
    ensures Missing(ds, inputs) == [] <==>
            forall i :: 0 <= i < |ds| && ds[i].required ==>
              if ds[i].key in inputs then Answered(inputs[ds[i].key]) else IsInherited(ds[i].key)
  {
    ReadyExactly(ds, inputs);
    hide Missing, IsInherited;
    forall i | 0 <= i < |ds|
      ensures Answered(Get(inputs, ds[i].key)) <==> if ds[i].key in inputs then Answered(inputs[ds[i].key]) else IsInherited(ds[i].key) { }
  }
}
