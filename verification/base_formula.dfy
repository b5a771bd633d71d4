/**
  What every formula declares: its ordered input variables and its target,
  each a (key, symbol, default unit) triple, and the input-checking notions
  the formula modules share.
 */
module BaseFormula {
  import opened Units
  import opened Quantities

  /** One (key, symbol, default unit) triple of a declaration; the unit carries its own spelling. */
  datatype VariableSpec = VariableSpec(key: string, symbol: string, unit: Unit)

  /** The keys of a variable list, in order. */
  function Keys(vs: seq<VariableSpec>): (ks: seq<string>)
    ensures |ks| == |vs|
    ensures forall i :: 0 <= i < |vs| ==> ks[i] == vs[i].key
  {
    if vs == [] then [] else [vs[0].key] + Keys(vs[1..])
  }

  /** No key is declared twice. */
  predicate Distinct(ks: seq<string>)
  {
    forall i, j :: 0 <= i < j < |ks| ==> ks[i] != ks[j]
  }

  /** Every key of `ks` is present in the mapping. */
  predicate HasAll(inputs: Inputs, ks: seq<string>)
  {
    forall k :: k in ks ==> k in inputs
  }

  /**
    The first key of `ks` that the mapping lacks: the key whose lookup raises
    when a solve reads its inputs in declaration order.
   */
  function FirstMissing(ks: seq<string>, inputs: Inputs): (r: Option<string>)
    ensures r.None? <==> HasAll(inputs, ks)
    ensures r.Some? ==> exists i :: 0 <= i < |ks| && ks[i] == r.value && r.value !in inputs
                                    && forall j :: 0 <= j < i ==> ks[j] in inputs
  {
    if ks == [] then None
    else if ks[0] !in inputs then Some(ks[0])
    else
      var rest := FirstMissing(ks[1..], inputs);
      assert forall k :: k in ks ==> k == ks[0] || k in ks[1..];
      if rest.Some? then
        ghost var i :| 0 <= i < |ks[1..]| && ks[1..][i] == rest.value && rest.value !in inputs
                      && forall j :: 0 <= j < i ==> ks[1..][j] in inputs;
        assert ks[i + 1] == rest.value;
        rest
      else rest
  }

  /** The first absent key is the one preceded only by present keys. */
  lemma {:induction false} FirstMissingAt(ks: seq<string>, inputs: Inputs, i: nat)
    requires i < |ks| && ks[i] !in inputs
    requires forall j :: 0 <= j < i ==> ks[j] in inputs
    ensures FirstMissing(ks, inputs) == Some(ks[i])
  {
    if i > 0 {
      FirstMissingAt(ks[1..], inputs, i - 1);
    }
  }

  /**
    Every declared variable is supplied, in a unit of the dimension of its
    declared default unit (the default unit itself or any unit the library
    can convert it to).
   */
  predicate Conforms(inputs: Inputs, vs: seq<VariableSpec>)
  {
    forall i :: 0 <= i < |vs| ==>
      vs[i].key in inputs && inputs[vs[i].key].unit.dim == vs[i].unit.dim
  }

  /**
    Every declared variable is supplied, all but the `i`-th in a unit of the
    dimension of its declared default unit, and the `i`-th in a unit of
    another dimension.
   */
  predicate ConformsExcept(inputs: Inputs, vs: seq<VariableSpec>, i: nat)
  {
    forall j :: 0 <= j < |vs| ==>
      vs[j].key in inputs && (inputs[vs[j].key].unit.dim == vs[j].unit.dim <==> j != i)
  }
}
