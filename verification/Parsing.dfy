/** Parsing a list of pieces one by one, stopping at the first that is rejected. */
module Parsing {
  import opened Outcome

  function ParseEach<T>(parse: string -> Result<T, UserError>, bits: seq<string>): Result<seq<T>, UserError> {
    if bits == [] then Ok([])
    else
      var init := ParseEach(parse, bits[..|bits| - 1]);
      var last := parse(bits[|bits| - 1]);
      if init.Err? then init
      else if last.Err? then Err(last.error)
      else Ok(init.value + [last.value])
  }

  /** A rejected prefix decides the outcome: nothing after it is looked at. */
  lemma {:induction false} ErrorIsFinal<T>(parse: string -> Result<T, UserError>, bits: seq<string>, i: nat)
    requires i <= |bits| && ParseEach(parse, bits[..i]).Err?
    ensures ParseEach(parse, bits) == ParseEach(parse, bits[..i])
    decreases |bits|
  {
    if i == |bits| {
      assert bits[..i] == bits;
    } else {
      var init := bits[..|bits| - 1];
      assert init[..i] == bits[..i];
      ErrorIsFinal(parse, init, i);
    }
  }

  /** One more piece: either it is rejected, which decides the outcome, or its result is appended. */
  lemma ParseEachStep<T>(parse: string -> Result<T, UserError>, bits: seq<string>, i: nat, results: seq<T>)
    requires i < |bits| && ParseEach(parse, bits[..i]) == Ok(results)
    ensures parse(bits[i]).Ok? ==> ParseEach(parse, bits[..i + 1]) == Ok(results + [parse(bits[i]).value])
    ensures parse(bits[i]).Err? ==> ParseEach(parse, bits) == Err(parse(bits[i]).error)
  {
    assert bits[..i + 1][..i] == bits[..i];
    if parse(bits[i]).Err? {
      ErrorIsFinal(parse, bits, i + 1);
    }
  }

  /** Acceptance is acceptance of every piece, and the results stay in place. */
  lemma {:induction false} ParseEachPointwise<T>(parse: string -> Result<T, UserError>, bits: seq<string>)
    ensures ParseEach(parse, bits).Ok? <==> forall i :: 0 <= i < |bits| ==> parse(bits[i]).Ok?
    ensures ParseEach(parse, bits).Ok? ==>
              var results := ParseEach(parse, bits).value;
              |results| == |bits| && forall i :: 0 <= i < |bits| ==> parse(bits[i]) == Ok(results[i])
  {
    if bits != [] {
      ParseEachPointwise(parse, bits[..|bits| - 1]);
    }
  }
}
