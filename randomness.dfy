/** The random draws of RangeGrader and ChoiceGrader, modelled as nondeterministic choices. */
module Randomness {
  import opened Failures

  /** `random.randint(a, b)`: some integer of the closed interval [a, b],
      or an error when that interval is empty. Which integer is not specified. */
  method RandInt(a: int, b: int) returns (r: Result<int>)
    ensures r.Ok? <==> a <= b
    ensures r.Ok? ==> a <= r.value <= b
    ensures r.Err? ==> r.error == EmptyRange
  {
    if a <= b {
      var x :| a <= x <= b;
      r := Ok(x);
    } else {
      r := Err(EmptyRange);
    }
  }
}
