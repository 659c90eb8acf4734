/** Small vocabulary shared by the five rate limiters. */
module Basics {

  datatype Option<T> = None | Some(value: T)

  /** The outcome of one admission step for one client: the answer given
      to the caller and the entry stored for that client afterwards. */
  datatype Decision<S> = Decision(allowed: bool, entry: S)

  /** The outcome of a series of calls for one client: the entry stored
      after the last call and how many of the calls were admitted. */
  datatype Tally<S> = Tally(last: S, allowed: nat)

  /** The entry stored for `key`, if any (a dictionary lookup that does
      not insert). */
  function Get<S>(m: map<string, S>, key: string): (r: Option<S>)
    ensures r.Some? <==> key in m
    ensures r.Some? ==> r.value == m[key]
  {
    if key in m then Some(m[key]) else None
  }

  function MaxReal(a: real, b: real): (r: real)
    ensures r >= a && r >= b
    ensures r == a || r == b
  {
    if a >= b then a else b
  }

  /** Sign facts about the elapsed-time products `elapsed * rate`. */
  lemma ProductFacts(a: real, b: real)
    ensures a >= 0.0 && b >= 0.0 ==> a * b >= 0.0
    ensures a == 0.0 ==> a * b == 0.0
  {
  }

  function MinInt(a: int, b: int): (r: int)
    ensures r <= a && r <= b
    ensures r == a || r == b
  {
    if a <= b then a else b
  }
}
