/** Small facts about collections that several modules share. */
module Collections {
  import opened Bytes

  function Min(a: nat, b: nat): nat { if a < b then a else b }

  function SaturatingSub(a: nat, b: nat): nat { if a < b then 0 else a - b }

  lemma SubsetSize<T>(a: set<T>, b: set<T>)
    requires a <= b
    ensures |a| <= |b|
  {
    assert b == a + (b - a);
  }

  lemma ConcatAssoc<T>(a: seq<T>, b: seq<T>, c: seq<T>)
    ensures a + b + c == a + (b + c)
  {
  }

  function Concat<T>(parts: seq<seq<T>>): seq<T> {
    if parts == [] then [] else parts[0] + Concat(parts[1..])
  }

  /** What a loop has collected, in front of what is still to come. */
  function Behind<T>(vs: seq<T>, rest: Option<seq<T>>): (r: Option<seq<T>>)
    ensures vs == [] ==> r == rest
    ensures rest == Some([]) ==> r == Some(vs)
  {
    assert rest.Some? ==> [] + rest.value == rest.value;
    assert vs + [] == vs;
    if rest.None? then None else Some(vs + rest.value)
  }

  lemma BehindOne<T>(vs: seq<T>, v: T, rest: Option<seq<T>>)
    ensures Behind(vs + [v], rest) == Behind(vs, Behind([v], rest))
  {
    if rest.Some? { assert vs + [v] + rest.value == vs + ([v] + rest.value); }
  }
}
