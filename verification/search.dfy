/** The searches the summary runs over the recorded series: the largest
    element, the first negative element, and the position of a value. */
module Search {
  import opened Wrappers

  /** `m` is the maximum of `s`: an element of it that no element exceeds. */
  predicate IsMax(s: seq<real>, m: real)
  {
    m in s && forall i :: 0 <= i < |s| ==> s[i] <= m
  }

  /** A sequence has at most one maximum. */
  lemma MaxUnique(s: seq<real>, m1: real, m2: real)
    requires IsMax(s, m1) && IsMax(s, m2)
    ensures m1 == m2
  {
    var i1 :| 0 <= i1 < |s| && s[i1] == m1;
    var i2 :| 0 <= i2 < |s| && s[i2] == m2;
  }

  /** The largest element, scanning left to right and keeping the current
      maximum (Python's `max`). An empty list has no maximum. */
  function MaxOf(s: seq<real>): (m: real)
    requires |s| > 0
    ensures IsMax(s, m)
  {
    if |s| == 1 then s[0]
    else
      var front := s[..|s| - 1];
      var m := MaxOf(front);
      assert s == front + [s[|s| - 1]];
      if s[|s| - 1] > m then s[|s| - 1] else m
  }

  /** `k` is the index of the first negative element of `vs`. */
  predicate IsFirstNegative(vs: seq<real>, k: int)
  {
    && 0 <= k < |vs|
    && vs[k] < 0.0
    && forall j :: 0 <= j < k ==> vs[j] >= 0.0
  }

  /** There is at most one first negative element: any index that is also
      a first negative one is `k` itself. */
  lemma FirstNegativeUnique(vs: seq<real>, k: int)
    requires IsFirstNegative(vs, k)
    ensures forall k' :: IsFirstNegative(vs, k') ==> k' == k
  {
  }

  /** The first negative element itself, as a generator expression with
      `next` yields it; None when there is none. */
  function NextNegative(vs: seq<real>): (r: Option<real>)
    ensures r.None? <==> forall i :: 0 <= i < |vs| ==> vs[i] >= 0.0
    ensures r.Some? ==> exists k :: IsFirstNegative(vs, k) && vs[k] == r.value
  {
    if |vs| == 0 then None
    else if vs[0] < 0.0 then
      assert IsFirstNegative(vs, 0);
      Some(vs[0])
    else
      var rest := NextNegative(vs[1..]);
      assert forall k :: IsFirstNegative(vs[1..], k) ==> IsFirstNegative(vs, k + 1);
      rest
  }

  /** The position of the first occurrence of `x` (Python's `list.index`);
      None when `x` does not occur. */
  function IndexOf(s: seq<real>, x: real): (r: Option<nat>)
    ensures r.Some? ==> r.value < |s| && s[r.value] == x
    ensures r.Some? ==> forall j :: 0 <= j < r.value ==> s[j] != x
    ensures r.None? <==> x !in s
  {
    if |s| == 0 then None
    else if s[0] == x then Some(0)
    else
      match IndexOf(s[1..], x)
      case None => None
      case Some(k) => Some(k + 1)
  }

  /** Looking up the value at the first negative index finds that index
      again: no earlier element can equal it, since all are non-negative. */
  lemma IndexOfFirstNegative(vs: seq<real>, k: int)
    requires IsFirstNegative(vs, k)
    ensures IndexOf(vs, vs[k]) == Some(k)
  {
    assert vs[k] in vs;
  }

  /** The apogee index as the program finds it: take the first negative
      velocity, then look up where that value first occurs. None when no
      velocity is negative. */
  function ApogeeIndex(vs: seq<real>): (r: Option<nat>)
    ensures r.None? <==> forall i :: 0 <= i < |vs| ==> vs[i] >= 0.0
    ensures r.Some? ==> IsFirstNegative(vs, r.value)
  {
    match NextNegative(vs)
    case None => None
    case Some(x) =>
      assert forall k :: IsFirstNegative(vs, k) ==> IndexOf(vs, vs[k]) == Some(k) by {
        forall k | IsFirstNegative(vs, k) ensures IndexOf(vs, vs[k]) == Some(k) {
          IndexOfFirstNegative(vs, k);
        }
      }
      IndexOf(vs, x)
  }
}
