/**
 The Python list operations whose exact semantics the catalogue depends on:
 subscripting with a possibly negative index (`xs[k]`), removing the first
 element equal to a value (`xs.remove(x)`) and `random.choice(xs)`.
 */
module Lists {
  import opened Wrappers

  /** `xs[k]`: a negative `k` counts from the end; out of range raises, modelled as `None`. */
  function Index<T>(xs: seq<T>, k: int): (r: Option<T>)
    ensures r.Some? <==> -|xs| <= k < |xs|
    ensures r.Some? ==> r.value in xs
    ensures 0 <= k < |xs| ==> r == Some(xs[k])
    ensures -|xs| <= k < 0 ==> r == Some(xs[|xs| + k])
  {
    if 0 <= k < |xs| then Some(xs[k])
    else if -|xs| <= k < 0 then Some(xs[|xs| + k])
    else None
  }

  /** The position of the first element equal to `x`. */
  function FirstIndexOf<T(==)>(xs: seq<T>, x: T): (i: nat)
    requires x in xs
    ensures i < |xs| && xs[i] == x
    ensures forall j :: 0 <= j < i ==> xs[j] != x
  {
    if xs[0] == x then 0 else 1 + FirstIndexOf(xs[1..], x)
  }

  /** Any position holding the first occurrence of `x` is the one `FirstIndexOf` finds. */
  lemma FirstIndexOfIs<T>(xs: seq<T>, x: T, i: nat)
    requires i < |xs| && xs[i] == x
    requires forall j :: 0 <= j < i ==> xs[j] != x
    ensures FirstIndexOf(xs, x) == i
  {
  }

  /** `xs.remove(x)`: drops the first element equal to `x` and keeps the rest in order. */
  function RemoveFirst<T(==)>(xs: seq<T>, x: T): (r: seq<T>)
    requires x in xs
    ensures |r| == |xs| - 1
    ensures multiset(r) == multiset(xs) - multiset{x}
    ensures var i := FirstIndexOf(xs, x); r[..i] == xs[..i] && r[i..] == xs[i + 1..]
  {
    var i := FirstIndexOf(xs, x);
    assert xs == xs[..i] + [x] + xs[i + 1..];
    xs[..i] + xs[i + 1..]
  }

  /** `random.choice(xs)` on a non-empty list, with the random source as the
      parameter `pick`: any value of it is a possible draw. */
  function Choice<T>(xs: seq<T>, pick: nat): (r: T)
    requires |xs| > 0
    ensures r in xs
  {
    xs[pick % |xs|]
  }

  /** Every element of the list is a possible draw. */
  lemma ChoiceReachesEvery<T>(xs: seq<T>, x: T)
    requires x in xs
    ensures exists pick: nat :: Choice(xs, pick) == x
  {
    var i :| 0 <= i < |xs| && xs[i] == x;
    assert i % |xs| == i;
    assert Choice(xs, i) == x;
  }
}
