/** Keeping the elements of a sequence that pass a test and mapping each one
    kept: the shape of a listing filtered and then turned into records. */
module FilterMaps {

  /** `make` is defined on every element of `xs` that `keep` accepts. */
  ghost predicate Defined<A, B>(xs: seq<A>, keep: A -> bool, make: A --> B) {
    forall x :: x in xs && keep(x) ==> make.requires(x)
  }

  /** The images under `make` of the elements of `xs` that `keep` accepts, in order. */
  function FilterMap<A, B>(xs: seq<A>, keep: A -> bool, make: A --> B): (ys: seq<B>)
    requires Defined(xs, keep, make)
    ensures |ys| <= |xs|
    decreases |xs|
  {
    if xs == [] then []
    else
      var rest := FilterMap(xs[1..], keep, make);
      if keep(xs[0]) then [make(xs[0])] + rest else rest
  }

  /** The elements `keep` accepts. */
  ghost function KeptSet<A>(xs: seq<A>, keep: A -> bool): set<A> {
    set x | x in xs && keep(x)
  }

  /** The output distributes over concatenation of the input. */
  lemma {:induction false} FilterMapAppend<A, B>(xs: seq<A>, ys: seq<A>, keep: A -> bool, make: A --> B)
    requires Defined(xs + ys, keep, make)
    ensures Defined(xs, keep, make) && Defined(ys, keep, make)
    ensures FilterMap(xs + ys, keep, make) == FilterMap(xs, keep, make) + FilterMap(ys, keep, make)
    decreases |xs|
  {
    assert forall x :: x in xs ==> x in xs + ys;
    assert forall x :: x in ys ==> x in xs + ys;
    if xs == [] {
      assert xs + ys == ys;
    } else {
      assert (xs + ys)[0] == xs[0];
      assert (xs + ys)[1..] == xs[1..] + ys;
      FilterMapAppend(xs[1..], ys, keep, make);
    }
  }

  /** An output element is exactly the image of an accepted input element. */
  lemma {:induction false} FilterMapMembers<A, B>(xs: seq<A>, keep: A -> bool, make: A --> B, y: B)
    requires Defined(xs, keep, make)
    ensures y in FilterMap(xs, keep, make) <==> exists x :: x in xs && keep(x) && y == make(x)
    decreases |xs|
  {
    if xs != [] {
      FilterMapMembers(xs[1..], keep, make, y);
      assert forall x :: x in xs <==> x == xs[0] || x in xs[1..];
    }
  }

  /** Each output element is the image of an accepted input element. */
  lemma {:induction false} FilterMapOrigin<A, B>(xs: seq<A>, keep: A -> bool, make: A --> B, i: nat)
    returns (a: nat)
    requires Defined(xs, keep, make)
    requires i < |FilterMap(xs, keep, make)|
    ensures a < |xs| && keep(xs[a]) && FilterMap(xs, keep, make)[i] == make(xs[a])
    decreases |xs|
  {
    var rest := xs[1..];
    var tail := FilterMap(rest, keep, make);
    if keep(xs[0]) && i == 0 {
      a := 0;
    } else {
      var shift := if keep(xs[0]) then 1 else 0;
      var a' := FilterMapOrigin(rest, keep, make, i - shift);
      assert FilterMap(xs, keep, make)[i] == tail[i - shift];
      a := a' + 1;
    }
  }

  /** Output order follows input order: later outputs come from later inputs. */
  lemma {:induction false} FilterMapOrigins<A, B>(xs: seq<A>, keep: A -> bool, make: A --> B, i: nat, j: nat)
    returns (a: nat, b: nat)
    requires Defined(xs, keep, make)
    requires i < j < |FilterMap(xs, keep, make)|
    ensures a < b < |xs| && keep(xs[a]) && keep(xs[b])
    ensures FilterMap(xs, keep, make)[i] == make(xs[a])
    ensures FilterMap(xs, keep, make)[j] == make(xs[b])
    decreases |xs|
  {
    var ys := FilterMap(xs, keep, make);
    var rest := xs[1..];
    var tail := FilterMap(rest, keep, make);
    var shift := if keep(xs[0]) then 1 else 0;
    assert ys[shift..] == tail;
    if keep(xs[0]) && i == 0 {
      var b' := FilterMapOrigin(rest, keep, make, j - 1);
      assert ys[j] == tail[j - 1];
      a, b := 0, b' + 1;
    } else {
      var a', b' := FilterMapOrigins(rest, keep, make, i - shift, j - shift);
      assert ys[i] == tail[i - shift] && ys[j] == tail[j - shift];
      a, b := a' + 1, b' + 1;
    }
  }

  /** Over an input without repetitions there is one output per accepted element. */
  lemma {:induction false} FilterMapCount<A, B>(xs: seq<A>, keep: A -> bool, make: A --> B)
    requires Defined(xs, keep, make)
    requires forall a, b :: 0 <= a < b < |xs| ==> xs[a] != xs[b]
    ensures |FilterMap(xs, keep, make)| == |KeptSet(xs, keep)|
    decreases |xs|
  {
    if xs == [] {
      assert KeptSet(xs, keep) == {};
    } else {
      var rest := xs[1..];
      assert forall a :: 0 <= a < |rest| ==> rest[a] == xs[a + 1];
      FilterMapCount(rest, keep, make);
      assert xs[0] !in rest;
      if keep(xs[0]) {
        assert KeptSet(xs, keep) == {xs[0]} + KeptSet(rest, keep);
      } else {
        assert KeptSet(xs, keep) == KeptSet(rest, keep);
      }
    }
  }

  /** Two tests that agree on the input keep the same elements. */
  lemma {:induction false} FilterMapAgree<A, B>(xs: seq<A>, keep: A -> bool, keep': A -> bool, make: A --> B)
    requires Defined(xs, keep, make) && Defined(xs, keep', make)
    requires forall x :: x in xs ==> keep(x) == keep'(x)
    ensures FilterMap(xs, keep, make) == FilterMap(xs, keep', make)
    decreases |xs|
  {
    if xs != [] {
      assert forall x :: x in xs[1..] ==> x in xs;
      FilterMapAgree(xs[1..], keep, keep', make);
    }
  }
}
