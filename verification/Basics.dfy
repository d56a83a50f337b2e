/** Facts about numbers and sets that the proofs share. */
module Basics {
  lemma MulMonotone(m: nat, a: nat, b: nat)
    requires a <= b
    ensures m * a <= m * b
  {
  }

  lemma {:induction false} SubsetSize<T>(a: set<T>, b: set<T>)
    requires a <= b
    ensures |a| <= |b|
  {
    assert b == a + (b - a);
  }

  /** The elements that satisfy `keep`, in order. */
  function Filter<T>(keep: T -> bool, s: seq<T>): seq<T> {
    if s == [] then [] else (if keep(s[0]) then [s[0]] else []) + Filter(keep, s[1..])
  }

  lemma {:induction false} FilterCount<T>(keep: T -> bool, s: seq<T>, x: T)
    ensures multiset(Filter(keep, s))[x] == if keep(x) then multiset(s)[x] else 0
  {
    if s != [] {
      assert s == [s[0]] + s[1..];
      FilterCount(keep, s[1..], x);
    }
  }

  lemma FilterMember<T>(keep: T -> bool, s: seq<T>, x: T)
    ensures x in Filter(keep, s) <==> x in s && keep(x)
  {
    FilterCount(keep, s, x);
    assert x in Filter(keep, s) <==> x in multiset(Filter(keep, s));
    assert x in s <==> x in multiset(s);
  }

  lemma {:induction false} FilterAppend<T>(keep: T -> bool, xs: seq<T>, ys: seq<T>)
    ensures Filter(keep, xs + ys) == Filter(keep, xs) + Filter(keep, ys)
  {
    if xs == [] {
      assert xs + ys == ys;
    } else {
      var head := if keep(xs[0]) then [xs[0]] else [];
      assert (xs + ys)[1..] == xs[1..] + ys;
      FilterAppend(keep, xs[1..], ys);
      assert head + (Filter(keep, xs[1..]) + Filter(keep, ys)) == (head + Filter(keep, xs[1..])) + Filter(keep, ys);
    }
  }

  lemma FilterOne<T>(keep: T -> bool, x: T)
    ensures Filter(keep, [x]) == if keep(x) then [x] else []
  {
    assert Filter(keep, [x][1..]) == [];
  }

  /** Replacing one element changes the number of kept ones by its own contribution. */
  lemma FilterUpdate<T>(keep: T -> bool, s: seq<T>, i: nat, x: T)
    requires i < |s|
    ensures |Filter(keep, s[i := x])| == |Filter(keep, s)| - (if keep(s[i]) then 1 else 0) + (if keep(x) then 1 else 0)
  {
    var left, right := s[..i], s[i + 1..];
    assert s == left + ([s[i]] + right) && s[i := x] == left + ([x] + right);
    FilterAppend(keep, left, [s[i]] + right);
    FilterAppend(keep, [s[i]], right);
    FilterAppend(keep, left, [x] + right);
    FilterAppend(keep, [x], right);
    FilterOne(keep, s[i]);
    FilterOne(keep, x);
  }
}
