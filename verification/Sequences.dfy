/** Facts about sequences shared by the models: removal of a key (`Vec::retain`), duplicates,
    and the distinct elements of a sequence in order of last occurrence. */
module Sequences {

  datatype Option<+T> = None | Some(value: T)

  ghost predicate NoDup<T>(s: seq<T>) {
    forall i, j :: 0 <= i < j < |s| ==> s[i] != s[j]
  }

  ghost function Elements<T>(s: seq<T>): set<T> {
    set x | x in s
  }

  /** `order.retain(|k| k != key)` */
  function Without<T(==)>(s: seq<T>, x: T): (r: seq<T>)
    ensures |r| <= |s|
    ensures forall y :: y in r ==> y in s && y != x
    ensures forall y :: y in s && y != x ==> y in r
  {
    if s == [] then []
    else if s[0] == x then Without(s[1..], x)
    else [s[0]] + Without(s[1..], x)
  }

  /** The last `n` elements, or all of them when there are fewer. */
  function LastN<T>(s: seq<T>, n: nat): (r: seq<T>)
    ensures |r| == if |s| <= n then |s| else n
    ensures forall x :: x in r ==> x in s
  {
    if |s| <= n then s else s[|s| - n..]
  }

  /** The distinct elements of `s`, each at the place of its last occurrence. */
  function DistinctByLastUse<T(==)>(s: seq<T>): (r: seq<T>)
    ensures forall x :: x in r ==> x in s
    ensures forall x :: x in s ==> x in r
  {
    if s == [] then []
    else if s[0] in s[1..] then DistinctByLastUse(s[1..])
    else [s[0]] + DistinctByLastUse(s[1..])
  }

  lemma {:induction false} DistinctByLastUseNoDup<T>(s: seq<T>)
    ensures NoDup(DistinctByLastUse(s))
  {
    if s == [] {
    } else {
      DistinctByLastUseNoDup(s[1..]);
    }
  }

  /** Using `x` once more moves it to the end and keeps the others in place. */
  lemma {:induction false} DistinctByLastUseAppend<T>(s: seq<T>, x: T)
    ensures DistinctByLastUse(s + [x]) == Without(DistinctByLastUse(s), x) + [x]
  {
    if s == [] {
      assert s + [x] == [x];
    } else {
      assert (s + [x])[1..] == s[1..] + [x];
      DistinctByLastUseAppend(s[1..], x);
    }
  }

  lemma {:induction false} WithoutAbsent<T>(s: seq<T>, x: T)
    requires x !in s
    ensures Without(s, x) == s
  {
    if s == [] {
    } else {
      WithoutAbsent(s[1..], x);
    }
  }

  lemma {:induction false} WithoutConcat<T>(s: seq<T>, t: seq<T>, x: T)
    ensures Without(s + t, x) == Without(s, x) + Without(t, x)
  {
    if s == [] {
      assert s + t == t;
    } else {
      assert (s + t)[1..] == s[1..] + t;
      WithoutConcat(s[1..], t, x);
    }
  }

  lemma {:induction false} WithoutNoDup<T>(s: seq<T>, x: T)
    requires NoDup(s)
    ensures NoDup(Without(s, x))
    ensures x in s ==> |Without(s, x)| == |s| - 1
  {
    if s == [] {
    } else {
      assert NoDup(s[1..]);
      WithoutNoDup(s[1..], x);
      if s[0] == x {
        WithoutAbsent(s[1..], x);
      } else {
        var w := Without(s[1..], x);
        assert s[0] !in w && Without(s, x) == [s[0]] + w;
      }
    }
  }

  lemma {:induction false} NoDupCardinality<T>(s: seq<T>)
    requires NoDup(s)
    ensures |Elements(s)| == |s|
  {
    if s == [] {
    } else {
      var rest := s[1..];
      assert NoDup(rest);
      NoDupCardinality(rest);
      assert s == [s[0]] + rest;
      assert Elements(s) == {s[0]} + Elements(rest);
    }
  }
}
