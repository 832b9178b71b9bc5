/** The contract of the standard library's stable sort, and why it has only one answer. */
module StableSort {

  ghost predicate TotalPreorder<T(!new)>(leq: (T, T) -> bool) {
    && (forall x, y :: leq(x, y) || leq(y, x))
    && (forall x, y, z :: leq(x, y) && leq(y, z) ==> leq(x, z))
  }

  ghost predicate Sorted<T>(s: seq<T>, leq: (T, T) -> bool) {
    forall i, j :: 0 <= i < j < |s| ==> leq(s[i], s[j])
  }

  predicate Same<T>(x: T, y: T, leq: (T, T) -> bool) {
    leq(x, y) && leq(y, x)
  }

  /** The elements of `s` that the order does not tell apart from `x`, in their order in `s`. */
  ghost function Class<T>(s: seq<T>, x: T, leq: (T, T) -> bool): (r: seq<T>) {
    if s == [] then []
    else if Same(x, s[0], leq) then [s[0]] + Class(s[1..], x, leq)
    else Class(s[1..], x, leq)
  }

  /** `r` keeps the mutual order of elements the order does not tell apart, and loses none. */
  ghost predicate Stable<T(!new)>(s: seq<T>, r: seq<T>, leq: (T, T) -> bool) {
    forall x :: Class(s, x, leq) == Class(r, x, leq)
  }

  function Insert<T>(x: T, s: seq<T>, leq: (T, T) -> bool): (r: seq<T>)
    ensures |r| == |s| + 1
  {
    if s == [] then [x]
    else if leq(x, s[0]) then [x] + s
    else [s[0]] + Insert(x, s[1..], leq)
  }

  function Sort<T>(s: seq<T>, leq: (T, T) -> bool): (r: seq<T>)
    ensures |r| == |s|
  {
    if s == [] then [] else Insert(s[0], Sort(s[1..], leq), leq)
  }

  lemma {:induction false} InsertPermutes<T>(x: T, s: seq<T>, leq: (T, T) -> bool)
    ensures multiset(Insert(x, s, leq)) == multiset(s) + multiset{x}
  {
    if s == [] || leq(x, s[0]) {
    } else {
      InsertPermutes(x, s[1..], leq);
      assert s == [s[0]] + s[1..];
    }
  }

  lemma {:induction false} SortPermutes<T>(s: seq<T>, leq: (T, T) -> bool)
    ensures multiset(Sort(s, leq)) == multiset(s)
  {
    if s == [] {
    } else {
      SortPermutes(s[1..], leq);
      InsertPermutes(s[0], Sort(s[1..], leq), leq);
      assert s == [s[0]] + s[1..];
    }
  }

  lemma SortMembers<T(!new)>(s: seq<T>, leq: (T, T) -> bool)
    ensures forall x :: x in Sort(s, leq) <==> x in s
  {
    SortPermutes(s, leq);
    forall x ensures x in Sort(s, leq) <==> x in s {
      assert x in Sort(s, leq) <==> x in multiset(Sort(s, leq));
      assert x in s <==> x in multiset(s);
    }
  }

  lemma {:induction false} InsertSorted<T(!new)>(x: T, s: seq<T>, leq: (T, T) -> bool)
    requires TotalPreorder(leq) && Sorted(s, leq)
    ensures Sorted(Insert(x, s, leq), leq)
  {
    if s == [] || leq(x, s[0]) {
    } else {
      var rest := Insert(x, s[1..], leq);
      InsertSorted(x, s[1..], leq);
      InsertPermutes(x, s[1..], leq);
      forall j | 0 <= j < |rest| ensures leq(s[0], rest[j]) {
        assert rest[j] in multiset(rest);
        assert rest[j] in multiset(s[1..]) || rest[j] == x;
      }
    }
  }

  lemma {:induction false} InsertClass<T(!new)>(x: T, s: seq<T>, y: T, leq: (T, T) -> bool)
    requires TotalPreorder(leq)
    ensures Class(Insert(x, s, leq), y, leq) == Class([x] + s, y, leq)
  {
    assert ([x] + s)[1..] == s;
    if s == [] || leq(x, s[0]) {
    } else {
      var rest := Insert(x, s[1..], leq);
      assert ([s[0]] + rest)[1..] == rest;
      InsertClass(x, s[1..], y, leq);
      assert ([x] + s[1..])[1..] == s[1..];
    }
  }

  lemma {:induction false} SortClass<T(!new)>(s: seq<T>, y: T, leq: (T, T) -> bool)
    requires TotalPreorder(leq)
    ensures Class(Sort(s, leq), y, leq) == Class(s, y, leq)
  {
    if s == [] {
    } else {
      var rest := Sort(s[1..], leq);
      SortClass(s[1..], y, leq);
      InsertClass(s[0], rest, y, leq);
      assert ([s[0]] + rest)[1..] == rest;
    }
  }

  lemma {:induction false} SortSorted<T(!new)>(s: seq<T>, leq: (T, T) -> bool)
    requires TotalPreorder(leq)
    ensures Sorted(Sort(s, leq), leq)
  {
    if s == [] {
    } else {
      SortSorted(s[1..], leq);
      InsertSorted(s[0], Sort(s[1..], leq), leq);
    }
  }

  lemma {:induction false} ClassMember<T(!new)>(s: seq<T>, x: T, leq: (T, T) -> bool)
    ensures forall y :: y in Class(s, x, leq) ==> y in s && Same(x, y, leq)
    ensures Class(s, x, leq) == [] ==> forall y :: y in s ==> !Same(x, y, leq)
  {
    if s == [] {
    } else {
      ClassMember(s[1..], x, leq);
      assert s == [s[0]] + s[1..];
    }
  }

  lemma HeadIsLeast<T(!new)>(a: seq<T>, b: seq<T>, leq: (T, T) -> bool)
    requires TotalPreorder(leq) && Sorted(a, leq) && Stable(a, b, leq) && b != []
    ensures a != [] && leq(a[0], b[0])
  {
    var y := b[0];
    assert Same(y, y, leq);
    assert Class(b, y, leq) != [];
    assert Class(a, y, leq) == Class(b, y, leq);
    ClassMember(a, y, leq);
    var z := Class(a, y, leq)[0];
    assert z in a && Same(y, z, leq);
    var k :| 0 <= k < |a| && a[k] == z;
    assert k == 0 || leq(a[0], a[k]);
    assert leq(a[0], a[0]);
  }

  /** Two sorted, mutually stable sequences are the same: any stable sort computes `Sort`. */
  lemma {:induction false} StableSortUnique<T(!new)>(a: seq<T>, b: seq<T>, leq: (T, T) -> bool)
    requires TotalPreorder(leq) && Sorted(a, leq) && Sorted(b, leq) && Stable(a, b, leq)
    ensures a == b
    decreases |a|
  {
    if b != [] {
      HeadIsLeast(a, b, leq);
    }
    if a == [] {
    } else {
      HeadIsLeast(b, a, leq);
      assert Same(a[0], a[0], leq) && Same(a[0], b[0], leq);
      assert Class(a, a[0], leq)[0] == a[0] && Class(b, a[0], leq)[0] == b[0];
      assert a[0] == b[0];
      forall x ensures Class(a[1..], x, leq) == Class(b[1..], x, leq) {
        assert Class(a, x, leq) == Class(b, x, leq);
        if Same(x, a[0], leq) {
          assert Class(a[1..], x, leq) == Class(a, x, leq)[1..];
          assert Class(b[1..], x, leq) == Class(b, x, leq)[1..];
        }
      }
      StableSortUnique(a[1..], b[1..], leq);
      assert a == [a[0]] + a[1..] && b == [b[0]] + b[1..];
    }
  }

  /** The characterisation used by the models: `r` is the stable sort of `s`. */
  lemma IsSort<T(!new)>(s: seq<T>, r: seq<T>, leq: (T, T) -> bool)
    requires TotalPreorder(leq)
    ensures Sorted(r, leq) && Stable(s, r, leq) <==> r == Sort(s, leq)
  {
    SortSorted(s, leq);
    forall x ensures Class(s, x, leq) == Class(Sort(s, leq), x, leq) {
      SortClass(s, x, leq);
    }
    if Sorted(r, leq) && Stable(s, r, leq) {
      forall x ensures Class(r, x, leq) == Class(Sort(s, leq), x, leq) {
        assert Class(s, x, leq) == Class(r, x, leq);
      }
      StableSortUnique(r, Sort(s, leq), leq);
    }
  }

  lemma {:induction false} ClassConcat<T(!new)>(a: seq<T>, b: seq<T>, x: T, leq: (T, T) -> bool)
    ensures Class(a + b, x, leq) == Class(a, x, leq) + Class(b, x, leq)
  {
    if a == [] {
      assert a + b == b;
    } else {
      assert (a + b)[1..] == a[1..] + b;
      ClassConcat(a[1..], b, x, leq);
    }
  }
}
