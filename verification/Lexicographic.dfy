/** The order of strings: character by character, a prefix before its extensions. */
module Lexicographic {

  predicate Leq(a: string, b: string) {
    a == [] || (b != [] && (a[0] < b[0] || (a[0] == b[0] && Leq(a[1..], b[1..]))))
  }

  /** The strings agree up to `i`, where the first has the smaller character. */
  ghost predicate SmallerAt(a: string, b: string, i: int) {
    0 <= i < |a| && i < |b| && a[..i] == b[..i] && a[i] < b[i]
  }

  /** What the order is: a prefix comes first, and otherwise the first difference decides. */
  lemma {:induction false} LeqIff(a: string, b: string)
    ensures Leq(a, b) <==> a <= b || exists i :: SmallerAt(a, b, i)
  {
    if a == [] || b == [] {
    } else if a[0] != b[0] {
      assert a[0] < b[0] ==> SmallerAt(a, b, 0);
      forall i ensures SmallerAt(a, b, i) ==> i == 0 {
        if 0 < i <= |a| && i <= |b| {
          assert a[..i][0] == a[0] && b[..i][0] == b[0];
        }
      }
    } else {
      var a', b' := a[1..], b[1..];
      LeqIff(a', b');
      assert a == [a[0]] + a' && b == [b[0]] + b';
      assert a <= b <==> a' <= b';
      forall i ensures SmallerAt(a', b', i) ==> SmallerAt(a, b, i + 1) {
        if SmallerAt(a', b', i) {
          assert a[..i + 1] == [a[0]] + a'[..i] && b[..i + 1] == [b[0]] + b'[..i];
        }
      }
      forall i ensures SmallerAt(a, b, i) ==> SmallerAt(a', b', i - 1) {
        if SmallerAt(a, b, i) {
          assert i > 0;
          assert a'[..i - 1] == a[..i][1..] && b'[..i - 1] == b[..i][1..];
        }
      }
    }
  }

  lemma {:induction false} Total(a: string, b: string)
    ensures Leq(a, b) || Leq(b, a)
  {
    if a == [] || b == [] {
    } else {
      Total(a[1..], b[1..]);
    }
  }

  lemma {:induction false} Antisymmetric(a: string, b: string)
    requires Leq(a, b) && Leq(b, a)
    ensures a == b
  {
    if a == [] || b == [] {
    } else {
      Antisymmetric(a[1..], b[1..]);
      assert a == [a[0]] + a[1..] && b == [b[0]] + b[1..];
    }
  }

  lemma {:induction false} Transitive(a: string, b: string, c: string)
    requires Leq(a, b) && Leq(b, c)
    ensures Leq(a, c)
  {
    if a == [] || a[0] != b[0] || b[0] != c[0] {
    } else {
      Transitive(a[1..], b[1..], c[1..]);
    }
  }

  predicate IsLeast(k: string, keys: set<string>) {
    k in keys && forall j :: j in keys ==> Leq(k, j)
  }

  lemma LeastOfTwo(x: string, k: string, rest: set<string>)
    requires IsLeast(k, rest)
    ensures IsLeast(x, rest + {x}) || IsLeast(k, rest + {x})
  {
    Total(x, x);
    Total(x, k);
    if Leq(x, k) {
      forall j | j in rest ensures Leq(x, j) {
        Transitive(x, k, j);
      }
    }
  }

  lemma {:induction false} LeastExists(keys: set<string>)
    requires keys != {}
    ensures exists k :: IsLeast(k, keys)
  {
    var x :| x in keys;
    var rest := keys - {x};
    assert keys == rest + {x};
    if rest == {} {
      Total(x, x);
      assert IsLeast(x, keys);
    } else {
      LeastExists(rest);
      var k :| IsLeast(k, rest);
      LeastOfTwo(x, k, rest);
    }
  }

  lemma LeastUnique(x: string, y: string, keys: set<string>)
    requires IsLeast(x, keys) && IsLeast(y, keys)
    ensures x == y
  {
    Antisymmetric(x, y);
  }

  lemma OneLeast(keys: set<string>)
    ensures forall x, y | x in keys && y in keys && IsLeast(x, keys) && IsLeast(y, keys) :: x == y
  {
    forall x, y | x in keys && y in keys && IsLeast(x, keys) && IsLeast(y, keys) ensures x == y {
      LeastUnique(x, y, keys);
    }
  }

  /** The keys of a sorted map in the order its iterator visits them. */
  function SortedKeys(keys: set<string>): (r: seq<string>)
    ensures forall k :: k in r <==> k in keys
    ensures forall i, j :: 0 <= i < j < |r| ==> Leq(r[i], r[j]) && r[i] != r[j]
  {
    if keys == {} then []
    else
      LeastExists(keys);
      OneLeast(keys);
      var k :| k in keys && IsLeast(k, keys);
      [k] + SortedKeys(keys - {k})
  }
}
