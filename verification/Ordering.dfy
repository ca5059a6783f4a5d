/** The key order of ordered maps, and the uniqueness of a sorted listing. */
module Ordering {
  import opened Bytes

  ghost predicate StrictTotal<T(!new)>(less: (T, T) -> bool) {
    && (forall x :: !less(x, x))
    && (forall x, y, z :: less(x, y) && less(y, z) ==> less(x, z))
    && (forall x, y :: x != y ==> less(x, y) || less(y, x))
  }

  /** `keys` lists exactly the elements of `all`, in ascending order. */
  ghost predicate Lists<T(!new)>(less: (T, T) -> bool, keys: seq<T>, all: set<T>) {
    && (forall i, j :: 0 <= i < j < |keys| ==> less(keys[i], keys[j]))
    && (forall k :: k in keys <==> k in all)
  }

  predicate IsLeast<T>(less: (T, T) -> bool, least: T, all: set<T>) {
    least in all && forall x :: x in all ==> x == least || less(least, x)
  }

  lemma {:induction false} LeastExists<T(!new)>(less: (T, T) -> bool, all: set<T>)
    requires StrictTotal(less) && all != {}
    ensures exists least :: IsLeast(less, least, all)
    decreases |all|
  {
    var x :| x in all;
    if all == {x} {
      assert IsLeast(less, x, all);
    } else {
      var rest := all - {x};
      assert x in all && |rest| < |all|;
      assert all == rest + {x};
      LeastExists(less, rest);
      var m :| IsLeast(less, m, rest);
      assert IsLeast(less, if less(m, x) then m else x, all);
    }
  }

  /** A set has only one ascending listing. */
  lemma {:induction false} ListingUnique<T(!new)>(less: (T, T) -> bool, a: seq<T>, b: seq<T>, all: set<T>)
    requires StrictTotal(less) && Lists(less, a, all) && Lists(less, b, all)
    ensures a == b
    decreases |a|
  {
    ListingLength(less, a, all);
    ListingLength(less, b, all);
    if a != [] {
      assert a[0] in a;
      assert a[0] in b;
      var j :| 0 <= j < |b| && b[j] == a[0];
      assert b[0] in b;
      assert b[0] in a;
      var i :| 0 <= i < |a| && a[i] == b[0];
      assert a[0] == b[0];
      ListsTail(less, a, all);
      ListsTail(less, b, all);
      ListingUnique(less, a[1..], b[1..], all - {a[0]});
      assert a == [a[0]] + a[1..] && b == [b[0]] + b[1..];
    }
  }

  lemma ListsTail<T(!new)>(less: (T, T) -> bool, a: seq<T>, all: set<T>)
    requires StrictTotal(less) && Lists(less, a, all) && a != []
    ensures Lists(less, a[1..], all - {a[0]})
  {
    forall k
      ensures k in a[1..] <==> k in all - {a[0]}
    {
      if k in a[1..] {
        var i :| 0 <= i < |a[1..]| && a[1..][i] == k;
        assert k == a[i + 1];
      }
      if k in all - {a[0]} {
        var i :| 0 <= i < |a| && a[i] == k;
        assert a[1..][i - 1] == k;
      }
    }
  }

  lemma {:induction false} ListingLength<T(!new)>(less: (T, T) -> bool, a: seq<T>, all: set<T>)
    requires StrictTotal(less) && Lists(less, a, all)
    ensures |a| == |all|
    decreases |a|
  {
    if a == [] {
      assert all == {} by {
        assert forall k :: k in all ==> k in a;
      }
    } else {
      assert a[0] in a;
      ListsTail(less, a, all);
      ListingLength(less, a[1..], all - {a[0]});
    }
  }

  lemma {:induction false} ListingExists<T(!new)>(less: (T, T) -> bool, all: set<T>) returns (keys: seq<T>)
    requires StrictTotal(less)
    ensures Lists(less, keys, all)
    decreases |all|
  {
    if all == {} {
      keys := [];
    } else {
      LeastExists(less, all);
      var m :| IsLeast(less, m, all);
      var rest := ListingExists(less, all - {m});
      keys := [m] + rest;
      forall j | 0 < j < |keys|
        ensures less(m, keys[j])
      {
        assert keys[j] in rest;
      }
    }
  }

  // ---- The two orders ----

  predicate LexLess(a: Bytes, b: Bytes) {
    b != [] && (a == [] || a[0] < b[0] || (a[0] == b[0] && LexLess(a[1..], b[1..])))
  }

  predicate NatLess(a: nat, b: nat) {
    a < b
  }

  /** The texts agree before position `i`, where the first ends or has the smaller byte. */
  predicate LessAt(a: Bytes, b: Bytes, i: nat) {
    i <= |a| && i < |b| && a[..i] == b[..i] && (i == |a| || a[i] < b[i])
  }

  /** The order of byte strings: a proper prefix comes first, and otherwise the first byte that
      differs decides. */
  lemma {:induction false} LexLessMeans(a: Bytes, b: Bytes)
    ensures LexLess(a, b) <==> exists i: nat :: LessAt(a, b, i)
    decreases |a|
  {
    if LexLess(a, b) {
      if a == [] || a[0] < b[0] {
        assert LessAt(a, b, 0);
      } else {
        LexLessMeans(a[1..], b[1..]);
        var i: nat :| LessAt(a[1..], b[1..], i);
        assert a[..i + 1] == [a[0]] + a[1..][..i] && b[..i + 1] == [b[0]] + b[1..][..i];
        assert LessAt(a, b, i + 1);
      }
    }
    if i: nat :| LessAt(a, b, i) {
      if i > 0 {
        assert a[0] == a[..i][0] == b[..i][0] == b[0];
        assert a[1..][..i - 1] == a[..i][1..] && b[1..][..i - 1] == b[..i][1..];
        assert LessAt(a[1..], b[1..], i - 1);
        LexLessMeans(a[1..], b[1..]);
      }
    }
  }

  lemma {:induction false} LexTransitive(a: Bytes, b: Bytes, c: Bytes)
    requires LexLess(a, b) && LexLess(b, c)
    ensures LexLess(a, c)
    decreases |a|
  {
    if a != [] && a[0] == b[0] == c[0] {
      LexTransitive(a[1..], b[1..], c[1..]);
    }
  }

  lemma {:induction false} LexConnected(a: Bytes, b: Bytes)
    ensures a == b || LexLess(a, b) || LexLess(b, a)
    ensures a == b ==> !LexLess(a, b)
    decreases |a|
  {
    if a != [] && b != [] && a[0] == b[0] {
      LexConnected(a[1..], b[1..]);
      assert a == [a[0]] + a[1..] && b == [b[0]] + b[1..];
    }
  }

  lemma OrdersAreTotal()
    ensures StrictTotal(LexLess) && StrictTotal(NatLess)
  {
    forall a, b
      ensures a == b || LexLess(a, b) || LexLess(b, a)
      ensures a == b ==> !LexLess(a, b)
    {
      LexConnected(a, b);
    }
    forall a, b, c | LexLess(a, b) && LexLess(b, c)
      ensures LexLess(a, c)
    {
      LexTransitive(a, b, c);
    }
  }
}
