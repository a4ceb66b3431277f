/** Iteration in key order: the order of a `std::map<std::wstring, …>` or of sorted names. */
module Ordering {
  import opened Words

  type Key = seq<WChar>

  /** `operator<` on wide strings: lexicographic by code unit. */
  predicate Less(a: Key, b: Key) {
    b != [] && (a == [] || a[0] < b[0] || (a[0] == b[0] && Less(a[1..], b[1..])))
  }

  /** At the first unit where they differ the smaller one decides; a proper prefix is less. */
  lemma {:induction false} LessIs(a: Key, b: Key)
    ensures Less(a, b)
            <==> exists k :: 0 <= k <= |a| && k < |b| && a[..k] == b[..k] && (k == |a| || a[k] < b[k])
  {
    if a == [] || b == [] {
      assert b != [] ==> a[..0] == b[..0];
    } else if a[0] != b[0] {
      assert a[..0] == b[..0];
      forall k | 0 < k <= |a| && k < |b| ensures a[..k] != b[..k] {
        assert a[..k][0] != b[..k][0];
      }
    } else {
      var x, y := a[1..], b[1..];
      LessIs(x, y);
      forall k | 0 <= k <= |x| && k < |y| ensures x[..k] == y[..k] <==> a[..k + 1] == b[..k + 1] {
        assert a[..k + 1] == [a[0]] + x[..k] && b[..k + 1] == [b[0]] + y[..k];
        assert a[..k + 1][1..] == x[..k] && b[..k + 1][1..] == y[..k];
      }
      if k: int :| 0 <= k <= |x| && k < |y| && x[..k] == y[..k] && (k == |x| || x[k] < y[k]) {
        assert 0 <= k + 1 <= |a| && a[..k + 1] == b[..k + 1];
      }
      if k: int :| 0 <= k <= |a| && k < |b| && a[..k] == b[..k] && (k == |a| || a[k] < b[k]) {
        assert k > 0;
        assert 0 <= k - 1 <= |x| && x[..k - 1] == y[..k - 1];
      }
    }
  }

  lemma {:induction false} LessTotal(a: Key, b: Key)
    ensures Less(a, b) || a == b || Less(b, a)
  {
    if a != [] && b != [] && a[0] == b[0] {
      LessTotal(a[1..], b[1..]);
      assert a == [a[0]] + a[1..] && b == [b[0]] + b[1..];
    }
  }

  lemma {:induction false} LessTransitive(a: Key, b: Key, c: Key)
    requires Less(a, b) && Less(b, c)
    ensures Less(a, c)
  {
    if a != [] && a[0] == b[0] == c[0] {
      LessTransitive(a[1..], b[1..], c[1..]);
    }
  }

  lemma {:induction false} LessAsymmetric(a: Key, b: Key)
    requires Less(a, b)
    ensures !Less(b, a) && a != b
  {
    if a != [] && a[0] == b[0] {
      LessAsymmetric(a[1..], b[1..]);
    }
  }

  predicate IsLeast(x: Key, s: set<Key>) {
    x in s && forall y <- s :: y == x || Less(x, y)
  }

  lemma {:induction false} LeastExists(s: set<Key>) returns (x: Key)
    requires s != {}
    ensures IsLeast(x, s)
  {
    x :| x in s;
    if s != {x} {
      var y := LeastExists(s - {x});
      LessTotal(x, y);
      if Less(y, x) {
        x := y;
      } else {
        forall z <- s | z != x && z != y ensures Less(x, z) {
          LessTransitive(x, y, z);
        }
      }
    }
  }

  function Least(s: set<Key>): (x: Key)
    requires s != {}
    ensures IsLeast(x, s)
  {
    assert exists x :: IsLeast(x, s) by {
      var x := LeastExists(s);
    }
    assert forall x, y :: IsLeast(x, s) && IsLeast(y, s) ==> x == y by {
      forall x, y | IsLeast(x, s) && IsLeast(y, s) ensures x == y {
        if x != y { LessAsymmetric(x, y); }
      }
    }
    var x :| x in s && IsLeast(x, s);
    x
  }

  /** The keys of a map in the order a `std::map` is walked. */
  function Sorted(s: set<Key>): (r: seq<Key>)
    ensures |r| == |s|
    ensures forall x :: x in r <==> x in s
    ensures forall i, j :: 0 <= i < j < |r| ==> Less(r[i], r[j])
    ensures forall i, j :: 0 <= i < j < |r| ==> r[i] != r[j]
  {
    if s == {} then [] else
      var x := Least(s);
      [x] + Sorted(s - {x})
  }

  ghost predicate NoDuplicates(ns: seq<Key>) {
    forall i, j :: 0 <= i < j < |ns| ==> ns[i] != ns[j]
  }

  lemma {:induction false} DistinctByCount(ns: seq<Key>)
    ensures NoDuplicates(ns) <==> forall n :: multiset(ns)[n] <= 1
  {
    if ns != [] {
      var front, last := ns[..|ns| - 1], ns[|ns| - 1];
      DistinctByCount(front);
      assert ns == front + [last];
      assert multiset(ns) == multiset(front) + multiset{last};
      if NoDuplicates(ns) {
        assert last !in front;
        assert multiset(front)[last] == 0;
      }
      if forall n :: multiset(ns)[n] <= 1 {
        forall n ensures multiset(front)[n] <= 1 { assert multiset(ns)[n] <= 1; }
        assert multiset(ns)[last] <= 1;
        assert last !in multiset(front);
      }
    }
  }
}
