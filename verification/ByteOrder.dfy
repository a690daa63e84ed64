/**
 The order `std::string` and `HostId` are compared by: unsigned, byte by byte, a proper
 prefix first. `std::map` iteration follows it, so it also fixes the order of listings. A finite
 set of byte strings has one ascending listing, and a loop over a map is a walk along it: the
 lemmas about visited keys say what each step of such a loop has seen.
 */
module ByteOrder {
  import opened Machine

  predicate Less(a: Bytes, b: Bytes) {
    if b == [] then false
    else if a == [] then true
    else if a[0] != b[0] then a[0] < b[0]
    else Less(a[1..], b[1..])
  }

  lemma {:induction false} Trichotomy(a: Bytes, b: Bytes)
    ensures !(Less(a, b) && Less(b, a))
    ensures !Less(a, b) && !Less(b, a) ==> a == b
    ensures a == b ==> !Less(a, b)
  {
    if a != [] && b != [] && a[0] == b[0] {
      Trichotomy(a[1..], b[1..]);
      assert a == [a[0]] + a[1..] && b == [b[0]] + b[1..];
    }
  }

  lemma {:induction false} Transitive(a: Bytes, b: Bytes, c: Bytes)
    requires Less(a, b) && Less(b, c)
    ensures Less(a, c)
  {
    if a != [] && a[0] == b[0] && b[0] == c[0] {
      Transitive(a[1..], b[1..], c[1..]);
    }
  }

  /** Comparing concatenations of equal-length prefixes: the prefixes decide, then the rest. */
  lemma {:induction false} LessConcat(p: Bytes, q: Bytes, a: Bytes, b: Bytes)
    requires |p| == |q|
    ensures Less(p + a, q + b) <==> Less(p, q) || (p == q && Less(a, b))
  {
    if p == [] {
      assert p + a == a && q + b == b;
    } else {
      assert (p + a)[1..] == p[1..] + a && (q + b)[1..] == q[1..] + b;
      assert p == [p[0]] + p[1..] && q == [q[0]] + q[1..];
      LessConcat(p[1..], q[1..], a, b);
    }
  }

  /** Big-endian bytes compare as the integers they encode. */
  lemma {:induction false} BigEndianOrder(v: nat, w: nat, k: nat)
    requires v < Pow256(k) && w < Pow256(k)
    ensures Less(BigEndian(v, k), BigEndian(w, k)) <==> v < w
  {
    if k > 0 {
      BigEndianOrder(v / 256, w / 256, k - 1);
      BigEndianRoundTrip(v / 256, k - 1);
      BigEndianRoundTrip(w / 256, k - 1);
      LessConcat(BigEndian(v / 256, k - 1), BigEndian(w / 256, k - 1), [v % 256], [w % 256]);
    }
  }

  // ---- Name-sorted iteration of a map's keys ----

  ghost predicate IsLeast(s: set<Bytes>, x: Bytes) {
    x in s && forall y | y in s && y != x :: Less(x, y)
  }

  lemma LeastExists(s: set<Bytes>)
    requires s != {}
    ensures exists x :: IsLeast(s, x)
  {
    var e :| e in s;
    if s == {e} {
      assert IsLeast(s, e);
    } else {
      LeastExists(s - {e});
      var x :| IsLeast(s - {e}, x);
      Trichotomy(x, e);
      if Less(x, e) {
        assert IsLeast(s, x);
      } else {
        forall y | y in s && y != e ensures Less(e, y) {
          if y != x { Transitive(e, x, y); }
        }
        assert IsLeast(s, e);
      }
    }
  }

  lemma LeastUnique(s: set<Bytes>, x: Bytes, y: Bytes)
    requires IsLeast(s, x) && IsLeast(s, y)
    ensures x == y
  {
    Trichotomy(x, y);
  }

  ghost function Least(s: set<Bytes>): (x: Bytes)
    requires s != {}
    ensures IsLeast(s, x)
  {
    LeastExists(s);
    var x :| IsLeast(s, x);
    x
  }

  /** The keys of `s` in iteration order. */
  ghost function Sorted(s: set<Bytes>): seq<Bytes> {
    if s == {} then [] else [Least(s)] + Sorted(s - {Least(s)})
  }

  ghost predicate StrictlyAscending(q: seq<Bytes>) {
    forall i, j | 0 <= i < j < |q| :: Less(q[i], q[j])
  }

  /** Iteration visits every key once, in ascending order. */
  lemma {:induction false} SortedIsSorted(s: set<Bytes>)
    ensures forall x :: x in Sorted(s) <==> x in s
    ensures StrictlyAscending(Sorted(s))
    ensures |Sorted(s)| == |s|
  {
    if s != {} {
      var x := Least(s);
      SortedIsSorted(s - {x});
      LeastFirst(s, x, Sorted(s - {x}));
    }
  }

  lemma LeastFirst(s: set<Bytes>, x: Bytes, rest: seq<Bytes>)
    requires IsLeast(s, x) && StrictlyAscending(rest) && forall y :: y in rest <==> y in s - {x}
    ensures forall y :: y in [x] + rest <==> y in s
    ensures StrictlyAscending([x] + rest)
  {
    var q := [x] + rest;
    forall i, j | 0 <= i < j < |q| ensures Less(q[i], q[j]) {
      assert q[j] == rest[j - 1] && rest[j - 1] in rest;
    }
  }

  /** There is only one ascending listing of a set. */
  lemma {:induction false} AscendingUnique(q: seq<Bytes>, s: set<Bytes>)
    requires StrictlyAscending(q) && forall x :: x in q <==> x in s
    ensures q == Sorted(s)
  {
    if q == [] {
      assert s == {};
    } else {
      assert q[0] in s;
      assert IsLeast(s, q[0]) by {
        forall y | y in s && y != q[0] ensures Less(q[0], y) {
          var j :| 0 <= j < |q| && q[j] == y;
        }
      }
      LeastUnique(s, q[0], Least(s));
      forall x ensures x in q[1..] <==> x in s - {q[0]} {
        if x in q[1..] {
          var j :| 0 <= j < |q[1..]| && q[1..][j] == x;
          Trichotomy(q[0], q[j + 1]);
        }
        assert q == [q[0]] + q[1..];
      }
      AscendingUnique(q[1..], s - {q[0]});
    }
  }

  /** The keys visited before step i of an iteration. */
  ghost function Visited(q: seq<Bytes>, i: nat): set<Bytes>
    requires i <= |q|
  {
    set x | x in q[..i]
  }

  lemma NotYetVisited(q: seq<Bytes>, i: nat)
    requires StrictlyAscending(q) && i < |q|
    ensures q[i] !in q[..i]
    ensures Visited(q, i + 1) == Visited(q, i) + {q[i]}
  {
    forall j | 0 <= j < i ensures q[j] != q[i] {
      Trichotomy(q[j], q[i]);
    }
    assert q[..i + 1] == q[..i] + [q[i]];
  }

  /** Step i of the iteration over `s` meets a key of `s` it has not met before. */
  lemma Visit(s: set<Bytes>, order: seq<Bytes>, i: nat)
    requires order == Sorted(s) && i < |order|
    ensures order[i] in s && order[i] !in Visited(order, i)
    ensures Visited(order, i + 1) == Visited(order, i) + {order[i]}
  {
    SortedIsSorted(s);
    NotYetVisited(order, i);
  }

  lemma VisitedAll(s: set<Bytes>)
    ensures Visited(Sorted(s), 0) == {} && Visited(Sorted(s), |Sorted(s)|) == s
  {
    SortedIsSorted(s);
    assert Sorted(s)[..|Sorted(s)|] == Sorted(s);
  }

  // ---- Filtering an iteration ----

  ghost function Filter(q: seq<Bytes>, keep: set<Bytes>): seq<Bytes> {
    if q == [] then []
    else Filter(q[..|q| - 1], keep) + (if q[|q| - 1] in keep then [q[|q| - 1]] else [])
  }

  lemma {:induction false} FilterAscending(q: seq<Bytes>, keep: set<Bytes>)
    requires StrictlyAscending(q)
    ensures StrictlyAscending(Filter(q, keep))
    ensures forall x :: x in Filter(q, keep) <==> x in q && x in keep
  {
    if q != [] {
      var init, last := q[..|q| - 1], q[|q| - 1];
      assert q == init + [last];
      FilterAscending(init, keep);
      var f := Filter(init, keep);
      forall i | 0 <= i < |f| ensures Less(f[i], last) {
        assert f[i] in init;
        var j :| 0 <= j < |init| && init[j] == f[i];
        assert q[j] == f[i];
      }
    }
  }

  /** Visiting the keys in order and keeping some visits the kept ones in order. */
  lemma FilterSorted(s: set<Bytes>, keep: set<Bytes>)
    ensures Filter(Sorted(s), keep) == Sorted(s * keep)
  {
    SortedIsSorted(s);
    FilterAscending(Sorted(s), keep);
    AscendingUnique(Filter(Sorted(s), keep), s * keep);
  }

  /** The keys of an ordered map in iteration order. */
  method InOrder(s: set<Bytes>) returns (order: seq<Bytes>)
    ensures order == Sorted(s)
  {
    order := [];
    var rest := s;
    while rest != {}
      invariant order + Sorted(rest) == Sorted(s)
      decreases rest
    {
      LeastExists(rest);
      var x :| x in rest && forall y | y in rest && y != x :: Less(x, y);
      LeastUnique(rest, x, Least(rest));
      order := order + [x];
      rest := rest - {x};
    }
  }
}
