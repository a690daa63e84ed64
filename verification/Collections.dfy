/**
 Facts about sets and maps used where a loop visits one key at a time: what is left of a map, or
 counted of a set, after the keys visited so far, and how one more key changes it. The loops over
 `std::map` in the register store and the reconciler are proved with them; the keystroke planner
 counts the starts of modifier runs with the last one.
 */
module Collections {
  lemma RemoveOne<K, V>(m: map<K, V>, visited: set<K>, dead: set<K>, k: K)
    ensures m - (visited + {k}) * dead == if k in dead then m - visited * dead - {k} else m - visited * dead
  {}

  lemma RemoveNone<K, V>(m: map<K, V>, dead: set<K>)
    ensures m - {} * dead == m
  {}

  lemma CountOne<K>(visited: set<K>, kept: set<K>, k: K)
    requires k !in visited
    ensures |(visited + {k}) * kept| == |visited * kept| + if k in kept then 1 else 0
  {
    if k in kept {
      assert (visited + {k}) * kept == visited * kept + {k};
    } else {
      assert (visited + {k}) * kept == visited * kept;
    }
  }

  lemma IntersectSubset<K>(all: set<K>, kept: set<K>)
    requires kept <= all
    ensures all * kept == kept && {} * kept == {}
  {}

  /** A set and its image under a one-to-one function have the same size. */
  lemma ImageSize<A, B>(s: set<A>, f: A --> B, t: set<B>)
    requires forall a | a in s :: f.requires(a)
    requires forall a, b | a in s && b in s && f(a) == f(b) :: a == b
    requires t == set a | a in s :: f(a)
    ensures |t| == |s|
  {
    if s != {} {
      var a :| a in s;
      var s', t' := s - {a}, set b | b in s - {a} :: f(b);
      ImageSize(s', f, t');
      assert t == t' + {f(a)};
    }
  }
}
