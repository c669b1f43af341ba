/** Reductions and orderings over finite sets of ids, used by id generation, genre
    sorting and the places where the source iterates a HashMap or HashSet. */
module Collections {

  /** Every element of s occurs exactly once in xs and xs holds nothing else. */
  ghost predicate Enumerates(xs: seq<int>, s: set<int>)
  {
    && |xs| == |s|
    && (forall x :: x in xs <==> x in s)
    && (forall i :: 0 <= i < |xs| ==> xs[i] in s)
    && (forall i, j :: 0 <= i < j < |xs| ==> xs[i] != xs[j])
  }

  /** Strictly ascending. */
  predicate StrictlyIncreasing(xs: seq<int>)
  {
    forall i, j :: 0 <= i < j < |xs| ==> xs[i] < xs[j]
  }

  /** Some element of a non-empty set. */
  lemma Element<T>(s: set<T>) returns (x: T)
    requires s != {}
    ensures x in s
  {
    x :| x in s;
  }

  lemma {:induction false} MaxExists(s: set<int>)
    requires s != {}
    ensures exists m :: m in s && forall x :: x in s ==> x <= m
    decreases |s|
  {
    var y := Element(s);
    if s != {y} {
      var rest := s - {y};
      MaxExists(rest);
      var m :| m in rest && forall x :: x in rest ==> x <= m;
      var top := if y <= m then m else y;
      forall x | x in s ensures x <= top {
        if x != y { assert x in rest; }
      }
      assert top in s;
    } else {
      assert forall x :: x in s ==> x <= y;
    }
  }

  lemma {:induction false} MinExists(s: set<int>)
    requires s != {}
    ensures exists m :: m in s && forall x :: x in s ==> m <= x
    decreases |s|
  {
    var y := Element(s);
    if s != {y} {
      var rest := s - {y};
      MinExists(rest);
      var m :| m in rest && forall x :: x in rest ==> m <= x;
      var bottom := if m <= y then m else y;
      forall x | x in s ensures bottom <= x {
        if x != y { assert x in rest; }
      }
      assert bottom in s;
    } else {
      assert forall x :: x in s ==> y <= x;
    }
  }

  /** The largest element (IntStream.max on a non-empty stream). */
  function MaxOf(s: set<int>): (m: int)
    requires s != {}
    ensures m in s && forall x :: x in s ==> x <= m
  {
    MaxExists(s);
    var m :| m in s && forall x :: x in s ==> x <= m;
    m
  }

  /** The smallest element. */
  function MinOf(s: set<int>): (m: int)
    requires s != {}
    ensures m in s && forall x :: x in s ==> m <= x
  {
    MinExists(s);
    var m :| m in s && forall x :: x in s ==> m <= x;
    m
  }

  /** The elements of s in ascending order (a sort by id). */
  function SortedAscending(s: set<int>): (xs: seq<int>)
    ensures StrictlyIncreasing(xs)
    ensures forall x :: x in xs <==> x in s
    ensures |xs| == |s|
    decreases |s|
  {
    if s == {} then []
    else
      var m := MinOf(s);
      var rest := SortedAscending(s - {m});
      assert forall x :: x in rest ==> m < x;
      [m] + rest
  }

  /** The elements of s in an order the caller may not rely on, as a HashSet or the key set
      of a HashMap yields them. */
  method AnyOrder(s: set<int>) returns (xs: seq<int>)
    ensures Enumerates(xs, s)
  {
    xs := [];
    var rest := s;
    while rest != {}
      invariant rest <= s
      invariant |xs| + |rest| == |s|
      invariant forall x :: x in xs <==> x in s && x !in rest
      invariant forall i :: 0 <= i < |xs| ==> xs[i] in s
      invariant forall i, j :: 0 <= i < j < |xs| ==> xs[i] != xs[j]
      decreases |rest|
    {
      ghost var w := Element(rest);
      var x :| x in rest;
      xs := xs + [x];
      rest := rest - {x};
    }
  }

  /** The values a join table pairs with one key: SELECT value FROM rel WHERE key = ?. */
  function Image(rel: set<(int, int)>, key: int): (vs: set<int>)
    ensures forall v :: v in vs <==> (key, v) in rel
  {
    set p | p in rel && p.0 == key :: p.1
  }

  /** A key's image is empty exactly when the relation pairs the key with nothing. */
  lemma ImageEmpty(rel: set<(int, int)>, key: int)
    ensures Image(rel, key) == {} <==> forall v :: (key, v) !in rel
  {
    if forall v :: (key, v) !in rel {
      assert forall v :: v !in Image(rel, key);
    }
  }

  /** When every value of the relation lies in t, so does every key's image. */
  lemma {:induction false} ImageWithin(rel: set<(int, int)>, key: int, t: set<int>)
    requires forall p :: p in rel ==> p.1 in t
    ensures Image(rel, key) <= t
  {
    forall v | v in Image(rel, key) ensures v in t {
      assert (key, v) in rel;
    }
  }

  /** Inserting the row (key, v) adds v to key's image and to no other key's. */
  lemma {:induction false} ImageAfterInsert(rel: set<(int, int)>, key: int, v: int, other: int)
    ensures Image(rel + {(key, v)}, key) == Image(rel, key) + {v}
    ensures other != key ==> Image(rel + {(key, v)}, other) == Image(rel, other)
  {
    var after := Image(rel + {(key, v)}, key);
    forall w | w in after ensures w in Image(rel, key) + {v} {
      assert (key, w) in rel + {(key, v)};
    }
    forall w | w in Image(rel, key) + {v} ensures w in after {
      assert (key, w) in rel + {(key, v)};
    }
    if other != key {
      var afterOther := Image(rel + {(key, v)}, other);
      forall w | w in afterOther ensures w in Image(rel, other) {
        assert (other, w) in rel + {(key, v)};
      }
      forall w | w in Image(rel, other) ensures w in afterOther {
        assert (other, w) in rel;
      }
    }
  }

  /** Deleting the row (key, v) removes v from key's image and from no other key's. */
  lemma {:induction false} ImageAfterDelete(rel: set<(int, int)>, key: int, v: int, other: int)
    ensures Image(rel - {(key, v)}, key) == Image(rel, key) - {v}
    ensures other != key ==> Image(rel - {(key, v)}, other) == Image(rel, other)
  {
    var after := Image(rel - {(key, v)}, key);
    forall w | w in after ensures w in Image(rel, key) - {v} {
      assert (key, w) in rel - {(key, v)};
    }
    forall w | w in Image(rel, key) - {v} ensures w in after {
      assert (key, w) in rel - {(key, v)};
    }
    if other != key {
      var afterOther := Image(rel - {(key, v)}, other);
      forall w | w in afterOther ensures w in Image(rel, other) {
        assert (other, w) in rel - {(key, v)};
      }
      forall w | w in Image(rel, other) ensures w in afterOther {
        assert (other, w) in rel - {(key, v)};
      }
    }
  }
}
