/** Cardinality facts about finite sets used by the map-filtering proofs. */
module Sets {

  lemma {:induction false} SubsetSize<T>(a: set<T>, b: set<T>)
    requires a <= b
    ensures |a| <= |b|
    ensures |a| == |b| ==> a == b
    decreases b
  {
    if a != {} {
      var x :| x in a;
      SubsetSize(a - {x}, b - {x});
      if |a| == |b| {
        assert a == (a - {x}) + {x} && b == (b - {x}) + {x};
      }
    } else if b != {} {
      var y :| y in b;
      assert y !in a;
    }
  }

  /** The values a map gives to the elements of `s`. */
  ghost function Image<T, U>(s: set<T>, f: map<T, U>): set<U>
    requires s <= f.Keys
  {
    set x | x in s :: f[x]
  }

  /** The image of a set under a map has at most as many elements as the set. */
  lemma {:induction false} ImageSize<T, U>(s: set<T>, f: map<T, U>)
    requires s <= f.Keys
    ensures |Image(s, f)| <= |s|
    decreases s
  {
    if s != {} {
      var x :| x in s;
      var rest := s - {x};
      ImageSize(rest, f);
      assert Image(s, f) == Image(rest, f) + {f[x]};
    }
  }

  ghost predicate InjectiveOn<T, U>(s: set<T>, f: map<T, U>)
    requires s <= f.Keys
  {
    forall x, y :: x in s && y in s && f[x] == f[y] ==> x == y
  }

  /** The image keeps every element apart exactly when the map is injective on the set. */
  lemma {:induction false} ImageSizeExact<T, U>(s: set<T>, f: map<T, U>)
    requires s <= f.Keys
    ensures |Image(s, f)| == |s| <==> InjectiveOn(s, f)
    decreases s
  {
    if s != {} {
      var x :| x in s;
      var rest := s - {x};
      ImageSizeExact(rest, f);
      ImageSize(rest, f);
      var img := Image(s, f);
      var imgRest := Image(rest, f);
      assert img == imgRest + {f[x]};
      if InjectiveOn(s, f) {
        assert InjectiveOn(rest, f);
        assert f[x] !in imgRest;
      } else {
        var a, b :| a in s && b in s && f[a] == f[b] && a != b;
        if a == x || b == x {
          var c := if a == x then b else a;
          assert c in rest && f[c] == f[x];
          assert img == imgRest;
        } else {
          assert !InjectiveOn(rest, f);
        }
      }
    }
  }
}
