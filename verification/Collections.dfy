/** Small generic collections used throughout. */
module Collections {
  datatype Option<+T> = None | Some(value: T)

  /** Concatenation of a list of lists. */
  function Flatten<T>(parts: seq<seq<T>>): seq<T> {
    if parts == [] then [] else parts[0] + Flatten(parts[1..])
  }

  lemma {:induction false} FlattenAppend<T>(a: seq<seq<T>>, b: seq<seq<T>>)
    ensures Flatten(a + b) == Flatten(a) + Flatten(b)
  {
    if a == [] {
      assert a + b == b;
    } else {
      assert (a + b)[1..] == a[1..] + b;
      FlattenAppend(a[1..], b);
    }
  }

  lemma FlattenSnoc<T>(parts: seq<seq<T>>, part: seq<T>)
    ensures Flatten(parts + [part]) == Flatten(parts) + part
  {
    FlattenAppend(parts, [part]);
    assert Flatten([part]) == part + Flatten([part][1..]);
  }

  /** A list without repetition has as many members as entries. */
  lemma {:induction false} DistinctSize<T>(list: seq<T>)
    requires forall i, j :: 0 <= i < j < |list| ==> list[i] != list[j]
    ensures var members := set x | x in list; |members| == |list|
  {
    var members := set x | x in list;
    if list == [] {
      assert members == {};
    } else {
      var k := |list| - 1;
      DistinctSize(list[..k]);
      assert list == list[..k] + [list[k]];
      assert list[k] !in list[..k];
      assert members == (set x | x in list[..k]) + {list[k]};
    }
  }

  lemma SubsetIsFewer<T>(a: set<T>, b: set<T>)
    requires a <= b
    ensures |a| <= |b|
  {
    assert b == a + (b - a);
  }
}
