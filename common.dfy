/** Generic helpers shared across the model: an optional value and list flattening. */
module Common {

  datatype Option<+T> = None | Some(value: T)

  /** Python's `[x for xs in xss for x in xs]`: the lists of `xss` joined in order. */
  function Flatten<T>(xss: seq<seq<T>>): (r: seq<T>)
  {
    if |xss| == 0 then [] else Flatten(xss[..|xss| - 1]) + xss[|xss| - 1]
  }

  lemma {:induction false} FlattenConcat<T>(a: seq<seq<T>>, b: seq<seq<T>>)
    ensures Flatten(a + b) == Flatten(a) + Flatten(b)
    decreases |b|
  {
    if |b| == 0 {
      assert a + b == a;
    } else {
      var b' := b[..|b| - 1];
      assert (a + b)[..|a + b| - 1] == a + b';
      FlattenConcat(a, b');
    }
  }

  /** Replacing the list at index j changes the flattened multiset by exactly that list. */
  lemma FlattenUpdate<T>(xss: seq<seq<T>>, j: nat, ys: seq<T>)
    requires j < |xss|
    ensures multiset(Flatten(xss[j := ys])) + multiset(xss[j]) == multiset(Flatten(xss)) + multiset(ys)
  {
    var pre, post := xss[..j], xss[j + 1..];
    assert xss == pre + [xss[j]] + post;
    assert xss[j := ys] == pre + [ys] + post;
    FlattenConcat(pre + [xss[j]], post);
    FlattenConcat(pre, [xss[j]]);
    FlattenConcat(pre + [ys], post);
    FlattenConcat(pre, [ys]);
    assert Flatten([xss[j]]) == xss[j] by { assert [xss[j]][..0] == []; }
    assert Flatten([ys]) == ys by { assert [ys][..0] == []; }
  }

  /** Inserting y into the list at index j adds exactly y to the flattened multiset. */
  lemma FlattenInsert<T>(xss: seq<seq<T>>, j: nat, i: nat, y: T)
    requires j < |xss| && i <= |xss[j]|
    ensures multiset(Flatten(xss[j := xss[j][..i] + [y] + xss[j][i..]])) == multiset(Flatten(xss)) + multiset{y}
  {
    var xs := xss[j];
    var ys := xs[..i] + [y] + xs[i..];
    assert multiset(ys) == multiset(xs) + multiset{y} by {
      assert xs == xs[..i] + xs[i..];
      assert multiset(ys) == multiset(xs[..i]) + multiset{y} + multiset(xs[i..]);
    }
    FlattenUpdate(xss, j, ys);
    MultisetCancel(multiset(Flatten(xss[j := ys])), multiset(Flatten(xss)) + multiset{y}, multiset(xs));
  }

  lemma MultisetCancel<T>(a: multiset<T>, b: multiset<T>, c: multiset<T>)
    requires a + c == b + c
    ensures a == b
  {
    assert forall x :: a[x] == (a + c)[x] - c[x];
  }

  lemma FlattenAppend<T>(xss: seq<seq<T>>, ys: seq<T>)
    ensures Flatten(xss + [ys]) == Flatten(xss) + ys
  {
    assert (xss + [ys])[..|xss|] == xss;
  }
}
