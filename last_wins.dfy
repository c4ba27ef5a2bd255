/** The "later entry wins" fold shared by the upsert loop (each upsert replaces the
    row with the same key) and by the two `reduce` calls that turn fetched rows back
    into an element-to-content object (each assignment `acc[element] = ...`
    overwrites the previous one). */
module LastWins {
  import opened Wrappers

  /** Folds `xs` from the left into `init`, writing `val(x)` under `key(x)`. */
  function Fold<T, K, V>(init: map<K, V>, xs: seq<T>, key: T -> K, val: T -> V): map<K, V>
    decreases |xs|
  {
    if xs == [] then init
    else Fold(init, xs[..|xs| - 1], key, val)[key(xs[|xs| - 1]) := val(xs[|xs| - 1])]
  }

  /** The last element of `xs` whose key is `k`, looked for from the front. */
  function LastWith<T, K(==)>(xs: seq<T>, key: T -> K, k: K): Option<T>
    decreases |xs|
  {
    if xs == [] then None
    else match LastWith(xs[1..], key, k)
      case Some(x) => Some(x)
      case None => if key(xs[0]) == k then Some(xs[0]) else None
  }

  /** `LastWith` finds an element with key `k` that no later element shares its key
      with, and finds nothing exactly when no element has key `k`. */
  lemma {:induction false} LastWithSpec<T, K>(xs: seq<T>, key: T -> K, k: K)
    ensures LastWith(xs, key, k).None? <==> forall i :: 0 <= i < |xs| ==> key(xs[i]) != k
    ensures LastWith(xs, key, k).Some? ==>
      exists i :: 0 <= i < |xs| && xs[i] == LastWith(xs, key, k).value && key(xs[i]) == k
        && forall j :: i < j < |xs| ==> key(xs[j]) != k
    decreases |xs|
  {
    if xs != [] {
      LastWithSpec(xs[1..], key, k);
      assert forall i :: 1 <= i < |xs| ==> xs[i] == xs[1..][i - 1];
      match LastWith(xs[1..], key, k)
      case Some(x) =>
        var i :| 0 <= i < |xs| - 1 && xs[1..][i] == x && key(xs[1..][i]) == k
          && forall j :: i < j < |xs| - 1 ==> key(xs[1..][j]) != k;
        assert xs[i + 1] == x;
        assert forall j :: i + 1 < j < |xs| ==> key(xs[j]) != k by {
          forall j | i + 1 < j < |xs| ensures key(xs[j]) != k {
            assert xs[j] == xs[1..][j - 1];
          }
        }
      case None =>
        if key(xs[0]) == k {
          assert forall j :: 0 < j < |xs| ==> key(xs[j]) != k by {
            forall j | 0 < j < |xs| ensures key(xs[j]) != k {
              assert xs[j] == xs[1..][j - 1];
            }
          }
        }
    }
  }

  /** Appending an element: it is the last one with its key. */
  lemma {:induction false} LastWithSnoc<T, K>(xs: seq<T>, y: T, key: T -> K, k: K)
    ensures LastWith(xs + [y], key, k) == if key(y) == k then Some(y) else LastWith(xs, key, k)
    decreases |xs|
  {
    if xs == [] {
      assert ([y])[1..] == [];
    } else {
      assert (xs + [y])[1..] == xs[1..] + [y];
      LastWithSnoc(xs[1..], y, key, k);
    }
  }

  /** The fold holds a key exactly when `init` or some element has it, and its value
      there is that of the last element with the key, or `init`'s when there is none. */
  lemma {:induction false} FoldAt<T, K, V>(init: map<K, V>, xs: seq<T>, key: T -> K, val: T -> V, k: K)
    ensures var m := Fold(init, xs, key, val);
      k in m <==> k in init || exists i :: 0 <= i < |xs| && key(xs[i]) == k
    ensures var m := Fold(init, xs, key, val);
      LastWith(xs, key, k).Some? ==> k in m && m[k] == val(LastWith(xs, key, k).value)
    ensures var m := Fold(init, xs, key, val);
      LastWith(xs, key, k).None? ==> (k in m <==> k in init) && (k in init ==> m[k] == init[k])
    decreases |xs|
  {
    LastWithSpec(xs, key, k);
    if xs != [] {
      var front, y := xs[..|xs| - 1], xs[|xs| - 1];
      assert xs == front + [y];
      FoldAt(init, front, key, val, k);
      LastWithSnoc(front, y, key, k);
      LastWithSpec(front, key, k);
      assert forall i :: 0 <= i < |front| ==> front[i] == xs[i];
      if exists i :: 0 <= i < |xs| && key(xs[i]) == k {
        var i :| 0 <= i < |xs| && key(xs[i]) == k;
        if i < |front| {
          assert key(front[i]) == k;
        }
      }
    }
  }
}
