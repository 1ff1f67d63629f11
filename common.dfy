/** Small building blocks shared by the model of the course-management backend. */
module Common {

  datatype Option<+T> = None | Some(value: T)

  /** Document identifiers (MongoDB ObjectIds). The store hands them out from
      a counter, so a smaller id always names an older document. */
  type Id = nat

  /** A point in time, in milliseconds since the epoch, as a JavaScript Date. */
  type Date = int

  /** No element occurs twice. */
  ghost predicate NoDup<T>(xs: seq<T>) {
    forall i, j :: 0 <= i < j < |xs| ==> xs[i] != xs[j]
  }

  /** How many times `x` occurs in `xs`. */
  function Count<T(==)>(xs: seq<T>, x: T): (n: nat)
    ensures n <= |xs|
    ensures n == 0 <==> x !in xs
  {
    if xs == [] then 0 else (if xs[0] == x then 1 else 0) + Count(xs[1..], x)
  }

  /** In a list without repetitions an element that is present occurs exactly once. */
  lemma {:induction false} CountNoDup<T>(xs: seq<T>, x: T)
    requires NoDup(xs) && x in xs
    ensures Count(xs, x) == 1
  {
    if xs[0] == x {
      assert x !in xs[1..] by {
        forall k | 0 <= k < |xs[1..]| ensures xs[1..][k] != x {
          assert xs[k + 1] != xs[0];
        }
      }
    } else {
      CountNoDup(xs[1..], x);
    }
  }

  lemma NoDupAppend<T>(xs: seq<T>, y: T)
    requires NoDup(xs) && y !in xs
    ensures NoDup(xs + [y])
  {
  }

  /** Adding a key a map does not have grows it by exactly one entry. */
  lemma MapAddFresh<K, V>(m: map<K, V>, k: K, v: V)
    requires k !in m
    ensures m[k := v].Keys == m.Keys + {k}
    ensures |m[k := v]| == |m| + 1
  {
    assert m[k := v].Keys == m.Keys + {k};
  }
}
