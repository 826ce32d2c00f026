/**
 * The three Python list operations the terminal relies on, with Python's index rules written out:
 * `xs[k] = x` and `del xs[k]` accept a negative index counting from the end, and `xs.insert(k, x)`
 * clamps its index into the list.
 */
module PyList {

  /** Python accepts `k` as an index into a list of length `n` exactly when `-n <= k < n`. */
  predicate InBounds(k: int, n: int) {
    -n <= k < n
  }

  /** The position a valid Python index denotes: a negative index counts back from the end. */
  function Slot(k: int, n: int): (j: nat)
    requires InBounds(k, n)
    ensures j < n
    ensures j == k || j == k + n
  {
    if k < 0 then k + n else k
  }

  /** The position at which `xs.insert(k, x)` puts `x` into a list of length `n`. */
  function InsertSlot(k: int, n: nat): (j: nat)
    ensures j <= n
    ensures 0 <= k <= n ==> j == k
    ensures k < 0 <= k + n ==> j == k + n
    ensures k > n ==> j == n
    ensures k + n < 0 ==> j == 0
  {
    if k < 0 then (if k + n < 0 then 0 else k + n)
    else if k > n then n
    else k
  }

  /** The list after `del xs[k]`: the element at `Slot(k)` is gone and the later ones move down. */
  function Delete<T>(xs: seq<T>, k: int): (r: seq<T>)
    requires InBounds(k, |xs|)
    ensures |r| == |xs| - 1
    ensures forall m :: 0 <= m < |r| ==> r[m] == if m < Slot(k, |xs|) then xs[m] else xs[m + 1]
  {
    var j := Slot(k, |xs|);
    xs[..j] + xs[j + 1..]
  }

  /** The list after `xs.insert(k, x)`: `x` sits at `InsertSlot(k)` and the later elements move up. */
  function Insert<T>(xs: seq<T>, k: int, x: T): (r: seq<T>)
    ensures |r| == |xs| + 1
    ensures forall m :: 0 <= m < |r| ==>
      r[m] == if m < InsertSlot(k, |xs|) then xs[m] else if m == InsertSlot(k, |xs|) then x else xs[m - 1]
  {
    var j := InsertSlot(k, |xs|);
    xs[..j] + [x] + xs[j..]
  }

  /** The list after `xs[k] = x`. */
  function Assign<T>(xs: seq<T>, k: int, x: T): (r: seq<T>)
    requires InBounds(k, |xs|)
    ensures |r| == |xs|
    ensures forall m :: 0 <= m < |r| ==> r[m] == if m == Slot(k, |xs|) then x else xs[m]
  {
    xs[Slot(k, |xs|) := x]
  }

  /** Inserting the deleted element back at its own position restores the list. */
  lemma InsertUndoesDelete<T>(xs: seq<T>, k: int)
    requires InBounds(k, |xs|)
    ensures Insert(Delete(xs, k), Slot(k, |xs|), xs[Slot(k, |xs|)]) == xs
  {
    var r := Insert(Delete(xs, k), Slot(k, |xs|), xs[Slot(k, |xs|)]);
    assert |r| == |xs|;
    forall m | 0 <= m < |xs| ensures r[m] == xs[m] {
    }
  }
}
