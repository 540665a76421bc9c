/** `Collections.sort(list, comparator)`: an in-place stable sort of the
    list of records. */
module Sorting {
  import opened Faces
  import opened Ordering

  /** Sorts `a` in place, stably, by the comparator `o`. The result is the
      one `StableSort` describes, which by `Ordering.SortIsDetermined` is the
      only arrangement that is both in order and stable. */
  method SortInPlace(a: array<Person>, o: Order)
    modifies a
    ensures a[..] == StableSort(o, old(a[..]))
  {
    ghost var input := a[..];
    var i := 0;
    while i < a.Length
      invariant 0 <= i <= a.Length
      invariant a[..i] == StableSort(o, input[..i])
      invariant a[i..] == input[i..]
    {
      assert a[i] == input[i] by { assert a[i..][0] == input[i..][0]; }
      InsertAt(a, i, o);
      assert input[..i + 1][..i] == input[..i];
      i := i + 1;
    }
    assert a[..] == a[..a.Length] && input == input[..a.Length];
  }

  /** Moves `a[i]` left into the sorted prefix `a[..i]`, shifting right every
      record that must come after it; the rest of the array is untouched. */
  method InsertAt(a: array<Person>, i: nat, o: Order)
    requires i < a.Length
    modifies a
    ensures a[..i + 1] == Insert(o, old(a[..i]), old(a[i]))
    ensures a[i + 1..] == old(a[i + 1..])
  {
    ghost var sorted := a[..i];
    var key := a[i];
    var j := i;
    while j > 0 && Compare(o, a[j - 1], key) > 0
      invariant 0 <= j <= i
      invariant forall k :: 0 <= k < j ==> a[k] == sorted[k]
      invariant forall k :: j < k <= i ==> a[k] == sorted[k - 1]
      invariant forall k :: i < k < a.Length ==> a[k] == old(a[k])
      invariant forall k :: j <= k < i ==> Compare(o, sorted[k], key) > 0
    {
      a[j] := a[j - 1];
      j := j - 1;
    }
    InsertSplit(o, sorted, j, key);
    a[j] := key;
    InsertPlaced(a[..i + 1], sorted, j, key);
  }

  /** Where the inner loop stops: every record from `j` on must come after `x`
      and the one before `j`, if any, need not; `x` is inserted at `j`. */
  lemma {:induction false} InsertSplit(o: Order, t: seq<Person>, j: nat, x: Person)
    requires j <= |t|
    requires forall k :: j <= k < |t| ==> Compare(o, t[k], x) > 0
    requires j > 0 ==> Compare(o, t[j - 1], x) <= 0
    ensures Insert(o, t, x) == t[..j] + [x] + t[j..]
    decreases |t|
  {
    if j < |t| {
      var u := t[..|t| - 1];
      assert u[..j] == t[..j];
      InsertSplit(o, u, j, x);
      assert u[j..] + [t[|t| - 1]] == t[j..];
    } else {
      assert t[..j] == t && t[j..] == [];
    }
  }

  /** After the inner loop: the prefix is the records before the hole, the
      key, and the shifted records. */
  lemma InsertPlaced(s: seq<Person>, sorted: seq<Person>, j: nat, key: Person)
    requires j <= |sorted| && |s| == |sorted| + 1
    requires forall k :: 0 <= k < j ==> s[k] == sorted[k]
    requires s[j] == key
    requires forall k :: j < k < |s| ==> s[k] == sorted[k - 1]
    ensures s == sorted[..j] + [key] + sorted[j..]
  {
    var r := sorted[..j] + [key] + sorted[j..];
    forall k | 0 <= k < |s| ensures s[k] == r[k] {
      if k < j { assert r[k] == sorted[k]; }
      else if k > j { assert r[k] == sorted[k - 1]; }
    }
  }
}
