/** The two QList<T> operations the playlist tree relies on, over sequences. */
module QtList {

  /** QList<T>::value(i): the element at i, or a default-constructed value
      when i is not a valid index (the list is never read out of range). */
  function Value<T>(s: seq<T>, i: int, default: T): (r: T)
    ensures 0 <= i < |s| ==> r == s[i]
    ensures i < 0 || |s| <= i ==> r == default
    ensures r in s || r == default
  {
    if 0 <= i < |s| then s[i] else default
  }

  /** QList<T>::insert(i, x) at a valid insertion position 0 <= i <= size():
      x lands at index i, the elements before it keep their index and the
      elements from i onwards move up by one. */
  function Insert<T>(s: seq<T>, i: int, x: T): (r: seq<T>)
    requires 0 <= i <= |s|
    ensures |r| == |s| + 1
    ensures r[i] == x
    ensures forall k :: 0 <= k < i ==> r[k] == s[k]
    ensures forall k :: i <= k < |s| ==> r[k + 1] == s[k]
  {
    s[..i] + [x] + s[i..]
  }

  /** Reading through value() after an insert: rows before i read as before,
      row i reads x, and every later row reads what the row above it held. */
  lemma InsertValue<T>(s: seq<T>, i: int, x: T, k: int, default: T)
    requires 0 <= i <= |s|
    ensures Value(Insert(s, i, x), k, default) ==
      if k < i then Value(s, k, default)
      else if k == i then x
      else Value(s, k - 1, default)
  {
    var r := Insert(s, i, x);
    if i < k <= |s| {
      assert r[(k - 1) + 1] == s[k - 1];
    }
  }

  /** Inserting at position size() is appending. */
  lemma InsertAtEnd<T>(s: seq<T>, x: T)
    ensures Insert(s, |s|, x) == s + [x]
  {
    assert s[..|s|] == s;
  }
}
