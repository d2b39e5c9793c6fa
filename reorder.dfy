/** Moving one element of a list to another position, in place. Models
    src/utils/reorder.ts. */
module Reorder {

  /** `x` held inside `[lo, hi]`. */
  function Clamp(x: int, lo: int, hi: int): (r: int)
    requires lo <= hi
    ensures lo <= r <= hi
    ensures r == x || (x < lo && r == lo) || (hi < x && r == hi)
  {
    if x < lo then lo else if x > hi then hi else x
  }

  /** A call that changes the list: a real move from a valid index. */
  predicate IsMove<T>(s: seq<T>, from: int, to: int) {
    from != to && 0 <= from < |s|
  }

  /** Where the moved element lands: `to` clamped to the length after removal. */
  function Target<T>(s: seq<T>, to: int): nat
    requires |s| > 0
  {
    Clamp(to, 0, |s| - 1)
  }

  /** The old index of the element that sits at index `i` after moving the element at
      `from` to `t`: the moved element at `t`, the elements between shifted by one. */
  function Origin(from: nat, t: nat, i: nat): (r: nat)
  {
    if i == t then from
    else if from <= i < t then i + 1
    else if t < i <= from then i - 1
    else i
  }

  /** The list after moveItem(list, from, to), stated index by index. */
  function Moved<T>(s: seq<T>, from: int, to: int): (r: seq<T>)
    ensures |r| == |s|
  {
    if !IsMove(s, from, to) then s
    else
      var t := Target(s, to);
      seq(|s|, i requires 0 <= i < |s| => s[Origin(from, t, i)])
  }

  /** `splice(i, 1)`. */
  function RemoveAt<T>(s: seq<T>, i: nat): (r: seq<T>)
    requires i < |s|
    ensures |r| == |s| - 1
    ensures forall j :: 0 <= j < |r| ==> r[j] == if j < i then s[j] else s[j + 1]
  {
    s[..i] + s[i + 1..]
  }

  /** `splice(i, 0, x)`. */
  function InsertAt<T>(s: seq<T>, i: nat, x: T): (r: seq<T>)
    requires i <= |s|
    ensures |r| == |s| + 1
    ensures forall j :: 0 <= j < |r| ==> r[j] == if j < i then s[j] else if j == i then x else s[j - 1]
  {
    s[..i] + [x] + s[i..]
  }

  /** The caller's list, which moveItem changes in place. */
  class ItemList<T> {
    var items: seq<T>

    constructor (initial: seq<T>)
      ensures items == initial
    {
      items := initial;
    }

    /** moveItem(list, from, to). */
    method MoveItem(from: int, to: int)
      modifies this
      ensures items == Moved(old(items), from, to)
    {
      if from == to { return; }
      if from < 0 || from >= |items| { return; }
      ghost var before := items;
      var item := items[from];
      items := items[..from] + items[from + 1..];
      var targetIndex := to;
      if targetIndex < 0 { targetIndex := 0; }
      if targetIndex > |items| { targetIndex := |items|; }
      items := items[..targetIndex] + [item] + items[targetIndex..];
      MovedIsRemoveThenInsert(before, from, to);
    }
  }

  // ---------------------------------------------------------------------------
  // Properties of Moved

  /** A move is the removal of the element followed by its insertion at the target. */
  lemma MovedIsRemoveThenInsert<T>(s: seq<T>, from: int, to: int)
    requires IsMove(s, from, to)
    ensures Moved(s, from, to) == InsertAt(RemoveAt(s, from), Target(s, to), s[from])
  {
    var t := Target(s, to);
    var rest := RemoveAt(s, from);
    var r := Moved(s, from, to);
    var u := InsertAt(rest, t, s[from]);
    forall i | 0 <= i < |s| ensures r[i] == u[i] {
      assert r[i] == s[Origin(from, t, i)];
      if i < t {
        assert u[i] == rest[i];
        if i < from {
          assert Origin(from, t, i) == i && rest[i] == s[i];
        } else {
          assert Origin(from, t, i) == i + 1 && rest[i] == s[i + 1];
        }
      } else if t < i {
        assert u[i] == rest[i - 1];
        if i <= from {
          assert Origin(from, t, i) == i - 1 && rest[i - 1] == s[i - 1];
        } else {
          assert Origin(from, t, i) == i && rest[i - 1] == s[i];
        }
      } else {
        assert Origin(from, t, i) == from && u[i] == s[from];
      }
    }
  }

  /** The same index, or a `from` outside the list, leaves the list alone; `from == to`
      is decided before the bounds. */
  lemma MovedNoOp<T>(s: seq<T>, from: int, to: int)
    requires from == to || from < 0 || from >= |s|
    ensures Moved(s, from, to) == s
  {
  }

  /** A move keeps the length and the elements. */
  lemma MovedPermutes<T>(s: seq<T>, from: int, to: int)
    ensures |Moved(s, from, to)| == |s|
    ensures multiset(Moved(s, from, to)) == multiset(s)
  {
    if IsMove(s, from, to) {
      MovedIsRemoveThenInsert(s, from, to);
      var rest := RemoveAt(s, from);
      RemoveAtMultiset(s, from);
      InsertAtMultiset(rest, Target(s, to), s[from]);
    }
  }

  lemma RemoveAtMultiset<T>(s: seq<T>, i: nat)
    requires i < |s|
    ensures multiset(RemoveAt(s, i)) + multiset{s[i]} == multiset(s)
  {
    assert s == s[..i] + [s[i]] + s[i + 1..];
  }

  lemma InsertAtMultiset<T>(s: seq<T>, i: nat, x: T)
    requires i <= |s|
    ensures multiset(InsertAt(s, i, x)) == multiset(s) + multiset{x}
  {
    assert s == s[..i] + s[i..];
  }

  /** The moved element lands at the clamped target: first for a negative `to`, last
      for a `to` at or past the last index. */
  lemma MovedPlacesItem<T>(s: seq<T>, from: int, to: int)
    requires IsMove(s, from, to)
    ensures Moved(s, from, to)[Clamp(to, 0, |s| - 1)] == s[from]
    ensures to <= 0 ==> Moved(s, from, to)[0] == s[from]
    ensures to >= |s| - 1 ==> Moved(s, from, to)[|s| - 1] == s[from]
  {
  }

  /** Taking the moved element out again gives the list with it taken out at `from`:
      every other element keeps its relative order. */
  lemma MovedKeepsOthersInOrder<T>(s: seq<T>, from: int, to: int)
    requires IsMove(s, from, to)
    ensures RemoveAt(Moved(s, from, to), Target(s, to)) == RemoveAt(s, from)
  {
  }

  /** Moving the element back from where it landed restores the list. */
  lemma MoveBackRestores<T>(s: seq<T>, from: int, to: int)
    requires IsMove(s, from, to)
    ensures Moved(Moved(s, from, to), Target(s, to), from) == s
  {
    var m := Moved(s, from, to);
    var t := Target(s, to);
    if t == from {
      assert m == s;
    } else {
      var b := Moved(m, t, from);
      assert Target(m, from) == from;
      forall i | 0 <= i < |s| ensures b[i] == s[i] {
      }
    }
  }

  /** Five worked cases: the moves [a,b,c,d] 0->2, [a,b,c] 0->99 and [a,b,c] 2->-5, and
      the no-ops [a,b,c] 1->1 and [a,b,c] 5->0. */
  lemma MoveExamples<T>(a: T, b: T, c: T, d: T)
    ensures Moved([a, b, c, d], 0, 2) == [b, c, a, d]
    ensures Moved([a, b, c], 0, 99) == [b, c, a]
    ensures Moved([a, b, c], 2, -5) == [c, a, b]
    ensures Moved([a, b, c], 1, 1) == [a, b, c]
    ensures Moved([a, b, c], 5, 0) == [a, b, c]
  {
  }
}
