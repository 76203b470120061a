/**
 * Optional values and the ordered, duplicate-free lists that JavaScript's
 * `Set` yields when it is turned back into an array.
 */
module Collections {

  datatype Option<+T> = None | Some(value: T)

  predicate NoDuplicates<T(==)>(s: seq<T>) {
    forall i, j :: 0 <= i < j < |s| ==> s[i] != s[j]
  }

  /** `x` occurs in `s` at an earlier position than `y`. */
  ghost predicate Before<T>(s: seq<T>, x: T, y: T) {
    exists i, j :: 0 <= i < j < |s| && s[i] == x && s[j] == y
  }

  /** In a list without repeats, an element is never before itself. */
  lemma BeforeIsStrict<T>(s: seq<T>, x: T, y: T)
    requires NoDuplicates(s) && Before(s, x, y)
    ensures x != y
  {
  }

  /** Putting an element in front keeps the order of the rest. */
  lemma BeforeCons<T>(h: T, s: seq<T>, x: T, y: T)
    requires Before(s, x, y)
    ensures Before([h] + s, x, y)
  {
    var i, j :| 0 <= i < j < |s| && s[i] == x && s[j] == y;
    assert ([h] + s)[i + 1] == x && ([h] + s)[j + 1] == y;
  }

  /** An element of a non-empty list is its head or an element of its tail. */
  lemma InHeadOrTail<T>(s: seq<T>)
    requires |s| > 0
    ensures forall x :: x in s <==> x == s[0] || x in s[1..]
  {
    assert s == [s[0]] + s[1..];
  }

  /** The head is before everything in the tail. */
  lemma BeforeHead<T>(s: seq<T>, y: T)
    requires |s| > 0 && y in s[1..]
    ensures Before(s, s[0], y)
  {
    var j :| 0 <= j < |s[1..]| && s[1..][j] == y;
    assert s[j + 1] == y;
  }

  /**
   * `Array.from(new Set(s))`: every element of `s` once, in the order of its
   * first occurrence (each element is added to the set in turn).
   */
  function Dedup<T(==,!new)>(s: seq<T>): (r: seq<T>)
    ensures NoDuplicates(r)
    ensures forall x :: x in r <==> x in s
    ensures |r| <= |s|
  {
    if |s| == 0 then []
    else
      var d := Dedup(s[..|s| - 1]);
      var last := s[|s| - 1];
      assert forall x :: x in s <==> x in s[..|s| - 1] || x == last by {
        assert s == s[..|s| - 1] + [last];
      }
      if last in d then d else d + [last]
  }

  /** The index of the first element, from `i` on, that satisfies `p`. */
  function FirstWhere<T>(p: T -> bool, s: seq<T>, i: nat): (r: Option<nat>)
    requires i <= |s|
    ensures r.Some? ==> i <= r.value < |s| && p(s[r.value])
    ensures r.Some? ==> forall j :: i <= j < r.value ==> !p(s[j])
    ensures r.None? <==> forall j :: i <= j < |s| ==> !p(s[j])
    decreases |s| - i
  {
    if i == |s| then None
    else if p(s[i]) then Some(i)
    else FirstWhere(p, s, i + 1)
  }

  /** A list without repeats passes through the set unchanged. */
  lemma {:induction false} DedupOfDistinct<T(!new)>(s: seq<T>)
    requires NoDuplicates(s)
    ensures Dedup(s) == s
    decreases |s|
  {
    if |s| > 0 {
      var init := s[..|s| - 1];
      DedupOfDistinct(init);
      assert s[|s| - 1] !in init;
      assert init + [s[|s| - 1]] == s;
    }
  }
}
