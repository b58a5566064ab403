/** Sequences without repetition, and removal of a first occurrence. */
module Sequences {

  ghost predicate NoDup<T>(s: seq<T>) {
    forall i, j | 0 <= i < j < |s| :: s[i] != s[j]
  }

  /** The position of the first occurrence of x. */
  function IndexOf<T(==)>(s: seq<T>, x: T): (k: nat)
    requires x in s
    ensures k < |s| && s[k] == x && x !in s[..k]
  {
    if s[0] == x then 0 else 1 + IndexOf(s[1..], x)
  }

  function RemoveAt<T>(s: seq<T>, k: nat): (r: seq<T>)
    requires k < |s|
    ensures |r| == |s| - 1
  {
    s[..k] + s[k + 1..]
  }

  /** s without the first occurrence of x; s itself when x does not occur. */
  function Remove<T(==)>(s: seq<T>, x: T): (r: seq<T>)
    ensures x !in s ==> r == s
  {
    if s == [] then []
    else if s[0] == x then s[1..]
    else [s[0]] + Remove(s[1..], x)
  }

  lemma {:induction false} RemoveIsRemoveAt<T>(s: seq<T>, x: T)
    requires x in s
    ensures Remove(s, x) == RemoveAt(s, IndexOf(s, x))
  {
    if s[0] != x { RemoveIsRemoveAt(s[1..], x); }
  }

  lemma {:induction false} RemoveMembers<T>(s: seq<T>, x: T)
    ensures forall y | y in Remove(s, x) :: y in s
    ensures forall y | y in s && y != x :: y in Remove(s, x)
  {
    if s != [] && s[0] != x { RemoveMembers(s[1..], x); }
  }

  lemma {:induction false} RemoveNoDup<T>(s: seq<T>, x: T)
    requires NoDup(s)
    ensures NoDup(Remove(s, x)) && x !in Remove(s, x)
  {
    if s != [] && s[0] != x {
      RemoveNoDup(s[1..], x);
      RemoveMembers(s[1..], x);
      assert s[0] !in s[1..];
    }
  }

  lemma MoveToFront<T>(s: seq<T>, x: T)
    requires NoDup(s) && x in s
    ensures NoDup([x] + Remove(s, x)) && |[x] + Remove(s, x)| == |s|
    ensures forall y :: y in [x] + Remove(s, x) <==> y in s
  {
    RemoveMembers(s, x);
    RemoveNoDup(s, x);
    RemoveIsRemoveAt(s, x);
  }

  function Last<T>(s: seq<T>): T
    requires s != []
  {
    s[|s| - 1]
  }

  function Front<T>(s: seq<T>): seq<T>
    requires s != []
  {
    s[..|s| - 1]
  }

  /** Where the first occurrence of y stands once another element has gone. */
  lemma IndexOfAfterRemoveAt<T>(s: seq<T>, k: nat, y: T)
    requires k < |s| && y in s && y != s[k]
    ensures y in RemoveAt(s, k)
    ensures IndexOf(RemoveAt(s, k), y) == if IndexOf(s, y) < k then IndexOf(s, y) else IndexOf(s, y) - 1
  {
    var i := IndexOf(s, y);
    var r := RemoveAt(s, k);
    var p := if i < k then i else i - 1;
    assert r[p] == y;
    forall j | 0 <= j < p
      ensures r[j] != r[p]
    {
      assert r[j] == s[if j < k then j else j + 1];
      assert s[..i][if j < k then j else j + 1] == r[j];
    }
    FirstIsIndexOf(r, p);
  }

  lemma {:induction false} FirstIsIndexOf<T>(s: seq<T>, p: nat)
    requires p < |s| && forall j | 0 <= j < p :: s[j] != s[p]
    ensures IndexOf(s, s[p]) == p
  {
  }
}
