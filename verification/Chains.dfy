/** Sequences without repetition, as ghost pictures of linked lists: one element is inserted or removed. */
module Chains {

  predicate Apart(i: int, j: int) { i != j }

  /** Nothing is in the sequence twice. */
  ghost predicate Distinct<T>(s: seq<T>) {
    forall i, j {:trigger Apart(i, j)} | 0 <= i < |s| && 0 <= j < |s| && Apart(i, j) :: s[i] != s[j]
  }

  lemma OnlyAt<T>(s: seq<T>, i: int)
    requires Distinct(s)
    ensures 0 <= i < |s| ==> forall j | 0 <= j < |s| && j != i :: s[j] != s[i]
  {
    forall j | 0 <= i < |s| && 0 <= j < |s| && j != i
      ensures s[j] != s[i]
    {
      assert Apart(i, j);
    }
  }

  ghost function Removed<T>(s: seq<T>, i: nat): (r: seq<T>)
    requires i < |s|
    ensures |r| == |s| - 1
  {
    seq(|s| - 1, j requires 0 <= j < |s| - 1 => s[if j < i then j else j + 1])
  }

  lemma DistinctRemoved<T>(s: seq<T>, i: nat)
    requires Distinct(s) && i < |s|
    ensures Distinct(Removed(s, i)) && s[i] !in Removed(s, i)
  {
    OnlyAt(s, i);
    var r := Removed(s, i);
    forall j, k | 0 <= j < |r| && 0 <= k < |r| && Apart(j, k)
      ensures r[j] != r[k]
    {
      assert Apart(if j < i then j else j + 1, if k < i then k else k + 1);
    }
  }

  ghost function Inserted<T>(s: seq<T>, i: nat, x: T): (r: seq<T>)
    requires i <= |s|
    ensures |r| == |s| + 1
  {
    seq(|s| + 1, j requires 0 <= j < |s| + 1 => if j < i then s[j] else if j == i then x else s[j - 1])
  }

  lemma DistinctInserted<T>(s: seq<T>, i: nat, x: T)
    requires Distinct(s) && i <= |s| && x !in s
    ensures Distinct(Inserted(s, i, x))
  {
    var r := Inserted(s, i, x);
    forall j, k | 0 <= j < |r| && 0 <= k < |r| && Apart(j, k)
      ensures r[j] != r[k]
    {
      if j != i && k != i {
        assert Apart(if j < i then j else j - 1, if k < i then k else k - 1);
      }
    }
  }

  lemma DistinctAppend<T>(s: seq<T>, x: T)
    requires Distinct(s) && x !in s
    ensures Distinct(s + [x])
  {
    forall i, j | 0 <= i <= |s| && 0 <= j <= |s| && Apart(i, j)
      ensures (s + [x])[i] != (s + [x])[j]
    {
    }
  }

  lemma InRemoved<T>(s: seq<T>, i: nat, x: T)
    requires i < |s|
    ensures x in s <==> x in Removed(s, i) || x == s[i]
  {
    var r := Removed(s, i);
    if x in s {
      var k :| 0 <= k < |s| && s[k] == x;
      assert k != i ==> r[if k < i then k else k - 1] == x;
    }
    if x in r {
      var k :| 0 <= k < |r| && r[k] == x;
      assert s[if k < i then k else k + 1] == x;
    }
  }

  lemma InInserted<T>(s: seq<T>, i: nat, y: T, x: T)
    requires i <= |s|
    ensures x in Inserted(s, i, y) <==> x in s || x == y
  {
    var r := Inserted(s, i, y);
    assert r[i] == y;
    if x in s {
      var k :| 0 <= k < |s| && s[k] == x;
      assert r[if k < i then k else k + 1] == x;
    }
  }

  lemma DistinctConcat<T>(a: seq<T>, b: seq<T>)
    requires Distinct(a) && Distinct(b) && forall x | x in a :: x !in b
    ensures Distinct(a + b)
  {
    forall i, j | 0 <= i < |a + b| && 0 <= j < |a + b| && Apart(i, j)
      ensures (a + b)[i] != (a + b)[j]
    {
      if i < |a| && j < |a| {
        assert Apart(i, j);
      } else if i >= |a| && j >= |a| {
        assert Apart(i - |a|, j - |a|);
      } else if i < |a| {
        assert a[i] in a && b[j - |a|] in b;
      } else {
        assert a[j] in a && b[i - |a|] in b;
      }
    }
  }
}
