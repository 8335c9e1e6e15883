/** Sequences without duplicates, and lists that lose or gain one element. */
module Sequences {
  ghost predicate Distinct<T>(s: seq<T>) {
    forall j, k | 0 <= j < k < |s| :: s[j] != s[k]
  }

  ghost function Drop<T>(s: seq<T>, k: nat): seq<T>
    requires k < |s|
  {
    s[..k] + s[k + 1..]
  }

  ghost function InsertAt<T>(s: seq<T>, k: nat, x: T): seq<T>
    requires k <= |s|
  {
    s[..k] + [x] + s[k..]
  }

  /** Dropping one element keeps the others, each where it was or one place further left. */
  lemma DropMembers<T>(s: seq<T>, k: nat)
    requires Distinct(s) && k < |s|
    ensures Distinct(Drop(s, k)) && s[k] !in Drop(s, k)
    ensures forall x | x in Drop(s, k) :: x in s
    ensures forall x | x in s && x != s[k] :: x in Drop(s, k)
  {
    var t := Drop(s, k);
    assert forall j | 0 <= j < |t| :: t[j] == s[if j < k then j else j + 1];
    forall x | x in s && x != s[k]
      ensures x in t
    {
      var j :| 0 <= j < |s| && s[j] == x;
      assert t[if j < k then j else j - 1] == x;
    }
  }

  lemma InsertMembers<T>(s: seq<T>, k: nat, x: T)
    requires k <= |s|
    ensures x in InsertAt(s, k, x)
    ensures forall y | y in s :: y in InsertAt(s, k, x)
    ensures forall y | y in InsertAt(s, k, x) :: y in s || y == x
    ensures Distinct(s) && x !in s ==> Distinct(InsertAt(s, k, x))
  {
    var t := InsertAt(s, k, x);
    assert t[k] == x && forall j | 0 <= j < |t| && j != k :: t[j] == s[if j < k then j else j - 1];
    forall y | y in s
      ensures y in t
    {
      var j :| 0 <= j < |s| && s[j] == y;
      assert t[if j < k then j else j + 1] == y;
    }
  }
}
