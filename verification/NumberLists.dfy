/** Lists of numbers without repetition, as linked lists of entries or processes spell them. */
module NumberLists {

  /** No number occurs twice. */
  predicate NoDup(c: seq<nat>) {
    forall i, j :: 0 <= i < j < |c| ==> c[i] != c[j]
  }

  function Below(n: nat): (s: set<nat>)
    ensures |s| == n && forall x: nat :: x in s <==> x < n
  {
    if n == 0 then {} else Below(n - 1) + {n - 1}
  }

  function Members(c: seq<nat>): (s: set<nat>)
    requires NoDup(c)
    ensures |s| == |c| && forall x :: x in s <==> x in c
  {
    if |c| == 0 then {}
    else
      assert c == c[..|c| - 1] + [c[|c| - 1]];
      Members(c[..|c| - 1]) + {c[|c| - 1]}
  }

  lemma NoDupShort(c: seq<nat>, n: nat)
    requires NoDup(c) && forall i :: 0 <= i < |c| ==> c[i] < n
    ensures |c| <= n
  {
    SubsetSize(Members(c), Below(n));
  }

  lemma {:induction false} SubsetSize<T>(a: set<T>, b: set<T>)
    requires a <= b
    ensures |a| <= |b|
    decreases |a|
  {
    if a != {} {
      var x :| x in a;
      SubsetSize(a - {x}, b - {x});
    }
  }

  /** c with element j taken out. */
  function Without(c: seq<nat>, j: nat): seq<nat>
    requires j < |c|
  {
    c[..j] + c[j + 1..]
  }

  lemma WithoutNoDup(c: seq<nat>, j: nat)
    requires j < |c| && NoDup(c)
    ensures NoDup(Without(c, j)) && forall x: nat :: x in Without(c, j) <==> x in c && x != c[j]
  {
    var d := Without(c, j);
    assert forall i :: 0 <= i < |d| ==> d[i] == if i < j then c[i] else c[i + 1];
    forall x: nat | x in c && x != c[j]
      ensures x in d
    {
      var i :| 0 <= i < |c| && c[i] == x;
      assert d[if i < j then i else i - 1] == x;
    }
  }

  /** The first place of p in c; the length of c if there is none. */
  function IndexOf(c: seq<nat>, p: nat): (j: nat)
    ensures j <= |c| && (j < |c| ==> c[j] == p) && (j == |c| ==> p !in c)
  {
    if |c| == 0 then 0 else if c[0] == p then 0 else
      assert c == [c[0]] + c[1..];
      1 + IndexOf(c[1..], p)
  }
}
