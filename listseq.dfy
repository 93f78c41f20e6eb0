/** Sequence vocabulary shared by the singly and the doubly linked list
    models: the abstract contents of a list is the sequence of the objects
    met when following the `next` links from `first`. */
module ListSeq {

  /** No object occurs twice: following `next` from `first` never revisits an object. */
  ghost predicate Distinct<X>(s: seq<X>)
  {
    forall i, j :: 0 <= i < j < |s| ==> s[i] != s[j]
  }

  /** Position of the first occurrence of `x` in `s`. */
  function IndexOf<X(==)>(s: seq<X>, x: X): (k: nat)
    requires x in s
    ensures k < |s| && s[k] == x
  {
    if s[0] == x then 0 else 1 + IndexOf(s[1..], x)
  }

  /** In a sequence without repetitions, the position of `s[k]` is `k`. */
  lemma {:induction false} IndexOfDistinct<X>(s: seq<X>, k: nat)
    requires Distinct(s) && k < |s|
    ensures IndexOf(s, s[k]) == k
  {
    if k > 0 {
      assert s[0] != s[k];
      assert s[1..][k - 1] == s[k];
      IndexOfDistinct(s[1..], k - 1);
    }
  }

  /** `s` with its element at position `k` taken out. */
  function RemoveAt<X>(s: seq<X>, k: nat): (r: seq<X>)
    requires k < |s|
    ensures |r| == |s| - 1
    ensures forall i :: 0 <= i < k ==> r[i] == s[i]
    ensures forall i :: k <= i < |r| ==> r[i] == s[i + 1]
  {
    seq(|s| - 1, i requires 0 <= i < |s| - 1 => if i < k then s[i] else s[i + 1])
  }

  /** Removing the (only) occurrence of `s[k]` keeps the sequence free of
      repetitions and leaves no copy of `s[k]` behind. */
  lemma RemoveAtDistinct<X>(s: seq<X>, k: nat)
    requires Distinct(s) && k < |s|
    ensures Distinct(RemoveAt(s, k))
    ensures s[k] !in RemoveAt(s, k)
  {
    var r := RemoveAt(s, k);
    forall i | 0 <= i < |r|
      ensures r[i] != s[k]
    {
      if i < k { assert r[i] == s[i]; } else { assert r[i] == s[i + 1]; }
    }
    forall i, j | 0 <= i < j < |r|
      ensures r[i] != r[j]
    {
      var i' := if i < k then i else i + 1;
      var j' := if j < k then j else j + 1;
      assert r[i] == s[i'] && r[j] == s[j'] && i' < j';
    }
  }

  /** Removing position `k` drops exactly one copy of `s[k]`. */
  lemma RemoveAtMultiset<X>(s: seq<X>, k: nat)
    requires k < |s|
    ensures multiset(RemoveAt(s, k)) == multiset(s) - multiset{s[k]}
  {
    assert s == s[..k] + [s[k]] + s[k + 1..];
    assert RemoveAt(s, k) == s[..k] + s[k + 1..];
  }

  /** `s` with the neighbours at positions `k` and `k + 1` exchanged. */
  function Swap<X>(s: seq<X>, k: nat): (r: seq<X>)
    requires k + 1 < |s|
    ensures |r| == |s|
    ensures r[k] == s[k + 1] && r[k + 1] == s[k]
    ensures forall i :: 0 <= i < |s| && i != k && i != k + 1 ==> r[i] == s[i]
  {
    seq(|s|, i requires 0 <= i < |s| => if i == k then s[k + 1] else if i == k + 1 then s[k] else s[i])
  }

  /** Exchanging neighbours permutes the sequence and keeps it free of repetitions. */
  lemma SwapPermutes<X>(s: seq<X>, k: nat)
    requires k + 1 < |s|
    ensures multiset(Swap(s, k)) == multiset(s)
    ensures Distinct(s) ==> Distinct(Swap(s, k))
  {
    assert s == s[..k] + [s[k], s[k + 1]] + s[k + 2..];
    var r := Swap(s, k);
    assert r == s[..k] + [s[k + 1], s[k]] + s[k + 2..];
    if Distinct(s) {
      forall i, j | 0 <= i < j < |r|
        ensures r[i] != r[j]
      {
        var i' := if i == k then k + 1 else if i == k + 1 then k else i;
        var j' := if j == k then k + 1 else if j == k + 1 then k else j;
        assert r[i] == s[i'] && r[j] == s[j'] && i' != j';
      }
    }
  }
}
