/**
 * The keyed container behind `NodeList`: a dictionary from identifier to item, seen
 * through its keys in enumeration order. The same container holds a graph's vertices
 * and each vertex's outgoing edges (keyed by the target's identifier).
 */
module KeyedLists {
  import opened Options

  /** No key occurs twice: the dictionary's key uniqueness. */
  predicate Distinct(s: seq<int>) {
    forall i, j :: 0 <= i < j < |s| ==> s[i] != s[j]
  }

  /** `Dictionary.Add`: refused (the duplicate-key exception) when `k` is already a key. */
  function Insert(s: seq<int>, k: int): (r: Option<seq<int>>)
    ensures r.None? <==> k in s
    ensures r.Some? ==> |r.value| == |s| + 1 && r.value[|s|] == k
    ensures r.Some? ==> forall x :: x in r.value <==> x in s || x == k
    ensures Distinct(s) && r.Some? ==> Distinct(r.value)
  {
    if k in s then None else Some(s + [k])
  }

  /** `Dictionary.Remove`: drops key `k` and keeps the others in their order. */
  function Delete(s: seq<int>, k: int): (r: seq<int>)
    ensures forall x :: x in r <==> x in s && x != k
    ensures Distinct(s) ==> Distinct(r)
    ensures Distinct(s) && k in s ==> |r| == |s| - 1
    ensures k !in s ==> r == s
  {
    if s == [] then []
    else if s[0] == k then Delete(s[1..], k)
    else
      assert Distinct(s) ==> Distinct(s[1..]) && s[0] !in s[1..];
      [s[0]] + Delete(s[1..], k)
  }

  /** With distinct keys, removing `k` splices it out where it stands: the other keys keep their order. */
  lemma {:induction false} DeleteSplices(s: seq<int>, k: int, i: int)
    requires Distinct(s) && 0 <= i < |s| && s[i] == k
    ensures Delete(s, k) == s[..i] + s[i + 1..]
  {
    var t := s[1..];
    assert Distinct(t);
    if i == 0 {
      assert k !in t;
      assert Delete(s, k) == Delete(t, k) == t;
      assert s[..0] + s[1..] == t;
    } else {
      DeleteSplices(t, k, i - 1);
      assert Delete(s, k) == [s[0]] + Delete(t, k);
      assert s[..i] == [s[0]] + t[..i - 1];
      assert s[i + 1..] == t[i..];
    }
  }

  /** Adding a fresh key and then removing it gives back the original keys. */
  lemma {:induction false} DeleteUndoesInsert(s: seq<int>, k: int)
    requires k !in s
    ensures Insert(s, k).Some? && Delete(Insert(s, k).value, k) == s
  {
    if s != [] {
      DeleteUndoesInsert(s[1..], k);
      assert (s + [k])[1..] == s[1..] + [k];
    }
  }

  /** A key sequence without repetitions has as many keys as the set it enumerates. */
  lemma {:induction false} DistinctCardinality(s: seq<int>, keys: set<int>)
    requires Distinct(s)
    requires forall x :: x in s <==> x in keys
    ensures |keys| == |s|
  {
    if s != [] {
      assert Distinct(s[1..]);
      DistinctCardinality(s[1..], keys - {s[0]});
    } else {
      assert forall x :: x !in keys;
      assert keys == {};
    }
  }
}
