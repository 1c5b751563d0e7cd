/** Sequence operations the application performs through JavaScript arrays and sets. */
module Seqs {

  predicate NoDup<T(==)>(s: seq<T>) {
    forall i, j :: 0 <= i < j < |s| ==> s[i] != s[j]
  }

  /** The index of the first occurrence of `x` in `s`. */
  function FirstIndex<T(==)>(s: seq<T>, x: T): (k: nat)
    requires x in s
    ensures k < |s| && s[k] == x && x !in s[..k]
  {
    var p := s[..|s| - 1];
    if x in p then
      var k := FirstIndex(p, x);
      assert p[..k] == s[..k];
      k
    else
      |s| - 1
  }

  lemma FirstIndexUnique<T>(s: seq<T>, x: T, k: nat)
    requires k < |s| && s[k] == x && x !in s[..k]
    ensures FirstIndex(s, x) == k
  {
  }

  /** `Array.from(new Set(s))`: the distinct elements of `s`, each once, in
      the order in which they first occur. */
  function Dedup<T(==)>(s: seq<T>): (r: seq<T>)
    ensures NoDup(r)
    ensures forall i :: 0 <= i < |r| ==> r[i] in s
    ensures forall i :: 0 <= i < |s| ==> s[i] in r
    decreases |s|
  {
    if s == [] then []
    else
      var d := Dedup(s[..|s| - 1]);
      assert s == s[..|s| - 1] + [s[|s| - 1]];
      if s[|s| - 1] in d then d else d + [s[|s| - 1]]
  }

  /** The distinct elements come out in order of their first occurrence. */
  lemma {:induction false} DedupKeepsFirstOccurrenceOrder<T>(s: seq<T>, i: nat, j: nat)
    requires i < j < |Dedup(s)|
    ensures FirstIndex(s, Dedup(s)[i]) < FirstIndex(s, Dedup(s)[j])
    decreases |s|
  {
    var p := s[..|s| - 1];
    var e := s[|s| - 1];
    var d := Dedup(p);
    var r := Dedup(s);
    assert s == p + [e];
    forall y | y in p ensures FirstIndex(s, y) == FirstIndex(p, y) {
      var k := FirstIndex(p, y);
      assert s[..k] == p[..k];
      FirstIndexUnique(s, y, k);
    }
    if j < |d| {
      DedupKeepsFirstOccurrenceOrder(p, i, j);
      assert r[i] == d[i] && r[j] == d[j];
    } else {
      assert r == d + [e] && r[j] == e && e !in p;
      assert s[..|s| - 1] == p;
      FirstIndexUnique(s, e, |s| - 1);
      assert r[i] == d[i] && d[i] in p;
    }
  }

  /** Extending the input by one element adds it at the end of the distinct
      elements unless it is already among them. */
  lemma DedupSnoc<T>(s: seq<T>, x: T)
    ensures Dedup(s + [x]) == if x in Dedup(s) then Dedup(s) else Dedup(s) + [x]
  {
    assert (s + [x])[..|s|] == s;
  }

  lemma SliceExtend<T>(s: seq<T>, lo: nat, i: nat)
    requires lo <= i < |s|
    ensures s[lo..i] + [s[i]] == s[lo..i + 1]
  {
  }

  /** `s.slice(-n)` for a positive `n`: the last `n` elements, or all of them. */
  function TakeLast<T>(s: seq<T>, n: nat): (r: seq<T>)
    requires n > 0
    ensures |r| == if |s| <= n then |s| else n
    ensures r == s[|s| - |r|..]
  {
    if |s| <= n then s else s[|s| - n..]
  }
}
