// Lists without repeats, filtering and sorting by a key: what several parts of the model share.

module Collections {

  datatype Option<+T> = None | Some(value: T)

  datatype Result<+T, +E> = Ok(value: T) | Err(error: E)

  // ---------------------------------------------------------------- no repeats

  ghost predicate NoRepeats<T>(s: seq<T>) {
    forall i, j | 0 <= i < j < |s| :: s[i] != s[j]
  }

  lemma NoRepeatsCons<T>(x: T, s: seq<T>)
    ensures NoRepeats([x] + s) <==> x !in s && NoRepeats(s)
  {
    var t := [x] + s;
    if NoRepeats(t) {
      forall i | 0 <= i < |s|
        ensures s[i] != x
      {
        assert t[0] != t[i + 1];
      }
      forall i, j | 0 <= i < j < |s|
        ensures s[i] != s[j]
      {
        assert t[i + 1] != t[j + 1];
      }
    }
    if x !in s && NoRepeats(s) {
      forall i, j | 0 <= i < j < |t|
        ensures t[i] != t[j]
      {
        assert t[j] == s[j - 1];
      }
    }
  }

  lemma NoRepeatsSnoc<T>(s: seq<T>, x: T)
    requires NoRepeats(s) && x !in s
    ensures NoRepeats(s + [x])
  {
  }

  lemma NoRepeatsTail<T>(s: seq<T>)
    requires NoRepeats(s) && s != []
    ensures NoRepeats(s[1..]) && s[0] !in s[1..]
  {
    assert s == [s[0]] + s[1..];
    NoRepeatsCons(s[0], s[1..]);
  }

  // ---------------------------------------------------------------- filtering

  function Kept<T>(s: seq<T>, drop: T -> bool): (kept: seq<T>)
    ensures |kept| <= |s|
    ensures forall x | x in kept :: x in s
  {
    if s == [] then []
    else
      var last := s[|s| - 1];
      Kept(s[..|s| - 1], drop) + if drop(last) then [] else [last]
  }

  function RemoveAt<T>(s: seq<T>, k: nat): seq<T>
    requires k < |s|
  {
    s[..k] + s[k + 1..]
  }

  // Some of the elements, in the same order.
  ghost predicate Subsequence<T>(a: seq<T>, s: seq<T>) {
    if s == [] then a == []
    else
      var n := |s| - 1;
      Subsequence(a, s[..n]) || (a != [] && a[|a| - 1] == s[n] && Subsequence(a[..|a| - 1], s[..n]))
  }

  lemma SubsequenceSnoc<T>(a: seq<T>, s: seq<T>, x: T)
    requires Subsequence(a, s)
    ensures Subsequence(a, s + [x]) && Subsequence(a + [x], s + [x])
  {
    assert (s + [x])[..|s|] == s && (a + [x])[..|a|] == a;
  }

  // ---------------------------------------------------------------- sorting by a key

  ghost predicate ByKey<T>(s: seq<T>, key: T -> real) {
    forall i, j | 0 <= i < j < |s| :: key(s[i]) <= key(s[j])
  }

  // Where an element goes: behind everything whose key is not larger.
  function PlaceOf<T>(s: seq<T>, key: T -> real, x: T): (k: nat)
    ensures k <= |s|
    ensures forall j | 0 <= j < k :: key(s[j]) <= key(x)
    ensures k < |s| ==> key(s[k]) > key(x)
  {
    if s == [] || key(s[0]) > key(x) then 0 else 1 + PlaceOf(s[1..], key, x)
  }

  lemma PlacedByKey<T>(s: seq<T>, key: T -> real, k: nat, x: T)
    requires ByKey(s, key) && k <= |s|
    requires forall j | 0 <= j < k :: key(s[j]) <= key(x)
    requires k < |s| ==> key(s[k]) > key(x)
    ensures ByKey(s[..k] + [x] + s[k..], key)
  {
    var r := s[..k] + [x] + s[k..];
    assert forall i | 0 <= i < k :: r[i] == s[i];
    assert r[k] == x;
    assert forall i | k < i < |r| :: r[i] == s[i - 1];
  }

  lemma PlacedMultiset<T>(s: seq<T>, k: nat, x: T)
    requires k <= |s|
    ensures multiset(s[..k] + [x] + s[k..]) == multiset(s) + multiset{x}
  {
    assert s == s[..k] + s[k..];
  }

  lemma SnocMultiset<T>(s: seq<T>, i: nat)
    requires i < |s|
    ensures multiset(s[..i + 1]) == multiset(s[..i]) + multiset{s[i]}
  {
    assert s[..i + 1] == s[..i] + [s[i]];
  }

  // Go's sort.Slice: elements with equal keys in no particular order.
  method SortByKey<T>(s: seq<T>, key: T -> real) returns (sorted: seq<T>)
    ensures ByKey(sorted, key) && multiset(sorted) == multiset(s)
  {
    sorted := [];
    var i := 0;
    while i < |s|
      invariant 0 <= i <= |s|
      invariant ByKey(sorted, key) && multiset(sorted) == multiset(s[..i])
    {
      hide ByKey;
      var k := PlaceOf(sorted, key, s[i]);
      PlacedByKey(sorted, key, k, s[i]);
      PlacedMultiset(sorted, k, s[i]);
      SnocMultiset(s, i);
      sorted := sorted[..k] + [s[i]] + sorted[k..];
      i := i + 1;
    }
    assert s[..i] == s;
  }
}
