/**
 A Python `dict` as the generator uses it: entries kept in insertion order,
 each key at most once, and `d[k] = v` either replacing the value of an
 existing key in place or appending a new entry at the end.
 */
module PyDict {

  datatype Option<T> = None | Some(value: T)

  predicate Distinct<T(==)>(s: seq<T>)
  {
    forall i, j :: 0 <= i < j < |s| ==> s[i] != s[j]
  }

  function Keys<K, V>(entries: seq<(K, V)>): (r: seq<K>)
    ensures |r| == |entries|
    ensures forall i :: 0 <= i < |entries| ==> r[i] == entries[i].0
  {
    seq(|entries|, i requires 0 <= i < |entries| => entries[i].0)
  }

  /** A dictionary: its entries in insertion order, no key repeated. */
  type Dict<K(==), V> = entries: seq<(K, V)> | Distinct(Keys(entries)) witness []

  /** `d.get(k)`: the value stored under `k`, if any. */
  function Get<K(==), V>(d: Dict<K, V>, k: K): (r: Option<V>)
    ensures r.Some? <==> k in Keys(d)
    ensures forall i :: 0 <= i < |d| && d[i].0 == k ==> r == Some(d[i].1)
  {
    if d == [] then None
    else if d[0].0 == k then Some(d[0].1)
    else
      assert Keys(d[1..]) == Keys(d)[1..];
      Get(d[1..], k)
  }

  /** The position of `x` in `s`. */
  function IndexOf<T(==)>(s: seq<T>, x: T): (i: nat)
    requires x in s
    ensures i < |s| && s[i] == x
    ensures forall j :: 0 <= j < i ==> s[j] != x
  {
    if s[0] == x then 0 else 1 + IndexOf(s[1..], x)
  }

  /** `d[k] = v`: an existing key keeps its position and takes the new
      value, a new key is appended. */
  function Assign<K(==), V>(d: Dict<K, V>, k: K, v: V): (r: Dict<K, V>)
    ensures Get(r, k) == Some(v)
    ensures forall k' :: k' in Keys(d) && k' != k ==> Get(r, k') == Get(d, k')
    ensures Keys(r) == if k in Keys(d) then Keys(d) else Keys(d) + [k]
    // storing the value a key already has leaves the dictionary as it was
    ensures Get(d, k) == Some(v) ==> r == d
  {
    if k in Keys(d) then
      var i := IndexOf(Keys(d), k);
      var r := d[i := (k, v)];
      assert Keys(r) == Keys(d);
      r
    else
      var r := d + [(k, v)];
      assert Keys(r) == Keys(d) + [k];
      r
  }

  /** The same dictionary as a Dafny map: its key set and values, without
      the insertion order. */
  function AsMap<K(==), V>(d: Dict<K, V>): (m: map<K, V>)
    ensures m.Keys == set i | 0 <= i < |d| :: d[i].0
    ensures forall k :: k in m ==> Get(d, k) == Some(m[k])
  {
    map k | k in Keys(d) :: Get(d, k).value
  }

  /** The elements of `s` in the order of their first occurrence: the key
      order of a dictionary filled by assigning the elements of `s` in turn. */
  function Unique<T(==)>(s: seq<T>): (r: seq<T>)
    ensures Distinct(r)
    ensures forall x :: x in r ==> x in s
    ensures forall x :: x in s ==> x in r
    ensures Distinct(s) ==> r == s
    // the elements keep the order of their first occurrences in `s`
    ensures forall i, j :: 0 <= i < j < |r| ==> IndexOf(s, r[i]) < IndexOf(s, r[j])
    decreases |s|
  {
    if s == [] then []
    else
      var init, last := s[..|s| - 1], s[|s| - 1];
      assert s == init + [last];
      var u := Unique(init);
      var r := if last in init then u else u + [last];
      forall i, j | 0 <= i < j < |r|
        ensures IndexOf(s, r[i]) < IndexOf(s, r[j])
      {
        IndexOfAppend(init, last, r[i]);
        if j < |u| {
          IndexOfAppend(init, last, r[j]);
        }
      }
      r
  }

  /** Appending an element does not move the first occurrence of an element
      already present; a new element is found at the end. */
  lemma IndexOfAppend<T>(s: seq<T>, last: T, x: T)
    requires x in s + [last]
    ensures x in s ==> IndexOf(s + [last], x) == IndexOf(s, x)
    ensures x !in s ==> IndexOf(s + [last], x) == |s|
  {
    var t := s + [last];
    var k := IndexOf(t, x);
    if x in s {
      var i := IndexOf(s, x);
      assert t[i] == x;
      assert k <= i;
      assert s[k] == t[k];
    }
  }
}
