/** The small part of PHP's value model the bridge relies on: nullable
    values, byte strings, loosely typed values and ordered arrays whose
    keys are strings. */
module Php {

  /** A value that may be `null`. */
  datatype Option<+T> = None | Some(value: T)

  newtype byte = x: int | 0 <= x < 256

  /** A TCP port a server listens on. */
  type Port = p: int | 1 <= p <= 65535 witness 80

  /** A PHP string as the bytes it holds. */
  type Bytes = seq<byte>

  /** A loosely typed PHP value, such as a post field or a container setting. */
  datatype Value =
    | Null
    | Bool(b: bool)
    | Int(i: int)
    | Str(s: string)
    | Arr(entries: seq<(string, Value)>)

  predicate UniqueKeys<V>(s: seq<(string, V)>) {
    forall i, j :: 0 <= i < j < |s| ==> s[i].0 != s[j].0
  }

  /** An ordered PHP array with string keys: each key occurs once, in insertion order. */
  type Assoc<V> = s: seq<(string, V)> | UniqueKeys(s) witness []

  predicate HasKey<V>(a: seq<(string, V)>, k: string) {
    exists i :: 0 <= i < |a| && a[i].0 == k
  }

  /** `$a[$k]` when the key is set, `null` otherwise. */
  function Get<V>(a: seq<(string, V)>, k: string): (r: Option<V>)
    ensures r.Some? <==> HasKey(a, k)
    ensures r.Some? ==> exists i :: 0 <= i < |a| && a[i] == (k, r.value)
    decreases |a|
  {
    if |a| == 0 then None
    else if a[0].0 == k then Some(a[0].1)
    else
      var r := Get(a[1..], k);
      assert forall i :: 0 < i < |a| ==> a[i] == a[1..][i - 1];
      r
  }

  /** In an array with unique keys the lookup of the key at index `i` finds
      the value at index `i`. */
  lemma {:induction false} GetAt<V>(a: Assoc<V>, i: nat)
    requires i < |a|
    ensures Get(a, a[i].0) == Some(a[i].1)
  {
    if i > 0 {
      var tail: Assoc<V> := a[1..];
      GetAt(tail, i - 1);
    }
  }

  /** Index of key `k` in `a`, or `null` when the key is not set. */
  function IndexOf<V>(a: seq<(string, V)>, k: string): (r: Option<nat>)
    ensures r.Some? ==> r.value < |a| && a[r.value].0 == k
    ensures r.None? <==> !HasKey(a, k)
    decreases |a|
  {
    if |a| == 0 then None
    else if a[0].0 == k then Some(0)
    else
      match IndexOf(a[1..], k)
      case None =>
        assert forall i :: 0 < i < |a| ==> a[i] == a[1..][i - 1];
        None
      case Some(i) => Some(i + 1)
  }

  /** `$a[$k] = $v`: replaces the value in place when the key is set and
      appends the pair otherwise. */
  function Put<V>(a: Assoc<V>, k: string, v: V): (r: Assoc<V>)
    ensures !HasKey(a, k) ==> r == a + [(k, v)]
    ensures HasKey(a, k) ==> |r| == |a| && exists i :: 0 <= i < |a| && a[i].0 == k && r == a[i := (k, v)]
  {
    match IndexOf(a, k)
    case Some(i) => a[i := (k, v)]
    case None => a + [(k, v)]
  }

  /** In an array with unique keys the key at index `p` is found at `p`. */
  lemma IndexOfAt<V>(a: Assoc<V>, p: nat)
    requires p < |a|
    ensures IndexOf(a, a[p].0) == Some(p)
  {
    assert HasKey(a, a[p].0);
  }

  /** `$a[$k] = $v` keeps the slot of every key already set (the replaced
      one included) and gives a new key the slot after the last one. */
  lemma IndexOfAfterPut<V>(a: Assoc<V>, k: string, v: V, other: string)
    ensures IndexOf(Put(a, k, v), other) ==
            if HasKey(a, other) then IndexOf(a, other) else if other == k then Some(|a|) else None
  {
    var r := Put(a, k, v);
    if HasKey(a, other) {
      var p := IndexOf(a, other).value;
      assert r[p].0 == other;
      IndexOfAt(r, p);
    } else if other == k {
      assert r[|a|].0 == other;
      IndexOfAt(r, |a|);
    } else {
      assert !HasKey(r, other);
    }
  }

  /** After `$a[$k] = $v`, `$a[$k]` is `$v` and every other key reads as before. */
  lemma GetAfterPut<V>(a: Assoc<V>, k: string, v: V, other: string)
    ensures Get(Put(a, k, v), other) == if other == k then Some(v) else Get(a, other)
  {
    var r := Put(a, k, v);
    IndexOfAfterPut(a, k, v, other);
    if other == k {
      var p := IndexOf(r, k).value;
      assert r[p] == (k, v);
      GetAt(r, p);
    } else if HasKey(a, other) {
      var p := IndexOf(a, other).value;
      assert r[p] == a[p];
      GetAt(r, p);
      GetAt(a, p);
    }
  }

  /** `array_keys($a)`. */
  function Keys<V>(a: seq<(string, V)>): (ks: seq<string>)
    ensures |ks| == |a| && forall p :: 0 <= p < |a| ==> ks[p] == a[p].0
  {
    seq(|a|, p requires 0 <= p < |a| => a[p].0)
  }

  /** `$a[$k] = $v` leaves the key order alone when the key is set and adds
      the key at the end otherwise. */
  lemma KeysAfterPut<V>(a: Assoc<V>, k: string, v: V)
    ensures Keys(Put(a, k, v)) == if k in Keys(a) then Keys(a) else Keys(a) + [k]
  {
    assert HasKey(a, k) <==> k in Keys(a);
  }
}
