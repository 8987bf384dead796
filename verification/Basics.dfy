/** Small shared vocabulary: optional values and JavaScript strings. */
module Basics {

  datatype Option<+T> = None | Some(value: T)

  /** The entry of a record under a name, or None when the record has no such name. */
  function At<K, V>(record: map<K, V>, name: K): Option<V> {
    if name in record then Some(record[name]) else None
  }

  lemma SameEntries<K(!new), V>(m: map<K, V>, n: map<K, V>)
    requires forall k :: At(m, k) == At(n, k)
    ensures m == n
  {
    assert forall k :: k in m <==> At(m, k).Some?;
    assert forall k :: k in n <==> At(n, k).Some?;
    assert forall k | k in m :: m[k] == At(m, k).value && n[k] == At(n, k).value;
  }

  // A JavaScript string is a sequence of UTF-16 code units, so a lone half of
  // a surrogate pair is an ordinary element.
  type Unit = u: int | 0 <= u < 0x1_0000
  type Text = seq<Unit>

  type Byte = b: int | 0 <= b < 256

  /** `part` stands in the whole from position i on. */
  predicate Stands<T(==)>(part: seq<T>, whole: seq<T>, i: nat) {
    i + |part| <= |whole| && forall j | 0 <= j < |part| :: whole[i + j] == part[j]
  }

  lemma StandsSplit<T>(a: seq<T>, b: seq<T>, whole: seq<T>, i: nat)
    requires Stands(a + b, whole, i)
    ensures Stands(a, whole, i) && Stands(b, whole, i + |a|)
  {
    assert forall j | 0 <= j < |a| :: a[j] == (a + b)[j];
    assert forall j | 0 <= j < |b| :: b[j] == (a + b)[|a| + j] && whole[i + (|a| + j)] == (a + b)[|a| + j];
  }

  function Min(a: int, b: int): int { if a <= b then a else b }

  function Max(a: int, b: int): int { if a >= b then a else b }
}
