/** How many keys a map has after a change. */
module Maps {
  lemma SizeEnter<K, V>(m: map<K, V>, key: K, value: V)
    requires key !in m
    ensures |m[key := value]| == |m| + 1
  {
  }

  lemma SizeDrop<K, V>(m: map<K, V>, key: K)
    requires key in m
    ensures |m| > 0 && |m - {key}| == |m| - 1
  {
    assert m == (m - {key})[key := m[key]];
  }

  lemma SizeAssign<K, V>(m: map<K, V>, key: K, value: V)
    requires key in m
    ensures |m[key := value]| == |m|
  {
    assert m[key := value].Keys == m.Keys;
    assert |m.Keys| == |m| && |m[key := value].Keys| == |m[key := value]|;
  }
}
