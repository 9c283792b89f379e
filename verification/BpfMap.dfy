/** Bounded BPF hash maps, as the eBPF programs see them through the map helpers. */
module BpfMap {

  datatype Option<+T> = None | Some(value: T) {
    function GetOr(default: T): T {
      if None? then default else value
    }
  }

  /** True when a BPF_NOEXIST update of `k` returns an error: the key is taken or the map is full. */
  predicate InsertFails<K, V>(m: map<K, V>, max: nat, k: K) {
    k in m || |m| >= max
  }

  /** A BPF_ANY update: a new key is refused, without any change, once `max` entries are in use. */
  function Update<K, V>(m: map<K, V>, max: nat, k: K, v: V): (r: map<K, V>)
    ensures |m| <= max ==> |r| <= max
  {
    if k in m || |m| < max then m[k := v] else m
  }

  lemma {:induction false} SubsetSize<T>(a: set<T>, b: set<T>)
    requires a <= b
    ensures |a| <= |b|
  {
    if a != {} {
      var x :| x in a;
      SubsetSize(a - {x}, b - {x});
    }
  }
}
