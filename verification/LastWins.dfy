/** Dictionaries filled by repeated assignment, as the packet parsers do: the last assignment wins. */
module LastWins {
  import opened Bytes

  function Lookup<K, V>(m: map<K, V>, k: K): Option<V> {
    if k in m then Some(m[k]) else None
  }

  function Overlay<K, V>(pairs: seq<(K, V)>): (m: map<K, V>) {
    if pairs == [] then map[] else Overlay(pairs[..|pairs| - 1])[pairs[|pairs| - 1].0 := pairs[|pairs| - 1].1]
  }

  /** `Overlay` keeps exactly the keys that occur, each with the value of its last occurrence. */
  lemma {:induction false} OverlayIsLast<K, V>(pairs: seq<(K, V)>)
    ensures forall k :: k in Overlay(pairs) <==> exists i :: 0 <= i < |pairs| && pairs[i].0 == k
    ensures forall i :: 0 <= i < |pairs| && (forall j :: i < j < |pairs| ==> pairs[j].0 != pairs[i].0)
              ==> pairs[i].0 in Overlay(pairs) && Overlay(pairs)[pairs[i].0] == pairs[i].1
  {
    if pairs != [] {
      var init, last := pairs[..|pairs| - 1], |pairs| - 1;
      OverlayIsLast(init);
      forall k ensures k in Overlay(pairs) <==> exists i :: 0 <= i < |pairs| && pairs[i].0 == k {
        if k in Overlay(init) {
          var i :| 0 <= i < |init| && init[i].0 == k;
          assert pairs[i].0 == k;
        }
        assert pairs == init + [pairs[last]];
      }
      forall i | 0 <= i < last && (forall j :: i < j < |pairs| ==> pairs[j].0 != pairs[i].0)
        ensures pairs[i].0 in Overlay(pairs) && Overlay(pairs)[pairs[i].0] == pairs[i].1
      {
        assert pairs[last].0 != pairs[i].0;
        assert forall j :: i < j < |init| ==> init[j].0 == pairs[j].0;
        assert init[i] == pairs[i];
      }
    }
  }

  lemma OverlayExtend<K, V>(pairs: seq<(K, V)>, k: K, v: V)
    ensures Overlay(pairs + [(k, v)]) == Overlay(pairs)[k := v]
  {
    assert (pairs + [(k, v)])[..|pairs|] == pairs;
  }
}
