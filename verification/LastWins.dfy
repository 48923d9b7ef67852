/** Tables filled entry by entry, where a later entry for a key replaces an
    earlier one. */
module LastWins {

  datatype Entry<V> = Entry(key: string, value: V)

  /** The table after all entries have been stored in order. */
  function Overlay<V>(entries: seq<Entry<V>>): map<string, V> {
    if entries == [] then map[]
    else
      var e := entries[|entries| - 1];
      Overlay(entries[..|entries| - 1])[e.key := e.value]
  }

  /** Plain search: some entry gives `key` this value and no later one has the key. */
  ghost predicate IsLast<V>(entries: seq<Entry<V>>, key: string, value: V) {
    exists i :: 0 <= i < |entries| && entries[i] == Entry(key, value)
                && forall j :: i < j < |entries| ==> entries[j].key != key
  }

  /** A table lookup finds exactly what the plain search finds. */
  lemma {:induction false} OverlayFindsLast<V>(entries: seq<Entry<V>>, key: string)
    ensures key in Overlay(entries) <==> exists i :: 0 <= i < |entries| && entries[i].key == key
    ensures forall value :: IsLast(entries, key, value) <==> key in Overlay(entries) && Overlay(entries)[key] == value
  {
    if entries != [] {
      var front, e := entries[..|entries| - 1], entries[|entries| - 1];
      OverlayFindsLast(front, key);
      if key == e.key {
        assert entries[|entries| - 1].key == key;
        assert IsLast(entries, key, e.value);
        forall value | IsLast(entries, key, value) ensures value == e.value {
          var i :| 0 <= i < |entries| && entries[i] == Entry(key, value)
                   && forall j :: i < j < |entries| ==> entries[j].key != key;
          assert i == |entries| - 1;
        }
      } else {
        forall value ensures IsLast(entries, key, value) <==> IsLast(front, key, value) {
          if IsLast(entries, key, value) {
            var i :| 0 <= i < |entries| && entries[i] == Entry(key, value)
                     && forall j :: i < j < |entries| ==> entries[j].key != key;
            assert front[i] == Entry(key, value);
          }
          if IsLast(front, key, value) {
            var i :| 0 <= i < |front| && front[i] == Entry(key, value)
                     && forall j :: i < j < |front| ==> front[j].key != key;
            assert entries[i] == Entry(key, value);
          }
        }
        if i :| 0 <= i < |entries| && entries[i].key == key {
          assert front[i].key == key;
        }
        if i :| 0 <= i < |front| && front[i].key == key {
          assert entries[i].key == key;
        }
      }
    }
  }

  /** Storing two lists one after the other lays the second table over the first. */
  lemma {:induction false} OverlayConcat<V>(a: seq<Entry<V>>, b: seq<Entry<V>>)
    ensures Overlay(a + b) == Overlay(a) + Overlay(b)
  {
    if b == [] {
      assert a + b == a;
    } else {
      OverlayConcat(a, b[..|b| - 1]);
      assert (a + b)[..|a + b| - 1] == a + b[..|b| - 1];
    }
  }

  lemma OverlaySnoc<V>(entries: seq<Entry<V>>, key: string, value: V)
    ensures Overlay(entries + [Entry(key, value)]) == Overlay(entries)[key := value]
  {
    assert (entries + [Entry(key, value)])[..|entries|] == entries;
  }
}
