/** One bucket of the embedded index: a key/value store that keeps its keys in
    bytewise order and can be walked from any point. Only the operations the
    seeder and the registry use are here. */
module Buckets {
  import opened Wrappers
  import opened ByteStrings

  /** What the two parallel sequences say as a map. */
  ghost predicate Represents(keys: seq<Bytes>, values: seq<Bytes>, contents: map<Bytes, Bytes>) {
    && |keys| == |values|
    && StrictlySorted(keys)
    && (forall k :: k in contents <==> k in keys)
    && (forall i :: 0 <= i < |keys| ==> contents[keys[i]] == values[i])
  }

  /** `pos` is where `key` is, or where it has to go. */
  ghost predicate IsPosition(keys: seq<Bytes>, key: Bytes, pos: nat) {
    && pos <= |keys|
    && (forall i :: 0 <= i < pos ==> Less(keys[i], key))
    && (forall i :: pos <= i < |keys| ==> !Less(keys[i], key))
  }

  lemma PositionFindsKey(keys: seq<Bytes>, key: Bytes, pos: nat)
    requires StrictlySorted(keys) && IsPosition(keys, key, pos)
    ensures key in keys <==> pos < |keys| && keys[pos] == key
  {
    LessIrreflexive(key);
    if key in keys {
      var i :| 0 <= i < |keys| && keys[i] == key;
    }
  }

  lemma ReplaceRepresents(keys: seq<Bytes>, values: seq<Bytes>, contents: map<Bytes, Bytes>, pos: nat, value: Bytes)
    requires Represents(keys, values, contents) && pos < |keys|
    ensures Represents(keys, values[pos := value], contents[keys[pos] := value])
  {
    forall i | 0 <= i < |keys| && keys[i] == keys[pos] ensures i == pos {
      SortedDistinct(keys, i, pos);
    }
  }

  lemma InsertRepresents(keys: seq<Bytes>, values: seq<Bytes>, contents: map<Bytes, Bytes>, pos: nat,
                         key: Bytes, value: Bytes)
    requires Represents(keys, values, contents) && IsPosition(keys, key, pos) && key !in keys
    ensures Represents(keys[..pos] + [key] + keys[pos..], values[..pos] + [value] + values[pos..],
                       contents[key := value])
  {
    var ks, vs := keys[..pos] + [key] + keys[pos..], values[..pos] + [value] + values[pos..];
    InsertKeepsSorted(keys, pos, key);
    assert keys == keys[..pos] + keys[pos..];
    forall i | 0 <= i < |ks| ensures contents[key := value][ks[i]] == vs[i] {
      if i > pos {
        assert ks[i] == keys[i - 1] && vs[i] == values[i - 1];
      }
    }
  }

  lemma InsertKeepsSorted(keys: seq<Bytes>, pos: nat, key: Bytes)
    requires StrictlySorted(keys) && IsPosition(keys, key, pos) && key !in keys
    ensures StrictlySorted(keys[..pos] + [key] + keys[pos..])
  {
    forall i | pos <= i < |keys| ensures Less(key, keys[i]) {
      LessTotal(key, keys[i]);
    }
  }

  class Bucket {
    var keys: seq<Bytes>
    var values: seq<Bytes>
    ghost var contents: map<Bytes, Bytes>

    ghost predicate Valid()
      reads this
    {
      Represents(keys, values, contents)
    }

    constructor ()
      ensures Valid() && contents == map[]
    {
      keys, values, contents := [], [], map[];
    }

    /** The private copy a read-write transaction works on. */
    constructor CopyOf(b: Bucket)
      requires b.Valid()
      ensures Valid() && contents == b.contents
    {
      keys, values, contents := b.keys, b.values, b.contents;
    }

    /** The position of the first key that is not before `key`. */
    method Seek(key: Bytes) returns (pos: nat)
      requires Valid()
      ensures IsPosition(keys, key, pos)
    {
      var low, high := 0, |keys|;
      while low < high
        invariant 0 <= low <= high <= |keys|
        invariant forall i :: 0 <= i < low ==> Less(keys[i], key)
        invariant forall i :: high <= i < |keys| ==> !Less(keys[i], key)
      {
        var mid := (low + high) / 2;
        if Less(keys[mid], key) {
          forall i | low <= i < mid ensures Less(keys[i], key) {
            LessTransitive(keys[i], keys[mid], key);
          }
          low := mid + 1;
        } else {
          forall i | mid < i < |keys| ensures !Less(keys[i], key) {
            if Less(keys[i], key) { LessTransitive(keys[mid], keys[i], key); }
          }
          high := mid;
        }
      }
      pos := low;
    }

    method Get(key: Bytes) returns (value: Option<Bytes>)
      requires Valid()
      ensures value == if key in contents then Some(contents[key]) else None
    {
      var pos := Seek(key);
      PositionFindsKey(keys, key, pos);
      if pos < |keys| && keys[pos] == key {
        value := Some(values[pos]);
      } else {
        value := None;
      }
    }

    method Put(key: Bytes, value: Bytes)
      requires Valid()
      modifies this
      ensures Valid()
      ensures contents == old(contents)[key := value]
    {
      var pos := Seek(key);
      PositionFindsKey(keys, key, pos);
      if pos < |keys| && keys[pos] == key {
        ReplaceRepresents(keys, values, contents, pos, value);
        values := values[pos := value];
      } else {
        InsertRepresents(keys, values, contents, pos, key, value);
        keys, values := keys[..pos] + [key] + keys[pos..], values[..pos] + [value] + values[pos..];
      }
      contents := contents[key := value];
    }
  }
}
