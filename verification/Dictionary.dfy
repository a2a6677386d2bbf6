/** `NodeDictionary`: string keys to dense ids, in order of first appearance. */
module Dictionary {
  import opened Common

  /** Each map is the inverse of the other, on exactly the ids 0..len. */
  ghost predicate Interned(toId: map<string, nat>, keys: seq<string>) {
    && (forall k :: k in toId ==> toId[k] < |keys| && keys[toId[k]] == k)
    && (forall i :: 0 <= i < |keys| ==> keys[i] in toId && toId[keys[i]] == i)
  }

  class NodeDictionary {
    var toId: map<string, nat>
    var keys: seq<string>

    ghost predicate Valid()
      reads this
    {
      Interned(toId, keys)
    }

    constructor ()
      ensures Valid() && keys == []
    {
      toId, keys := map[], [];
    }

    /** The id of a known key is unchanged; a new key gets the next id, and no other id moves. */
    method GetOrInsert(key: string) returns (id: nat)
      requires Valid()
      modifies this
      ensures Valid() && id < |keys| && keys[id] == key
      ensures keys == if key in old(toId) then old(keys) else old(keys) + [key]
      ensures IdOf(key) == Some(id) && KeyOf(id) == Some(key)
      ensures id == if old(IdOf(key)).Some? then old(IdOf(key)).value else old(Len())
      ensures forall k :: k != key ==> IdOf(k) == old(IdOf(k))
    {
      if key in toId { return toId[key]; }
      id := |keys|;
      toId := toId[key := id];
      keys := keys + [key];
    }

    function IdOf(key: string): Option<nat>
      reads this
    {
      if key in toId then Some(toId[key]) else None
    }

    function KeyOf(id: nat): Option<string>
      reads this
    {
      if id < |keys| then Some(keys[id]) else None
    }

    function Len(): nat
      reads this
    {
      |keys|
    }

    /** `id_of` and `key_of` are inverse bijections between the keys and 0..len. */
    lemma Inverse(key: string, id: nat)
      requires Valid()
      ensures IdOf(key) == Some(id) <==> KeyOf(id) == Some(key)
      ensures KeyOf(id).Some? <==> id < Len()
    {
    }
  }

  /** Two ids never share a key. */
  lemma KeysDistinct(toId: map<string, nat>, keys: seq<string>, i: nat, j: nat)
    requires Interned(toId, keys) && i < |keys| && j < |keys|
    ensures keys[i] == keys[j] <==> i == j
  {
  }
}
