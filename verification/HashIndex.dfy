/**
  A hash table of 32 chains from numbers to values. It is the primary cache index of pci.c, from
  block numbers to slots, and the outer level of dl.c, from inode numbers to lists of blocks.
 */
module HashIndex {
  import opened Blocks
  import opened Sequences
  import opened Chain

  datatype Mapping<+V> = Mapping(key: nat, value: V)

  /** A chain lists exactly the mappings whose key hashes to h, each key once. */
  ghost predicate Lists<V>(s: seq<Mapping<V>>, m: map<nat, V>, h: nat) {
    && (forall i | 0 <= i < |s| :: s[i].key % HASHMAP_SIZE == h && s[i].key in m && m[s[i].key] == s[i].value)
    && (forall i, j | 0 <= i < j < |s| :: s[i].key != s[j].key)
    && (forall b | b in m && b % HASHMAP_SIZE == h :: Mapping(b, m[b]) in s)
  }

  lemma ListsInsert<V>(s: seq<Mapping<V>>, m: map<nat, V>, h: nat, x: Mapping<V>)
    requires Lists(s, m, h) && x.key !in m
    ensures Lists(if x.key % HASHMAP_SIZE == h then [x] + s else s, m[x.key := x.value], h)
  {
  }

  lemma ListsDelete<V>(s: seq<Mapping<V>>, m: map<nat, V>, h: nat, i: nat)
    requires Lists(s, m, h) && i < |s|
    ensures Lists(RemoveAt(s, i), m - {s[i].key}, h)
  {
    hide RemoveAt;
    RestAt(s, i);
    forall b | b in m && b % HASHMAP_SIZE == h && b != s[i].key
      ensures Mapping(b, m[b]) in RemoveAt(s, i)
    {
      InRest(s, i, Mapping(b, m[b]));
    }
  }

  lemma RestAt<V>(s: seq<Mapping<V>>, i: nat)
    requires i < |s|
    ensures |RemoveAt(s, i)| == |s| - 1
    ensures forall k | 0 <= k < |s| - 1 :: RemoveAt(s, i)[k] == s[if k < i then k else k + 1]
  {
  }

  lemma InRest<V>(s: seq<Mapping<V>>, i: nat, x: Mapping<V>)
    requires i < |s| && x in s && x != s[i]
    ensures x in RemoveAt(s, i)
  {
    var k :| 0 <= k < |s| && s[k] == x;
    assert RemoveAt(s, i)[if k < i then k else k - 1] == x;
  }

  lemma HashOf<V>(s: seq<Mapping<V>>, m: map<nat, V>, h: nat, i: nat)
    requires Lists(s, m, h) && i < |s|
    ensures s[i].key % HASHMAP_SIZE == h
  {
  }

  lemma ListsOther<V>(s: seq<Mapping<V>>, m: map<nat, V>, h: nat, b: nat)
    requires Lists(s, m, h) && b % HASHMAP_SIZE != h
    ensures Lists(s, m - {b}, h)
  {
  }

  class HashIndex<V> {
    const buckets: seq<Chain<Mapping<V>>>
    ghost var mapped: map<nat, V>
    ghost var Repr: set<object>

    ghost predicate Valid()
      reads this, Repr
      ensures Valid() ==> this in Repr
    {
      && this in Repr
      && |buckets| == HASHMAP_SIZE
      && (forall h | 0 <= h < HASHMAP_SIZE ::
            buckets[h] in Repr && buckets[h].Repr <= Repr && this !in buckets[h].Repr
            && buckets[h].Valid() && Lists(buckets[h].values, mapped, h))
      && (forall h, k | 0 <= h < k < HASHMAP_SIZE :: buckets[h].Repr !! buckets[k].Repr)
    }

    constructor ()
      ensures Valid() && fresh(Repr) && mapped == map[]
    {
      var chains: seq<Chain<Mapping<V>>> := [];
      ghost var repr: set<object> := {};
      while |chains| < HASHMAP_SIZE
        invariant |chains| <= HASHMAP_SIZE && fresh(repr)
        invariant forall h | 0 <= h < |chains| ::
            chains[h].Valid() && chains[h].values == [] && chains[h] in repr && chains[h].Repr <= repr
        invariant forall h, k | 0 <= h < k < |chains| :: chains[h].Repr !! chains[k].Repr
      {
        var c := new Chain<Mapping<V>>();
        chains := chains + [c];
        repr := repr + c.Repr;
      }
      buckets := chains;
      mapped := map[];
      Repr := {this} + repr;
    }

    /** The node of a key, or null. */
    method Lookup(key: nat) returns (current: Link?<Mapping<V>>)
      requires Valid()
      ensures current == null <==> key !in mapped
      ensures current != null ==> current.value == Mapping(key, mapped[key])
    {
      var bucket := buckets[key % HASHMAP_SIZE];
      current := bucket.head;
      ghost var i := 0;
      while current != null
        invariant i <= |bucket.links| && current == bucket.At(i)
        invariant forall j | 0 <= j < i :: bucket.values[j].key != key
        decreases |bucket.links| - i
      {
        if current.value.key == key { return; }
        current := current.next;
        i := i + 1;
      }
    }

    /** Both callers insert a key right after a lookup that missed. */
    method Insert(key: nat, value: V)
      requires Valid()
      requires key !in mapped
      modifies Repr
      ensures Valid() && fresh(Repr - old(Repr))
      ensures mapped == old(mapped)[key := value]
    {
      var bucket := buckets[key % HASHMAP_SIZE];
      bucket.Push(Mapping(key, value));
      mapped := mapped[key := value];
      Repr := Repr + bucket.Repr;
      forall h | 0 <= h < HASHMAP_SIZE
        ensures Lists(buckets[h].values, mapped, h)
      {
        ListsInsert(old(buckets[h].values), old(mapped), h, Mapping(key, value));
        assert h != key % HASHMAP_SIZE ==> buckets[h].values == old(buckets[h].values);
      }
    }

    /** Unlinks a key, if it is there. */
    method Delete(key: nat)
      requires Valid()
      modifies Repr
      ensures Valid() && Repr == old(Repr)
      ensures mapped == old(mapped) - {key}
    {
      var bucket := buckets[key % HASHMAP_SIZE];
      var curr, prev := bucket.head, null;
      ghost var i := 0;
      while curr != null
        invariant i <= |bucket.links| && curr == bucket.At(i)
        invariant prev == if i == 0 then null else bucket.links[i - 1]
        invariant forall j | 0 <= j < i :: bucket.values[j].key != key
        decreases |bucket.links| - i
      {
        if curr.value.key == key { break; }
        prev := curr;
        curr := curr.next;
        i := i + 1;
      }
      if curr == null { return; }
      Bypass(key % HASHMAP_SIZE, prev, curr, i);
    }

    /** The relinking at the end of a delete. */
    method Bypass(h: nat, prev: Link?<Mapping<V>>, curr: Link<Mapping<V>>, ghost i: nat)
      requires Valid() && h < HASHMAP_SIZE
      requires i < |buckets[h].links| && curr == buckets[h].links[i]
      requires prev == if i == 0 then null else buckets[h].links[i - 1]
      modifies Repr
      ensures Valid() && Repr == old(Repr)
      ensures mapped == old(mapped) - {curr.value.key}
    {
      hide Lists;
      var key := curr.value.key;
      HashOf(buckets[h].values, mapped, h, i);
      ListsDelete(buckets[h].values, mapped, h, i);
      forall k | 0 <= k < HASHMAP_SIZE && k != h
        ensures Lists(buckets[k].values, mapped - {key}, k)
      {
        ListsOther(buckets[k].values, mapped, k, key);
      }
      buckets[h].Unlink(prev, curr, i);
      mapped := mapped - {key};
    }
  }
}
