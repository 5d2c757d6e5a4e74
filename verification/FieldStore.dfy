/** The side store in which the fake JVM keeps the bits of fields. */
module FieldStore {
  import opened Words

  const CAPACITY := 1024

  /** The JVM, the object and the field; 0 is NULL. */
  datatype Key = Key(jvm: nat, obj: nat, field: nat)

  datatype Entry = Entry(key: Key, bits: u64)

  datatype Found = NotFound | Found(bits: u64)

  predicate Complete(k: Key) {
    k.jvm != 0 && k.obj != 0 && k.field != 0
  }

  /** The entries list the map, each key once. */
  ghost predicate Lists(entries: seq<Entry>, m: map<Key, u64>) {
    && (forall i, j :: 0 <= i < j < |entries| ==> entries[i].key != entries[j].key)
    && (forall i :: 0 <= i < |entries| ==> entries[i].key in m && m[entries[i].key] == entries[i].bits)
    && (forall k <- m :: exists i :: 0 <= i < |entries| && entries[i].key == k)
  }

  lemma ListsRest(entries: seq<Entry>, m: map<Key, u64>)
    requires Lists(entries, m) && entries != []
    ensures Lists(entries[..|entries| - 1], m - {entries[|entries| - 1].key})
  {
    var rest, k := entries[..|entries| - 1], entries[|entries| - 1].key;
    forall k' | k' in m - {k} ensures exists i :: 0 <= i < |rest| && rest[i].key == k' {
      var i :| 0 <= i < |entries| && entries[i].key == k';
      assert rest[i].key == k';
    }
  }

  /** There are as many entries as keys. */
  lemma {:induction false} ListsSize(entries: seq<Entry>, m: map<Key, u64>)
    requires Lists(entries, m)
    ensures |m| == |entries|
  {
    if entries == [] {
      assert m.Keys == {};
    } else {
      var k := entries[|entries| - 1].key;
      assert k in m;
      hide Lists;
      ListsRest(entries, m);
      ListsSize(entries[..|entries| - 1], m - {k});
      assert m.Keys == (m - {k}).Keys + {k};
    }
  }

  lemma ListsUpdate(entries: seq<Entry>, m: map<Key, u64>, i: nat, bits: u64)
    requires Lists(entries, m) && i < |entries|
    ensures Lists(entries[i := entries[i].(bits := bits)], m[entries[i].key := bits])
  {
    var entries', m' := entries[i := entries[i].(bits := bits)], m[entries[i].key := bits];
    forall k | k in m' ensures exists j :: 0 <= j < |entries'| && entries'[j].key == k {
      if k == entries[i].key {
        assert entries'[i].key == k;
      } else {
        var j :| 0 <= j < |entries| && entries[j].key == k;
        assert entries'[j].key == k;
      }
    }
  }

  lemma ListsAppend(entries: seq<Entry>, m: map<Key, u64>, k: Key, bits: u64)
    requires Lists(entries, m) && k !in m
    ensures Lists(entries + [Entry(k, bits)], m[k := bits])
  {
    var entries', m' := entries + [Entry(k, bits)], m[k := bits];
    forall k' | k' in m' ensures exists j :: 0 <= j < |entries'| && entries'[j].key == k' {
      if k' == k {
        assert entries'[|entries|].key == k;
      } else {
        var j :| 0 <= j < |entries| && entries[j].key == k';
        assert entries'[j].key == k';
      }
    }
  }

  class FieldStore {
    var entries: seq<Entry>
    ghost var fields: map<Key, u64>

    ghost predicate Valid()
      reads this
    {
      |entries| <= CAPACITY && Lists(entries, fields)
    }

    constructor ()
      ensures Valid() && fields == map[]
    {
      entries, fields := [], map[];
    }

    method Search(k: Key) returns (i: nat)
      requires Valid()
      ensures i <= |entries| && (i < |entries| <==> k in fields)
      ensures i < |entries| ==> entries[i].key == k && fields[k] == entries[i].bits
    {
      i := 0;
      while i < |entries| && entries[i].key != k
        invariant i <= |entries| && forall j :: 0 <= j < i ==> entries[j].key != k
      {
        i := i + 1;
      }
    }

    /** jvm_get_field_bits. */
    method Get(k: Key) returns (r: Found)
      requires Valid()
      ensures r == if k.jvm != 0 && k.obj != 0 && k.field != 0 && k in fields then Found(fields[k]) else NotFound
    {
      if !Complete(k) {
        return NotFound;
      }
      var i := Search(k);
      r := if i < |entries| then Found(entries[i].bits) else NotFound;
    }

    /** jvm_set_field_bits: a map update, except that a new key is dropped when there are already 1024. */
    method Set(k: Key, bits: u64)
      requires Valid()
      modifies this
      ensures Valid()
      ensures fields ==
        if k.jvm != 0 && k.obj != 0 && k.field != 0 && (k in old(fields) || |old(fields)| < 1024)
        then old(fields)[k := bits] else old(fields)
    {
      hide Lists;
      if !Complete(k) {
        return;
      }
      ListsSize(entries, fields);
      var i := Search(k);
      if i < |entries| {
        ListsUpdate(entries, fields, i, bits);
        entries, fields := entries[i := entries[i].(bits := bits)], fields[k := bits];
      } else if |entries| < CAPACITY {
        ListsAppend(entries, fields, k, bits);
        entries, fields := entries + [Entry(k, bits)], fields[k := bits];
      }
    }
  }
}
