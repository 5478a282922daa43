/** The enum codec: total translations between the wire integers of the
    campaign category and status enums and the strings stored in the
    database. Each Go function ranges over a literal map and overwrites its
    zero-valued result on every matching entry; `MapRange` models that loop. */
module Codec {
  import opened Base

  /** One table entry, read as "key maps to value". */
  type Table<K, V> = seq<(K, V)>

  /** The range loop: visit the entries in the order given, and let each
      entry whose key equals `key` overwrite the running result `acc`. */
  function MapRange<K(==), V(==)>(t: Table<K, V>, key: K, acc: V): (r: V)
    ensures r == acc || HasEntry(t, key, r)
    decreases |t|
  {
    if |t| == 0 then acc
    else MapRange(t[1..], key, if t[0].0 == key then t[0].1 else acc)
  }

  /** The same table read in the opposite direction. */
  function Flip<K, V>(t: Table<K, V>): (f: Table<V, K>)
    ensures |f| == |t|
    ensures forall k :: 0 <= k < |t| ==> f[k] == (t[k].1, t[k].0)
  {
    seq(|t|, k requires 0 <= k < |t| => (t[k].1, t[k].0))
  }

  /** Every entry of `t` whose key is `key` carries the value `v`. */
  predicate AgreeOn<K(==), V(==)>(t: Table<K, V>, key: K, v: V) {
    forall k :: 0 <= k < |t| && t[k].0 == key ==> t[k].1 == v
  }

  /** Some entry of `t` maps `key` to `v`. */
  predicate HasEntry<K(==), V(==)>(t: Table<K, V>, key: K, v: V) {
    exists k :: 0 <= k < |t| && t[k] == (key, v)
  }

  predicate HasKey<K(==), V>(t: Table<K, V>, key: K) {
    exists k :: 0 <= k < |t| && t[k].0 == key
  }

  /** No entry matches: the loop leaves the running result alone. */
  lemma {:induction false} MapRangeMiss<K, V>(t: Table<K, V>, key: K, acc: V)
    requires !HasKey(t, key)
    ensures MapRange(t, key, acc) == acc
    decreases |t|
  {
    if |t| > 0 {
      assert !HasKey(t[1..], key) by {
        forall k | 0 <= k < |t[1..]| ensures t[1..][k].0 != key {
          assert t[1..][k] == t[k + 1];
        }
      }
      MapRangeMiss(t[1..], key, acc);
    }
  }

  /** Some entry matches and all matching entries agree on `v`: whatever
      the order of visits, the loop ends with `v`. */
  lemma {:induction false} MapRangeHit<K, V>(t: Table<K, V>, key: K, v: V, acc: V)
    requires HasKey(t, key) && AgreeOn(t, key, v)
    ensures MapRange(t, key, v) == v
    ensures MapRange(t, key, acc) == v
    decreases |t|
  {
    var rest := t[1..];
    assert AgreeOn(rest, key, v) by {
      forall k | 0 <= k < |rest| && rest[k].0 == key ensures rest[k].1 == v {
        assert rest[k] == t[k + 1];
      }
    }
    if t[0].0 == key {
      if HasKey(rest, key) {
        MapRangeHit(rest, key, v, v);
      } else {
        MapRangeMiss(rest, key, v);
      }
    } else {
      var j :| 0 <= j < |t| && t[j].0 == key;
      assert rest[j - 1] == t[j];
      MapRangeHit(rest, key, v, acc);
      MapRangeHit(rest, key, v, v);
    }
  }

  /** The result of the loop does not depend on the order in which Go's
      map iteration visits the entries, as long as the matching entries
      agree; this holds for any key of a table with distinct keys. */
  lemma MapRangeOrderIndependent<K, V>(t: Table<K, V>, u: Table<K, V>, key: K, acc: V)
    requires multiset(t) == multiset(u)
    requires DistinctKeys(t)
    ensures MapRange(t, key, acc) == MapRange(u, key, acc)
  {
    if HasKey(t, key) {
      var j :| 0 <= j < |t| && t[j].0 == key;
      var v := t[j].1;
      assert AgreeOn(t, key, v);
      assert t[j] in multiset(u);
      var i :| 0 <= i < |u| && u[i] == t[j];
      assert HasKey(u, key);
      assert AgreeOn(u, key, v) by {
        forall k | 0 <= k < |u| && u[k].0 == key ensures u[k].1 == v {
          assert u[k] in multiset(t);
          var m :| 0 <= m < |t| && t[m] == u[k];
        }
      }
      MapRangeHit(t, key, v, acc);
      MapRangeHit(u, key, v, acc);
    } else {
      assert !HasKey(u, key) by {
        forall i | 0 <= i < |u| ensures u[i].0 != key {
          assert u[i] in multiset(t);
          var m :| 0 <= m < |t| && t[m] == u[i];
        }
      }
      MapRangeMiss(t, key, acc);
      MapRangeMiss(u, key, acc);
    }
  }

  predicate DistinctKeys<K(==), V>(t: Table<K, V>) {
    forall j, k :: 0 <= j < k < |t| ==> t[j].0 != t[k].0
  }

  /** The table of a Go map literal whose keys are 0, 1, 2, ... */
  function Indexed(names: seq<string>): (t: Table<int32, string>)
    requires |names| < 0x8000_0000
    ensures |t| == |names|
    ensures forall k :: 0 <= k < |t| ==> t[k] == (k as int32, names[k])
  {
    seq(|names|, k requires 0 <= k < |names| => (k as int32, names[k]))
  }

  predicate Distinct(names: seq<string>) {
    forall j, k :: 0 <= j < k < |names| ==> names[j] != names[k]
  }

  /** The category names, in wire order (index = position). */
  const CategoryNames: seq<string> :=
    ["unspecified", "education", "healthcare", "environment", "animals",
     "emergency", "community", "technology", "arts", "sports"]

  /** The status names read back from the database, in wire order. */
  const StatusProtoNames: seq<string> :=
    ["unspecified", "active", "paused", "completed", "cancelled"]

  /** The status names written to the database: index 0 persists as "". */
  const StatusDBNames: seq<string> :=
    ["", "active", "paused", "completed", "cancelled"]

  const CategoryTable: Table<int32, string> := Indexed(CategoryNames)
  const StatusDBTable: Table<int32, string> := Indexed(StatusDBNames)
  const StatusProtoTable: Table<int32, string> := Indexed(StatusProtoNames)

  /** Each of the three name lists is injective, so each table is a
      bijection between its indices and its names. */
  lemma NamesDistinct()
    ensures Distinct(CategoryNames)
    ensures Distinct(StatusDBNames)
    ensures Distinct(StatusProtoNames)
  {
  }

  /** Looking an index up in an indexed table yields the name at that
      position, and "" for any index outside the table. */
  lemma IndexedByIndex(names: seq<string>, input: int32)
    requires |names| < 0x8000_0000
    ensures 0 <= input < |names| ==> MapRange(Indexed(names), input, "") == names[input]
    ensures !(0 <= input < |names|) ==> MapRange(Indexed(names), input, "") == ""
  {
    var t := Indexed(names);
    if 0 <= input < |names| {
      assert t[input].0 == input;
      assert AgreeOn(t, input, names[input]);
      MapRangeHit(t, input, names[input], "");
    } else {
      MapRangeMiss(t, input, "");
    }
  }

  /** Looking a name up in a flipped indexed table of distinct names yields
      its position, and 0 for any name outside the table. */
  lemma IndexedByName(names: seq<string>, input: string)
    requires |names| < 0x8000_0000 && Distinct(names)
    ensures input in names ==> 0 <= MapRange<string, int32>(Flip(Indexed(names)), input, 0) < |names|
    ensures input in names ==> names[MapRange<string, int32>(Flip(Indexed(names)), input, 0)] == input
    ensures input !in names ==> MapRange<string, int32>(Flip(Indexed(names)), input, 0) == 0
  {
    var f := Flip(Indexed(names));
    if input in names {
      var k :| 0 <= k < |names| && names[k] == input;
      assert f[k] == (input, k as int32);
      assert AgreeOn(f, input, k as int32);
      MapRangeHit(f, input, k as int32, 0);
    } else {
      MapRangeMiss(f, input, 0);
    }
  }

  /** `MapCategoryDB`: wire category index to stored category name. An
      index outside 0..9 encodes to Go's zero string "", not "unspecified". */
  function MapCategoryDB(input: int32): (r: string)
    ensures 0 <= input < 10 ==> r == CategoryNames[input]
    ensures !(0 <= input < 10) ==> r == ""
  {
    IndexedByIndex(CategoryNames, input);
    MapRange(CategoryTable, input, "")
  }

  /** `MapCateogryProto` (the source's spelling): stored category name to
      wire index. A name outside the table, "" included, decodes to 0. */
  function MapCateogryProto(input: string): (r: int32)
    ensures 0 <= r < 10
    ensures input in CategoryNames ==> CategoryNames[r] == input
    ensures input !in CategoryNames ==> r == 0
  {
    NamesDistinct();
    IndexedByName(CategoryNames, input);
    MapRange<string, int32>(Flip(CategoryTable), input, 0)
  }

  /** `MapStatusDB`: wire status index to stored status. Index 0 persists
      as "", and so does every index outside 0..4. */
  function MapStatusDB(input: int32): (r: string)
    ensures 0 <= input < 5 ==> r == StatusDBNames[input]
    ensures !(0 <= input < 5) ==> r == ""
  {
    IndexedByIndex(StatusDBNames, input);
    MapRange(StatusDBTable, input, "")
  }

  /** `MapStatusProto`: stored status to wire index, through a table whose
      index 0 is "unspecified". A string outside it, "" included, decodes to 0. */
  function MapStatusProto(input: string): (r: int32)
    ensures 0 <= r < 5
    ensures input in StatusProtoNames ==> StatusProtoNames[r] == input
    ensures input !in StatusProtoNames ==> r == 0
  {
    NamesDistinct();
    IndexedByName(StatusProtoNames, input);
    MapRange<string, int32>(Flip(StatusProtoTable), input, 0)
  }

  /** Every category index survives encoding then decoding. */
  lemma CategoryIndexRoundTrip(i: int32)
    requires 0 <= i < 10
    ensures MapCateogryProto(MapCategoryDB(i)) == i
  {
  }

  /** Every status index survives encoding then decoding, 0 included:
      0 encodes to "", which is not in the decode table and so yields 0. */
  lemma StatusIndexRoundTrip(i: int32)
    requires 0 <= i < 5
    ensures MapStatusProto(MapStatusDB(i)) == i
  {
  }

  /** Every stored category name survives decoding then encoding. */
  lemma CategoryNameRoundTrip(s: string)
    requires s in CategoryNames
    ensures MapCategoryDB(MapCateogryProto(s)) == s
  {
  }

  /** The four named statuses survive decoding then encoding, but
      "unspecified" comes back as "". */
  lemma StatusNameRoundTrip(s: string)
    requires s in StatusProtoNames
    ensures s != "unspecified" ==> MapStatusDB(MapStatusProto(s)) == s
    ensures s == "unspecified" ==> MapStatusDB(MapStatusProto(s)) == ""
  {
  }

  /** Each of the four Go maps has distinct keys (indices) and distinct
      values (names), so at most one entry matches any input in either
      direction. */
  lemma TablesInjective()
    ensures DistinctKeys(CategoryTable) && DistinctKeys(Flip(CategoryTable))
    ensures DistinctKeys(StatusDBTable) && DistinctKeys(Flip(StatusDBTable))
    ensures DistinctKeys(StatusProtoTable) && DistinctKeys(Flip(StatusProtoTable))
  {
  }

  /** Go visits a map in an unspecified order: every ordering of each table
      gives the same result as the one `MapCategoryDB`, `MapCateogryProto`,
      `MapStatusDB` and `MapStatusProto` use. */
  lemma CodecOrderIndependent(
    cat: Table<int32, string>, catRev: Table<string, int32>,
    st: Table<int32, string>, stRev: Table<string, int32>,
    i: int32, s: string)
    requires multiset(cat) == multiset(CategoryTable)
    requires multiset(catRev) == multiset(Flip(CategoryTable))
    requires multiset(st) == multiset(StatusDBTable)
    requires multiset(stRev) == multiset(Flip(StatusProtoTable))
    ensures MapRange(cat, i, "") == MapCategoryDB(i)
    ensures MapRange(catRev, s, 0) == MapCateogryProto(s)
    ensures MapRange(st, i, "") == MapStatusDB(i)
    ensures MapRange(stRev, s, 0) == MapStatusProto(s)
  {
    TablesInjective();
    MapRangeOrderIndependent(CategoryTable, cat, i, "");
    MapRangeOrderIndependent(Flip(CategoryTable), catRev, s, 0);
    MapRangeOrderIndependent(StatusDBTable, st, i, "");
    MapRangeOrderIndependent(Flip(StatusProtoTable), stRev, s, 0);
  }
}
