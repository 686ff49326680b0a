/** The registry pairing HuskSync's persistent-data tag kinds with Bukkit's
    persistent data types, and the two accessors that move one value between
    a player's persistent data container and a snapshot. */
module PersistentTypeMapping {
  import opened Wrappers

  /** HuskSync's `PersistentDataTagType`: the kinds a snapshot records. */
  datatype TagType =
    | BYTE | SHORT | INTEGER | LONG | FLOAT | DOUBLE | STRING
    | BYTE_ARRAY | INTEGER_ARRAY | LONG_ARRAY | TAG_CONTAINER_ARRAY | TAG_CONTAINER

  /** Bukkit's `PersistentDataType` constants the registry refers to. They
      share their names with the tag kinds, so they are always written
      qualified (`PersistentDataType.BYTE`). */
  datatype PersistentDataType =
    | BYTE | SHORT | INTEGER | LONG | FLOAT | DOUBLE | STRING
    | BYTE_ARRAY | INTEGER_ARRAY | LONG_ARRAY | TAG_CONTAINER_ARRAY | TAG_CONTAINER

  /** The Bukkit type with the same name as tag kind `t`, written out case by
      case as an independent reference for the table. */
  function Counterpart(t: TagType): PersistentDataType {
    match t
    case BYTE => PersistentDataType.BYTE
    case SHORT => PersistentDataType.SHORT
    case INTEGER => PersistentDataType.INTEGER
    case LONG => PersistentDataType.LONG
    case FLOAT => PersistentDataType.FLOAT
    case DOUBLE => PersistentDataType.DOUBLE
    case STRING => PersistentDataType.STRING
    case BYTE_ARRAY => PersistentDataType.BYTE_ARRAY
    case INTEGER_ARRAY => PersistentDataType.INTEGER_ARRAY
    case LONG_ARRAY => PersistentDataType.LONG_ARRAY
    case TAG_CONTAINER_ARRAY => PersistentDataType.TAG_CONTAINER_ARRAY
    case TAG_CONTAINER => PersistentDataType.TAG_CONTAINER
  }

  /** One registry entry. Equality of two entries compares both fields, as
      the record's `equals` does. */
  datatype Mapping = Mapping(tagType: TagType, bukkitType: PersistentDataType)

  /** `PRIMITIVE_TYPE_MAPPINGS`, in declaration order. */
  const PrimitiveTypeMappings: seq<Mapping> := [
    Mapping(TagType.BYTE, PersistentDataType.BYTE),
    Mapping(TagType.SHORT, PersistentDataType.SHORT),
    Mapping(TagType.INTEGER, PersistentDataType.INTEGER),
    Mapping(TagType.LONG, PersistentDataType.LONG),
    Mapping(TagType.FLOAT, PersistentDataType.FLOAT),
    Mapping(TagType.DOUBLE, PersistentDataType.DOUBLE),
    Mapping(TagType.STRING, PersistentDataType.STRING),
    Mapping(TagType.BYTE_ARRAY, PersistentDataType.BYTE_ARRAY),
    Mapping(TagType.INTEGER_ARRAY, PersistentDataType.INTEGER_ARRAY),
    Mapping(TagType.LONG_ARRAY, PersistentDataType.LONG_ARRAY),
    Mapping(TagType.TAG_CONTAINER_ARRAY, PersistentDataType.TAG_CONTAINER_ARRAY),
    Mapping(TagType.TAG_CONTAINER, PersistentDataType.TAG_CONTAINER)
  ]

  /** No two entries of `table` record the same tag kind. */
  predicate DistinctKinds(table: seq<Mapping>) {
    forall i, j :: 0 <= i < j < |table| ==> table[i].tagType != table[j].tagType
  }

  /** The registry has twelve entries, one per tag kind in the kind's own
      position, each paired with the Bukkit type of the same name; so no two
      entries share a kind. */
  lemma TableIsComplete()
    ensures |PrimitiveTypeMappings| == 12
    ensures forall i :: 0 <= i < |PrimitiveTypeMappings| ==>
              KindIndex(PrimitiveTypeMappings[i].tagType) == i &&
              PrimitiveTypeMappings[i].bukkitType == Counterpart(PrimitiveTypeMappings[i].tagType)
    ensures DistinctKinds(PrimitiveTypeMappings)
  {
    var table := PrimitiveTypeMappings;
    forall i, j | 0 <= i < j < |table|
      ensures table[i].tagType != table[j].tagType
    {
      assert KindIndex(table[i].tagType) == i;
    }
  }

  /** The position of kind `t` in the registry. */
  function KindIndex(t: TagType): (i: nat)
    ensures i < |PrimitiveTypeMappings| && PrimitiveTypeMappings[i].tagType == t
  {
    match t
    case BYTE => 0
    case SHORT => 1
    case INTEGER => 2
    case LONG => 3
    case FLOAT => 4
    case DOUBLE => 5
    case STRING => 6
    case BYTE_ARRAY => 7
    case INTEGER_ARRAY => 8
    case LONG_ARRAY => 9
    case TAG_CONTAINER_ARRAY => 10
    case TAG_CONTAINER => 11
  }

  /** The loop of `getMapping` over an arbitrary table: the first entry whose
      kind equals `t`, or nothing. */
  function FindMapping(table: seq<Mapping>, t: TagType): (r: Option<Mapping>)
    ensures r.Some? <==> exists i :: 0 <= i < |table| && table[i].tagType == t
    ensures r.Some? ==> r.value.tagType == t
    ensures r.Some? ==> exists i :: 0 <= i < |table| && table[i] == r.value &&
                                    forall j :: 0 <= j < i ==> table[j].tagType != t
    decreases |table|
  {
    if table == [] then None
    else if table[0].tagType == t then Some(table[0])
    else
      var rest := FindMapping(table[1..], t);
      assert forall i :: 0 < i < |table| ==> table[i] == table[1..][i - 1];
      rest
  }

  /** The same search as a loop with an early return, as `getMapping` is
      written. */
  method FindMappingByLoop(table: seq<Mapping>, t: TagType) returns (r: Option<Mapping>)
    ensures r == FindMapping(table, t)
  {
    var i := 0;
    while i < |table|
      invariant 0 <= i <= |table|
      invariant FindMapping(table, t) == FindMapping(table[i..], t)
    {
      if table[i].tagType == t {
        return Some(table[i]);
      }
      assert table[i..][1..] == table[i + 1..];
      i := i + 1;
    }
    return None;
  }

  /** `getMapping`: the registry entry for kind `t`. Every kind is
      registered, once, paired with the Bukkit type of the same name. */
  function GetMapping(t: TagType): (r: Option<Mapping>)
    ensures r == Some(Mapping(t, Counterpart(t)))
  {
    TableIsComplete();
    FindMappingInDistinctTable(PrimitiveTypeMappings, KindIndex(t));
    FindMapping(PrimitiveTypeMappings, t)
  }

  /** In a table without repeated kinds, the search finds the one entry of
      the requested kind. */
  lemma FindMappingInDistinctTable(table: seq<Mapping>, i: nat)
    requires DistinctKinds(table) && i < |table|
    ensures FindMapping(table, table[i].tagType) == Some(table[i])
  {
    var r := FindMapping(table, table[i].tagType);
    var k :| 0 <= k < |table| && table[k] == r.value &&
             forall j :: 0 <= j < k ==> table[j].tagType != table[i].tagType;
  }

  /** Bukkit's `NamespacedKey`. */
  datatype NamespacedKey = NamespacedKey(namespace: string, key: string) {
    /** `toString()`: the namespace, a colon, the key. */
    function ToString(): string {
      namespace + ":" + key
    }

    /** Bukkit admits only lower-case letters, digits, `.`, `_` and `-` in a
        namespace, so a namespace never holds a colon. */
    predicate Valid() {
      ':' !in namespace
    }
  }

  /** For valid keys, `toString` loses nothing: the name a snapshot records a
      value under determines the key it came from. */
  lemma ToStringInjective(a: NamespacedKey, b: NamespacedKey)
    requires a.Valid() && b.Valid()
    requires a.ToString() == b.ToString()
    ensures a == b
  {
    var s := a.ToString();
    ColonAfterNamespace(a);
    ColonAfterNamespace(b);
    if |a.namespace| != |b.namespace| {
      assert false;
    }
    assert a.namespace == s[..|a.namespace|] == b.namespace;
    assert a.key == s[|a.namespace| + 1..] == b.key;
  }

  lemma ColonAfterNamespace(k: NamespacedKey)
    ensures k.ToString()[..|k.namespace|] == k.namespace
    ensures k.ToString()[|k.namespace|] == ':'
    ensures k.ToString()[|k.namespace| + 1..] == k.key
    ensures forall i :: 0 <= i < |k.namespace| ==> k.ToString()[i] == k.namespace[i]
  {
  }

  /** A value held in a Bukkit persistent data container, with the data type
      it was stored under. */
  datatype Stored<V> = Stored(dataType: PersistentDataType, value: V)

  /** A player's persistent data container, as a map from keys. */
  type Container<V> = map<NamespacedKey, Stored<V>>

  /** HuskSync's `PersistentDataTag`: a tag kind and a value. */
  datatype PersistentDataTag<V> = PersistentDataTag(tagType: TagType, value: V)

  const NullValue := "NullPointerException"
  const WrongDataType := "IllegalArgumentException"

  /** `container.get(key, type)`: nothing for an absent key, the value when it
      was stored under `type`, an exception otherwise. */
  function ContainerGet<V>(container: Container<V>, key: NamespacedKey, dataType: PersistentDataType): (r: Result<Option<V>>)
    ensures r == Success(None) <==> key !in container
    ensures r.Success? && r.value.Some? <==> key in container && container[key].dataType == dataType
    ensures r.Success? && r.value.Some? ==> r.value.value == container[key].value
  {
    if key !in container then Success(None)
    else if container[key].dataType != dataType then Failure(WrongDataType)
    else Success(Some(container[key].value))
  }

  /** `getContainerValue`: the value under `key`, tagged with the entry's
      kind; a missing value fails the non-null check. */
  function GetContainerValue<V>(m: Mapping, container: Container<V>, key: NamespacedKey): (r: Result<PersistentDataTag<V>>)
    ensures r.Success? <==> key in container && container[key].dataType == m.bukkitType
    ensures r.Success? ==> r.value == PersistentDataTag(m.tagType, container[key].value)
    ensures key !in container ==> r == Failure(NullValue)
  {
    var stored :- ContainerGet(container, key, m.bukkitType);
    if stored.None? then Failure(NullValue)
    else Success(PersistentDataTag(m.tagType, stored.value))
  }

  /** `setContainerValue`. The snapshot side (`getTagValue` on the name
      `key.toString()`) is the parameter `tagValue`; when it has a value, the
      player's container stores it under `key` with the entry's Bukkit type,
      and otherwise the container is left alone. */
  function SetContainerValue<V>(m: Mapping, tagValue: string -> Option<V>, container: Container<V>, key: NamespacedKey): (r: Container<V>)
    ensures tagValue(key.ToString()).None? ==> r == container
    ensures tagValue(key.ToString()).Some? ==>
              key in r && r[key] == Stored(m.bukkitType, tagValue(key.ToString()).value)
    ensures r.Keys == if tagValue(key.ToString()).Some? then container.Keys + {key} else container.Keys
    ensures forall k :: k in container && k != key ==> k in r && r[k] == container[k]
  {
    match tagValue(key.ToString())
    case Some(v) => container[key := Stored(m.bukkitType, v)]
    case None => container
  }

  /** A value copied into the container reads back through the same entry
      as the snapshot's value, tagged with the entry's kind. */
  lemma SetThenGet<V>(m: Mapping, tagValue: string -> Option<V>, container: Container<V>, key: NamespacedKey)
    requires tagValue(key.ToString()).Some?
    ensures GetContainerValue(m, SetContainerValue(m, tagValue, container, key), key)
              == Success(PersistentDataTag(m.tagType, tagValue(key.ToString()).value))
  {
  }

  /** Copying one key leaves what any other key reads unchanged. */
  lemma SetLeavesOtherKeys<V>(m: Mapping, tagValue: string -> Option<V>, container: Container<V>,
                              key: NamespacedKey, other: Mapping, otherKey: NamespacedKey)
    requires otherKey != key
    ensures GetContainerValue(other, SetContainerValue(m, tagValue, container, key), otherKey)
              == GetContainerValue(other, container, otherKey)
  {
  }

  /** Reading a value out and copying it back in through the same entry
      restores it: the snapshot round trip of one key, for every kind. */
  lemma GetThenSetRestores<V>(t: TagType, player: Container<V>, key: NamespacedKey, target: Container<V>)
    requires key in player && player[key].dataType == Counterpart(t)
    ensures GetMapping(t).Some?
    ensures var m := GetMapping(t).value;
            var tag := GetContainerValue(m, player, key).value;
            var restored := SetContainerValue(m, (name: string) => if name == key.ToString() then Some(tag.value) else None, target, key);
            tag.tagType == t && restored == target[key := player[key]]
  {
  }
}
