/** Re-keying of legacy statistic maps: Bukkit enum keys (statistic,
    material, entity type) become their names, counts are copied. The loop
    methods follow the legacy converter's loops; the functions are the maps
    those loops must produce. */
module StatisticConversion {
  import opened JavaInt

  /** A Bukkit enum constant, identified by its name (`toString` of an enum
      constant is its name, and no two constants of an enum share one). */
  datatype EnumConstant = EnumConstant(name: string)

  type Statistic = EnumConstant
  type Material = EnumConstant
  type EntityType = EnumConstant

  /** Every entry of `m` under its key's name. */
  function Renamed(m: map<EnumConstant, Int32>): (r: map<string, Int32>)
    ensures r.Keys == set k | k in m :: k.name
  {
    map k | k in m :: k.name := m[k]
  }

  /** Every inner entry of `m` under the names of its two keys; a statistic
      whose inner map is empty leaves no trace, because the converter only
      creates a statistic's map when it puts an entry into it. */
  function NestedRenamed(m: map<Statistic, map<EnumConstant, Int32>>): map<string, map<string, Int32>> {
    map k | k in m && m[k] != map[] :: k.name := Renamed(m[k])
  }

  /** Renaming keeps every count, and invents no key. */
  lemma RenamedValues(m: map<EnumConstant, Int32>, name: string)
    ensures name in Renamed(m) <==> EnumConstant(name) in m
    ensures name in Renamed(m) ==> Renamed(m)[name] == m[EnumConstant(name)]
  {
    if EnumConstant(name) in m {
      assert EnumConstant(name).name == name;
    }
  }

  /** Every non-empty inner map is renamed under its statistic's name; no
      other statistic appears. */
  lemma NestedRenamedValues(m: map<Statistic, map<EnumConstant, Int32>>, stat: string)
    ensures stat in NestedRenamed(m) <==> EnumConstant(stat) in m && m[EnumConstant(stat)] != map[]
    ensures stat in NestedRenamed(m) ==> NestedRenamed(m)[stat] == Renamed(m[EnumConstant(stat)])
  {
    if EnumConstant(stat) in m && m[EnumConstant(stat)] != map[] {
      assert EnumConstant(stat).name == stat;
    }
  }

  lemma RenamedInsert(m: map<EnumConstant, Int32>, k: EnumConstant, v: Int32)
    requires k !in m
    ensures Renamed(m[k := v]) == Renamed(m)[k.name := v]
  {
    var lhs, rhs := Renamed(m[k := v]), Renamed(m)[k.name := v];
    assert lhs.Keys == rhs.Keys;
    forall s | s in lhs
      ensures lhs[s] == rhs[s]
    {
      var x :| x in m[k := v] && x.name == s;
    }
  }

  /** One `put` of the untyped loop moves one key from pending to done. */
  lemma RenamedStep(m: map<EnumConstant, Int32>, pending: set<EnumConstant>, k: EnumConstant)
    requires k in pending && pending <= m.Keys
    ensures Renamed(m - (pending - {k})) == Renamed(m - pending)[k.name := m[k]]
  {
    assert (m - pending)[k := m[k]] == m - (pending - {k});
    RenamedInsert(m - pending, k, m[k]);
  }

  /** The legacy converter's loop for untyped statistics: one `put` per raw
      entry, under the statistic's name. */
  method ConvertStatisticMap(raw: map<Statistic, Int32>) returns (converted: map<string, Int32>)
    ensures converted == Renamed(raw)
  {
    converted := map[];
    var pending := raw.Keys;
    while pending != {}
      invariant pending <= raw.Keys
      invariant converted == Renamed(raw - pending)
      decreases pending
    {
      var k :| k in pending;
      RenamedStep(raw, pending, k);
      converted := converted[k.name := raw[k]];
      pending := pending - {k};
    }
    assert raw - {} == raw;
  }

  /** A statistic with no entries yet adds nothing. */
  lemma NestedRenamedEmpty(m: map<Statistic, map<EnumConstant, Int32>>, k: Statistic)
    requires k !in m
    ensures NestedRenamed(m[k := map[]]) == NestedRenamed(m)
  {
    var lhs, rhs := NestedRenamed(m[k := map[]]), NestedRenamed(m);
    assert forall s :: s in lhs <==> s in rhs by {
      forall s: string
        ensures s in lhs <==> s in rhs
      {
        NestedRenamedValues(m[k := map[]], s);
        NestedRenamedValues(m, s);
      }
    }
    assert forall s :: s in lhs ==> lhs[s] == rhs[s] by {
      forall s | s in lhs
        ensures lhs[s] == rhs[s]
      {
        NestedRenamedValues(m[k := map[]], s);
        NestedRenamedValues(m, s);
      }
    }
    MapsAgree(lhs, rhs);
  }

  /** Two maps with the same keys and the same value at each key are equal. */
  lemma MapsAgree<K, V>(a: map<K, V>, b: map<K, V>)
    requires forall x :: x in a <==> x in b
    requires forall x :: x in a ==> a[x] == b[x]
    ensures a == b
  {
  }

  /** The map the converter finds (or creates) for statistic `stat`. */
  function InnerOf(converted: map<string, map<string, Int32>>, stat: string): map<string, Int32> {
    if stat in converted then converted[stat] else map[]
  }

  /** One inner `put`, after `computeIfAbsent` supplied the statistic's map. */
  lemma NestedRenamedAdd(m: map<Statistic, map<EnumConstant, Int32>>, k: Statistic,
                         f: map<EnumConstant, Int32>, j: EnumConstant, v: Int32)
    requires k !in m && j !in f
    ensures var before := NestedRenamed(m[k := f]);
            NestedRenamed(m[k := f[j := v]]) == before[k.name := InnerOf(before, k.name)[j.name := v]]
  {
    var before := NestedRenamed(m[k := f]);
    var lhs := NestedRenamed(m[k := f[j := v]]);
    var rhs := before[k.name := InnerOf(before, k.name)[j.name := v]];
    assert forall s :: s in lhs <==> s in rhs by {
      forall s: string
        ensures s in lhs <==> s in rhs
      {
        NestedRenamedAddAt(m, k, f, j, v, s);
      }
    }
    assert forall s :: s in lhs ==> lhs[s] == rhs[s] by {
      forall s | s in lhs
        ensures lhs[s] == rhs[s]
      {
        NestedRenamedAddAt(m, k, f, j, v, s);
      }
    }
    MapsAgree(lhs, rhs);
  }

  /** `NestedRenamedAdd` at one statistic name. */
  lemma NestedRenamedAddAt(m: map<Statistic, map<EnumConstant, Int32>>, k: Statistic,
                           f: map<EnumConstant, Int32>, j: EnumConstant, v: Int32, s: string)
    requires k !in m && j !in f
    ensures var before := NestedRenamed(m[k := f]);
            var after := before[k.name := InnerOf(before, k.name)[j.name := v]];
            (s in NestedRenamed(m[k := f[j := v]]) <==> s in after) &&
            (s in after ==> NestedRenamed(m[k := f[j := v]])[s] == after[s])
  {
    var before := NestedRenamed(m[k := f]);
    NestedRenamedValues(m[k := f[j := v]], s);
    NestedRenamedValues(m[k := f], s);
    if s == k.name {
      NestedRenamedValues(m[k := f], k.name);
      assert InnerOf(before, k.name) == Renamed(f) by {
        if f == map[] {
          assert Renamed(f).Keys == {};
        }
      }
      RenamedInsert(f, j, v);
      assert f[j := v] != map[] by { assert j in f[j := v]; }
    }
  }

  /** One inner `put` of the typed loop moves one entry from to-do to done. */
  lemma NestedRenamedStep(done: map<Statistic, map<EnumConstant, Int32>>, k: Statistic,
                          entries: map<EnumConstant, Int32>, remaining: set<EnumConstant>, j: EnumConstant)
    requires k !in done && j in remaining && remaining <= entries.Keys
    ensures var before := NestedRenamed(done[k := entries - remaining]);
            NestedRenamed(done[k := entries - (remaining - {j})])
              == before[k.name := InnerOf(before, k.name)[j.name := entries[j]]]
  {
    assert (entries - remaining)[j := entries[j]] == entries - (remaining - {j});
    NestedRenamedAdd(done, k, entries - remaining, j, entries[j]);
  }

  /** Before the inner loop of statistic `k`, nothing of it is converted. */
  lemma NestedStatisticStart(raw: map<Statistic, map<EnumConstant, Int32>>, pending: set<Statistic>, k: Statistic)
    requires k in pending && pending <= raw.Keys
    ensures NestedRenamed((raw - pending)[k := raw[k] - raw[k].Keys]) == NestedRenamed(raw - pending)
  {
    assert raw[k] - raw[k].Keys == map[];
    NestedRenamedEmpty(raw - pending, k);
  }

  /** After the inner loop of statistic `k`, all of it is converted. */
  lemma NestedStatisticEnd(raw: map<Statistic, map<EnumConstant, Int32>>, pending: set<Statistic>, k: Statistic)
    requires k in pending && pending <= raw.Keys
    ensures NestedRenamed((raw - pending)[k := raw[k] - {}]) == NestedRenamed(raw - (pending - {k}))
  {
    assert raw[k] - {} == raw[k];
    assert (raw - pending)[k := raw[k]] == raw - (pending - {k});
  }

  /** The legacy converter's loops for material and entity statistics: for
      every inner entry, `computeIfAbsent` on the statistic's name, then a
      `put` under the material's or entity type's name. */
  method ConvertNestedStatisticMap(raw: map<Statistic, map<EnumConstant, Int32>>)
    returns (converted: map<string, map<string, Int32>>)
    ensures converted == NestedRenamed(raw)
  {
    converted := map[];
    var pending := raw.Keys;
    while pending != {}
      invariant pending <= raw.Keys
      invariant converted == NestedRenamed(raw - pending)
      decreases pending
    {
      var k :| k in pending;
      var entries := raw[k];
      var done := raw - pending;
      var remaining := entries.Keys;
      NestedStatisticStart(raw, pending, k);
      while remaining != {}
        invariant remaining <= entries.Keys
        invariant converted == NestedRenamed(done[k := entries - remaining])
        decreases remaining
      {
        var j :| j in remaining;
        NestedRenamedStep(done, k, entries, remaining, j);
        converted := converted[k.name := InnerOf(converted, k.name)[j.name := entries[j]]];
        remaining := remaining - {j};
      }
      NestedStatisticEnd(raw, pending, k);
      pending := pending - {k};
    }
    assert raw - {} == raw;
  }
}
