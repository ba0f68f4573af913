/** The handlers as they run, over the two hash tables. */
module Registry {
  import opened Text
  import opened RegistrySpec
  import opened HashTable
  import BitField
  import RegistryRuns

  /** A sensorgroup: the first `sensorCount` places of its list of ids are used. */
  class GroupRecord {
    const rate: nat
    var sensorList: seq<bytes>
    var sensorCount: nat

    ghost predicate Valid()
      reads this
    {
      sensorCount <= |sensorList|
    }

    ghost function Listed(): (ids: seq<bytes>)
      requires Valid()
      reads this
    {
      sensorList[..sensorCount]
    }

    constructor (rate: nat, sensorList: seq<bytes>)
      ensures Valid() && this.rate == rate && Listed() == sensorList
    {
      this.rate, this.sensorList, sensorCount := rate, sensorList, |sensorList|;
    }

    /** The part of delete_sensors_configuration that takes an id out of one list: the later ids move one place down. */
    method Purge(id: bytes)
      requires Valid()
      modifies this
      ensures Valid() && Listed() == Without(old(Listed()), id)
    {
      ghost var list := Listed();
      var j := 0;
      while j < sensorCount && sensorList[j] != id
        invariant 0 <= j <= sensorCount && forall k :: 0 <= k < j ==> list[k] != id
        modifies {}
      {
        j := j + 1;
      }
      WithoutAt(list, id, j);
      if j != sensorCount {
        for k := j to sensorCount - 1
          invariant sensorCount == |list| <= |sensorList|
          invariant forall m :: 0 <= m < k ==> sensorList[m] == list[if m < j then m else m + 1]
          invariant forall m :: k < m < |list| ==> sensorList[m] == list[m]
        {
          sensorList := sensorList[k := sensorList[k + 1]];
        }
        sensorCount := sensorCount - 1;
        assert Listed() == list[..j] + list[j + 1..];
      }
    }
  }

  lemma {:induction false} WithoutAt(list: seq<bytes>, id: bytes, j: nat)
    requires j <= |list| && (forall k :: 0 <= k < j ==> list[k] != id) && (j < |list| ==> list[j] == id)
    ensures Without(list, id) == if j < |list| then list[..j] + list[j + 1..] else list
  {
    if j > 0 {
      WithoutAt(list[1..], id, j - 1);
      if j < |list| {
        assert [list[0]] + (list[1..][..j - 1] + list[1..][j..]) == list[..j] + list[j + 1..];
      } else {
        assert [list[0]] + list[1..] == list;
      }
    }
  }

  // ---------- Parts the handlers share

  /** The loop over the three settings. */
  method CheckSettings(settings: seq<Option<Setting>>, unset: int) returns (fields: Option<Fields>)
    ensures fields == SettingsOf(settings, unset)
  {
    var f := Fields(unset, unset, unset);
    if |settings| != 3 {
      return None;
    }
    for i := 0 to |settings|
      invariant ReadSettings(settings, i, f) == SettingsOf(settings, unset)
    {
      match settings[i] {
        case None => return None;
        case Some(setting) =>
          if setting.key == CAN_ID {
            f := f.(canId := setting.value);
          } else if setting.key == INIT_BIT {
            f := f.(initBit := setting.value);
          } else if setting.key == END_BIT {
            f := f.(endBit := setting.value);
          } else {
            return None;
          }
      }
    }
    return Some(f);
  }

  /** The last of the ids, or the one found before them. */
  function LastOf(last: Option<bytes>, ids: seq<bytes>): Option<bytes> {
    if ids == [] then last else Some(ids[|ids| - 1])
  }

  /** The loop over the queries of a delete request: entries are deleted until one is not there. */
  method DeleteQueried<V>(table: HashTable<V>, queries: seq<Query>) returns (all: bool, last: Option<bytes>)
    requires table.Valid()
    modifies table, table.buckets, table.nodes
    ensures table.Valid() && table.nodes == old(table.nodes)
    ensures DeleteEach(old(table.contents), Ids(queries)) == (table.contents, all)
    ensures all ==> last == LastOf(None, Ids(queries))
  {
    ghost var ids, goal := Ids(queries), DeleteEach(table.contents, Ids(queries));
    last := None;
    assert queries[0..] == queries;
    for i := 0 to |queries|
      invariant table.Valid() && table.nodes == old(table.nodes) && ids == Ids(queries[i..])
      invariant DeleteEach(table.contents, ids) == goal && LastOf(last, ids) == LastOf(None, Ids(queries))
    {
      IdsFrom(queries, i);
      if queries[i].name == ID_KEY {
        var id := queries[i].value;
        DeleteFirst(table.contents, id, last, Ids(queries[i + 1..]));
        last := Some(id);
        var deleted := table.Delete(id);
        if deleted.None? {
          return false, last;
        }
      }
      ids := Ids(queries[i + 1..]);
    }
    return true, last;
  }

  lemma IdsFrom(queries: seq<Query>, i: nat)
    requires i < |queries|
    ensures var rest := Ids(queries[i + 1..]);
            Ids(queries[i..]) == if queries[i].name == ID_KEY then [queries[i].value] + rest else rest
  {
    assert queries[i..][1..] == queries[i + 1..];
  }

  lemma DeleteFirst<V>(table: map<bytes, V>, id: bytes, last: Option<bytes>, rest: seq<bytes>)
    ensures DeleteEach(table, [id] + rest) == if id in table then DeleteEach(table - {id}, rest) else (table, false)
    ensures LastOf(last, [id] + rest) == LastOf(Some(id), rest)
  {
    assert ([id] + rest)[1..] == rest;
  }

  /** The groups with the id taken out of the lists of some of them. */
  function PurgedSome(groups: map<bytes, Group>, done: set<bytes>, id: bytes): map<bytes, Group> {
    map g | g in groups :: if g in done then groups[g].(sensors := Without(groups[g].sensors, id)) else groups[g]
  }

  lemma PurgedNone(groups: map<bytes, Group>, id: bytes)
    ensures PurgedSome(groups, {}, id) == groups
  {
  }

  lemma PurgedOneMore(groups: map<bytes, Group>, done: set<bytes>, id: bytes, g: bytes)
    requires g in groups && g !in done
    ensures var before := PurgedSome(groups, done, id);
            PurgedSome(groups, done + {g}, id) == before[g := before[g].(sensors := Without(before[g].sensors, id))]
  {
  }

  /** The shifts that cut the sensor's field out of a frame of this length are defined. */
  predicate Readable(sensor: Sensor, dlc: nat) {
    BitField.Defined(dlc, sensor.initBit, sensor.endBit)
  }

  /** The sensor's field of the payload, cast to its type. */
  function Reading(data: bytes, dlc: nat, cast: (nat, bytes) -> bytes): Sensor -> bytes {
    (sensor: Sensor) =>
      if dlc <= |data| then cast(BitField.Field(data, dlc, sensor.initBit, sensor.endBit), sensor.ty) else []
  }

  /** Some of the sensors measured. */
  ghost function MeasuredSome(sensors: map<bytes, Sensor>, done: set<bytes>, canId: nat, reading: Sensor -> bytes,
                              timestamp: int): map<bytes, Sensor> {
    map k | k in sensors :: if k in done then MeasuredSensor(sensors[k], canId, reading, timestamp) else sensors[k]
  }

  lemma MeasuredNone(sensors: map<bytes, Sensor>, canId: nat, reading: Sensor -> bytes, timestamp: int)
    ensures MeasuredSome(sensors, {}, canId, reading, timestamp) == sensors
  {
  }

  lemma MeasuredOneMore(sensors: map<bytes, Sensor>, done: set<bytes>, canId: nat, reading: Sensor -> bytes,
                        timestamp: int, k: bytes)
    requires k !in done
    ensures var before := MeasuredSome(sensors, done, canId, reading, timestamp);
            MeasuredSome(sensors, done + {k}, canId, reading, timestamp)
            == if k in before then before[k := MeasuredSensor(before[k], canId, reading, timestamp)] else before
  {
  }

  lemma SweepMeasuresAll<V>(order: seq<ListNode<V>>, sensors: map<bytes, Sensor>, canId: nat, reading: Sensor -> bytes,
                            timestamp: int)
    requires forall k :: k in sensors ==> HasKey(order, k)
    ensures MeasuredSome(sensors, KeysUpTo(order, |order|), canId, reading, timestamp)
         == Measured(sensors, canId, reading, timestamp)
  {
    forall k | k in sensors ensures k in KeysUpTo(order, |order|) {
      assert HasKey(order, k);
    }
  }

  /** Which entries go depends on the keys alone. */
  lemma {:induction false} SameKeysDeleted<V, W>(a: map<bytes, V>, b: map<bytes, W>, ids: seq<bytes>)
    requires a.Keys == b.Keys
    ensures DeleteEach(a, ids).0.Keys == DeleteEach(b, ids).0.Keys && DeleteEach(a, ids).1 == DeleteEach(b, ids).1
    ensures forall k :: k in DeleteEach(b, ids).0 ==> k in b && DeleteEach(b, ids).0[k] == b[k]
    ensures forall k :: k in DeleteEach(a, ids).0 ==> k in a && DeleteEach(a, ids).0[k] == a[k]
    decreases |ids|
  {
    if ids != [] && ids[0] in a {
      SameKeysDeleted(a - {ids[0]}, b - {ids[0]}, ids[1..]);
    }
  }

  ghost function KeysUpTo<V>(order: seq<ListNode<V>>, k: nat): set<bytes>
    requires k <= |order|
  {
    set a | 0 <= a < k :: order[a].key
  }

  lemma SweepPurgesAll<V>(order: seq<ListNode<V>>, groups: map<bytes, Group>, id: bytes)
    requires forall g :: g in groups ==> HasKey(order, g)
    ensures PurgedSome(groups, KeysUpTo(order, |order|), id) == Purged(groups, id)
  {
    forall g | g in groups ensures g in KeysUpTo(order, |order|) {
      assert HasKey(order, g);
    }
  }

  /** The record stored under `g` is the model's group, and `records` says that it is its own. */
  ghost predicate RecordMatches(r: GroupRecord, g: bytes, group: Group, records: map<GroupRecord, bytes>)
    reads r
  {
    r in records && records[r] == g && r.Valid() && r.rate == group.rate && r.Listed() == group.sensors
  }

  /** The stored groups are the model's, each with a record of its own. */
  ghost predicate Match(contents: map<bytes, GroupRecord>, groups: map<bytes, Group>, records: map<GroupRecord, bytes>)
    reads records.Keys
  {
    && contents.Keys == groups.Keys
    && forall g {:trigger RecordMatches(contents[g], g, groups[g], records)} :: g in contents ==>
         contents[g] in records && RecordMatches(contents[g], g, groups[g], records)
  }

  lemma MatchAdds(contents: map<bytes, GroupRecord>, groups: map<bytes, Group>, records: map<GroupRecord, bytes>,
                  g: bytes, r: GroupRecord)
    requires Match(contents, groups, records) && g !in groups && r !in records && r.Valid()
    ensures Match(contents[g := r], groups[g := Group(r.rate, r.Listed())], records[r := g])
  {
    forall h | h in contents ensures RecordMatches(contents[h], h, groups[h], records[r := g]) {
      assert RecordMatches(contents[h], h, groups[h], records);
    }
  }

  lemma MatchShrinks(contents: map<bytes, GroupRecord>, groups: map<bytes, Group>, records: map<GroupRecord, bytes>,
                     ids: seq<bytes>)
    requires Match(contents, groups, records)
    ensures Match(DeleteEach(contents, ids).0, DeleteEach(groups, ids).0, records)
    ensures DeleteEach(contents, ids).1 == DeleteEach(groups, ids).1
  {
    SameKeysDeleted(contents, groups, ids);
    forall h | h in DeleteEach(contents, ids).0
      ensures RecordMatches(DeleteEach(contents, ids).0[h], h, DeleteEach(groups, ids).0[h], records)
    {
      assert RecordMatches(contents[h], h, groups[h], records);
    }
  }

  // ---------- The tables

  class Registry {
    const sensors: HashTable<Sensor>
    const groups: HashTable<GroupRecord>
    var status: Status
    ghost var model: State
    ghost var records: map<GroupRecord, bytes>

    ghost predicate Valid()
      reads this, sensors, sensors.buckets, sensors.nodes, groups, groups.buckets, groups.nodes, records.Keys
    {
      && sensors.Valid() && groups.Valid()
      && model.sensors == sensors.contents && model.status == status && Match(groups.contents, model.groups, records)
    }

    /** Both tables are created with ten buckets. */
    constructor (status: Status)
      ensures Valid() && model == State(map[], map[], status)
    {
      sensors := new HashTable<Sensor>(TABLE_SIZE);
      groups := new HashTable<GroupRecord>(TABLE_SIZE);
      this.status := status;
      model, records := State(map[], map[], status), map[];
    }

    /** create_sensors_configuration */
    method CreateSensor(body: SensorBody) returns (ok: bool)
      requires Valid()
      modifies this`model, this`status, sensors, sensors.buckets, sensors.nodes
      ensures Valid() && Reply(model, ok) == SensorCreated(old(model), body)
      ensures fresh(sensors.nodes - old(sensors.nodes))
    {
      if body.IncompleteSensor? {
        return false;
      }
      var present := sensors.Get(body.id);
      if present.Some? {
        return false;
      }
      var fields := CheckSettings(body.settings, 0);
      if fields.None? {
        return false;
      }
      StoreSensor(NewSensor(body.id, body.name, body.ty, fields.value, body.rate));
      MarkConfigured();
      return true;
    }

    /** hts_put under the sensor's own id, which is not in the table. */
    method StoreSensor(sensor: Sensor)
      requires Valid() && sensor.id !in model.sensors
      modifies this`model, sensors, sensors.buckets, sensors.nodes
      ensures Valid() && model == old(model).(sensors := old(model).sensors[sensor.id := sensor])
      ensures fresh(sensors.nodes - old(sensors.nodes))
    {
      var freed := sensors.Put(sensor.id, sensor);
      assert freed == [];
      model := model.(sensors := model.sensors[sensor.id := sensor]);
    }

    method MarkConfigured()
      requires Valid()
      modifies this`model, this`status
      ensures Valid() && model == old(model).(status := Configure(old(model).status))
    {
      if status != Running {
        status := Configured;
      }
      model := model.(status := status);
    }

    /** The part of delete_sensors_configuration that goes through all groups. */
    method PurgeGroups(id: bytes)
      requires Valid()
      modifies this`model, records.Keys
      ensures Valid() && model == old(model).(groups := Purged(old(model).groups, id))
    {
      var order := groups.Sweep();
      ghost var first := model;
      PurgedNone(first.groups, id);
      SweepPurgesAll(order, first.groups, id);
      assert KeysUpTo(order, 0) == {};
      for k := 0 to |order|
        invariant Purging(order, k, first, id)
      {
        PurgeNode(order, k, first, id);
      }
    }

    /** The groups of the first `k` nodes of the sweep have been purged. */
    ghost predicate Purging(order: seq<ListNode<GroupRecord>>, k: nat, first: State, id: bytes)
      requires k <= |order|
      reads this, sensors, sensors.buckets, sensors.nodes, groups, groups.buckets, groups.nodes, records.Keys
    {
      && Valid() && (forall a :: 0 <= a < |order| ==> groups.Owns(order[a]))
      && (forall a, b :: 0 <= a < b < |order| ==> order[a].key != order[b].key)
      && model.groups.Keys == first.groups.Keys
      && model == first.(groups := PurgedSome(first.groups, KeysUpTo(order, k), id))
    }

    method PurgeNode(order: seq<ListNode<GroupRecord>>, k: nat, ghost first: State, id: bytes)
      requires k < |order| && Purging(order, k, first, id)
      modifies this`model, records.Keys
      ensures Purging(order, k + 1, first, id)
    {
      groups.OwnedIsHeld(order[k]);
      PurgedOneMore(first.groups, KeysUpTo(order, k), id, order[k].key);
      assert KeysUpTo(order, k + 1) == KeysUpTo(order, k) + {order[k].key};
      assert RecordMatches(order[k].value, order[k].key, model.groups[order[k].key], records);
      PurgeOne(order[k].value, id, order[k].key);
    }

    /** One round of the loop over the groups. */
    method PurgeOne(record: GroupRecord, id: bytes, ghost g: bytes)
      requires Valid() && g in groups.contents && record == groups.contents[g]
      modifies this`model, record
      ensures Valid()
      ensures model == old(model).(groups := old(model).groups[g := old(model).groups[g].(sensors :=
                         Without(old(model).groups[g].sensors, id))])
    {
      assert RecordMatches(record, g, model.groups[g], records);
      label Before:
      record.Purge(id);
      model := model.(groups := model.groups[g := model.groups[g].(sensors := Without(model.groups[g].sensors, id))]);
      forall h | h in groups.contents ensures RecordMatches(groups.contents[h], h, model.groups[h], records) {
        if h != g {
          assert old@Before(RecordMatches(groups.contents[h], h, model.groups[h], records));
        }
      }
    }

    /** The sensors table has lost keys or changed values, and nothing else has changed. */
    ghost method SensorsChanged()
      requires sensors.Valid() && groups.Valid()
      requires model.status == status && Match(groups.contents, model.groups, records)
      modifies this`model
      ensures Valid() && model == old(model).(sensors := sensors.contents)
    {
      model := model.(sensors := sensors.contents);
    }

    /** delete_sensors_configuration */
    method DeleteSensors(queries: seq<Query>) returns (ok: bool)
      requires Valid()
      modifies this`model, sensors, sensors.buckets, sensors.nodes, records.Keys
      ensures Valid() && Reply(model, ok) == SensorsDeleted(old(model), queries)
      ensures sensors.nodes == old(sensors.nodes)
    {
      var all, last := DropQueried(queries);
      if !all || last.None? {
        return false;
      }
      PurgeGroups(last.value);
      return true;
    }

    method DropQueried(queries: seq<Query>) returns (all: bool, last: Option<bytes>)
      requires Valid()
      modifies this`model, sensors, sensors.buckets, sensors.nodes
      ensures Valid() && sensors.nodes == old(sensors.nodes)
      ensures model == old(model).(sensors := DeleteEach(old(model).sensors, Ids(queries)).0)
      ensures all == DeleteEach(old(model).sensors, Ids(queries)).1
      ensures all ==> last == LastOf(None, Ids(queries))
    {
      all, last := DeleteQueried(sensors, queries);
      SensorsChanged();
    }

    /** update_sensors_configuration */
    method UpdateSensors(queries: seq<Query>, body: SensorBody) returns (ok: bool)
      requires Valid()
      modifies this`model, this`status, sensors, sensors.buckets, sensors.nodes, records.Keys
      ensures Valid() && Reply(model, ok) == SensorsUpdated(old(model), queries, body)
      ensures fresh(sensors.nodes - old(sensors.nodes))
    {
      ok := DeleteSensors(queries);
      if ok {
        ok := CreateSensor(body);
      }
    }

    /** hts_delete of one id that may not be there. */
    method DropSensor(id: bytes)
      requires Valid()
      modifies this`model, sensors, sensors.buckets, sensors.nodes
      ensures Valid() && model == old(model).(sensors := old(model).sensors - {id})
      ensures sensors.nodes == old(sensors.nodes)
    {
      var _ := sensors.Delete(id);
      SensorsChanged();
    }

    /** One item of a group request, with the ids listed before it. */
    method AddItem(item: Item, list: seq<bytes>) returns (ok: bool)
      requires Valid()
      modifies this`model, sensors, sensors.buckets, sensors.nodes
      ensures Valid() && fresh(sensors.nodes - old(sensors.nodes))
      ensures var added := ItemAdded(old(model).sensors, item, list);
              ok == added.ok && model == old(model).(sensors := added.sensors)
    {
      match item {
        case Full(_, _, _, _, _) => ok := AddFull(item, list);
        case OnlyId(id) =>
          var present := sensors.Get(id);
          ok := present.Some?;
        case Mixed => ok := false;
      }
    }

    /** The branch for a whole configuration. */
    method AddFull(item: Item, listed: seq<bytes>) returns (ok: bool)
      requires Valid() && item.Full?
      modifies this`model, sensors, sensors.buckets, sensors.nodes
      ensures Valid() && fresh(sensors.nodes - old(sensors.nodes))
      ensures var added := ItemAdded(old(model).sensors, item, listed);
              ok == added.ok && model == old(model).(sensors := added.sensors)
    {
      DropSensor(item.id);
      var fields := CheckSettings(item.settings, -1);
      if fields.None? {
        return false;
      }
      var f := fields.value;
      if f.canId == -1 || f.initBit == -1 || f.endBit == -1 {
        DropListed(listed);
        return false;
      }
      StoreSensor(NewSensor(item.id, item.name, item.ty, f, item.rate));
      return true;
    }

    /** The loop that deletes what has been listed so far. */
    method DropListed(listed: seq<bytes>)
      requires Valid()
      modifies this`model, sensors, sensors.buckets, sensors.nodes
      ensures Valid() && sensors.nodes == old(sensors.nodes)
      ensures model == old(model).(sensors := old(model).sensors - ToSet(listed))
    {
      ghost var first := model;
      assert first.sensors - ToSet(listed[..0]) == first.sensors;
      for j := 0 to |listed|
        invariant Valid() && sensors.nodes == old(sensors.nodes)
        invariant model == first.(sensors := first.sensors - ToSet(listed[..j]))
      {
        DropSensor(listed[j]);
        assert ToSet(listed[..j + 1]) == ToSet(listed[..j]) + {listed[j]};
        assert first.sensors - ToSet(listed[..j]) - {listed[j]} == first.sensors - ToSet(listed[..j + 1]);
      }
      assert listed[..|listed|] == listed;
    }

    /** create_sensorgroups_subscription */
    method CreateGroup(body: GroupBody) returns (ok: bool)
      requires Valid()
      modifies this, sensors, sensors.buckets, sensors.nodes, groups, groups.buckets, groups.nodes
      ensures Valid() && Reply(model, ok) == GroupCreated(old(model), body)
      ensures fresh(sensors.nodes - old(sensors.nodes)) && fresh(groups.nodes - old(groups.nodes))
      ensures fresh(records.Keys - old(records.Keys))
    {
      if body.IncompleteGroup? {
        return false;
      }
      var present := groups.Get(body.id);
      if present.Some? {
        return false;
      }
      ok := BuildGroup(body.id, body.rate, body.items);
    }

    /** create_sensorgroups_subscription for an id that is not taken. */
    method BuildGroup(id: bytes, rate: int, items: seq<Item>) returns (ok: bool)
      requires Valid() && id !in model.groups
      modifies this, sensors, sensors.buckets, sensors.nodes, groups, groups.buckets, groups.nodes
      ensures Valid() && Reply(model, ok) == GroupCreated(old(model), GroupBody(id, rate, items))
      ensures fresh(sensors.nodes - old(sensors.nodes)) && fresh(groups.nodes - old(groups.nodes))
      ensures fresh(records.Keys - old(records.Keys))
    {
      var list;
      ok, list := AddItems(items);
      if ok {
        var record := new GroupRecord(Unsigned(rate), list);
        StoreGroup(id, record);
        MarkConfigured();
      }
    }

    /** The loop over the items of a group request. */
    method AddItems(items: seq<Item>) returns (ok: bool, list: seq<bytes>)
      requires Valid()
      modifies this`model, sensors, sensors.buckets, sensors.nodes
      ensures Valid() && fresh(sensors.nodes - old(sensors.nodes)) && unchanged(groups)
      ensures var added := ItemsAdded(old(model).sensors, items, 0);
              ok == added.ok && model == old(model).(sensors := added.sensors)
      ensures ok ==> list == ItemIds(items, |items|)
    {
      ghost var first, goal := model, ItemsAdded(model.sensors, items, 0);
      list := [];
      for i := 0 to |items|
        invariant Valid() && fresh(sensors.nodes - old(sensors.nodes)) && unchanged(groups)
        invariant model == first.(sensors := model.sensors)
        invariant ItemsAdded(model.sensors, items, i) == goal && list == ItemIds(items, i)
      {
        ok := AddItem(items[i], list);
        if !ok {
          return false, list;
        }
        list := list + [ItemId(items[i])];
      }
      return true, list;
    }

    /** htsg_put, for an id the table does not hold. */
    method StoreGroup(id: bytes, record: GroupRecord)
      requires Valid() && id !in model.groups && record.Valid()
      requires record !in records
      modifies this`model, this`records, groups, groups.buckets, groups.nodes
      ensures Valid() && fresh(groups.nodes - old(groups.nodes)) && unchanged(sensors)
      ensures model == old(model).(groups := old(model).groups[id := Group(record.rate, record.Listed())])
      ensures records == old(records)[record := id]
    {
      ghost var group := Group(record.rate, record.Listed());
      MatchAdds(groups.contents, model.groups, records, id, record);
      var freed := groups.Put(id, record);
      assert freed == [];
      records := records[record := id];
      model := model.(groups := model.groups[id := group]);
    }

    /** delete_sensorgroups_subscription */
    method DeleteGroups(queries: seq<Query>) returns (ok: bool)
      requires Valid()
      modifies this`model, groups, groups.buckets, groups.nodes
      ensures Valid() && Reply(model, ok) == GroupsDeleted(old(model), queries)
      ensures groups.nodes == old(groups.nodes) && unchanged(sensors)
    {
      MatchShrinks(groups.contents, model.groups, records, Ids(queries));
      var all, last := DeleteQueried(groups, queries);
      model := model.(groups := DeleteEach(model.groups, Ids(queries)).0);
      return all && last.Some?;
    }

    /** update_sensorgroups_subscription */
    method UpdateGroups(queries: seq<Query>, body: GroupBody) returns (ok: bool)
      requires Valid()
      modifies this, sensors, sensors.buckets, sensors.nodes, groups, groups.buckets, groups.nodes
      ensures Valid() && Reply(model, ok) == GroupsUpdated(old(model), queries, body)
      ensures fresh(sensors.nodes - old(sensors.nodes)) && fresh(groups.nodes - old(groups.nodes))
      ensures fresh(records.Keys - old(records.Keys))
    {
      ghost var s0, g0, r0 := sensors.nodes, groups.nodes, records.Keys;
      ok := DeleteGroups(queries);
      if ok {
        label Deleted:
        ok := CreateGroup(body);
        assert fresh@Deleted(sensors.nodes - s0) && fresh@Deleted(groups.nodes - g0);
        assert fresh@Deleted(records.Keys - r0);
      }
    }

    // ---------- Requests

    method HandleSensors(request: Request) returns (ok: bool)
      requires Valid() && (request.CreateSensor? || request.UpdateSensors? || request.DeleteSensors?)
      modifies this`model, this`status, sensors, sensors.buckets, sensors.nodes, records.Keys
      ensures Valid() && Reply(model, ok) == Step(old(model), request)
      ensures fresh(sensors.nodes - old(sensors.nodes))
    {
      match request {
        case CreateSensor(body) => ok := CreateSensor(body);
        case UpdateSensors(queries, body) => ok := UpdateSensors(queries, body);
        case DeleteSensors(queries) => ok := DeleteSensors(queries);
      }
    }

    method HandleGroups(request: Request) returns (ok: bool)
      requires Valid() && (request.CreateGroup? || request.UpdateGroups? || request.DeleteGroups?)
      modifies this, sensors, sensors.buckets, sensors.nodes, groups, groups.buckets, groups.nodes
      ensures Valid() && Reply(model, ok) == Step(old(model), request)
      ensures fresh(sensors.nodes - old(sensors.nodes)) && fresh(groups.nodes - old(groups.nodes))
      ensures fresh(records.Keys - old(records.Keys))
    {
      match request {
        case CreateGroup(body) => ok := CreateGroup(body);
        case UpdateGroups(queries, body) => ok := UpdateGroups(queries, body);
        case DeleteGroups(queries) => ok := DeleteGroups(queries);
      }
    }

    /** Requests served one after another act on the tables as the run of the state machine says. */
    method Serve(requests: seq<Request>)
      requires Valid()
      modifies this, sensors, sensors.buckets, sensors.nodes, groups, groups.buckets, groups.nodes, records.Keys
      ensures Valid() && model == Run(old(model), requests)
    {
      for i := 0 to |requests|
        invariant Valid() && Run(model, requests[i..]) == Run(old(model), requests)
        invariant fresh(sensors.nodes - old(sensors.nodes)) && fresh(groups.nodes - old(groups.nodes))
        invariant fresh(records.Keys - old(records.Keys))
      {
        var request := requests[i];
        if request.CreateSensor? || request.UpdateSensors? || request.DeleteSensors? {
          var _ := HandleSensors(request);
        } else {
          var _ := HandleGroups(request);
        }
        assert requests[i..][1..] == requests[i + 1..];
      }
    }

    // ---------- Readers

    /** The loops of read_sensorgroups_subscription and create_data_payload over a group's list: where listed ids are
        stored, no lookup comes back empty. */
    method ReadGroup(record: GroupRecord, ghost g: bytes) returns (found: seq<Sensor>)
      requires Valid() && RegistryRuns.Closed(model) && g in groups.contents && record == groups.contents[g]
      ensures var ids := model.groups[g].sensors;
              && |found| == |ids|
              && forall i :: 0 <= i < |ids| ==> ids[i] in model.sensors && found[i] == model.sensors[ids[i]]
    {
      assert RecordMatches(record, g, model.groups[g], records);
      ghost var ids := model.groups[g].sensors;
      found := [];
      for i := 0 to record.sensorCount
        invariant |found| == i
        invariant forall j :: 0 <= j < i ==> ids[j] in model.sensors && found[j] == model.sensors[ids[j]]
      {
        assert record.sensorList[i] == ids[i] && ids[i] in model.sensors;
        var sensor := sensors.Get(record.sensorList[i]);
        found := found + [sensor.value];
      }
    }

    // ---------- Frames

    /** parse_can_frame: every sensor with the frame's id gets its reading, and no other sensor changes. */
    method ParseFrame(canId: nat, data: bytes, dlc: nat, cast: (nat, bytes) -> bytes, timestamp: int)
      requires Valid() && dlc <= 8 && dlc <= |data|
      requires forall k :: k in model.sensors && model.sensors[k].canId == canId ==> Readable(model.sensors[k], dlc)
      modifies this`model, sensors, sensors.nodes
      ensures Valid() && sensors.nodes == old(sensors.nodes)
      ensures model == old(model).(sensors := Measured(old(model).sensors, canId, Reading(data, dlc, cast), timestamp))
    {
      var order := sensors.Sweep();
      ghost var first := model;
      MeasuredNone(first.sensors, canId, Reading(data, dlc, cast), timestamp);
      SweepMeasuresAll(order, first.sensors, canId, Reading(data, dlc, cast), timestamp);
      assert KeysUpTo(order, 0) == {};
      for k := 0 to |order|
        invariant Measuring(order, k, first, canId, Reading(data, dlc, cast), timestamp)
        invariant sensors.nodes == old(sensors.nodes)
      {
        MeasureNode(order, k, first, canId, data, dlc, cast, timestamp);
      }
    }

    ghost predicate Measuring(order: seq<ListNode<Sensor>>, k: nat, first: State, canId: nat, reading: Sensor -> bytes,
                              timestamp: int)
      requires k <= |order|
      reads this, sensors, sensors.buckets, sensors.nodes, groups, groups.buckets, groups.nodes, records.Keys
    {
      && Valid() && (forall a :: 0 <= a < |order| ==> sensors.Owns(order[a]) && order[a] in sensors.nodes)
      && (forall a, b :: 0 <= a < b < |order| ==> order[a].key != order[b].key)
      && model == first.(sensors := MeasuredSome(first.sensors, KeysUpTo(order, k), canId, reading, timestamp))
    }

    method MeasureNode(order: seq<ListNode<Sensor>>, k: nat, ghost first: State, canId: nat, data: bytes, dlc: nat,
                       cast: (nat, bytes) -> bytes, timestamp: int)
      requires k < |order| && Measuring(order, k, first, canId, Reading(data, dlc, cast), timestamp)
      requires dlc <= 8 && dlc <= |data|
      requires forall i :: i in first.sensors && first.sensors[i].canId == canId ==> Readable(first.sensors[i], dlc)
      modifies this`model, sensors, sensors.nodes
      ensures Measuring(order, k + 1, first, canId, Reading(data, dlc, cast), timestamp)
      ensures sensors.nodes == old(sensors.nodes)
    {
      ghost var reading := Reading(data, dlc, cast);
      var node := order[k];
      sensors.OwnedIsHeld(node);
      MeasuredOneMore(first.sensors, KeysUpTo(order, k), canId, reading, timestamp, node.key);
      assert KeysUpTo(order, k + 1) == KeysUpTo(order, k) + {node.key};
      if canId == node.value.canId {
        var sensor := Measure(node.value, data, dlc, cast, timestamp);
        Overwrite(node, sensor);
      }
    }

    static method Measure(sensor: Sensor, data: bytes, dlc: nat, cast: (nat, bytes) -> bytes, timestamp: int)
      returns (measured: Sensor)
      requires dlc <= 8 && dlc <= |data| && Readable(sensor, dlc)
      ensures measured == MeasuredSensor(sensor, sensor.canId, Reading(data, dlc, cast), timestamp)
    {
      var varValue := BitField.MaskCanFrame(data, dlc, sensor.initBit, sensor.endBit);
      measured := sensor.(value := cast(varValue, sensor.ty), timestamp := timestamp);
    }

    method Overwrite(node: ListNode<Sensor>, sensor: Sensor)
      requires Valid() && sensors.Owns(node) && node in sensors.nodes
      modifies this`model, sensors`contents, node`value
      ensures Valid() && model == old(model).(sensors := old(model).sensors[node.key := sensor])
      ensures sensors.nodes == old(sensors.nodes)
    {
      sensors.SetValue(node, sensor);
      SensorsChanged();
    }
  }
}
