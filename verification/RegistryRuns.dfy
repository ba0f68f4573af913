/** "Every id a group lists is a stored sensor": exactly which requests keep it, and runs that do. */
module RegistryRuns {
  import opened Text
  import opened RegistrySpec

  /** Every id a group lists is a key of the sensors. Readers dereference the sensor without a check. */
  ghost predicate Closed(s: State) {
    forall g, i :: g in s.groups && 0 <= i < |s.groups[g].sensors| ==> s.groups[g].sensors[i] in s.sensors
  }

  ghost predicate Unlisted(groups: map<bytes, Group>, id: bytes) {
    forall g :: g in groups ==> id !in groups[g].sensors
  }

  predicate AtMostOnce(list: seq<bytes>, id: bytes) {
    forall i, j :: 0 <= i < j < |list| ==> !(list[i] == id && list[j] == id)
  }

  ghost predicate ListedAtMostOnce(groups: map<bytes, Group>, id: bytes) {
    forall g :: g in groups ==> AtMostOnce(groups[g].sensors, id)
  }

  predicate NoRepeats(list: seq<bytes>) {
    forall i, j :: 0 <= i < j < |list| ==> list[i] != list[j]
  }

  // ---------- Deleting

  /** Every id is there, once. */
  predicate AllThere<V>(table: map<bytes, V>, ids: seq<bytes>) {
    NoRepeats(ids) && forall k :: 0 <= k < |ids| ==> ids[k] in table
  }

  /** The ids up to the `k`th are there, once each. */
  predicate Reached<V>(table: map<bytes, V>, ids: seq<bytes>, k: nat)
    requires k < |ids|
  {
    (forall j :: 0 <= j <= k ==> ids[j] in table) && forall i, j :: 0 <= i < j <= k ==> ids[i] != ids[j]
  }

  /** The ids before the first that is not there, or not any more. */
  function Deleted<V>(table: map<bytes, V>, ids: seq<bytes>): set<bytes> {
    set k | 0 <= k < |ids| && Reached(table, ids, k) :: ids[k]
  }

  lemma ReachedTail<V>(table: map<bytes, V>, ids: seq<bytes>, k: nat)
    requires 0 < k < |ids| && ids[0] in table
    ensures Reached(table, ids, k) <==> Reached(table - {ids[0]}, ids[1..], k - 1)
  {
    var rest := ids[1..];
    assert forall j :: 0 < j < |ids| ==> ids[j] == rest[j - 1];
    if Reached(table - {ids[0]}, rest, k - 1) {
      forall i, j | 0 <= i < j <= k ensures ids[i] != ids[j] {
        if i == 0 {
          assert rest[j - 1] in table - {ids[0]};
        } else {
          assert rest[i - 1] != rest[j - 1];
        }
      }
      forall j | 0 <= j <= k ensures ids[j] in table {
        if j > 0 {
          assert rest[j - 1] in table - {ids[0]};
        }
      }
    }
  }

  lemma DeletedTail<V>(table: map<bytes, V>, ids: seq<bytes>)
    requires ids != [] && ids[0] in table
    ensures Deleted(table, ids) == {ids[0]} + Deleted(table - {ids[0]}, ids[1..])
    ensures AllThere(table, ids) <==> AllThere(table - {ids[0]}, ids[1..])
  {
    var rest, left := ids[1..], table - {ids[0]};
    assert Reached(table, ids, 0);
    forall k | 0 < k < |ids| ensures Reached(table, ids, k) <==> Reached(left, rest, k - 1) {
      ReachedTail(table, ids, k);
    }
    forall x | x in Deleted(left, rest) ensures x in Deleted(table, ids) {
      var k :| 0 <= k < |rest| && Reached(left, rest, k) && rest[k] == x;
      assert Reached(table, ids, k + 1) && ids[k + 1] == x;
    }
    AllIsReached(table, ids);
    if rest == [] {
    } else {
      AllIsReached(left, rest);
    }
  }

  lemma AllIsReached<V>(table: map<bytes, V>, ids: seq<bytes>)
    requires ids != []
    ensures AllThere(table, ids) <==> Reached(table, ids, |ids| - 1)
  {
  }

  lemma TakenOut<V>(table: map<bytes, V>, x: bytes, rest: set<bytes>)
    ensures table - {x} - rest == table - ({x} + rest)
  {
  }

  lemma AllThereIsDeleted<V>(table: map<bytes, V>, ids: seq<bytes>)
    requires AllThere(table, ids)
    ensures Deleted(table, ids) == ToSet(ids)
  {
    forall x | x in ids ensures x in Deleted(table, ids) {
      var k :| 0 <= k < |ids| && ids[k] == x;
      assert Reached(table, ids, k);
    }
  }

  /** The query loop deletes exactly those ids, and gets to the end exactly if every id is there, once. */
  lemma {:induction false} DeleteEachDeletes<V>(table: map<bytes, V>, ids: seq<bytes>)
    ensures DeleteEach(table, ids).0 == table - Deleted(table, ids) && Deleted(table, ids) <= table.Keys
    ensures DeleteEach(table, ids).1 <==> AllThere(table, ids)
    ensures AllThere(table, ids) ==> Deleted(table, ids) == ToSet(ids)
    decreases |ids|
  {
    if ids == [] {
      assert Deleted(table, ids) == {};
    } else if ids[0] in table {
      DeleteEachDeletes(table - {ids[0]}, ids[1..]);
      DeletedTail(table, ids);
      TakenOut(table, ids[0], Deleted(table - {ids[0]}, ids[1..]));
    } else {
      assert Deleted(table, ids) == {};
    }
    if AllThere(table, ids) {
      AllThereIsDeleted(table, ids);
    }
  }

  lemma {:induction false} WithoutKeeps(list: seq<bytes>, id: bytes, x: bytes)
    ensures x in Without(list, id) ==> x in list
    ensures x != id ==> (x in Without(list, id) <==> x in list)
    ensures id !in Without(list, id) <==> AtMostOnce(list, id)
  {
    if list != [] {
      if list[0] == id {
        assert AtMostOnce(list, id) <==> id !in list[1..] by {
          if id in list[1..] {
            var k :| 0 <= k < |list[1..]| && list[1..][k] == id;
            assert list[0] == id && list[k + 1] == id;
          }
          assert forall k :: 0 < k < |list| ==> list[k] == list[1..][k - 1];
        }
      } else {
        WithoutKeeps(list[1..], id, x);
        assert forall k :: 0 < k < |list| ==> list[k] == list[1..][k - 1];
        if !AtMostOnce(list, id) {
          var i, j :| 0 <= i < j < |list| && list[i] == id && list[j] == id;
          assert list[1..][i - 1] == id && list[1..][j - 1] == id;
        }
        if !AtMostOnce(list[1..], id) {
          var i, j :| 0 <= i < j < |list[1..]| && list[1..][i] == id && list[1..][j] == id;
          assert list[i + 1] == id && list[j + 1] == id;
        }
      }
    }
  }

  /** A delete request leaves nothing dangling exactly if every id it deletes was listed nowhere, or is stored again
      (`back`), or is the one id the lists are purged of and stood at most once in each. */
  ghost predicate SafeDelete(s: State, queries: seq<Query>, back: set<bytes>) {
    var ids := Ids(queries);
    forall x :: x in Deleted(s.sensors, ids) ==>
                  || x in back
                  || Unlisted(s.groups, x)
                  || (AllThere(s.sensors, ids) && x == ids[|ids| - 1] && ListedAtMostOnce(s.groups, x))
  }

  /** All ids listed after a delete request, but for those in `back`, are stored. */
  ghost predicate ClosedBut(sensors: map<bytes, Sensor>, groups: map<bytes, Group>, back: set<bytes>) {
    forall g, x :: g in groups && x in groups[g].sensors ==> x in sensors || x in back
  }

  lemma ClosedIsClosedBut(s: State)
    ensures Closed(s) <==> ClosedBut(s.sensors, s.groups, {})
  {
    if Closed(s) {
      forall g, x | g in s.groups && x in s.groups[g].sensors ensures x in s.sensors {
        var i :| 0 <= i < |s.groups[g].sensors| && s.groups[g].sensors[i] == x;
      }
    }
  }

  lemma PurgedLists(groups: map<bytes, Group>, id: bytes, g: bytes, x: bytes)
    requires g in groups
    ensures x in Purged(groups, id)[g].sensors ==> x in groups[g].sensors
    ensures x != id ==> (x in Purged(groups, id)[g].sensors <==> x in groups[g].sensors)
    ensures id !in Purged(groups, id)[g].sensors <==> AtMostOnce(groups[g].sensors, id)
  {
    WithoutKeeps(groups[g].sensors, id, x);
  }

  lemma DeleteClosedIff(s: State, queries: seq<Query>, back: set<bytes>)
    requires Closed(s)
    ensures var after := SensorsDeleted(s, queries).state;
            ClosedBut(after.sensors, after.groups, back) <==> SafeDelete(s, queries, back)
  {
    var ids := Ids(queries);
    var gone, after := Deleted(s.sensors, ids), SensorsDeleted(s, queries).state;
    DeleteEachDeletes(s.sensors, ids);
    ClosedIsClosedBut(s);
    if SafeDelete(s, queries, back) {
      forall g, x | g in after.groups && x in after.groups[g].sensors ensures x in after.sensors || x in back {
        ListedAfterDelete(s, queries, g, x);
      }
    }
    if ClosedBut(after.sensors, after.groups, back) {
      forall x | x in gone && x !in back
        ensures Unlisted(s.groups, x)
             || (AllThere(s.sensors, ids) && x == ids[|ids| - 1] && ListedAtMostOnce(s.groups, x))
      {
        UnlistedAfterDelete(s, queries, x);
      }
    }
  }

  lemma ListedAfterDelete(s: State, queries: seq<Query>, g: bytes, x: bytes)
    requires ClosedBut(s.sensors, s.groups, {})
    requires var after := SensorsDeleted(s, queries).state; g in after.groups && x in after.groups[g].sensors
    ensures g in s.groups && x in s.groups[g].sensors && x in s.sensors
    ensures var ids := Ids(queries);
            DeleteEach(s.sensors, ids).1 && ids != [] && x == ids[|ids| - 1] ==> !AtMostOnce(s.groups[g].sensors, x)
  {
    var ids := Ids(queries);
    if DeleteEach(s.sensors, ids).1 && ids != [] {
      PurgedLists(s.groups, ids[|ids| - 1], g, x);
    }
  }

  lemma UnlistedAfterDelete(s: State, queries: seq<Query>, x: bytes)
    requires var after := SensorsDeleted(s, queries).state;
             forall g :: g in after.groups ==> x !in after.groups[g].sensors
    ensures var ids := Ids(queries);
            Unlisted(s.groups, x)
            || (DeleteEach(s.sensors, ids).1 && ids != [] && x == ids[|ids| - 1] && ListedAtMostOnce(s.groups, x))
  {
    var ids, after := Ids(queries), SensorsDeleted(s, queries).state;
    if DeleteEach(s.sensors, ids).1 && ids != [] {
      forall g | g in s.groups
        ensures if x == ids[|ids| - 1] then AtMostOnce(s.groups[g].sensors, x) else x !in s.groups[g].sensors
      {
        PurgedLists(s.groups, ids[|ids| - 1], g, x);
        assert g in after.groups;
      }
    }
  }

  // ---------- Creating sensors

  lemma CreatedSensorKeeps(s: State, body: SensorBody)
    requires Closed(s)
    ensures Closed(SensorCreated(s, body).state)
  {
  }

  predicate KnownKey(key: bytes) {
    key == CAN_ID || key == INIT_BIT || key == END_BIT
  }

  /** Three settings, each with a value and one of the keys. */
  predicate GoodSettings(settings: seq<Option<Setting>>) {
    |settings| == 3 && forall k :: 0 <= k < 3 ==> settings[k].Some? && KnownKey(settings[k].value.key)
  }

  /** Each key once, and no value that reads as -1. */
  predicate CompleteSettings(settings: seq<Option<Setting>>) {
    GoodSettings(settings) &&
    (forall i, j :: 0 <= i < j < 3 ==> settings[i].value.key != settings[j].value.key) &&
    forall k :: 0 <= k < 3 ==> settings[k].value.value != -1
  }

  lemma {:induction false} AsciiLength(s: string)
    ensures |Ascii(s)| == |s|
  {
    if s != "" {
      AsciiLength(s[1..]);
    }
  }

  lemma KeysDiffer()
    ensures |CAN_ID| == 6 && |INIT_BIT| == 8 && |END_BIT| == 7
  {
    AsciiLength("can-id");
    AsciiLength("init-bit");
    AsciiLength("end-bit");
  }

  /** What one setting does to the fields. */
  function Put(f: Fields, setting: Setting): Fields {
    if setting.key == CAN_ID then f.(canId := setting.value)
    else if setting.key == INIT_BIT then f.(initBit := setting.value)
    else f.(endBit := setting.value)
  }

  lemma OneSetting(settings: seq<Option<Setting>>, k: nat, f: Fields)
    requires k < |settings|
    ensures ReadSettings(settings, k, f)
         == if settings[k].Some? && KnownKey(settings[k].value.key)
            then ReadSettings(settings, k + 1, Put(f, settings[k].value)) else None
  {
  }

  lemma SettingsAreGood(settings: seq<Option<Setting>>, unset: int)
    ensures SettingsOf(settings, unset).Some? <==> GoodSettings(settings)
    ensures GoodSettings(settings) ==>
              SettingsOf(settings, unset) == Some(Put(Put(Put(Fields(unset, unset, unset), settings[0].value),
                                                            settings[1].value), settings[2].value))
  {
    if |settings| == 3 {
      var f := Fields(unset, unset, unset);
      OneSetting(settings, 0, f);
      if settings[0].Some? {
        OneSetting(settings, 1, Put(f, settings[0].value));
        if settings[1].Some? {
          OneSetting(settings, 2, Put(Put(f, settings[0].value), settings[1].value));
          assert forall g :: ReadSettings(settings, 3, g) == Some(g);
        }
      }
    }
  }

  /** A whole configuration is accepted in a group exactly if its settings are complete. */
  lemma SettingsAreComplete(settings: seq<Option<Setting>>)
    ensures var f := SettingsOf(settings, -1);
            CompleteSettings(settings) <==>
              f.Some? && f.value.canId != -1 && f.value.initBit != -1 && f.value.endBit != -1
  {
    SettingsAreGood(settings, -1);
    KeysDiffer();
  }

  /** The id that an update request stores again, if it gets that far. */
  function Recreated(s: State, queries: seq<Query>, body: SensorBody): set<bytes> {
    var ids := Ids(queries);
    if AllThere(s.sensors, ids) && ids != [] && body.SensorBody?
       && (body.id !in s.sensors || body.id in ids) && GoodSettings(body.settings)
    then {body.id} else {}
  }

  lemma UpdateClosedIff(s: State, queries: seq<Query>, body: SensorBody)
    requires Closed(s)
    ensures Closed(SensorsUpdated(s, queries, body).state) <==> SafeDelete(s, queries, Recreated(s, queries, body))
  {
    var back := Recreated(s, queries, body);
    var deleted, after := SensorsDeleted(s, queries).state, SensorsUpdated(s, queries, body).state;
    DeleteClosedIff(s, queries, back);
    DeleteEachDeletes(s.sensors, Ids(queries));
    if body.SensorBody? {
      SettingsAreGood(body.settings, 0);
    }
    assert after.sensors.Keys == deleted.sensors.Keys + back;
    assert after.groups == deleted.groups;
    ClosedIsClosedBut(after);
    assert ClosedBut(after.sensors, after.groups, {}) <==> ClosedBut(deleted.sensors, deleted.groups, back);
  }

  // ---------- Creating groups

  predicate Earlier(items: seq<Item>, k: nat, id: bytes)
    requires k <= |items|
  {
    exists j :: 0 <= j < k && items[j].Full? && items[j].id == id
  }

  /** Whether the `k`th item is turned down: an id alone must be stored or be that of an earlier whole configuration. */
  predicate Fails(sensors: map<bytes, Sensor>, items: seq<Item>, k: nat)
    requires k < |items|
  {
    match items[k]
    case Full(_, _, _, settings, _) => !CompleteSettings(settings)
    case OnlyId(id) => id !in sensors && !Earlier(items, k, id)
    case Mixed => true
  }

  predicate Succeeds(sensors: map<bytes, Sensor>, items: seq<Item>) {
    forall k :: 0 <= k < |items| ==> !Fails(sensors, items, k)
  }

  predicate FirstFailing(sensors: map<bytes, Sensor>, items: seq<Item>, k: nat) {
    k < |items| && Fails(sensors, items, k) && forall j :: 0 <= j < k ==> !Fails(sensors, items, j)
  }

  /** What a whole configuration that fails takes out of the table: its own id and, if its settings are good but not
      complete, all ids listed before. */
  predicate Taken(items: seq<Item>, k: nat, id: bytes)
    requires k < |items|
  {
    items[k].Full? && (id == items[k].id || (GoodSettings(items[k].settings) && id in ItemIds(items, k)))
  }

  lemma {:induction false} ItemIdsAt(items: seq<Item>, n: nat, k: nat)
    requires k < n <= |items|
    ensures ItemIds(items, n)[k] == ItemId(items[k])
  {
    if k < n - 1 {
      ItemIdsAt(items, n - 1, k);
    }
  }

  /** The table holds what it held and what the first `k` items stored. */
  ghost predicate Holds(table: map<bytes, Sensor>, sensors: map<bytes, Sensor>, items: seq<Item>, k: nat)
    requires k <= |items|
  {
    forall x :: x in table <==> x in sensors || Earlier(items, k, x)
  }

  lemma EarlierNext(items: seq<Item>, k: nat, x: bytes)
    requires k < |items|
    ensures Earlier(items, k + 1, x) <==> Earlier(items, k, x) || (items[k].Full? && items[k].id == x)
  {
    if items[k].Full? && items[k].id == x {
      assert 0 <= k < k + 1 && items[k].Full? && items[k].id == x;
    }
  }

  /** One whole configuration, on any table. */
  lemma FullAdded(table: map<bytes, Sensor>, items: seq<Item>, k: nat)
    requires k < |items| && items[k].Full?
    ensures var first, id := ItemAdded(table, items[k], ItemIds(items, k)), items[k].id;
            && (first.ok <==> CompleteSettings(items[k].settings))
            && (first.ok ==> first.sensors.Keys == table.Keys + {id})
            && (!first.ok ==> forall x :: x in first.sensors <==> x in table && !Taken(items, k, x))
  {
    var settings := items[k].settings;
    SettingsAreGood(settings, -1);
    SettingsAreComplete(settings);
    var f := SettingsOf(settings, -1);
    if f.None? {
      assert ItemAdded(table, items[k], ItemIds(items, k)) == Added(table - {items[k].id}, false);
    }
  }

  /** One item, on the table that the items before it have left. */
  lemma ItemAddedExactly(table: map<bytes, Sensor>, sensors: map<bytes, Sensor>, items: seq<Item>, k: nat)
    requires k < |items| && Holds(table, sensors, items, k)
    ensures var first := ItemAdded(table, items[k], ItemIds(items, k));
            && (first.ok <==> !Fails(sensors, items, k))
            && (first.ok ==> Holds(first.sensors, sensors, items, k + 1))
            && (!first.ok ==> forall x :: x in first.sensors <==> x in table && !Taken(items, k, x))
  {
    forall x ensures Earlier(items, k + 1, x) <==> Earlier(items, k, x) || (items[k].Full? && items[k].id == x) {
      EarlierNext(items, k, x);
    }
    match items[k] {
      case Full(id, _, _, settings, _) =>
        FullAdded(table, items, k);
        var first := ItemAdded(table, items[k], ItemIds(items, k));
        if first.ok {
          StoredIsHeld(table, first.sensors, sensors, items, k);
        }
      case OnlyId(id) =>
      case Mixed =>
    }
  }

  lemma StoredIsHeld(
    table: map<bytes, Sensor>, after: map<bytes, Sensor>, sensors: map<bytes, Sensor>, items: seq<Item>, k: nat)
    requires k < |items| && items[k].Full? && Holds(table, sensors, items, k)
    requires after.Keys == table.Keys + {items[k].id}
    ensures Holds(after, sensors, items, k + 1)
  {
    forall x ensures x in after <==> x in sensors || Earlier(items, k + 1, x) {
      EarlierNext(items, k, x);
      assert x in after <==> x in after.Keys;
    }
  }

  /** A group request gets through its items exactly if none fails; then the table holds what it held and every whole
      configuration. Otherwise the item it fails on is the first that fails, and the table has lost what that takes. */
  lemma {:induction false} ItemsAddedExactly(
    table: map<bytes, Sensor>, sensors: map<bytes, Sensor>, items: seq<Item>, k: nat) returns (f: nat)
    requires k <= |items| && Holds(table, sensors, items, k) && forall j :: 0 <= j < k ==> !Fails(sensors, items, j)
    ensures var r := ItemsAdded(table, items, k);
            && (r.ok <==> Succeeds(sensors, items))
            && (r.ok ==> Holds(r.sensors, sensors, items, |items|))
            && (!r.ok ==> FirstFailing(sensors, items, f))
            && (!r.ok ==> forall x :: x in r.sensors <==> (x in sensors || Earlier(items, f, x)) && !Taken(items, f, x))
    decreases |items| - k
  {
    f := k;
    if k < |items| {
      ItemAddedExactly(table, sensors, items, k);
      var first := ItemAdded(table, items[k], ItemIds(items, k));
      if first.ok {
        f := ItemsAddedExactly(first.sensors, sensors, items, k + 1);
      }
    }
  }

  /** Every id of a request that succeeds is stored. */
  lemma SucceededIsStored(sensors: map<bytes, Sensor>, items: seq<Item>, after: map<bytes, Sensor>, x: bytes)
    requires Succeeds(sensors, items) && Holds(after, sensors, items, |items|) && x in ItemIds(items, |items|)
    ensures x in after
  {
    var k :| 0 <= k < |items| && ItemIds(items, |items|)[k] == x;
    ItemIdsAt(items, |items|, k);
    assert !Fails(sensors, items, k);
    if items[k].Full? {
      assert Earlier(items, |items|, x);
    } else if Earlier(items, k, x) {
      var j :| 0 <= j < k && items[j].Full? && items[j].id == x;
      assert Earlier(items, |items|, x);
    }
  }

  /** Nothing that a failing group request takes out of the table is listed by a group. */
  ghost predicate SafeCreate(sensors: map<bytes, Sensor>, groups: map<bytes, Group>, body: GroupBody) {
    body.GroupBody? && body.id !in groups ==>
      forall k, x :: FirstFailing(sensors, body.items, k) && Taken(body.items, k, x) ==> Unlisted(groups, x)
  }

  lemma OneFirstFailing(sensors: map<bytes, Sensor>, items: seq<Item>, j: nat, k: nat)
    requires FirstFailing(sensors, items, j) && FirstFailing(sensors, items, k)
    ensures j == k
  {
  }

  lemma GroupClosedIff(s: State, body: GroupBody)
    requires Closed(s)
    ensures Closed(GroupCreated(s, body).state) <==> SafeCreate(s.sensors, s.groups, body)
  {
    if body.GroupBody? && body.id !in s.groups {
      ClosedIsClosedBut(s);
      ClosedIsClosedBut(GroupCreated(s, body).state);
      if Succeeds(s.sensors, body.items) {
        CreatedGroupIsClosed(s, body);
      } else {
        RejectedGroupClosedIff(s, body);
      }
    }
  }

  lemma CreatedGroupIsClosed(s: State, body: GroupBody)
    requires ClosedBut(s.sensors, s.groups, {}) && body.GroupBody? && body.id !in s.groups
    requires Succeeds(s.sensors, body.items)
    ensures var after := GroupCreated(s, body).state; ClosedBut(after.sensors, after.groups, {})
  {
    var after := GroupCreated(s, body).state;
    var _ := ItemsAddedExactly(s.sensors, s.sensors, body.items, 0);
    forall x | x in ItemIds(body.items, |body.items|) ensures x in after.sensors {
      SucceededIsStored(s.sensors, body.items, after.sensors, x);
    }
  }

  lemma RejectedGroupClosedIff(s: State, body: GroupBody)
    requires ClosedBut(s.sensors, s.groups, {}) && body.GroupBody? && body.id !in s.groups
    requires !Succeeds(s.sensors, body.items)
    ensures var after := GroupCreated(s, body).state;
            ClosedBut(after.sensors, after.groups, {}) <==> SafeCreate(s.sensors, s.groups, body)
  {
    var after := GroupCreated(s, body).state;
    var f := ItemsAddedExactly(s.sensors, s.sensors, body.items, 0);
    if SafeCreate(s.sensors, s.groups, body) {
      forall g, x | g in s.groups && x in s.groups[g].sensors ensures x in after.sensors {
        assert x in s.sensors;
        assert !Taken(body.items, f, x);
      }
    }
    if ClosedBut(after.sensors, after.groups, {}) {
      forall k, x | FirstFailing(s.sensors, body.items, k) && Taken(body.items, k, x) ensures Unlisted(s.groups, x) {
        OneFirstFailing(s.sensors, body.items, k, f);
        assert x !in after.sensors;
      }
    }
  }

  lemma DeletedGroupsKeep(s: State, queries: seq<Query>)
    requires Closed(s)
    ensures Closed(GroupsDeleted(s, queries).state)
  {
    DeleteEachDeletes(s.groups, Ids(queries));
  }

  // ---------- Every request

  /** What can be checked before a request is handled. */
  ghost predicate Safe(s: State, request: Request) {
    match request
    case CreateSensor(_) => true
    case UpdateSensors(queries, body) => SafeDelete(s, queries, Recreated(s, queries, body))
    case DeleteSensors(queries) => SafeDelete(s, queries, {})
    case CreateGroup(body) => SafeCreate(s.sensors, s.groups, body)
    case UpdateGroups(queries, body) =>
      var ids := Ids(queries);
      AllThere(s.groups, ids) && ids != [] ==> SafeCreate(s.sensors, s.groups - ToSet(ids), body)
    case DeleteGroups(_) => true
  }

  /** A request keeps every listed id stored exactly if it is safe. */
  lemma StepClosedIff(s: State, request: Request)
    requires Closed(s)
    ensures Closed(Step(s, request).state) <==> Safe(s, request)
  {
    match request {
      case CreateSensor(body) => CreatedSensorKeeps(s, body);
      case UpdateSensors(queries, body) => UpdateClosedIff(s, queries, body);
      case DeleteSensors(queries) =>
        DeleteClosedIff(s, queries, {});
        ClosedIsClosedBut(SensorsDeleted(s, queries).state);
      case CreateGroup(body) => GroupClosedIff(s, body);
      case UpdateGroups(queries, body) =>
        DeleteEachDeletes(s.groups, Ids(queries));
        DeletedGroupsKeep(s, queries);
        GroupClosedIff(GroupsDeleted(s, queries).state, body);
      case DeleteGroups(queries) => DeletedGroupsKeep(s, queries);
    }
  }

  ghost predicate AlwaysClosed(s: State, requests: seq<Request>)
    decreases |requests|
  {
    Closed(s) && (requests == [] || AlwaysClosed(Step(s, requests[0]).state, requests[1..]))
  }

  ghost predicate SafeRun(s: State, requests: seq<Request>)
    decreases |requests|
  {
    requests == [] || (Safe(s, requests[0]) && SafeRun(Step(s, requests[0]).state, requests[1..]))
  }

  /** At every point of a run every listed id is stored, exactly if every request of the run is safe. */
  lemma {:induction false} RunClosedIff(s: State, requests: seq<Request>)
    requires Closed(s)
    ensures AlwaysClosed(s, requests) <==> SafeRun(s, requests)
    decreases |requests|
  {
    if requests != [] {
      StepClosedIff(s, requests[0]);
      if Safe(s, requests[0]) {
        RunClosedIff(Step(s, requests[0]).state, requests[1..]);
      }
    }
  }

  /** A frame changes readings, and no id. */
  lemma MeasuringKeeps(s: State, canId: nat, reading: Sensor -> bytes, timestamp: int)
    requires Closed(s)
    ensures Closed(s.(sensors := Measured(s.sensors, canId, reading, timestamp)))
  {
  }

  // ---------- Disciplined runs

  ghost predicate ListsDoNotRepeat(groups: map<bytes, Group>) {
    forall g :: g in groups ==> NoRepeats(groups[g].sensors)
  }

  /** A group that is created lists no id twice, and a rejected request takes no stored sensor away. */
  ghost predicate GroupIsDisciplined(sensors: map<bytes, Sensor>, groups: map<bytes, Group>, body: GroupBody) {
    body.GroupBody? && body.id !in groups ==>
      && (Succeeds(sensors, body.items) ==> NoRepeats(ItemIds(body.items, |body.items|)))
      && forall k, x :: FirstFailing(sensors, body.items, k) && Taken(body.items, k, x) ==> x !in sensors
  }

  /** Sensors are deleted and updated one id at a time, and group requests are disciplined. */
  ghost predicate Disciplined(s: State, request: Request) {
    match request
    case CreateSensor(_) => true
    case UpdateSensors(queries, _) => |Ids(queries)| <= 1
    case DeleteSensors(queries) => |Ids(queries)| <= 1
    case CreateGroup(body) => GroupIsDisciplined(s.sensors, s.groups, body)
    case UpdateGroups(queries, body) =>
      var ids := Ids(queries);
      AllThere(s.groups, ids) && ids != [] ==> GroupIsDisciplined(s.sensors, s.groups - ToSet(ids), body)
    case DeleteGroups(_) => true
  }

  lemma DisciplinedGroup(s: State, body: GroupBody)
    requires Closed(s) && ListsDoNotRepeat(s.groups) && GroupIsDisciplined(s.sensors, s.groups, body)
    ensures SafeCreate(s.sensors, s.groups, body) && ListsDoNotRepeat(GroupCreated(s, body).state.groups)
  {
    ClosedIsClosedBut(s);
    if body.GroupBody? && body.id !in s.groups {
      var _ := ItemsAddedExactly(s.sensors, s.sensors, body.items, 0);
    }
  }

  lemma {:induction false} WithoutDoesNotRepeat(list: seq<bytes>, id: bytes)
    requires NoRepeats(list)
    ensures NoRepeats(Without(list, id))
  {
    if list != [] && list[0] != id {
      assert forall k :: 0 < k < |list| ==> list[k] == list[1..][k - 1];
      WithoutDoesNotRepeat(list[1..], id);
      var rest := Without(list[1..], id);
      forall k | 0 <= k < |rest| ensures rest[k] != list[0] {
        WithoutKeeps(list[1..], id, rest[k]);
      }
    }
  }

  lemma OneIdIsSafe(s: State, queries: seq<Query>, back: set<bytes>)
    requires Closed(s) && ListsDoNotRepeat(s.groups) && |Ids(queries)| <= 1
    ensures SafeDelete(s, queries, back)
  {
    var ids := Ids(queries);
    forall x | x in Deleted(s.sensors, ids)
      ensures AllThere(s.sensors, ids) && x == ids[|ids| - 1] && ListedAtMostOnce(s.groups, x)
    {
      forall g | g in s.groups ensures AtMostOnce(s.groups[g].sensors, x) {
        assert NoRepeats(s.groups[g].sensors);
      }
    }
  }

  lemma DeletingDoesNotRepeat(s: State, queries: seq<Query>)
    requires ListsDoNotRepeat(s.groups)
    ensures ListsDoNotRepeat(SensorsDeleted(s, queries).state.groups)
  {
    var ids := Ids(queries);
    if ids != [] {
      forall g | g in s.groups ensures NoRepeats(Purged(s.groups, ids[|ids| - 1])[g].sensors) {
        WithoutDoesNotRepeat(s.groups[g].sensors, ids[|ids| - 1]);
      }
    }
  }

  lemma DisciplinedStep(s: State, request: Request)
    requires Closed(s) && ListsDoNotRepeat(s.groups) && Disciplined(s, request)
    ensures Safe(s, request)
    ensures Closed(Step(s, request).state) && ListsDoNotRepeat(Step(s, request).state.groups)
  {
    match request {
      case CreateSensor(_) =>
      case UpdateSensors(queries, body) =>
        OneIdIsSafe(s, queries, Recreated(s, queries, body));
        DeletingDoesNotRepeat(s, queries);
      case DeleteSensors(queries) =>
        OneIdIsSafe(s, queries, {});
        DeletingDoesNotRepeat(s, queries);
      case CreateGroup(body) => DisciplinedGroup(s, body);
      case UpdateGroups(queries, body) =>
        DeleteEachDeletes(s.groups, Ids(queries));
        DeletedGroupsKeep(s, queries);
        if GroupsDeleted(s, queries).ok {
          DisciplinedGroup(GroupsDeleted(s, queries).state, body);
        }
      case DeleteGroups(queries) => DeleteEachDeletes(s.groups, Ids(queries));
    }
    StepClosedIff(s, request);
  }

  ghost predicate DisciplinedRun(s: State, requests: seq<Request>)
    decreases |requests|
  {
    requests == [] || (Disciplined(s, requests[0]) && DisciplinedRun(Step(s, requests[0]).state, requests[1..]))
  }

  /** Over every such run, from any state that has the property, every id in every group's list is a stored sensor. */
  lemma {:induction false} DisciplinedRunsStayClosed(s: State, requests: seq<Request>)
    requires Closed(s) && ListsDoNotRepeat(s.groups) && DisciplinedRun(s, requests)
    ensures Closed(Run(s, requests)) && ListsDoNotRepeat(Run(s, requests).groups)
    decreases |requests|
  {
    if requests != [] {
      DisciplinedStep(s, requests[0]);
      DisciplinedRunsStayClosed(Step(s, requests[0]).state, requests[1..]);
    }
  }

  // ---------- Requests that break it

  function Named(id: bytes): Sensor {
    Sensor(id, [], [], 0, 0, 0, 0, [], 0)
  }

  /** Two ids in one delete request: the first stays listed. */
  lemma TwoIdsDangle(a: bytes, b: bytes, g: bytes)
    requires a != b
    ensures var s := State(map[a := Named(a), b := Named(b)], map[g := Group(0, [a])], Configured);
            Closed(s) && !Closed(Step(s, DeleteSensors([Query(ID_KEY, a), Query(ID_KEY, b)])).state)
  {
    var s := State(map[a := Named(a), b := Named(b)], map[g := Group(0, [a])], Configured);
    var queries := [Query(ID_KEY, a), Query(ID_KEY, b)];
    assert Ids(queries[1..][1..]) == [] && Ids(queries[1..]) == [b];
    assert Ids(queries) == [a, b];
    assert [a, b][1..] == [b] && [b][1..] == [];
    var left := s.sensors - {a};
    assert b in left && a !in left - {b};
    assert DeleteEach(left - {b}, []) == (left - {b}, true);
    assert DeleteEach(left, [b]) == (left - {b}, true);
    assert DeleteEach(s.sensors, [a, b]) == (left - {b}, true);
    assert Without([a], b) == [a] + Without([], b) == [a];
    var after := SensorsDeleted(s, queries).state;
    assert after.groups[g].sensors[0] == a;
  }

  /** An id that a list repeats: only its first place is purged. */
  lemma RepeatedIdDangles(a: bytes, g: bytes)
    ensures var s := State(map[a := Named(a)], map[g := Group(0, [a, a])], Configured);
            Closed(s) && !Closed(Step(s, DeleteSensors([Query(ID_KEY, a)])).state)
  {
    var s := State(map[a := Named(a)], map[g := Group(0, [a, a])], Configured);
    OneId(a);
    DeleteOne(s.sensors, a);
    assert [a, a][1..] == [a];
    var after := SensorsDeleted(s, [Query(ID_KEY, a)]).state;
    assert after.groups[g].sensors[0] == a;
  }

  /** A group request that fails on the settings of a stored sensor: that sensor is gone. */
  lemma RejectedGroupDangles(a: bytes, g: bytes, h: bytes)
    requires g != h
    ensures var s := State(map[a := Named(a)], map[g := Group(0, [a])], Configured);
            Closed(s) && !Closed(Step(s, CreateGroup(GroupBody(h, 0, [Full(a, [], [], [], 0)]))).state)
  {
    var s := State(map[a := Named(a)], map[g := Group(0, [a])], Configured);
    var items := [Full(a, [], [], [], 0)];
    assert ItemAdded(s.sensors, items[0], []) == Added(s.sensors - {a}, false);
    assert ItemsAdded(s.sensors, items, 0) == Added(s.sensors - {a}, false);
    var after := GroupCreated(s, GroupBody(h, 0, items)).state;
    assert after.groups[g].sensors[0] == a;
  }

  // ---------- What one request undoes

  lemma {:induction false} WithoutIsSame(list: seq<bytes>, id: bytes)
    ensures Without(list, id) == list <==> id !in list
  {
    if list == [] {
    } else if list[0] == id {
      assert |Without(list, id)| < |list|;
    } else {
      WithoutIsSame(list[1..], id);
      assert list == [list[0]] + list[1..];
      assert Without(list, id)[1..] == Without(list[1..], id);
    }
  }

  /** Purging changes no list exactly if none holds the id, and takes it out of all exactly if none repeats it. */
  lemma PurgedExactly(groups: map<bytes, Group>, id: bytes)
    ensures Purged(groups, id) == groups <==> Unlisted(groups, id)
    ensures Unlisted(Purged(groups, id), id) <==> ListedAtMostOnce(groups, id)
  {
    forall g | g in groups
      ensures Purged(groups, id)[g] == groups[g] <==> id !in groups[g].sensors
      ensures id !in Purged(groups, id)[g].sensors <==> AtMostOnce(groups[g].sensors, id)
    {
      WithoutIsSame(groups[g].sensors, id);
      PurgedLists(groups, id, g, id);
    }
    if Unlisted(Purged(groups, id), id) {
      forall g | g in groups ensures AtMostOnce(groups[g].sensors, id) {
        assert g in Purged(groups, id);
      }
    }
  }

  lemma OneId(id: bytes)
    ensures Ids([Query(ID_KEY, id)]) == [id]
  {
    assert [Query(ID_KEY, id)][1..] == [];
    assert Ids([]) == [];
  }

  lemma DeleteOne<V>(table: map<bytes, V>, id: bytes)
    requires id in table
    ensures DeleteEach(table, [id]) == (table - {id}, true)
  {
    assert [id][1..] == [];
    assert DeleteEach(table - {id}, []) == (table - {id}, true);
  }

  /** Deleting a sensor that was just created restores both tables exactly if no group lists its id, as is so where
      listed ids are stored. */
  lemma DeleteUndoesCreate(s: State, body: SensorBody)
    requires SensorCreated(s, body).ok
    ensures var reply := SensorsDeleted(SensorCreated(s, body).state, [Query(ID_KEY, body.id)]);
            reply.ok && (reply.state == s.(status := Configure(s.status)) <==> Unlisted(s.groups, body.id))
    ensures Closed(s) ==> Unlisted(s.groups, body.id)
  {
    var created := SensorCreated(s, body).state;
    OneId(body.id);
    DeleteOne(created.sensors, body.id);
    assert created.sensors - {body.id} == s.sensors;
    PurgedExactly(s.groups, body.id);
    ClosedIsClosedBut(s);
  }

  /** Deleting a group that was just created takes away the group and leaves the sensors it stored. */
  lemma DeleteUndoesCreateGroup(s: State, body: GroupBody)
    requires GroupCreated(s, body).ok
    ensures var created := GroupCreated(s, body).state;
            var reply := GroupsDeleted(created, [Query(ID_KEY, body.id)]);
            reply.ok && reply.state == created.(groups := s.groups)
  {
    var created := GroupCreated(s, body).state;
    OneId(body.id);
    DeleteOne(created.groups, body.id);
    assert created.groups - {body.id} == s.groups;
  }

  // ---------- What an update does to the lists

  /** An update is answered with success exactly if it gets to storing its sensor. */
  lemma UpdateSucceedsExactlyIf(s: State, queries: seq<Query>, body: SensorBody)
    ensures SensorsUpdated(s, queries, body).ok <==> Recreated(s, queries, body) != {}
  {
    DeleteEachDeletes(s.sensors, Ids(queries));
    if body.SensorBody? {
      SettingsAreGood(body.settings, 0);
    }
  }

  /** An update that succeeds purges the lists of the last id of the request, whatever it stores: they stay as they are
      exactly if none held that id, and are rid of it exactly if none repeated it. */
  lemma UpdateListsExactly(s: State, queries: seq<Query>, body: SensorBody)
    requires SensorsUpdated(s, queries, body).ok
    ensures var ids, after := Ids(queries), SensorsUpdated(s, queries, body).state.groups;
            && ids != [] && after == Purged(s.groups, ids[|ids| - 1])
            && (after == s.groups <==> Unlisted(s.groups, ids[|ids| - 1]))
            && (Unlisted(after, ids[|ids| - 1]) <==> ListedAtMostOnce(s.groups, ids[|ids| - 1]))
  {
    var ids := Ids(queries);
    if ids != [] {
      PurgedExactly(s.groups, ids[|ids| - 1]);
    }
  }

  /** Updating a stored sensor under its own id stores it again, and every list loses the id once. */
  lemma UpdatePurgesLists(s: State, id: bytes, body: SensorBody)
    requires id in s.sensors && body.SensorBody? && body.id == id && GoodSettings(body.settings)
    ensures var reply := SensorsUpdated(s, [Query(ID_KEY, id)], body);
            && reply.ok && id in reply.state.sensors && reply.state.groups == Purged(s.groups, id)
            && (reply.state.groups == s.groups <==> Unlisted(s.groups, id))
            && (Unlisted(reply.state.groups, id) <==> ListedAtMostOnce(s.groups, id))
  {
    OneId(id);
    DeleteOne(s.sensors, id);
    SettingsAreGood(body.settings, 0);
    PurgedExactly(s.groups, id);
  }
  /** A sensor updated under its own id is gone from a group that lists it once, and still in one that lists it
      twice. */
  lemma UpdateChangesGroup(a: bytes, g: bytes, body: SensorBody)
    requires body.SensorBody? && body.id == a && GoodSettings(body.settings)
    ensures var once := State(map[a := Named(a)], map[g := Group(0, [a])], Configured);
            Step(once, UpdateSensors([Query(ID_KEY, a)], body)).state.groups[g].sensors == []
    ensures var twice := State(map[a := Named(a)], map[g := Group(0, [a, a])], Configured);
            Step(twice, UpdateSensors([Query(ID_KEY, a)], body)).state.groups[g].sensors == [a]
  {
    UpdatePurgesLists(State(map[a := Named(a)], map[g := Group(0, [a])], Configured), a, body);
    UpdatePurgesLists(State(map[a := Named(a)], map[g := Group(0, [a, a])], Configured), a, body);
    assert [a][1..] == [] && [a, a][1..] == [a];
  }
}
