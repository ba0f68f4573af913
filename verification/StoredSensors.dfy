/** What the handlers store under the ids of a request, field by field, and what a frame then leaves in a sensor. */
module StoredSensors {
  import opened Text
  import opened RegistrySpec
  import opened Registry
  import RegistryRuns
  import BitField

  // ---------- Keys

  /** The keys `id`, `can-id`, `init-bit` and `end-bit` in bytes. */
  const ID: bytes := [105, 100]
  const CAN: bytes := [99, 97, 110, 45, 105, 100]
  const INIT: bytes := [105, 110, 105, 116, 45, 98, 105, 116]
  const END: bytes := [101, 110, 100, 45, 98, 105, 116]

  lemma {:induction false} AsciiAt(s: string, k: nat)
    requires k < |s|
    ensures |Ascii(s)| == |s| && Ascii(s)[k] == s[k] as int % 256
  {
    RegistryRuns.AsciiLength(s);
    if k > 0 {
      AsciiAt(s[1..], k - 1);
    }
  }

  lemma AsciiIs(s: string, b: bytes)
    requires |b| == |s| && forall k :: 0 <= k < |s| ==> s[k] as int % 256 == b[k]
    ensures Ascii(s) == b
  {
    RegistryRuns.AsciiLength(s);
    forall k | 0 <= k < |s| ensures Ascii(s)[k] == b[k] {
      AsciiAt(s, k);
    }
  }

  lemma KeysSpelled()
    ensures ID_KEY == ID && CAN_ID == CAN && INIT_BIT == INIT && END_BIT == END
  {
    AsciiIs("id", ID);
    AsciiIs("can-id", CAN);
    AsciiIs("init-bit", INIT);
    AsciiIs("end-bit", END);
  }

  /** The ids of a query string are the values of its pairs named `id`, in order. */
  lemma {:induction false} IdsGrow(queries: seq<Query>, q: Query)
    ensures Ids([]) == []
    ensures Ids(queries + [q]) == Ids(queries) + if q.name == ID then [q.value] else []
  {
    KeysSpelled();
    if queries == [] {
      assert queries + [q] == [q] && [q][1..] == [];
    } else {
      assert (queries + [q])[1..] == queries[1..] + [q];
      IdsGrow(queries[1..], q);
    }
  }

  // ---------- Settings

  /** The value of the last of the first `n` settings with this key, or `unset`. */
  function LastUnder(settings: seq<Option<Setting>>, key: bytes, n: nat, unset: int): int
    requires n <= |settings|
  {
    if n == 0 then unset
    else if settings[n - 1].Some? && settings[n - 1].value.key == key then settings[n - 1].value.value
    else LastUnder(settings, key, n - 1, unset)
  }

  /** The fields hold the last values of the first `n` settings. */
  predicate HoldsLast(settings: seq<Option<Setting>>, n: nat, unset: int, f: Fields)
    requires n <= |settings|
  {
    && f.canId == LastUnder(settings, CAN, n, unset)
    && f.initBit == LastUnder(settings, INIT, n, unset)
    && f.endBit == LastUnder(settings, END, n, unset)
  }

  lemma PutHoldsLast(settings: seq<Option<Setting>>, n: nat, unset: int, f: Fields)
    requires n < |settings| && settings[n].Some? && RegistryRuns.KnownKey(settings[n].value.key)
    requires HoldsLast(settings, n, unset, f)
    ensures HoldsLast(settings, n + 1, unset, RegistryRuns.Put(f, settings[n].value))
  {
    KeysSpelled();
  }

  lemma {:induction false} ReadHoldsLast(settings: seq<Option<Setting>>, n: nat, unset: int, f: Fields)
    requires n <= |settings| && HoldsLast(settings, n, unset, f) && ReadSettings(settings, n, f).Some?
    ensures HoldsLast(settings, |settings|, unset, ReadSettings(settings, n, f).value)
    decreases |settings| - n
  {
    if n < |settings| {
      RegistryRuns.OneSetting(settings, n, f);
      PutHoldsLast(settings, n, unset, f);
      ReadHoldsLast(settings, n + 1, unset, RegistryRuns.Put(f, settings[n].value));
    }
  }

  /** Three settings, each with a value and one of the three keys. */
  predicate Acceptable(settings: seq<Option<Setting>>) {
    |settings| == 3 &&
    forall k :: 0 <= k < 3 ==>
                  settings[k].Some? && (settings[k].value.key == CAN || settings[k].value.key == INIT
                                        || settings[k].value.key == END)
  }

  /** The settings are read exactly if they are acceptable, and then each field is the last value under its key. */
  lemma SettingsHoldLast(settings: seq<Option<Setting>>, unset: int)
    ensures SettingsOf(settings, unset).Some? <==> Acceptable(settings)
    ensures SettingsOf(settings, unset).Some? ==>
              HoldsLast(settings, |settings|, unset, SettingsOf(settings, unset).value)
  {
    KeysSpelled();
    RegistryRuns.SettingsAreGood(settings, unset);
    if SettingsOf(settings, unset).Some? {
      ReadHoldsLast(settings, 0, unset, Fields(unset, unset, unset));
    }
  }

  // ---------- Stored sensors

  /** The sensor is as the configuration says, and has not been measured. */
  predicate Configures(sensor: Sensor, id: bytes, name: bytes, ty: bytes, settings: seq<Option<Setting>>, rate: int,
                       unset: int) {
    && sensor.id == id && sensor.name == name && sensor.ty == ty && sensor.rate == Unsigned(rate)
    && sensor.canId == Unsigned(LastUnder(settings, CAN, |settings|, unset))
    && sensor.initBit == Unsigned(LastUnder(settings, INIT, |settings|, unset))
    && sensor.endBit == Unsigned(LastUnder(settings, END, |settings|, unset))
    && sensor.value == [] && sensor.timestamp == 0
  }

  /** A sensor request is answered with OK exactly if it is complete, its id is free and its settings are acceptable;
      then the sensor is stored as configured, and nothing else changes but the status. Otherwise nothing changes. */
  lemma CreatedSensorIsStored(s: State, body: SensorBody)
    ensures var r := Step(s, CreateSensor(body));
            && (r.ok <==> body.SensorBody? && body.id !in s.sensors && Acceptable(body.settings))
            && (!r.ok ==> r.state == s)
            && (r.ok ==>
                  && r.state.groups == s.groups && r.state.sensors.Keys == s.sensors.Keys + {body.id}
                  && (forall x :: x in s.sensors ==> r.state.sensors[x] == s.sensors[x])
                  && Configures(r.state.sensors[body.id], body.id, body.name, body.ty, body.settings, body.rate, 0)
                  && r.state.status == if s.status == Running then Running else Configured)
  {
    if body.SensorBody? {
      SettingsHoldLast(body.settings, 0);
    }
  }

  /** An update answered with OK stores the sensor in the same way. */
  lemma UpdatedSensorIsStored(s: State, queries: seq<Query>, body: SensorBody)
    requires Step(s, UpdateSensors(queries, body)).ok
    ensures var after := Step(s, UpdateSensors(queries, body)).state;
            && body.SensorBody? && body.id in after.sensors
            && Configures(after.sensors[body.id], body.id, body.name, body.ty, body.settings, body.rate, 0)
  {
    CreatedSensorIsStored(SensorsDeleted(s, queries).state, body);
  }

  // ---------- Groups

  /** The last of the first `n` items that is a whole configuration for this id, or -1. */
  function LastFull(items: seq<Item>, x: bytes, n: nat): (k: int)
    requires n <= |items|
    ensures -1 <= k < n && (k != -1 ==> items[k].Full? && items[k].id == x)
    ensures forall j :: k < j < n ==> !(items[j].Full? && items[j].id == x)
  {
    if n == 0 then -1
    else if items[n - 1].Full? && items[n - 1].id == x then n - 1
    else LastFull(items, x, n - 1)
  }

  /** Under `x` is stored what the last of the first `n` items for it says, or else what was there. */
  predicate StoredFor(table: map<bytes, Sensor>, sensors: map<bytes, Sensor>, items: seq<Item>, n: nat, x: bytes)
    requires n <= |items|
  {
    var k := LastFull(items, x, n);
    if k == -1 then (x in table <==> x in sensors) && (x in table ==> table[x] == sensors[x])
    else
      var item := items[k];
      x in table && Configures(table[x], x, item.name, item.ty, item.settings, item.rate, -1)
  }

  lemma ItemIsStored(table: map<bytes, Sensor>, sensors: map<bytes, Sensor>, items: seq<Item>, k: nat, x: bytes,
                     after: Added)
    requires k < |items| && StoredFor(table, sensors, items, k, x)
    requires after == ItemAdded(table, items[k], ItemIds(items, k)) && after.ok
    ensures StoredFor(after.sensors, sensors, items, k + 1, x)
  {
    if items[k].Full? {
      SettingsHoldLast(items[k].settings, -1);
    }
  }

  lemma {:induction false} ItemsAreStored(table: map<bytes, Sensor>, sensors: map<bytes, Sensor>, items: seq<Item>,
                                          k: nat, x: bytes)
    requires k <= |items| && StoredFor(table, sensors, items, k, x) && ItemsAdded(table, items, k).ok
    ensures StoredFor(ItemsAdded(table, items, k).sensors, sensors, items, |items|, x)
    decreases |items| - k
  {
    if k < |items| {
      var first := ItemAdded(table, items[k], ItemIds(items, k));
      ItemIsStored(table, sensors, items, k, x, first);
      ItemsAreStored(first.sensors, sensors, items, k + 1, x);
    }
  }

  /** After a group request answered with OK the group lists the ids of its items, in order, and every id has the sensor
      that its last whole configuration describes, or the one it had. */
  lemma CreatedGroupIsStored(s: State, body: GroupBody, x: bytes)
    requires Step(s, CreateGroup(body)).ok
    ensures var after := Step(s, CreateGroup(body)).state;
            && body.GroupBody? && body.id !in s.groups && after.groups.Keys == s.groups.Keys + {body.id}
            && (forall g :: g in s.groups ==> after.groups[g] == s.groups[g])
            && after.groups[body.id].rate == Unsigned(body.rate)
            && |after.groups[body.id].sensors| == |body.items|
            && (forall k :: 0 <= k < |body.items| ==>
                              !body.items[k].Mixed? && after.groups[body.id].sensors[k] == body.items[k].id)
            && StoredFor(after.sensors, s.sensors, body.items, |body.items|, x)
            && after.status == if s.status == Running then Running else Configured
  {
    ItemsAreStored(s.sensors, s.sensors, body.items, 0, x);
    forall k | 0 <= k < |body.items| ensures ItemIds(body.items, |body.items|)[k] == ItemId(body.items[k]) {
      RegistryRuns.ItemIdsAt(body.items, |body.items|, k);
    }
    forall k | 0 <= k < |body.items| ensures !body.items[k].Mixed? {
      NoneMixed(s.sensors, body.items, 0, k);
    }
  }

  lemma RejectedItemTakes(table: map<bytes, Sensor>, sensors: map<bytes, Sensor>, items: seq<Item>, k: nat, x: bytes,
                          after: Added)
    requires k < |items| && StoredFor(table, sensors, items, k, x)
    requires after == ItemAdded(table, items[k], ItemIds(items, k)) && !after.ok && x in after.sensors
    ensures StoredFor(after.sensors, sensors, items, k, x)
  {
  }

  lemma {:induction false} ItemsAreStoredUpTo(table: map<bytes, Sensor>, sensors: map<bytes, Sensor>, items: seq<Item>,
                                              k: nat, x: bytes)
    returns (f: nat)
    requires k <= |items| && StoredFor(table, sensors, items, k, x) && !ItemsAdded(table, items, k).ok
    requires RegistryRuns.Holds(table, sensors, items, k)
    requires forall j :: 0 <= j < k ==> !RegistryRuns.Fails(sensors, items, j)
    ensures RegistryRuns.FirstFailing(sensors, items, f)
    ensures x in ItemsAdded(table, items, k).sensors ==>
              StoredFor(ItemsAdded(table, items, k).sensors, sensors, items, f, x)
    decreases |items| - k
  {
    var first := ItemAdded(table, items[k], ItemIds(items, k));
    ItemGoesThrough(table, sensors, items, k, first);
    if first.ok {
      ItemIsStored(table, sensors, items, k, x, first);
      f := ItemsAreStoredUpTo(first.sensors, sensors, items, k + 1, x);
    } else {
      f := k;
      if x in first.sensors {
        RejectedItemTakes(table, sensors, items, k, x, first);
      }
    }
  }

  lemma ItemGoesThrough(table: map<bytes, Sensor>, sensors: map<bytes, Sensor>, items: seq<Item>, k: nat, first: Added)
    requires k < |items| && RegistryRuns.Holds(table, sensors, items, k)
    requires first == ItemAdded(table, items[k], ItemIds(items, k))
    ensures first.ok <==> !RegistryRuns.Fails(sensors, items, k)
    ensures first.ok ==> RegistryRuns.Holds(first.sensors, sensors, items, k + 1)
  {
    RegistryRuns.ItemAddedExactly(table, sensors, items, k);
  }

  /** A group request that is refused leaves the groups and the status alone, and what is still stored under an id is
      what an item before the first that fails described, or what was there. */
  lemma RejectedGroupIsStored(s: State, body: GroupBody, x: bytes) returns (f: nat)
    requires !Step(s, CreateGroup(body)).ok
    ensures var after := Step(s, CreateGroup(body)).state;
            && after.groups == s.groups && after.status == s.status
            && (!body.GroupBody? || body.id in s.groups ==> after == s)
            && (body.GroupBody? && body.id !in s.groups ==>
                  && RegistryRuns.FirstFailing(s.sensors, body.items, f)
                  && (x in after.sensors ==> StoredFor(after.sensors, s.sensors, body.items, f, x)))
  {
    f := 0;
    if body.GroupBody? && body.id !in s.groups {
      f := ItemsAreStoredUpTo(s.sensors, s.sensors, body.items, 0, x);
    }
  }

  lemma {:induction false} NoneMixed(table: map<bytes, Sensor>, items: seq<Item>, i: nat, k: nat)
    requires i <= k < |items| && ItemsAdded(table, items, i).ok
    ensures !items[k].Mixed?
    decreases k - i
  {
    if i < k {
      NoneMixed(ItemAdded(table, items[i], ItemIds(items, i)).sensors, items, i + 1, k);
    }
  }

  // ---------- Deleting

  /** A sensor delete request is answered with OK exactly if it names at least one id and every id it names is there,
      once; only then are the lists purged, of the last id alone. */
  lemma DeletedSensorsExactly(s: State, queries: seq<Query>)
    ensures var r, ids := Step(s, DeleteSensors(queries)), Ids(queries);
            && (r.ok <==> ids != [] && RegistryRuns.AllThere(s.sensors, ids)) && r.state.status == s.status
            && r.state.sensors == s.sensors - RegistryRuns.Deleted(s.sensors, ids)
            && (!r.ok ==> r.state.groups == s.groups)
            && r.state.groups.Keys == s.groups.Keys
            && (r.ok ==> forall g :: g in s.groups ==>
                                       r.state.groups[g] == Group(s.groups[g].rate,
                                                                  Without(s.groups[g].sensors, ids[|ids| - 1])))
  {
    RegistryRuns.DeleteEachDeletes(s.sensors, Ids(queries));
  }

  /** A group delete request, in the same way; no sensor goes. */
  lemma DeletedGroupsExactly(s: State, queries: seq<Query>)
    ensures var r, ids := Step(s, DeleteGroups(queries)), Ids(queries);
            && (r.ok <==> ids != [] && RegistryRuns.AllThere(s.groups, ids)) && r.state.status == s.status
            && r.state.groups == s.groups - RegistryRuns.Deleted(s.groups, ids) && r.state.sensors == s.sensors
  {
    RegistryRuns.DeleteEachDeletes(s.groups, Ids(queries));
  }

  /** A group update is the delete and, if that was answered with OK, the create. */
  lemma UpdatedGroupIsStored(s: State, queries: seq<Query>, body: GroupBody)
    ensures var deleted := Step(s, DeleteGroups(queries));
            Step(s, UpdateGroups(queries, body)) ==
            if deleted.ok then Step(deleted.state, CreateGroup(body)) else Reply(deleted.state, false)
  {
  }

  // ---------- Frames

  /** A frame gives the sensors with its id a value and a time, and leaves everything else of every sensor alone. */
  lemma MeasuredExactly(sensors: map<bytes, Sensor>, canId: nat, reading: Sensor -> bytes, timestamp: int, x: bytes)
    ensures x in Measured(sensors, canId, reading, timestamp) <==> x in sensors
    ensures x in sensors ==>
              var now, was := Measured(sensors, canId, reading, timestamp)[x], sensors[x];
              if was.canId != canId then now == was
              else
                now == Sensor(was.id, was.name, was.ty, canId, was.initBit, was.endBit, was.rate, reading(was),
                              timestamp)
  {
  }

  /** End to end: a sensor created for bits inside the frame, fewer than 64 of them, holds after a frame with its id the
      number that these bits spell, cast to its type. */
  lemma FrameIsStored(s: State, body: SensorBody, data: bytes, dlc: nat, cast: (nat, bytes) -> bytes, timestamp: int,
                      init: nat, end: nat)
    requires Step(s, CreateSensor(body)).ok && dlc <= 8 && dlc <= |data|
    requires init == Unsigned(LastUnder(body.settings, INIT, 3, 0))
    requires end == Unsigned(LastUnder(body.settings, END, 3, 0))
    requires init <= end < 8 * dlc && end - init + 1 < 64 && 8 * dlc - end - 1 < 64
    ensures var after := Step(s, CreateSensor(body)).state.sensors;
            var canId := Unsigned(LastUnder(body.settings, CAN, 3, 0));
            var measured := Measured(after, canId, Reading(data, dlc, cast), timestamp);
            && Readable(after[body.id], dlc) && body.id in measured
            && measured[body.id].value == cast(BitField.Number(data, init, end + 1), body.ty)
            && measured[body.id].timestamp == timestamp
  {
    CreatedSensorIsStored(s, body);
    BitField.FieldInside(data, dlc, init, end);
  }
}
