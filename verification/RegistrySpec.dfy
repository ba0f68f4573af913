/** The sensor and sensor group handlers as steps of one state machine over two finite maps. */
module RegistrySpec {
  import opened Text

  // ---------- State

  datatype Status = Unconfigured | Configured | Running | Failed | Exiting

  datatype Sensor = Sensor(id: bytes, name: bytes, ty: bytes, canId: nat, initBit: nat, endBit: nat, rate: nat,
                           value: bytes, timestamp: int)

  datatype Group = Group(rate: nat, sensors: seq<bytes>)

  datatype State = State(sensors: map<bytes, Sensor>, groups: map<bytes, Group>, status: Status)

  /** Creating something leaves a running service running. */
  function Configure(status: Status): Status {
    if status == Running then Running else Configured
  }

  // ---------- Requests

  function Ascii(s: string): bytes {
    if s == "" then [] else [s[0] as int % 256] + Ascii(s[1..])
  }

  const ID_KEY := Ascii("id")
  const CAN_ID := Ascii("can-id")
  const INIT_BIT := Ascii("init-bit")
  const END_BIT := Ascii("end-bit")

  datatype Query = Query(name: bytes, value: bytes)

  /** A connection setting, with the number the C library reads from its value. */
  datatype Setting = Setting(key: bytes, value: int)

  /** The body of a sensor request; a setting without a key or a value is None. */
  datatype SensorBody =
    | SensorBody(id: bytes, name: bytes, ty: bytes, settings: seq<Option<Setting>>, rate: int)
    | IncompleteSensor

  /** A sensor of a group request: a whole configuration, an id alone, or something in between. */
  datatype Item =
    | Full(id: bytes, name: bytes, ty: bytes, settings: seq<Option<Setting>>, rate: int)
    | OnlyId(id: bytes)
    | Mixed

  datatype GroupBody =
    | GroupBody(id: bytes, rate: int, items: seq<Item>)
    | IncompleteGroup

  datatype Request =
    | CreateSensor(sensor: SensorBody)
    | UpdateSensors(queries: seq<Query>, sensor: SensorBody)
    | DeleteSensors(queries: seq<Query>)
    | CreateGroup(group: GroupBody)
    | UpdateGroups(queries: seq<Query>, group: GroupBody)
    | DeleteGroups(queries: seq<Query>)

  /** The state after a request, and whether it is answered with OK. */
  datatype Reply = Reply(state: State, ok: bool)

  /** The values of the id queries, in order. */
  function Ids(queries: seq<Query>): seq<bytes> {
    if queries == [] then []
    else (if queries[0].name == ID_KEY then [queries[0].value] else []) + Ids(queries[1..])
  }

  // ---------- Settings

  datatype Fields = Fields(canId: int, initBit: int, endBit: int)

  /** The loop over three settings, from the `k`th on: None for a missing part or an unknown key. */
  function ReadSettings(settings: seq<Option<Setting>>, k: nat, f: Fields): Option<Fields>
    requires k <= |settings|
    decreases |settings| - k
  {
    if k == |settings| then Some(f)
    else
      match settings[k]
      case None => None
      case Some(Setting(key, value)) =>
        if key == CAN_ID then ReadSettings(settings, k + 1, f.(canId := value))
        else if key == INIT_BIT then ReadSettings(settings, k + 1, f.(initBit := value))
        else if key == END_BIT then ReadSettings(settings, k + 1, f.(endBit := value))
        else None
  }

  /** There must be exactly three settings. */
  function SettingsOf(settings: seq<Option<Setting>>, unset: int): Option<Fields> {
    if |settings| == 3 then ReadSettings(settings, 0, Fields(unset, unset, unset)) else None
  }

  function NewSensor(id: bytes, name: bytes, ty: bytes, f: Fields, rate: int): Sensor {
    Sensor(id, name, ty, Unsigned(f.canId), Unsigned(f.initBit), Unsigned(f.endBit), Unsigned(rate), [], 0)
  }

  // ---------- Sensor handlers

  /** create_sensors_configuration */
  function SensorCreated(s: State, body: SensorBody): Reply {
    match body
    case IncompleteSensor => Reply(s, false)
    case SensorBody(id, name, ty, settings, rate) =>
      if id in s.sensors then Reply(s, false)
      else
        match SettingsOf(settings, 0)
        case None => Reply(s, false)
        case Some(f) =>
          Reply(s.(sensors := s.sensors[id := NewSensor(id, name, ty, f, rate)], status := Configure(s.status)), true)
  }

  /** The deletions of the query loop: what is left, and whether every id was there. */
  function DeleteEach<V>(table: map<bytes, V>, ids: seq<bytes>): (map<bytes, V>, bool)
    decreases |ids|
  {
    if ids == [] then (table, true)
    else if ids[0] in table then DeleteEach(table - {ids[0]}, ids[1..])
    else (table, false)
  }

  /** The list without the first occurrence of the id. */
  function Without(list: seq<bytes>, id: bytes): seq<bytes> {
    if list == [] then [] else if list[0] == id then list[1..] else [list[0]] + Without(list[1..], id)
  }

  function Purged(groups: map<bytes, Group>, id: bytes): map<bytes, Group> {
    map g | g in groups :: groups[g].(sensors := Without(groups[g].sensors, id))
  }

  /** delete_sensors_configuration: the groups' lists are purged of the last id alone, and only if all were there. */
  function SensorsDeleted(s: State, queries: seq<Query>): Reply {
    var ids := Ids(queries);
    var (left, all) := DeleteEach(s.sensors, ids);
    if !all || ids == [] then Reply(s.(sensors := left), false)
    else Reply(s.(sensors := left, groups := Purged(s.groups, ids[|ids| - 1])), true)
  }

  /** update_sensors_configuration */
  function SensorsUpdated(s: State, queries: seq<Query>, body: SensorBody): Reply {
    var deleted := SensorsDeleted(s, queries);
    if deleted.ok then SensorCreated(deleted.state, body) else deleted
  }

  // ---------- Sensor group handlers

  function ItemId(item: Item): bytes {
    if item.Mixed? then [] else item.id
  }

  function ItemIds(items: seq<Item>, n: nat): (ids: seq<bytes>)
    requires n <= |items|
    ensures |ids| == n
  {
    if n == 0 then [] else ItemIds(items, n - 1) + [ItemId(items[n - 1])]
  }

  function ToSet(list: seq<bytes>): set<bytes> {
    set x | x in list
  }

  datatype Added = Added(sensors: map<bytes, Sensor>, ok: bool)

  /** One item of a group request, with the ids already in the list: a stored sensor with the id of a whole
      configuration is deleted before the configuration is looked at. */
  function ItemAdded(sensors: map<bytes, Sensor>, item: Item, listed: seq<bytes>): Added {
    match item
    case Full(id, name, ty, settings, rate) =>
      (match SettingsOf(settings, -1)
       case None => Added(sensors - {id}, false)
       case Some(f) =>
         if f.canId == -1 || f.initBit == -1 || f.endBit == -1 then Added(sensors - {id} - ToSet(listed), false)
         else Added(sensors[id := NewSensor(id, name, ty, f, rate)], true))
    case OnlyId(id) => Added(sensors, id in sensors)
    case Mixed => Added(sensors, false)
  }

  /** The items from the `k`th on. */
  function ItemsAdded(sensors: map<bytes, Sensor>, items: seq<Item>, k: nat): Added
    requires k <= |items|
    decreases |items| - k
  {
    if k == |items| then Added(sensors, true)
    else
      var first := ItemAdded(sensors, items[k], ItemIds(items, k));
      if first.ok then ItemsAdded(first.sensors, items, k + 1) else first
  }

  /** create_sensorgroups_subscription */
  function GroupCreated(s: State, body: GroupBody): Reply {
    match body
    case IncompleteGroup => Reply(s, false)
    case GroupBody(id, rate, items) =>
      if id in s.groups then Reply(s, false)
      else
        var added := ItemsAdded(s.sensors, items, 0);
        if !added.ok then Reply(s.(sensors := added.sensors), false)
        else
          var group := Group(Unsigned(rate), ItemIds(items, |items|));
          Reply(State(added.sensors, s.groups[id := group], Configure(s.status)), true)
  }

  /** delete_sensorgroups_subscription: the sensors stay. */
  function GroupsDeleted(s: State, queries: seq<Query>): Reply {
    var ids := Ids(queries);
    var (left, all) := DeleteEach(s.groups, ids);
    Reply(s.(groups := left), all && ids != [])
  }

  /** update_sensorgroups_subscription */
  function GroupsUpdated(s: State, queries: seq<Query>, body: GroupBody): Reply {
    var deleted := GroupsDeleted(s, queries);
    if deleted.ok then GroupCreated(deleted.state, body) else deleted
  }

  function Step(s: State, request: Request): Reply {
    match request
    case CreateSensor(body) => SensorCreated(s, body)
    case UpdateSensors(queries, body) => SensorsUpdated(s, queries, body)
    case DeleteSensors(queries) => SensorsDeleted(s, queries)
    case CreateGroup(body) => GroupCreated(s, body)
    case UpdateGroups(queries, body) => GroupsUpdated(s, queries, body)
    case DeleteGroups(queries) => GroupsDeleted(s, queries)
  }

  function Run(s: State, requests: seq<Request>): State
    decreases |requests|
  {
    if requests == [] then s else Run(Step(s, requests[0]).state, requests[1..])
  }

  /** The sensors that a frame's bits are for get a new value and a new time. */
  function Measured(sensors: map<bytes, Sensor>, canId: nat, reading: Sensor -> bytes, timestamp: int)
    : map<bytes, Sensor>
  {
    map k | k in sensors :: MeasuredSensor(sensors[k], canId, reading, timestamp)
  }

  function MeasuredSensor(sensor: Sensor, canId: nat, reading: Sensor -> bytes, timestamp: int): Sensor {
    if sensor.canId == canId then sensor.(value := reading(sensor), timestamp := timestamp) else sensor
  }
}
