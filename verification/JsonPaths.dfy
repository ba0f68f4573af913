/** Dotted paths through nested objects: json_object_dotget_value, json_object_dotset_value and
    json_object_dotremove, as functions of the object's entries. */
module JsonPaths {
  import opened Text
  import opened JsonValue
  import opened ObjectStore

  type Entries = seq<Entry<Value>>

  /** The segments of a dotted path. */
  datatype Path = Last(name: bytes) | Step(name: bytes, rest: Path)

  /** strchr(p, '.'): where the first segment ends. */
  function Dot(p: bytes): (d: nat)
    ensures d <= |p| && (d < |p| ==> p[d] == '.' as byte)
    ensures forall k :: 0 <= k < d ==> p[k] != '.' as byte
  {
    if p == [] || p[0] == '.' as byte then 0 else 1 + Dot(p[1..])
  }

  function Split(p: bytes): Path
    decreases |p|
  {
    var d := Dot(p);
    if d == |p| then Last(p) else Step(p[..d], Split(p[d + 1..]))
  }

  /** json_value_get_object; a missing object looks up like an empty one. */
  function EntriesOf(v: Option<Value>): Entries {
    match v
    case Some(Object(es)) => es
    case _ => []
  }

  /** json_object_dotget_value */
  function GetAt(es: Entries, p: Path): Option<Value>
    decreases p
  {
    match p
    case Last(name) => Find(es, name)
    case Step(name, rest) => GetAt(EntriesOf(Find(es, name)), rest)
  }

  /** json_object_dotset_value: the new entries, or None when it fails. `attached` says that the value already
      has a parent. Missing objects on the way are made, but nothing that stands there is replaced by an object. */
  function SetAt(es: Entries, p: Path, v: Value, attached: bool): Option<Entries>
    decreases p
  {
    match p
    case Last(name) => if attached then None else Some(Assigned(es, name, v))
    case Step(name, rest) =>
      var found: Option<Value> := Find(es, name);
      match found
      case Some(Object(inner)) => Below(es, name, SetAt(inner, rest, v, attached))
      case Some(_) => None
      case None => Below(es, name, SetAt([], rest, v, attached))
  }

  /** The object under `name` has changed, or has been made. */
  function Below(es: Entries, name: bytes, changed: Option<Entries>): Option<Entries> {
    if changed.None? then None else Some(Assigned(es, name, Object(changed.value)))
  }

  /** json_object_dotremove: the new entries, or None when it fails. */
  function RemoveAt(es: Entries, p: Path): Option<Entries>
    decreases p
  {
    match p
    case Last(name) => if Find(es, name).None? then None else Some(Removed(es, name))
    case Step(name, rest) =>
      var found: Option<Value> := Find(es, name);
      match found
      case Some(Object(inner)) => Below(es, name, RemoveAt(inner, rest))
      case _ => None
  }

  // ---------- How paths relate

  /** `p`, a dot, and `q`. */
  function Join(p: Path, q: Path): (j: Path)
    ensures j.Step? && j.name == p.name
  {
    match p
    case Last(name) => Step(name, q)
    case Step(name, rest) => Step(name, Join(rest, q))
  }

  lemma {:induction false} DotOfJoin(q: bytes, r: bytes)
    ensures Dot(q + ['.' as byte] + r) == Dot(q)
  {
    var p := q + ['.' as byte] + r;
    if q == [] {
      assert p[0] == '.' as byte;
    } else {
      assert p[0] == q[0] && p[1..] == q[1..] + ['.' as byte] + r;
      DotOfJoin(q[1..], r);
    }
  }

  /** Joining paths is joining their texts with a dot. */
  lemma {:induction false} SplitJoined(q: bytes, r: bytes)
    ensures Split(q + ['.' as byte] + r) == Join(Split(q), Split(r))
    decreases |q|
  {
    DotOfJoin(q, r);
    var p, d := q + ['.' as byte] + r, Dot(q);
    assert p[..d] == q[..d];
    if d == |q| {
      assert p[d + 1..] == r;
    } else {
      assert p[d + 1..] == q[d + 1..] + ['.' as byte] + r;
      SplitJoined(q[d + 1..], r);
    }
  }

  /** `q` continues `p`. */
  predicate Leads(p: Path, q: Path) {
    match (p, q)
    case (Last(a), Step(b, _)) => a == b
    case (Step(a, r), Step(b, s)) => a == b && Leads(r, s)
    case _ => false
  }

  lemma {:induction false} JoinLeads(p: Path, r: Path)
    ensures Leads(p, Join(p, r))
  {
    if p.Step? {
      JoinLeads(p.rest, r);
    }
  }

  lemma {:induction false} LeadsByJoin(p: Path, q: Path) returns (r: Path)
    requires Leads(p, q)
    ensures q == Join(p, r)
  {
    if p.Step? {
      r := LeadsByJoin(p.rest, q.rest);
    } else {
      r := q.rest;
    }
  }

  lemma LeadsIsJoin(p: Path, q: Path)
    ensures Leads(p, q) <==> exists r :: q == Join(p, r)
  {
    if Leads(p, q) {
      var r := LeadsByJoin(p, q);
    }
    if r :| q == Join(p, r) {
      JoinLeads(p, r);
    }
  }

  /** Neither is the other path, or continues it. */
  predicate Apart(p: Path, q: Path) {
    p != q && !Leads(p, q) && !Leads(q, p)
  }

  // ---------- One segment at a time

  lemma InnerIsStorable(es: Entries, name: bytes, levels: int)
    requires StorableEntries(es, levels)
    ensures StorableEntries(EntriesOf(Find(es, name)), levels - 1)
  {
    if Find(es, name).Some? {
      assert Index(IndexOf(es, name));
      assert Storable(Find(es, name).value, levels);
    }
  }

  /** A change below one name shows under that name and nowhere else. */
  lemma FindBelow(es: Entries, name: bytes, changed: Option<Entries>, n: bytes)
    requires DistinctNames(es) && Below(es, name, changed).Some?
    ensures changed.Some?
    ensures Find(Below(es, name, changed).value, n) == if n == name then Some(Object(changed.value)) else Find(es, n)
  {
    FindAfterAssign(es, name, Object(changed.value), n);
  }

  lemma SetBelow(es: Entries, p: Path, v: Value, attached: bool)
    requires p.Step?
    ensures SetAt(es, p, v, attached)
         == if Find(es, p.name).Some? && !Find(es, p.name).value.Object? then None
            else Below(es, p.name, SetAt(EntriesOf(Find(es, p.name)), p.rest, v, attached))
  {
  }

  // ---------- What is found after a value has been set

  /** A set value is found at its path. */
  lemma {:induction false} GetAfterSet(es: Entries, p: Path, v: Value, attached: bool, levels: int)
    requires StorableEntries(es, levels) && SetAt(es, p, v, attached).Some?
    ensures GetAt(SetAt(es, p, v, attached).value, p) == Some(v)
    decreases p
  {
    if p.Last? {
      FindAfterAssign(es, p.name, v, p.name);
    } else {
      var inner := EntriesOf(Find(es, p.name));
      SetBelow(es, p, v, attached);
      FindBelow(es, p.name, SetAt(inner, p.rest, v, attached), p.name);
      InnerIsStorable(es, p.name, levels);
      GetAfterSet(inner, p.rest, v, attached, levels - 1);
    }
  }

  /** Getting at a joined path is getting twice. */
  lemma {:induction false} GetJoined(es: Entries, p: Path, q: Path)
    ensures GetAt(es, Join(p, q)) == GetAt(EntriesOf(GetAt(es, p)), q)
    decreases p
  {
    if p.Step? {
      GetJoined(EntriesOf(Find(es, p.name)), p.rest, q);
    }
  }

  /** What is inside the set value is found through its path. */
  lemma GetThroughSet(es: Entries, p: Path, v: Value, attached: bool, q: Path, levels: int)
    requires StorableEntries(es, levels) && SetAt(es, p, v, attached).Some?
    ensures GetAt(SetAt(es, p, v, attached).value, Join(p, q)) == GetAt(EntriesOf(Some(v)), q)
  {
    GetJoined(SetAt(es, p, v, attached).value, p, q);
    GetAfterSet(es, p, v, attached, levels);
  }

  /** On the way to the set value stands an object in which the rest of the path has been set. */
  lemma {:induction false} GetOnTheWay(es: Entries, p: Path, q: Path, v: Value, attached: bool, levels: int)
    requires StorableEntries(es, levels) && SetAt(es, Join(p, q), v, attached).Some?
    ensures var below := SetAt(EntriesOf(GetAt(es, p)), q, v, attached);
            below.Some? && GetAt(SetAt(es, Join(p, q), v, attached).value, p) == Some(Object(below.value))
    decreases p
  {
    var whole, inner := Join(p, q), EntriesOf(Find(es, p.name));
    SetBelow(es, whole, v, attached);
    FindBelow(es, p.name, SetAt(inner, whole.rest, v, attached), p.name);
    if p.Step? {
      InnerIsStorable(es, p.name, levels);
      GetOnTheWay(inner, p.rest, q, v, attached, levels - 1);
    }
  }

  /** Paths that neither lead to the set value nor through it keep theirs. */
  lemma {:induction false} GetElsewhereAfterSet(es: Entries, p: Path, v: Value, attached: bool, q: Path, levels: int)
    requires StorableEntries(es, levels) && SetAt(es, p, v, attached).Some? && Apart(p, q)
    ensures GetAt(SetAt(es, p, v, attached).value, q) == GetAt(es, q)
    decreases p
  {
    if p.Last? {
      FindAfterAssign(es, p.name, v, q.name);
    } else {
      var inner := EntriesOf(Find(es, p.name));
      SetBelow(es, p, v, attached);
      FindBelow(es, p.name, SetAt(inner, p.rest, v, attached), q.name);
      if p.name == q.name {
        InnerIsStorable(es, p.name, levels);
        GetElsewhereAfterSet(inner, p.rest, v, attached, q.rest, levels - 1);
      }
    }
  }

  // ---------- When setting fails

  /** Something on the way to `p` is there and is not an object. */
  ghost predicate Blocked(es: Entries, p: Path) {
    exists q :: Leads(q, p) && NotAnObject(GetAt(es, q))
  }

  predicate NotAnObject(v: Option<Value>) {
    v.Some? && !v.value.Object?
  }

  lemma BlockedSplit(es: Entries, p: Path)
    ensures p.Last? ==> !Blocked(es, p)
    ensures p.Step? ==> (Blocked(es, p) <==>
              NotAnObject(Find(es, p.name)) || Blocked(EntriesOf(Find(es, p.name)), p.rest))
  {
    if p.Step? {
      var inner := EntriesOf(Find(es, p.name));
      if q :| Leads(q, p) && NotAnObject(GetAt(es, q)) {
        if q.Step? {
          assert Leads(q.rest, p.rest) && NotAnObject(GetAt(inner, q.rest));
        }
      }
      if NotAnObject(Find(es, p.name)) {
        assert Leads(Last(p.name), p) && NotAnObject(GetAt(es, Last(p.name)));
      }
      if q :| Leads(q, p.rest) && NotAnObject(GetAt(inner, q)) {
        assert Leads(Step(p.name, q), p) && NotAnObject(GetAt(es, Step(p.name, q)));
      }
    }
  }

  /** Setting fails exactly if the value has a parent already or a non-object stands in the way. */
  lemma {:induction false} SetFailsExactlyIfBlocked(es: Entries, p: Path, v: Value, attached: bool)
    ensures SetAt(es, p, v, attached).None? <==> attached || Blocked(es, p)
    decreases p
  {
    BlockedSplit(es, p);
    if p.Step? {
      SetBelow(es, p, v, attached);
      SetFailsExactlyIfBlocked(EntriesOf(Find(es, p.name)), p.rest, v, attached);
    }
  }

  // ---------- Removing

  lemma {:induction false} NothingInNothing(p: Path)
    ensures GetAt([], p) == None
    decreases p
  {
    if p.Step? {
      NothingInNothing(p.rest);
    }
  }

  lemma {:induction false} RemoveSucceedsExactlyIfFound(es: Entries, p: Path)
    ensures RemoveAt(es, p).Some? <==> GetAt(es, p).Some?
    decreases p
  {
    if p.Step? {
      RemoveSucceedsExactlyIfFound(EntriesOf(Find(es, p.name)), p.rest);
      NothingInNothing(p.rest);
    }
  }

  lemma RemoveBelow(es: Entries, p: Path)
    requires p.Step? && RemoveAt(es, p).Some?
    ensures RemoveAt(es, p) == Below(es, p.name, RemoveAt(EntriesOf(Find(es, p.name)), p.rest))
  {
  }

  lemma {:induction false} GetAfterRemove(es: Entries, p: Path, levels: int)
    requires StorableEntries(es, levels) && RemoveAt(es, p).Some?
    ensures GetAt(RemoveAt(es, p).value, p) == None
    decreases p
  {
    if p.Last? {
      FindAfterRemove(es, p.name, p.name);
    } else {
      var inner := EntriesOf(Find(es, p.name));
      RemoveBelow(es, p);
      FindBelow(es, p.name, RemoveAt(inner, p.rest), p.name);
      InnerIsStorable(es, p.name, levels);
      GetAfterRemove(inner, p.rest, levels - 1);
    }
  }

  lemma {:induction false} GetElsewhereAfterRemove(es: Entries, p: Path, q: Path, levels: int)
    requires StorableEntries(es, levels) && RemoveAt(es, p).Some? && Apart(p, q)
    ensures GetAt(RemoveAt(es, p).value, q) == GetAt(es, q)
    decreases p
  {
    if p.Last? {
      FindAfterRemove(es, p.name, q.name);
    } else {
      var inner := EntriesOf(Find(es, p.name));
      RemoveBelow(es, p);
      FindBelow(es, p.name, RemoveAt(inner, p.rest), q.name);
      if p.name == q.name {
        InnerIsStorable(es, p.name, levels);
        GetElsewhereAfterRemove(inner, p.rest, q.rest, levels - 1);
      }
    }
  }

  /** Every object on the way to `p` exists. */
  predicate ParentIsThere(es: Entries, p: Path)
    decreases p
  {
    p.Last? ||
    var found := Find(es, p.name);
    found.Some? && found.value.Object? && ParentIsThere(EntriesOf(found), p.rest)
  }

  lemma AddThenRemove(es: Entries, name: bytes, v: Value)
    requires Find(es, name) == None
    ensures RemoveAt(Assigned(es, name, v), Last(name)) == Some(es)
  {
    assert IndexOf(es, name) == |es|;
    FindNone(es, name);
    IndexOfFirst(es + [Entry(name, v)], |es|);
    FindAfterAppend(es, Entry(name, v), name);
  }

  lemma {:induction false} IndexIsFirst(es: Entries, name: bytes)
    ensures forall k :: 0 <= k < IndexOf(es, name) ==> es[k].name != name
  {
    if es != [] && es[0].name != name {
      IndexIsFirst(es[1..], name);
    }
  }

  /** Assigning a present name, and then its old value again. */
  lemma AssignTwice(es: Entries, name: bytes, v: Value)
    requires Find(es, name).Some?
    ensures Assigned(Assigned(es, name, v), name, Find(es, name).value) == es
  {
    var i := IndexOf(es, name);
    IndexIsFirst(es, name);
    IndexOfFirst(Assigned(es, name, v), i);
    assert es[i] == Entry(name, Find(es, name).value);
  }

  /** Removing a value that was set where nothing stood, in an object that was there, restores the tree. */
  lemma {:induction false} RemoveUndoesSet(es: Entries, p: Path, v: Value, levels: int)
    requires StorableEntries(es, levels) && GetAt(es, p) == None && ParentIsThere(es, p)
    ensures SetAt(es, p, v, false).Some? && RemoveAt(SetAt(es, p, v, false).value, p) == Some(es)
    decreases p
  {
    if p.Last? {
      AddThenRemove(es, p.name, v);
    } else {
      var inner := EntriesOf(Find(es, p.name));
      InnerIsStorable(es, p.name, levels);
      RemoveUndoesSet(inner, p.rest, v, levels - 1);
      SetBelow(es, p, v, false);
      var changed := SetAt(inner, p.rest, v, false);
      FindBelow(es, p.name, changed, p.name);
      AssignTwice(es, p.name, Object(changed.value));
    }
  }
}
