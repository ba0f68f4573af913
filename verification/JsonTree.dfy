/** JSON values as parson.c keeps them: nodes on the heap that point to their children and to their parent.
    `model` is the tree a node stands for and `repr` holds every node it is made of. The names and children of an
    object, and the items of an array, are sequences here; ObjectStore and ArrayStore have the stores themselves. */
module JsonTree {
  import opened Text
  import opened JsonValue
  import opened ObjectStore
  import opened JsonEquality
  import opened JsonPaths

  datatype Kind = KNull | KBool(b: bool) | KNumber(x: real) | KString(s: bytes) | KArray | KObject

  ghost predicate NamesOf(names: seq<bytes>, es: Entries) {
    |names| == |es| && forall i :: 0 <= i < |es| ==> es[i].name == names[i]
  }

  /** What a node of this kind, with these names and children, stands for. */
  ghost predicate Shape(kind: Kind, names: seq<bytes>, kids: seq<Node>, model: Value)
    reads kids
  {
    match kind
    case KArray =>
      model.Array? && |model.items| == |kids| && forall i :: 0 <= i < |kids| ==> model.items[i] == kids[i].model
    case KObject =>
      model.Object? && |model.entries| == |kids| && NamesOf(names, model.entries) && DistinctNames(model.entries)
      && forall i :: 0 <= i < |kids| ==> model.entries[i].value == kids[i].model
    case KNull => kids == [] && model == Null
    case KBool(b) => kids == [] && model == Bool(b)
    case KNumber(x) => kids == [] && model == Number(x)
    case KString(s) => kids == [] && model == String(s)
  }

  /** The children of `p`: trees in `below`, apart from one another and from `p`. */
  ghost predicate Family(kids: seq<Node>, p: Node, below: set<Node>)
    reads below
    decreases below, 2
  {
    && (forall i :: 0 <= i < |kids| ==> kids[i] in below && kids[i].repr <= below && IsChild(kids[i], p))
    && (forall i, j :: 0 <= i < j < |kids| ==> kids[i].repr !! kids[j].repr)
  }

  ghost predicate IsChild(kid: Node, p: Node)
    reads kid, kid.repr
    decreases kid.repr, 1
  {
    kid in kid.repr && p !in kid.repr && kid.parent == p && kid.Valid()
  }

  function Others(kids: seq<Node>, i: nat): (r: seq<Node>)
    requires i < |kids|
    ensures |r| == |kids| - 1 && forall k :: 0 <= k < |r| ==> r[k] == kids[if k < i then k else k + 1]
  {
    kids[..i] + kids[i + 1..]
  }

  lemma FamilyWithout(kids: seq<Node>, p: Node, below: set<Node>, i: nat)
    requires Family(kids, p, below) && i < |kids|
    ensures Family(Others(kids, i), p, below - kids[i].repr) && IsChild(kids[i], p)
  {
    var rest := Others(kids, i);
    forall k | 0 <= k < |rest| ensures rest[k] in below - kids[i].repr && rest[k].repr <= below - kids[i].repr {
      assert IsChild(rest[k], p);
    }
  }

  lemma FamilyWith(kids: seq<Node>, p: Node, below: set<Node>, i: nat, kid: Node)
    requires i < |kids| && kids[i] == kid && Family(Others(kids, i), p, below) && IsChild(kid, p) && kid.repr !! below
    ensures Family(kids, p, below + kid.repr)
  {
    var rest := Others(kids, i);
    forall k | 0 <= k < |kids| && k != i ensures kids[k] == rest[if k < i then k else k - 1] {
    }
  }

  lemma FamilyAdds(kids: seq<Node>, p: Node, below: set<Node>, kid: Node)
    requires Family(kids, p, below) && IsChild(kid, p) && kid.repr !! below
    ensures Family(kids + [kid], p, below + kid.repr)
  {
    assert Others(kids + [kid], |kids|) == kids;
    FamilyWith(kids + [kid], p, below, |kids|, kid);
  }

  /** The footprint may be larger: it may hold nodes that have left the tree. */
  lemma FamilyGrows(kids: seq<Node>, p: Node, below: set<Node>, more: set<Node>)
    requires Family(kids, p, below) && below <= more
    ensures Family(kids, p, more)
  {
  }

  class Node {
    var kind: Kind
    var names: seq<bytes>
    var kids: seq<Node>
    var parent: Node?
    ghost var repr: set<Node>
    ghost var model: Value

    ghost predicate Valid()
      reads this, repr
      decreases repr, 0
    {
      this in repr && Family(kids, this, repr - {this}) && Shape(kind, names, kids, model)
    }

    /** What holds of one child. */
    lemma KidIs(i: nat)
      requires Valid() && i < |kids|
      ensures kids[i] in repr && kids[i].repr < repr && kids[i].Valid() && IsChild(kids[i], this)
      ensures kids[i].kind.KObject? <==> kids[i].model.Object?
    {
      assert IsChild(kids[i], this);
      kids[i].KindIsModels();
    }

    lemma KindIsModels()
      requires Valid()
      ensures kind.KObject? <==> model.Object?
    {
    }

    /** json_value_init_... */
    constructor (kind: Kind)
      ensures Valid() && fresh(repr) && parent == null && this.kind == kind && kids == [] && names == []
      ensures repr == {this}
    {
      this.kind, names, kids, parent, repr := kind, [], [], null, {this};
      model := match kind
               case KArray => Array([])
               case KObject => Object([])
               case KNull => Null
               case KBool(b) => Bool(b)
               case KNumber(x) => Number(x)
               case KString(s) => String(s);
    }

    /** json_object_getn_value: the position of the child under `name`, or the number of children. */
    method Position(name: bytes) returns (i: nat)
      requires Valid() && kind.KObject?
      ensures i == IndexOf(model.entries, name) <= |kids|
      ensures i < |kids| ==> names[i] == name && Find(model.entries, name) == Some(kids[i].model)
      ensures i == |kids| ==> name !in names
    {
      i := 0;
      while i < |kids|
        invariant i <= |kids|
        invariant forall k :: 0 <= k < i ==> model.entries[k].name != name
      {
        if names[i] == name {
          IndexOfFirst(model.entries, i);
          return;
        }
        i := i + 1;
      }
      FindNone(model.entries, name);
    }

    /** json_value_equals */
    method Equals(b: Node) returns (same: bool)
      requires Valid() && b.Valid()
      ensures same == Equal(model, b.model)
      decreases repr, 2
    {
      match kind {
        case KNull => same := b.kind.KNull?;
        case KBool(x) => same := b.kind == KBool(x);
        case KNumber(x) => same := b.kind.KNumber? && Near(x, b.kind.x);
        case KString(s) => same := b.kind == KString(s);
        case KArray => same := ArrayEquals(b);
        case KObject => same := ObjectEquals(b);
      }
    }

    method ArrayEquals(b: Node) returns (same: bool)
      requires Valid() && b.Valid() && kind.KArray?
      ensures same == Equal(model, b.model)
      decreases repr, 1
    {
      if !b.kind.KArray? || |kids| != |b.kids| {
        return false;
      }
      for i := 0 to |kids|
        invariant forall k :: 0 <= k < i ==> Equal(model.items[k], b.model.items[k])
        modifies {}
      {
        KidIs(i);
        b.KidIs(i);
        var r := kids[i].Equals(b.kids[i]);
        assert r == Equal(model.items[i], b.model.items[i]);
        if !r {
          return false;
        }
      }
      return true;
    }

    method ObjectEquals(b: Node) returns (same: bool)
      requires Valid() && b.Valid() && kind.KObject?
      ensures same == Equal(model, b.model)
      decreases repr, 1
    {
      if !b.kind.KObject? || |kids| != |b.kids| {
        return false;
      }
      for i := 0 to |kids|
        invariant forall k :: 0 <= k < i ==> EqualUnder(model.entries, b.model.entries, model.entries[k].name)
        modifies {}
      {
        FindByIndex(model.entries, i);
        var r := EqualsUnder(b, names[i]);
        assert r == EqualUnder(model.entries, b.model.entries, model.entries[i].name);
        if !r {
          return false;
        }
      }
      return true;
    }

    /** One round of the loop over the names: both values are looked up by name. */
    method EqualsUnder(b: Node, name: bytes) returns (same: bool)
      requires Valid() && b.Valid() && kind.KObject? && b.kind.KObject? && Find(model.entries, name).Some?
      ensures same == EqualUnder(model.entries, b.model.entries, name)
      decreases repr, 0
    {
      var x := Position(name);
      var y := b.Position(name);
      if y == |b.kids| {
        return false;
      }
      KidIs(x);
      b.KidIs(y);
      same := kids[x].Equals(b.kids[y]);
    }

    // ---------- Adding children

    method SetParent(p: Node)
      requires Valid()
      modifies this`parent
      ensures Valid() && parent == p
    {
      parent := p;
    }

    /** Makes `kid` the last child, under `name` in an object: the end of json_array_add and json_object_addn. */
    method Attach(name: bytes, kid: Node)
      requires Valid() && kid.Valid() && kid.repr !! repr
      requires kind.KArray? || (kind.KObject? && Find(model.entries, name) == None)
      modifies this`names, this`kids, this`repr, this`model, kid`parent
      ensures Valid() && repr == old(repr) + kid.repr && kids == old(kids) + [kid] && kid.parent == this
      ensures model == if kind.KArray? then Array(old(model).items + [kid.model])
                       else Object(old(model).entries + [Entry(name, kid.model)])
    {
      ghost var below := repr - {this};
      kid.SetParent(this);
      FamilyAdds(kids, this, below, kid);
      if kind.KObject? {
        DistinctAdd(model.entries, Entry(name, kid.model));
        names, model := names + [name], Object(model.entries + [Entry(name, kid.model)]);
      } else {
        model := Array(model.items + [kid.model]);
      }
      kids, repr := kids + [kid], repr + kid.repr;
      assert repr - {this} == below + kid.repr;
    }

    /** json_array_add */
    method AddItem(kid: Node)
      requires Valid() && kind.KArray? && kid.Valid() && kid.repr !! repr
      modifies this`names, this`kids, this`repr, this`model, kid`parent
      ensures Valid() && model == Array(old(model).items + [kid.model]) && repr == old(repr) + kid.repr
      ensures kids == old(kids) + [kid] && kid.parent == this
    {
      Attach([], kid);
    }

    /** json_object_addn */
    method AddEntry(name: bytes, kid: Node) returns (ok: bool)
      requires Valid() && kind.KObject? && kid.Valid() && kid.repr !! repr
      modifies this`names, this`kids, this`repr, this`model, kid`parent
      ensures Valid() && ok == (Find(old(model).entries, name) == None)
      ensures model == Object(Added(old(model).entries, name, kid.model))
      ensures ok ==> repr == old(repr) + kid.repr && kids == old(kids) + [kid] && kid.parent == this
      ensures !ok ==> unchanged(this) && unchanged(kid)
    {
      var i := Position(name);
      if i < |kids| {
        return false;
      }
      Attach(name, kid);
      return true;
    }

    // ---------- Copying

    /** json_value_deep_copy: no node of the copy is one of the original. */
    method DeepCopy() returns (copy: Node)
      requires Valid()
      ensures copy.Valid() && fresh(copy.repr) && copy.model == model && copy.parent == null
      decreases repr, 1
    {
      copy := new Node(kind);
      if kind.KArray? {
        CopyItems(copy);
      } else if kind.KObject? {
        CopyEntries(copy);
      }
    }

    method CopyItems(copy: Node)
      requires Valid() && kind.KArray? && copy.Valid() && copy.model == Array([]) && copy.kind == kind
      requires copy.repr !! repr
      modifies copy
      ensures copy.Valid() && copy.model == model && copy.parent == old(copy.parent)
      ensures fresh(copy.repr - old(copy.repr))
      decreases repr, 0
    {
      for i := 0 to |kids|
        invariant copy.Valid() && copy.kind == kind && copy.parent == old(copy.parent)
        invariant copy.model == Array(model.items[..i])
        invariant fresh(copy.repr - old(copy.repr))
      {
        KidIs(i);
        var kid := kids[i].DeepCopy();
        copy.AddItem(kid);
        assert model.items[..i + 1] == model.items[..i] + [model.items[i]];
      }
    }

    method CopyEntries(copy: Node)
      requires Valid() && kind.KObject? && copy.Valid() && copy.model == Object([]) && copy.kind == kind
      requires copy.repr !! repr
      modifies copy
      ensures copy.Valid() && copy.model == model && copy.parent == old(copy.parent)
      ensures fresh(copy.repr - old(copy.repr))
      decreases repr, 0, 2
    {
      for i := 0 to |kids|
        invariant copy.Valid() && copy.kind == kind && copy.parent == old(copy.parent)
        invariant copy.model == Object(model.entries[..i])
        invariant fresh(copy.repr - old(copy.repr))
      {
        CopyEntry(copy, i);
      }
    }

    /** The value is looked up by its name, and added to the copy under it. */
    method CopyEntry(copy: Node, i: nat)
      requires Valid() && kind.KObject? && i < |kids| && copy.Valid() && copy.kind == kind
      requires copy.model == Object(model.entries[..i]) && copy.repr !! repr
      modifies copy`names, copy`kids, copy`repr, copy`model
      ensures copy.Valid() && copy.model == Object(model.entries[..i + 1])
      ensures fresh(copy.repr - old(copy.repr))
      decreases repr, 0, 1
    {
      NextEntry(model.entries, i);
      var kid := CopyUnder(names[i]);
      var ok := copy.AddEntry(names[i], kid);
    }

    method CopyUnder(name: bytes) returns (kid: Node)
      requires Valid() && kind.KObject? && Find(model.entries, name).Some?
      ensures kid.Valid() && fresh(kid.repr) && kid.model == Find(model.entries, name).value && kid.parent == null
      decreases repr, 0, 0
    {
      var k := Position(name);
      KidIs(k);
      kid := kids[k].DeepCopy();
    }

    // ---------- Dotted paths

    /** The node that a dotted path leads to, child by child. */
    ghost function NodeAt(p: Path): (n: Node?)
      reads `names, `kids, `model, `repr, repr`names, repr`kids, repr`model, repr`repr
      decreases p
    {
      var i := if model.Object? then IndexOf(model.entries, p.name) else |kids|;
      if i >= |kids| then null
      else
        match p
        case Last(_) => kids[i]
        case Step(_, rest) => if kids[i] in repr && kids[i].repr <= repr then kids[i].NodeAt(rest) else null
    }

    /** A path that starts with the name of the `i`th child leads there, and on from there. */
    lemma LeadsToKid(i: nat, p: Path)
      requires Valid() && kind.KObject? && i < |kids| && model.entries[i].name == p.name
      ensures NodeAt(p) == if p.Last? then kids[i] else kids[i].NodeAt(p.rest)
    {
      DistinctNamesMeansPairwise(model.entries);
      IndexOfFirst(model.entries, i);
      KidIs(i);
    }

    lemma LeadsOn(kid: Node?, name: bytes, rest: Path)
      requires Valid() && kind.KObject? && kid == NodeAt(Last(name))
      ensures NodeAt(Step(name, rest)) == if kid == null then null else kid.NodeAt(rest)
    {
      var i := IndexOf(model.entries, name);
      if i < |kids| {
        LeadsToKid(i, Last(name));
        LeadsToKid(i, Step(name, rest));
      }
    }

    lemma NotAnObject(p: Path)
      requires Valid() && !kind.KObject?
      ensures NodeAt(p) == null
    {
      KindIsModels();
    }

    /** json_object_getn_value */
    method Child(name: bytes) returns (kid: Node?)
      requires Valid() && kind.KObject?
      ensures kid == NodeAt(Last(name)) && (kid == null <==> Find(model.entries, name) == None)
      ensures kid != null ==>
                kid in kids && kid in repr && kid.repr < repr && kid.Valid()
                && Find(model.entries, name) == Some(kid.model)
      ensures kid != null ==> (kid.kind.KObject? <==> kid.model.Object?)
    {
      var i := Position(name);
      if i == |kids| {
        return null;
      }
      KidIs(i);
      return kids[i];
    }

    /** That node stands for the value at the path. */
    lemma {:induction false} NodeAtStands(p: Path)
      requires Valid() && kind.KObject?
      ensures if NodeAt(p) == null then GetAt(model.entries, p) == None
              else NodeAt(p) in repr && NodeAt(p).Valid() && GetAt(model.entries, p) == Some(NodeAt(p).model)
      decreases p
    {
      var i := IndexOf(model.entries, p.name);
      if i < |kids| {
        LeadsToKid(i, p);
        KidIs(i);
        if p.Step? {
          if kids[i].kind.KObject? {
            kids[i].NodeAtStands(p.rest);
          } else {
            kids[i].NotAnObject(p.rest);
            NothingInNothing(p.rest);
          }
        }
      } else if p.Step? {
        NothingInNothing(p.rest);
      }
    }

    /** What json_object_dotget_value has found, from the child under the first segment. */
    static lemma Got(start: Node?, p: Path, kid: Node?, found: Node?)
      requires start != null ==> start.Valid() && start.kind.KObject?
      requires kid == if start == null then null else start.NodeAt(Last(p.name))
      requires found == if p.Last? then kid
                        else if kid == null || !kid.kind.KObject? then null
                        else kid.NodeAt(p.rest)
      ensures found == if start == null then null else start.NodeAt(p)
    {
      if p.Step? && start != null {
        start.LeadsOn(kid, p.name, p.rest);
        if kid != null && !kid.kind.KObject? {
          start.KidAt(p.name);
          kid.NotAnObject(p.rest);
        }
      }
    }

    lemma KidAt(name: bytes)
      requires Valid() && kind.KObject?
      ensures NodeAt(Last(name)) != null ==> NodeAt(Last(name)).Valid()
    {
      NodeAtStands(Last(name));
    }

    static lemma GotStands(start: Node?, p: Path)
      requires start != null ==> start.Valid() && start.kind.KObject?
      ensures var found := if start == null then null else start.NodeAt(p);
              var spec := GetAt(if start == null then [] else start.model.entries, p);
              if found == null then spec == None
              else start != null && found in start.repr && found.Valid() && spec == Some(found.model)
    {
      if start == null {
        NothingInNothing(p);
      } else {
        start.NodeAtStands(p);
      }
    }

    /** json_object_dotget_value; the object may be NULL. */
    static method DotGet(start: Node?, name: bytes) returns (found: Node?)
      requires start != null ==> start.Valid() && start.kind.KObject?
      ensures found == if start == null then null else start.NodeAt(Split(name))
      ensures var spec := GetAt(if start == null then [] else start.model.entries, Split(name));
              if found == null then spec == None
              else start != null && found in start.repr && found.Valid() && spec == Some(found.model)
      decreases |name|
    {
      var d := Dot(name);
      var kid: Node? := null;
      if start != null {
        kid := start.Child(name[..d]);
      }
      if d == |name| {
        SplitLast(name);
        found := kid;
      } else {
        SplitStep(name, Split(name));
        found := DotGet(if kid != null && kid.kind.KObject? then kid else null, name[d + 1..]);
      }
      Got(start, Split(name), kid, found);
      GotStands(start, Split(name));
    }

    /** json_object_set_value */
    method SetValue(name: bytes, value: Node) returns (ok: bool, ghost at: nat)
      requires Valid() && kind.KObject? && value.Valid() && (value.parent == null ==> value.repr !! repr)
      modifies this`names, this`kids, this`repr, this`model, value`parent
      ensures Valid() && ok == (old(value.parent) == null)
      ensures !ok ==> unchanged(this) && unchanged(value)
      ensures ok ==> model == Object(Assigned(old(model).entries, name, value.model)) && repr == old(repr) + value.repr
      ensures ok ==> value.parent == this && at < |kids| && kids[at] == value && model.entries[at].name == name
    {
      if value.parent != null {
        return false, 0;
      }
      var i := Position(name);
      if i < |kids| {
        Replace(i, value);
        return true, i;
      }
      ok := AddEntry(name, value);
      at := |kids| - 1;
    }

    /** Another child takes the place of the `i`th. */
    method Replace(i: nat, value: Node)
      requires Valid() && kind.KObject? && value.Valid() && value.repr !! repr && i < |kids|
      modifies this`kids, this`repr, this`model, value`parent
      ensures Valid() && kids == old(kids)[i := value] && value.parent == this && repr == old(repr) + value.repr
      ensures model == Object(old(model).entries[i := Entry(names[i], value.model)])
    {
      ghost var below := repr - {this} - kids[i].repr;
      FamilyWithout(kids, this, repr - {this}, i);
      value.SetParent(this);
      kids := kids[i := value];
      assert Others(kids, i) == Others(old(kids), i);
      FamilyWith(kids, this, below, i, value);
      Refresh(value, i, below);
    }

    /** Brings the ghost fields up to date after the `i`th child has changed. */
    ghost method Refresh(kid: Node, i: nat, below: set<Node>)
      requires i < |kids| && kids[i] == kid && Family(kids, this, below + kid.repr) && this in repr
      requires kind.KObject? && model.Object? && |model.entries| == |kids| && NamesOf(names, model.entries)
      requires DistinctNames(model.entries) && below <= repr - {this} && this !in kid.repr
      requires forall j :: 0 <= j < |kids| && j != i ==> model.entries[j].value == kids[j].model
      modifies this`repr, this`model
      ensures Valid() && repr == old(repr) + kid.repr
      ensures model == Object(old(model).entries[i := Entry(names[i], kid.model)])
    {
      SameNamesStayDistinct(model.entries, i, kid.model);
      FamilyGrows(kids, this, below + kid.repr, repr - {this} + kid.repr);
      repr, model := repr + kid.repr, Object(model.entries[i := Entry(names[i], kid.model)]);
      assert repr - {this} == old(repr) - {this} + kid.repr;
    }

    /** That, and what the child led to is still there. */
    ghost method Rejoin(kid: Node, i: nat, below: set<Node>, p: Path)
      requires i < |kids| && kids[i] == kid && Family(kids, this, below + kid.repr) && this in repr
      requires kind.KObject? && model.Object? && |model.entries| == |kids| && NamesOf(names, model.entries)
      requires DistinctNames(model.entries) && below <= repr - {this} && this !in kid.repr
      requires forall j :: 0 <= j < |kids| && j != i ==> model.entries[j].value == kids[j].model
      modifies this`repr, this`model
      ensures Valid() && repr == old(repr) + kid.repr
      ensures model == Object(old(model).entries[i := Entry(names[i], kid.model)])
      ensures NodeAt(Step(names[i], p)) == old(kid.NodeAt(p))
    {
      Refresh(kid, i, below);
      LeadsToKid(i, Step(names[i], p));
    }

    /** json_object_dotset_value */
    method DotSet(name: bytes, value: Node) returns (ok: bool)
      requires Valid() && kind.KObject? && value.Valid() && (value.parent == null ==> value.repr !! repr)
      modifies repr, value`parent
      ensures Valid() && kind == old(kind) && parent == old(parent)
      ensures old(repr) <= repr && fresh(repr - old(repr) - value.repr)
      ensures var spec := SetAt(old(model).entries, Split(name), value.model, old(value.parent) != null);
              ok == spec.Some? && model == if ok then Object(spec.value) else old(model)
      ensures ok ==> old(value.parent) == null && value.parent != null && value in repr && value.Valid()
      ensures ok ==> NodeAt(Split(name)) == value
      ensures !ok ==> unchanged(value) && forall n :: n in old(repr) ==> unchanged(n)
      decreases |name|, 1
    {
      if Dot(name) == |name| {
        ghost var at;
        ok, at := SetValue(name, value);
        if ok {
          LeadsToKid(at, Last(name));
        }
      } else {
        ghost var p := Split(name);
        SplitStep(name, p);
        ok := SetBelowHead(name[..Dot(name)], name[Dot(name) + 1..], p, value,
                           SetAt(model.entries, p, value.model, value.parent != null));
      }
      if ok {
        NodeAtStands(Split(name));
      }
    }

    /** json_object_dotset_value for a path of more than one segment. */
    method SetBelowHead(head: bytes, rest: bytes, ghost p: Path, value: Node, ghost spec: Option<Entries>)
      returns (ok: bool)
      requires Valid() && kind.KObject? && value.Valid() && (value.parent == null ==> value.repr !! repr)
      requires p == Step(head, Split(rest))
      requires spec == SetAt(model.entries, p, value.model, value.parent != null)
      modifies repr, value`parent
      ensures Valid() && kind == old(kind) && parent == old(parent)
      ensures old(repr) <= repr && fresh(repr - old(repr) - value.repr)
      ensures ok == spec.Some? && model == if ok then Object(spec.value) else old(model)
      ensures ok ==> old(value.parent) == null && value.parent != null
      ensures ok ==> NodeAt(p) == value
      ensures !ok ==> unchanged(value) && forall n :: n in old(repr) ==> unchanged(n)
      decreases |rest|, 5
    {
      var i := Position(head);
      ghost var inner := SetAt([], p.rest, value.model, value.parent != null);
      SetStep(model.entries, p, value.model, value.parent != null, spec);
      if i < |kids| {
        ok := SetInChild(i, rest, p.rest, value, spec);
        return;
      }
      ok := SetInNewChild(head, rest, p.rest, value, inner, spec);
    }

    /** The branch of json_object_dotset_value for a child that is there. */
    method SetInChild(i: nat, rest: bytes, ghost p: Path, value: Node, ghost spec: Option<Entries>)
      returns (ok: bool)
      requires Valid() && kind.KObject? && i < |kids|
      requires p == Split(rest) && value.Valid() && (value.parent == null ==> value.repr !! repr)
      requires var v := model.entries[i].value;
               spec == if !v.Object? then None
                       else
                         AssignChanged(model.entries, i, SetAt(v.entries, p, value.model, value.parent != null))
      modifies repr, value`parent
      ensures Valid() && kind == old(kind) && parent == old(parent)
      ensures old(repr) <= repr && fresh(repr - old(repr) - value.repr) && ok == spec.Some?
      ensures model == if ok then Object(spec.value) else old(model)
      ensures ok ==> old(value.parent) == null && value.parent != null
      ensures ok ==> NodeAt(Step(old(names[i]), p)) == value
      ensures !ok ==> unchanged(value) && forall n :: n in old(repr) ==> unchanged(n)
      decreases |rest|, 2
    {
      var kid := kids[i];
      KidIs(i);
      if !kid.kind.KObject? {
        return false;
      }
      ghost var below := repr - {this} - kid.repr;
      FamilyWithout(kids, this, repr - {this}, i);
      ok := kid.DotSet(rest, value);
      if ok {
        FamilyWith(kids, this, below, i, kid);
        Rejoin(kid, i, below, p);
      }
    }

    /** A new object with the value set in it. */
    static method MakeObject(rest: bytes, ghost p: Path, value: Node, ghost inner: Option<Entries>)
      returns (ok: bool, made: Node)
      requires p == Split(rest) && value.Valid() && inner == SetAt([], p, value.model, value.parent != null)
      modifies value`parent
      ensures made.Valid() && fresh(made) && fresh(made.repr - value.repr)
      ensures made.kind.KObject? && made.parent == null
      ensures ok == inner.Some? && (ok ==> made.model == Object(inner.value))
      ensures ok ==> old(value.parent) == null && value.parent != null && made.NodeAt(p) == value
      ensures !ok ==> unchanged(value)
      decreases |rest|, 3
    {
      made := new Node(KObject);
      ok := made.FillNew(rest, p, value, inner);
    }

    /** The value is set in a new object. */
    method FillNew(rest: bytes, ghost p: Path, value: Node, ghost inner: Option<Entries>)
      returns (ok: bool)
      requires Valid() && kind.KObject? && parent == null && repr == {this} && kids == [] && names == []
      requires value.Valid() && this !in value.repr && p == Split(rest)
      requires inner == SetAt([], p, value.model, value.parent != null)
      modifies this, value`parent
      ensures Valid() && kind.KObject? && parent == null && fresh(repr - {this} - value.repr)
      ensures ok == inner.Some? && (ok ==> model == Object(inner.value))
      ensures ok ==> old(value.parent) == null && value.parent != null && NodeAt(p) == value
      ensures !ok ==> unchanged(value)
      decreases |rest|, 2
    {
      assert model == Object([]);
      ok := DotSet(rest, value);
    }

    /** The branch of json_object_dotset_value for a missing child: a new object, filled and then added. */
    method SetInNewChild(name: bytes, rest: bytes, ghost p: Path, value: Node, ghost inner: Option<Entries>,
                         ghost spec: Option<Entries>)
      returns (ok: bool)
      requires Valid() && kind.KObject? && name !in names
      requires p == Split(rest) && value.Valid() && (value.parent == null ==> value.repr !! repr)
      requires inner == SetAt([], p, value.model, value.parent != null)
      requires spec == AddMade(model.entries, name, inner)
      modifies this`names, this`kids, this`repr, this`model, value`parent
      ensures Valid()
      ensures old(repr) <= repr && fresh(repr - old(repr) - value.repr) && ok == spec.Some?
      ensures model == if ok then Object(spec.value) else old(model)
      ensures ok ==> old(value.parent) == null && value.parent != null
      ensures ok ==> NodeAt(Step(name, p)) == value
      ensures !ok ==> unchanged(value) && forall n :: n in old(repr) ==> unchanged(n)
      decreases |rest|, 4
    {
      var made;
      ok, made := MakeObject(rest, p, value, inner);
      if ok {
        assert made.repr !! repr && made != value;
        JoinMade(name, made, value, p, spec);
      }
    }

    /** The new object joins its parent; what is in it stays where it is. */
    method JoinMade(name: bytes, made: Node, ghost value: Node, ghost p: Path, ghost spec: Option<Entries>)
      requires Valid() && kind.KObject? && name !in names
      requires made.Valid() && made.repr !! repr && made != value && made.NodeAt(p) == value
      requires made.model.Object? && spec == AddMade(model.entries, name, Some(made.model.entries))
      modifies this`names, this`kids, this`repr, this`model, made`parent
      ensures Valid() && repr == old(repr) + made.repr && NodeAt(Step(name, p)) == value
      ensures spec.Some? && model == Object(spec.value)
    {
      FindNone(model.entries, name);
      var _ := AddEntry(name, made);
      LeadsToKid(|kids| - 1, Step(name, p));
    }

    /** json_object_remove_internal: the last child takes the place of the removed one. */
    method Remove(name: bytes) returns (ok: bool)
      requires Valid() && kind.KObject?
      modifies this`names, this`kids, this`model
      ensures Valid() && ok == Find(old(model).entries, name).Some?
      ensures model == if ok then Object(Removed(old(model).entries, name)) else old(model)
    {
      var i := Position(name);
      if i == |kids| {
        return false;
      }
      RemovedIsDistinct(model.entries, name);
      model := Object(Removed(model.entries, name));
      TakeLast(i);
      return true;
    }

    method TakeLast(i: nat)
      requires this in repr && kind.KObject? && i < |kids| == |names| && model.Object? && |model.entries| + 1 == |kids|
      requires DistinctNames(model.entries) && Family(kids, this, repr - {this})
      requires forall k :: 0 <= k < |kids| - 1 ==>
                 var from := if k == i then |kids| - 1 else k;
                 model.entries[k] == Entry(names[from], kids[from].model)
      modifies this`names, this`kids
      ensures Valid()
    {
      var last := |kids| - 1;
      names, kids := names[i := names[last]][..last], kids[i := kids[last]][..last];
    }

    /** json_object_dotremove */
    method DotRemove(name: bytes) returns (ok: bool)
      requires Valid() && kind.KObject?
      modifies repr
      ensures Valid() && kind == old(kind) && parent == old(parent) && repr == old(repr)
      ensures var spec := RemoveAt(old(model).entries, Split(name));
              ok == spec.Some? && model == if ok then Object(spec.value) else old(model)
      decreases |name|, 1
    {
      if Dot(name) == |name| {
        ok := Remove(name);
      } else {
        ok := RemoveBelowHead(name, RemoveAt(model.entries, Split(name)));
      }
    }

    /** json_object_dotremove for a path of more than one segment. */
    method RemoveBelowHead(name: bytes, ghost spec: Option<Entries>) returns (ok: bool)
      requires Valid() && kind.KObject? && Dot(name) < |name| && spec == RemoveAt(model.entries, Split(name))
      modifies repr
      ensures Valid() && kind == old(kind) && parent == old(parent) && repr == old(repr) && ok == spec.Some?
      ensures model == if ok then Object(spec.value) else old(model)
      decreases |name|, 0
    {
      var head, rest := name[..Dot(name)], name[Dot(name) + 1..];
      var i := Position(head);
      RemoveStep(model.entries, name, spec);
      if i == |kids| {
        return false;
      }
      KidIs(i);
      if !kids[i].kind.KObject? {
        return false;
      }
      ok := RemoveInChild(i, rest, RemoveAt(kids[i].model.entries, Split(rest)));
    }

    method RemoveInChild(i: nat, rest: bytes, ghost inner: Option<Entries>) returns (ok: bool)
      requires Valid() && kind.KObject? && i < |kids| && kids[i].kind.KObject? && kids[i].model.Object?
      requires inner == RemoveAt(kids[i].model.entries, Split(rest))
      modifies repr
      ensures Valid() && kind == old(kind) && parent == old(parent) && repr == old(repr) && ok == inner.Some?
      ensures model == if !ok then old(model)
                       else Object(old(model).entries[i := Entry(old(names[i]), Object(inner.value))])
      decreases |rest|, 2
    {
      var kid := kids[i];
      KidIs(i);
      ghost var below := repr - {this} - kid.repr;
      FamilyWithout(kids, this, repr - {this}, i);
      ok := kid.DotRemove(rest);
      FamilyWith(kids, this, below, i, kid);
      Refresh(kid, i, below);
    }
  }

  /** The three branches for a path of more than one segment, by the position of its first. */
  lemma SetStep(es: Entries, p: Path, v: Value, attached: bool, spec: Option<Entries>)
    requires p.Step? && spec == SetAt(es, p, v, attached)
    ensures var i := IndexOf(es, p.name);
            spec == if i == |es| then AddMade(es, p.name, SetAt([], p.rest, v, attached))
                    else if !es[i].value.Object? then None
                    else AssignChanged(es, i, SetAt(es[i].value.entries, p.rest, v, attached))
  {
  }

  lemma SplitLast(path: bytes)
    requires Dot(path) == |path|
    ensures Split(path) == Last(path[..Dot(path)])
  {
    assert path[..Dot(path)] == path;
  }

  lemma SplitStep(path: bytes, p: Path)
    requires Dot(path) < |path| && p == Split(path)
    ensures p == Step(path[..Dot(path)], Split(path[Dot(path) + 1..]))
  {
  }

  lemma RemoveStep(es: Entries, path: bytes, spec: Option<Entries>)
    requires Dot(path) < |path| && spec == RemoveAt(es, Split(path))
    ensures var rest, i := path[Dot(path) + 1..], IndexOf(es, path[..Dot(path)]);
            spec == if i == |es| || !es[i].value.Object? then None
                    else AssignChanged(es, i, RemoveAt(es[i].value.entries, Split(rest)))
  {
  }

  function AddMade(es: Entries, name: bytes, made: Option<Entries>): Option<Entries> {
    if made.None? then None else Some(es + [Entry(name, Object(made.value))])
  }

  function AssignChanged(es: Entries, i: nat, changed: Option<Entries>): Option<Entries>
    requires i < |es|
  {
    if changed.None? then None else Some(es[i := Entry(es[i].name, Object(changed.value))])
  }

  lemma SameNamesStayDistinct(es: Entries, i: nat, v: Value)
    requires DistinctNames(es) && i < |es|
    ensures DistinctNames(es[i := Entry(es[i].name, v)])
  {
    DistinctNamesMeansPairwise(es);
    DistinctNamesMeansPairwise(es[i := Entry(es[i].name, v)]);
  }

  /** An object's entries, added one by one under their names, make the same object. */
  lemma NextEntry(es: Entries, i: nat)
    requires DistinctNames(es) && i < |es|
    ensures Find(es, es[i].name) == Some(es[i].value)
    ensures Added(es[..i], es[i].name, es[i].value) == es[..i + 1]
  {
    FindByIndex(es, i);
    NameIsNew(es, i);
    OneMore(es, i);
  }

  lemma OneMore(es: Entries, i: nat)
    requires i < |es|
    ensures es[..i] + [Entry(es[i].name, es[i].value)] == es[..i + 1]
  {
  }
}
