/** The JSON class itself: a tag and a union that holds a scalar or owns a heap payload, whose
    cells are JSON objects again. The ghost tree of a JSON object names every object it owns. */
module JsonObjects {
  import opened JsonValues
  import opened JsonStatements

  // ----- The objects.

  /** union BackingData, without its double. */
  datatype BackingData = Pointer(payload: Payload?) | Int(n: long) | Bool(b: bool)

  /** What a JSON object allocates: a map<string, JSON>, a deque<JSON> or a string, by `kind`.
      It is live from `new` to `delete`. */
  class Payload {
    const kind: Class
    var live: bool
    var text: string
    var keys: seq<string>
    var cells: seq<JSON>

    constructor (kind: Class)
      ensures this.kind == kind && live && text == "" && keys == [] && cells == []
    {
      this.kind := kind;
      live, text, keys, cells := true, "", [], [];
    }
  }

  // ----- The tree of objects that one JSON object owns.

  datatype Own =
    | Scalar(json: JSON, v: Json)
    | Text(json: JSON, payload: Payload, s: string)
    | Node(json: JSON, payload: Payload, keys: seq<string>, kids: seq<Own>)

  ghost function Payloads(o: Own): set<Payload>
    decreases o, 0
  {
    match o
    case Scalar(_, _) => {}
    case Text(_, p, _) => {p}
    case Node(_, p, _, kids) => {p} + KidPayloads(kids)
  }

  ghost function KidPayloads(kids: seq<Own>): set<Payload>
    decreases kids, 0
  {
    set i, q | 0 <= i < |kids| && q in Payloads(kids[i]) :: q
  }

  ghost function Objects(o: Own): set<object>
    decreases o, 0
  {
    match o
    case Scalar(j, _) => {j}
    case Text(j, p, _) => {j, p}
    case Node(j, p, _, kids) => {j, p} + KidObjects(kids)
  }

  ghost function KidObjects(kids: seq<Own>): set<object>
    decreases kids, 0
  {
    set i, x | 0 <= i < |kids| && x in Objects(kids[i]) :: x
  }

  /** No object occurs twice in the tree. */
  ghost predicate Apart(o: Own)
    decreases o, 0
  {
    o.Node? ==> Forest(o.kids) && o.json !in KidObjects(o.kids) && o.payload !in KidObjects(o.kids)
  }

  ghost predicate Forest(kids: seq<Own>)
    decreases kids, 0
  {
    && (forall i | 0 <= i < |kids| :: Apart(kids[i]))
    && forall i, k | 0 <= i < k < |kids| :: Objects(kids[i]) !! Objects(kids[k])
  }

  predicate SortedKeys(keys: seq<string>) {
    forall i, k | 0 <= i < k < |keys| :: KeyLess(keys[i], keys[k])
  }

  /** The heap is as the tree says: every tag names the live payload its pointer leads to. */
  ghost predicate Holds(o: Own)
    reads Objects(o)
    decreases o, 0
  {
    match o
    case Scalar(j, v) =>
      || (v.Null? && j.typ == Class.Null)
      || (v.Integral? && LONG_MIN <= v.n <= LONG_MAX && j.typ == Class.Integral && j.internal == Int(v.n))
      || (v.Boolean? && j.typ == Class.Boolean && j.internal == Bool(v.b))
    case Text(j, p, s) =>
      j.typ == Class.String == p.kind && j.internal == Pointer(p) && p.live && p.text == s
    case Node(_, _, _, kids) => NodeHolds(o) && AllHold(kids)
  }

  /** What Holds asks of the object itself and its payload. */
  ghost predicate NodeHolds(o: Own)
    requires o.Node?
    reads o.json, o.payload
  {
    var j, p, keys, kids := o.json, o.payload, o.keys, o.kids;
    && j.typ == p.kind && j.internal == Pointer(p) && p.live && p.keys == keys
    && (if p.kind == Class.Object then |keys| == |kids| && SortedKeys(keys) else p.kind == Class.Array && keys == [])
    && AreCells(p.cells, kids)
  }

  predicate AreCells(cells: seq<JSON>, kids: seq<Own>) {
    |cells| == |kids| && forall i | 0 <= i < |kids| :: kids[i].json == cells[i]
  }

  ghost predicate AllHold(kids: seq<Own>)
    reads KidObjects(kids)
    decreases kids, 0
  {
    forall i | 0 <= i < |kids| :: Holds(kids[i])
  }

  /** The JSON object owns exactly this tree. */
  ghost predicate Owns(j: JSON, o: Own)
    reads Objects(o)
  {
    o.json == j && Apart(o) && Holds(o)
  }

  /** Every payload of the tree is deleted. */
  ghost predicate Deleted(o: Own)
    reads Payloads(o)
  {
    forall q | q in Payloads(o) :: !q.live
  }

  // ----- The value of a tree.

  ghost function Meaning(o: Own): Json
    decreases o, 0
  {
    match o
    case Scalar(_, v) => v
    case Text(_, _, s) => Json.String(s)
    case Node(_, p, keys, kids) =>
      if p.kind == Class.Object then Json.Object(MembersOf(keys, kids)) else Json.Array(ItemsOf(kids))
  }

  ghost function MembersOf(keys: seq<string>, kids: seq<Own>): (members: seq<Member>)
    ensures |members| == |kids|
    ensures forall i | 0 <= i < |kids| :: members[i] == Member(if i < |keys| then keys[i] else "", Meaning(kids[i]))
    decreases kids, 0
  {
    seq(|kids|, i requires 0 <= i < |kids| => Member(if i < |keys| then keys[i] else "", Meaning(kids[i])))
  }

  ghost function ItemsOf(kids: seq<Own>): (items: seq<Json>)
    ensures |items| == |kids|
    ensures forall i | 0 <= i < |kids| :: items[i] == Meaning(kids[i])
    decreases kids, 0
  {
    seq(|kids|, i requires 0 <= i < |kids| => Meaning(kids[i]))
  }

  // ----- Trees and their objects.

  lemma {:induction false} ObjectsOfTree(o: Own)
    ensures forall q | q in Payloads(o) :: q in Objects(o)
    ensures forall x | x in Objects(o) :: allocated(x)
    ensures o.json in Objects(o)
    decreases o, 1
  {
    if o.Node? {
      ObjectsOfKids(o.kids);
    }
  }

  lemma {:induction false} ObjectsOfKids(kids: seq<Own>)
    ensures forall q | q in KidPayloads(kids) :: q in KidObjects(kids)
    ensures forall x | x in KidObjects(kids) :: allocated(x)
    ensures forall i | 0 <= i < |kids| ::
      Payloads(kids[i]) <= KidPayloads(kids) && Objects(kids[i]) <= KidObjects(kids) && kids[i].json in Objects(kids[i])
    decreases kids, 0
  {
    forall i | 0 <= i < |kids|
      ensures forall q | q in Payloads(kids[i]) :: q in Objects(kids[i])
      ensures forall x | x in Objects(kids[i]) :: allocated(x)
      ensures kids[i].json in Objects(kids[i])
    {
      ObjectsOfTree(kids[i]);
    }
  }

  lemma ForestApart(kids: seq<Own>)
    requires Forest(kids)
    ensures forall i, k, x | 0 <= i < |kids| && 0 <= k < |kids| && i != k && x in Objects(kids[i]) ::
      x !in Objects(kids[k])
  {
    hide Objects, Apart;
    forall i, k | 0 <= i < |kids| && 0 <= k < |kids| && i != k ensures Objects(kids[i]) !! Objects(kids[k]) {
    }
  }

  function Inserted<T>(s: seq<T>, i: nat, x: T): (r: seq<T>)
    requires i <= |s|
    ensures |r| == |s| + 1 && r[i] == x
    ensures forall k | 0 <= k < i :: r[k] == s[k]
    ensures forall k | i < k <= |s| :: r[k] == s[k - 1]
  {
    s[..i] + ([x] + s[i..])
  }

  lemma ForestInserted(kids: seq<Own>, i: nat, kid: Own)
    requires Forest(kids) && i <= |kids| && Apart(kid) && Objects(kid) !! KidObjects(kids)
    ensures Forest(Inserted(kids, i, kid))
  {
    ObjectsOfKids(kids);
    hide Objects, KidObjects, Apart;
    var all := Inserted(kids, i, kid);
    forall m, k | 0 <= m < k < |all| ensures Objects(all[m]) !! Objects(all[k]) {
      if m != i && k != i {
        assert all[m] == kids[if m < i then m else m - 1] && all[k] == kids[if k < i then k else k - 1];
      } else if m == i {
        assert Objects(all[k]) <= KidObjects(kids);
      } else {
        assert Objects(all[m]) <= KidObjects(kids);
      }
    }
  }

  lemma ObjectsInserted(kids: seq<Own>, i: nat, kid: Own)
    requires i <= |kids|
    ensures KidObjects(Inserted(kids, i, kid)) == KidObjects(kids) + Objects(kid)
  {
    hide Objects;
    var all := Inserted(kids, i, kid);
    forall x | x in KidObjects(kids) + Objects(kid) ensures x in KidObjects(all) {
      if x in Objects(kid) {
        assert all[i] == kid;
      } else {
        var k :| 0 <= k < |kids| && x in Objects(kids[k]);
        assert all[if k < i then k else k + 1] == kids[k];
      }
    }
    forall x | x in KidObjects(all) ensures x in KidObjects(kids) + Objects(kid) {
      var k :| 0 <= k < |all| && x in Objects(all[k]);
      assert all[k] == if k < i then kids[k] else if k == i then kid else kids[k - 1];
    }
  }

  lemma AllHoldInserted(kids: seq<Own>, i: nat, kid: Own)
    requires AllHold(kids) && Holds(kid) && i <= |kids|
    ensures AllHold(Inserted(kids, i, kid))
  {
    hide Holds;
    var all := Inserted(kids, i, kid);
    assert forall k | 0 <= k < |all| :: all[k] == if k < i then kids[k] else if k == i then kid else kids[k - 1];
  }

  lemma CellsLength(cells: seq<JSON>, kids: seq<Own>)
    requires AreCells(cells, kids)
    ensures |cells| == |kids|
  {
  }

  lemma AreCellsInserted(cells: seq<JSON>, kids: seq<Own>, i: nat, kid: Own)
    requires AreCells(cells, kids) && i <= |kids|
    ensures AreCells(Inserted(cells, i, kid.json), Inserted(kids, i, kid))
  {
  }

  /** The i-th kid of the tree is what the step refers to. */
  ghost predicate IsSlot(d: Own, i: nat, step: Step) {
    && d.Node? && i < |d.kids|
    && match step
       case Key(key) =>
         d.payload.kind == Class.Object && |d.keys| == |d.kids| && SortedKeys(d.keys) && d.keys[i] == key
       case Index(k) => d.payload.kind == Class.Array && i == k
  }

  /** Where operator[] on o, which gave the i-th kid of d, left the k-th kid of o. */
  function Moved(o: Own, d: Own, i: nat, k: nat): nat {
    if !o.Node? || o.payload.kind == Class.Array || d == o || k < i then k else k + 1
  }

  /** operator[] leaves the other kids, and their keys, as they are. */
  ghost predicate Keeps(o: Own, d: Own, i: nat) {
    && o.Node? && d.Node?
    && forall k | 0 <= k < |o.kids| ::
         && Moved(o, d, i, k) < |d.kids| && d.kids[Moved(o, d, i, k)] == o.kids[k]
         && (k < |o.keys| ==> Moved(o, d, i, k) < |d.keys| && d.keys[Moved(o, d, i, k)] == o.keys[k])
  }

  lemma KeepsAll(o: Own, i: nat)
    requires o.Node?
    ensures Keeps(o, o, i)
  {
  }

  lemma InsertedKeeps(o: Own, i: nat, key: string, kid: Own)
    requires o.Node? && o.payload.kind == Class.Object && |o.keys| == |o.kids| && i <= |o.kids|
    ensures Keeps(o, Node(o.json, o.payload, Inserted(o.keys, i, key), Inserted(o.kids, i, kid)), i)
  {
    assert |Inserted(o.kids, i, kid)| != |o.kids|;
    hide Inserted;
  }

  lemma SlotMoves(o: Own, d: Own, i: nat, step: Step, k: nat, other: Step)
    requires IsSlot(o, k, other) && IsSlot(d, i, step) && Keeps(o, d, i) && step != other && step.Key? == other.Key?
    ensures IsSlot(d, Moved(o, d, i, k), other) && d.kids[Moved(o, d, i, k)] == o.kids[k] && Moved(o, d, i, k) != i
  {
  }

  function ClassFor(step: Step): Class {
    if step.Key? then Class.Object else Class.Array
  }

  function WithKid(d: Own, i: nat, kid: Own): Own
    requires d.Node? && i < |d.kids|
  {
    d.(kids := d.kids[i := kid])
  }

  lemma SlotMeaning(d: Own, i: nat, step: Step, kid: Own)
    requires IsSlot(d, i, step)
    ensures Meaning(WithKid(d, i, kid)) == WithChild(Meaning(d), step, Meaning(kid))
    ensures Meaning(d.kids[i]) == ChildOf(Meaning(d), step)
  {
    match step
    case Key(key) =>
      var members := MembersOf(d.keys, d.kids);
      assert SortedMembers(members) && IsPlace(members, i, key);
      PutPresent(members, i, key, Meaning(kid));
      LookupAtPlace(members, i, key);
      assert MembersOf(d.keys, d.kids[i := kid]) == members[i := Member(key, Meaning(kid))];
    case Index(k) =>
      assert ItemsOf(d.kids[i := kid]) == ItemsOf(d.kids)[i := Meaning(kid)];
  }

  lemma SortedInserted(keys: seq<string>, i: nat, key: string)
    requires SortedKeys(keys) && i <= |keys|
    requires forall k | 0 <= k < i :: KeyLess(keys[k], key)
    requires i < |keys| ==> KeyLess(key, keys[i])
    ensures SortedKeys(Inserted(keys, i, key))
  {
    hide KeyLess;
    var all := Inserted(keys, i, key);
    forall m, k | 0 <= m < k < |all| ensures KeyLess(all[m], all[k]) {
      if m == i && k > i + 1 {
        KeyLessTransitive(key, keys[i], keys[k - 1]);
      }
    }
  }

  lemma MapInsertMeaning(o: Own, i: nat, key: string, child: JSON)
    requires o.Node? && o.payload.kind == Class.Object && |o.keys| == |o.kids| && SortedKeys(o.keys) && i <= |o.keys|
    requires forall k | 0 <= k < i :: KeyLess(o.keys[k], key)
    requires i < |o.keys| ==> KeyLess(key, o.keys[i])
    ensures
      var d := Node(o.json, o.payload, Inserted(o.keys, i, key), Inserted(o.kids, i, Scalar(child, Json.Null)));
      Meaning(d) == WithChild(Meaning(o), Key(key), ChildOf(Meaning(o), Key(key)))
  {
    hide MembersOf, ItemsOf, KeyLess, Put, Lookup;
    var kid := Scalar(child, Json.Null);
    var members := MembersOf(o.keys, o.kids);
    assert SortedMembers(members) && IsPlace(members, i, key);
    if i < |members| {
      KeyLessTotal(key, members[i].key);
    }
    PutAbsent(members, i, key, Json.Null);
    LookupAtPlace(members, i, key);
    var keys, kids, all := Inserted(o.keys, i, key), Inserted(o.kids, i, kid), Inserted(members, i, Member(key, Json.Null));
    assert all == Put(members, key, Json.Null);
    hide Inserted;
    assert Meaning(kid) == Json.Null;
    assert MembersOf(keys, kids) == all;
  }

  // ----- Methods.

  class JSON {
    var typ: Class
    var internal: BackingData

    constructor ()
      ensures typ == Class.Null
    {
      typ, internal := Class.Null, Int(0);
    }

    /** ClearInternal, and the destructor, which runs the same switch: deletes the payload, and
        with it what its cells own. Every payload is live when it is deleted. */
    method ClearInternal(ghost o: Own)
      requires Owns(this, o)
      modifies Payloads(o)`live
      ensures Deleted(o)
      decreases o, 2
    {
      if typ == Class.Object || typ == Class.Array || typ == Class.String {
        var p := internal.payload;
        assert p.live && p.kind == typ;
        if typ != Class.String {
          ObjectsOfKids(o.kids);
          ClearCells(p, o);
        }
        p.live := false;
      }
    }

    /** What `delete` does to the cells of a payload. */
    static method ClearCells(p: Payload, ghost o: Own)
      requires o.Node? && o.payload == p && Apart(o) && Holds(o)
      modifies KidPayloads(o.kids)`live
      ensures p.live && forall i | 0 <= i < |o.kids| :: Deleted(o.kids[i])
      decreases o, 1
    {
      ghost var kids := o.kids;
      ObjectsOfKids(kids);
      hide Payloads, Objects, KidPayloads, KidObjects, Deleted;
      for i := 0 to |p.cells|
        invariant p.live && p.cells == old(p.cells)
        invariant forall k | 0 <= k < i :: Deleted(kids[k])
        invariant forall k | i <= k < |kids| :: Holds(kids[k])
      {
        hide Holds, Forest;
        ClearCell(p.cells[i], i, o);
      }
    }

    static method ClearCell(cell: JSON, ghost i: nat, ghost o: Own)
      requires o.Node? && i < |o.kids| && o.kids[i].json == cell && Apart(o)
      requires forall k | 0 <= k < i :: Deleted(o.kids[k])
      requires forall k | i <= k < |o.kids| :: Holds(o.kids[k])
      modifies Payloads(o.kids[i])`live
      ensures forall k | 0 <= k <= i :: Deleted(o.kids[k])
      ensures forall k | i < k < |o.kids| :: Holds(o.kids[k])
      decreases o, 0
    {
      ghost var kids := o.kids;
      ForestApart(kids);
      assert Apart(kids[i]);
      hide Payloads, Objects, Apart, Holds, Deleted, Forest, KidPayloads, KidObjects;
      forall k | 0 <= k < |kids|
        ensures forall q | q in Payloads(kids[k]) :: q in Objects(kids[k])
        ensures forall x | x in Objects(kids[k]) :: allocated(x)
      {
        ObjectsOfTree(kids[k]);
      }
      label before:
      cell.ClearInternal(kids[i]);
      forall k | i < k < |kids| ensures Holds(kids[k]) {
        assert forall x | x in Objects(kids[k]) :: unchanged@before(x);
      }
      forall k | 0 <= k < i ensures Deleted(kids[k]) {
        assert forall x | x in Payloads(kids[k]) :: unchanged@before(x);
      }
    }

    /** SetType */
    method SetType(c: Class, ghost o: Own) returns (ghost d: Own)
      requires Owns(this, o)
      modifies this, Payloads(o)`live
      ensures Owns(this, d) && Meaning(d) == WithType(Meaning(o), c)
      ensures d == o || fresh(Objects(d) - {this})
      ensures c == ClassOf(Meaning(o)) ==> d == o
      ensures
        d == o
        || Meaning(d) == match c
                         case Null => Json.Null
                         case Object => Json.Object([])
                         case Array => Json.Array([])
                         case String => Json.String("")
                         case Integral => Json.Integral(0)
                         case Boolean => Json.Boolean(false)
    {
      d := o;
      assert ClassOf(Meaning(o)) == typ;
      if c == typ {
        return;
      }
      ClearInternal(o);
      hide Meaning, Holds, Apart, Objects, EmptyOf;
      d := Renew(c);
    }

    /** The second half of SetType: a new payload where the tag asks for one. */
    method Renew(c: Class) returns (ghost d: Own)
      modifies this
      ensures Owns(this, d) && Meaning(d) == EmptyOf(c) && fresh(Objects(d) - {this})
    {
      match c {
        case Null =>
          internal := Pointer(null);
          d := Scalar(this, Json.Null);
        case Object | Array =>
          var p := new Payload(c);
          internal := Pointer(p);
          d := Node(this, p, [], []);
        case String =>
          var p := new Payload(c);
          internal := Pointer(p);
          d := Text(this, p, "");
        case Integral =>
          internal := Int(0);
          d := Scalar(this, Json.Integral(0));
        case Boolean =>
          internal := Bool(false);
          d := Scalar(this, Json.Boolean(false));
      }
      typ := c;
    }

    /** The switch of the copy constructor, also that of copy assignment: a payload of its own,
        with copies of the cells. */
    method CopyContent(other: JSON, ghost c: Own) returns (ghost d: Own)
      requires Owns(other, c) && this !in Objects(c)
      modifies this
      ensures Owns(this, d) && Meaning(d) == Meaning(c) && fresh(Objects(d) - {this})
      decreases c, 2
    {
      match other.typ {
        case Object | Array =>
          var q;
          q, d := CopyNode(other.internal.payload, c);
          internal := Pointer(q);
        case String =>
          var q := new Payload(other.typ);
          q.text := other.internal.payload.text;
          internal := Pointer(q);
          d := Text(this, q, c.s);
        case _ =>
          internal := other.internal;
          d := Scalar(this, c.v);
      }
      typ := other.typ;
    }

    method CopyNode(p: Payload, ghost c: Own) returns (q: Payload, ghost d: Own)
      requires c.Node? && c.payload == p && Apart(c) && Holds(c) && this !in Objects(c)
      ensures d.Node? && d.json == this && d.payload == q && d.keys == c.keys == q.keys && Apart(d) && AllHold(d.kids)
      ensures fresh(Objects(d) - {this}) && q.live && q.kind == p.kind && AreCells(q.cells, d.kids)
      ensures Meaning(d) == Meaning(c) && this !in KidObjects(d.kids)
      decreases c, 1
    {
      ObjectsOfTree(c);
      assert AllHold(c.kids);
      q := new Payload(p.kind);
      ghost var kids := CopyCells(p.cells, q, c.kids);
      q.keys := p.keys;
      d := Node(this, q, c.keys, kids);
      SameMeaning(c, d);
    }

    static method CopyCells(cells: seq<JSON>, q: Payload, ghost sources: seq<Own>) returns (ghost kids: seq<Own>)
      requires AreCells(cells, sources) && Forest(sources) && AllHold(sources)
      requires q !in KidObjects(sources) && q.cells == []
      modifies q`cells
      ensures AreCells(q.cells, kids) && Forest(kids) && AllHold(kids) && fresh(KidObjects(kids))
      ensures ItemsOf(kids) == ItemsOf(sources)
      decreases sources, 1
    {
      hide Objects, KidObjects, Meaning, Apart, Forest, Payloads, KidPayloads, Holds, ItemsOf, AllHold;
      kids := [];
      NoKids();
      ObjectsOfKids(sources);
      for i := 0 to |cells|
        invariant AreCells(q.cells, kids) && Forest(kids) && AllHold(kids) && fresh(KidObjects(kids))
        invariant ItemsOf(kids) == ItemsOf(sources)[..i]
        invariant AllHold(sources)
      {
        KidOfForest(sources, i);
        ghost var done := KidObjects(kids);
        label turn:
        kids := CopyCell(cells[i], q, sources[i], kids);
        forall x | x in KidObjects(kids) ensures fresh(x) {
          assert x in done || x in KidObjects(kids) - done;
          assert x in done || fresh@turn(x);
        }
      }
    }

    /** One more cell: a copy of the source. */
    static method CopyCell(source: JSON, q: Payload, ghost c: Own, ghost before: seq<Own>) returns (ghost kids: seq<Own>)
      requires Owns(source, c) && q !in Objects(c) && q !in KidObjects(before)
      requires AreCells(q.cells, before) && Forest(before) && AllHold(before)
      modifies q`cells
      ensures AreCells(q.cells, kids) && Forest(kids) && AllHold(kids) && fresh(KidObjects(kids) - KidObjects(before))
      ensures ItemsOf(kids) == ItemsOf(before) + [Meaning(c)]
      decreases c, 4
    {
      ObjectsOfKids(before);
      hide Objects, KidObjects, Meaning, Apart, Forest, Payloads, KidPayloads, Holds;
      ghost var kid;
      var cell;
      cell, kid := Copied(source, c);
      kids := InsertCell(q, |q.cells|, cell, before, kid);
      ItemsInserted(before, kid);
    }

    /** The copy constructor. */
    static method Copied(other: JSON, ghost c: Own) returns (copy: JSON, ghost d: Own)
      requires Owns(other, c)
      ensures Owns(copy, d) && Meaning(d) == Meaning(c) && fresh(Objects(d))
      decreases c, 3
    {
      ObjectsOfTree(c);
      hide Objects, Meaning, Apart, Holds;
      copy := new JSON();
      label made:
      d := copy.CopyContent(other, c);
      forall x | x in Objects(d) ensures fresh(x) {
        assert x == copy || x in Objects(d) - {copy};
        assert x == copy || fresh@made(x);
      }
    }

    /** A new cell in a payload. */
    static method InsertCell(q: Payload, i: nat, cell: JSON, ghost before: seq<Own>, ghost kid: Own)
        returns (ghost kids: seq<Own>)
      requires Owns(cell, kid) && Objects(kid) !! KidObjects(before) && q !in Objects(kid) && q !in KidObjects(before)
      requires AreCells(q.cells, before) && Forest(before) && AllHold(before) && i <= |before|
      modifies q`cells
      ensures kids == Inserted(before, i, kid) && q.cells == Inserted(old(q.cells), i, cell)
      ensures AreCells(q.cells, kids) && Forest(kids) && AllHold(kids)
      ensures KidObjects(kids) == KidObjects(before) + Objects(kid)
    {
      hide Objects, KidObjects, Apart, Forest, Holds, AllHold, AreCells, Inserted;
      CellsLength(q.cells, before);
      ObjectsOfTree(kid);
      ObjectsOfKids(before);
      ForestInserted(before, i, kid);
      ObjectsInserted(before, i, kid);
      AreCellsInserted(q.cells, before, i, kid);
      q.cells := Inserted(q.cells, i, cell);
      kids := Inserted(before, i, kid);
      AllHoldInserted(before, i, kid);
    }

    // ----- Assignments.

    method AssignLong(n: long, ghost o: Own) returns (ghost d: Own)
      requires Owns(this, o)
      modifies Objects(o)
      ensures Owns(this, d) && Meaning(d) == Json.Integral(n) && fresh(Objects(d) - {this})
    {
      ObjectsOfTree(o);
      d := SetType(Class.Integral, o);
      internal := Int(n);
      d := Scalar(this, Json.Integral(n));
    }

    method AssignBool(b: bool, ghost o: Own) returns (ghost d: Own)
      requires Owns(this, o)
      modifies Objects(o)
      ensures Owns(this, d) && Meaning(d) == Json.Boolean(b) && fresh(Objects(d) - {this})
    {
      ObjectsOfTree(o);
      d := SetType(Class.Boolean, o);
      internal := Bool(b);
      d := Scalar(this, Json.Boolean(b));
    }

    method AssignString(s: string, ghost o: Own) returns (ghost d: Own)
      requires Owns(this, o)
      modifies Objects(o)
      ensures Owns(this, d) && Meaning(d) == Json.String(s) && fresh(Objects(d) - Objects(o))
    {
      ObjectsOfTree(o);
      d := SetType(Class.String, o);
      internal.payload.text := s;
      d := Text(this, d.payload, s);
    }

    /** operator=(const JSON&), for an argument that shares nothing with the target. */
    method AssignCopy(other: JSON, ghost o: Own, ghost c: Own) returns (ghost d: Own)
      requires Owns(this, o) && Owns(other, c) && Objects(o) !! Objects(c)
      modifies Objects(o)
      ensures Owns(this, d) && Meaning(d) == Meaning(c) && fresh(Objects(d) - {this})
      ensures Owns(other, c)
    {
      ObjectsOfTree(o);
      ObjectsOfTree(c);
      hide Objects, Holds, Apart, Meaning, Payloads;
      ClearInternal(o);
      label cleared:
      d := CopyContent(other, c);
      ObjectsOfTree(d);
      forall x | x in Objects(d) - {this} ensures fresh(x) {
        assert fresh@cleared(x);
      }
    }

    /** operator=(JSON&&), for an argument that shares nothing with the target. */
    method AssignMove(other: JSON, ghost o: Own, ghost c: Own) returns (ghost d: Own)
      requires Owns(this, o) && Owns(other, c) && Objects(o) !! Objects(c)
      modifies Objects(o), other
      ensures Owns(this, d) && Meaning(d) == Meaning(c) && Objects(d) == Objects(c) - {other} + {this}
      ensures Owns(other, Scalar(other, Json.Null))
    {
      ObjectsOfTree(o);
      ObjectsOfTree(c);
      hide KidObjects, Payloads, Forest, AllHold;
      ObjectsMoved(c, this);
      ScalarObjects(Scalar(other, Json.Null));
      if c.Node? {
        NodeParts(c);
        ObjectsOfKids(c.kids);
      }
      ClearInternal(o);
      internal := other.internal;
      typ := other.typ;
      other.internal := Pointer(null);
      other.typ := Class.Null;
      d := c.(json := this);
    }

    // ----- operator[].

    /** SetType to one of the classes with cells. */
    method SetNode(c: Class, ghost o: Own) returns (ghost d: Own)
      requires Owns(this, o) && (c == Class.Object || c == Class.Array)
      modifies Objects(o)
      ensures Owns(this, d) && Meaning(d) == WithType(Meaning(o), c)
      ensures d.Node? && d.payload.kind == c && internal == Pointer(d.payload)
      ensures fresh(Objects(d) - Objects(o)) && (o.Node? && o.payload.kind == c ==> d == o)
    {
      ObjectsOfTree(o);
      d := SetType(c, o);
      assert ClassOf(Meaning(d)) == c;
    }

    /** operator[], in both its forms: the JSON object it refers to, made on the way if missing. */
    method At(step: Step, ghost o: Own) returns (child: JSON, ghost d: Own, ghost i: nat)
      requires Owns(this, o)
      modifies Objects(o)
      ensures Owns(this, d) && IsSlot(d, i, step) && d.kids[i].json == child
      ensures Meaning(d) == WithChild(Meaning(o), step, ChildOf(Meaning(o), step))
      ensures fresh(Objects(d) - Objects(o)) && (o.Node? && o.payload.kind == ClassFor(step) ==> Keeps(o, d, i))
    {
      ObjectsOfTree(o);
      TypedChild(Meaning(o), step, ChildOf(Meaning(o), step));
      hide Objects, Holds, Apart, Meaning, ChildOf, WithChild, WithType, IsSlot, Keeps;
      d := SetNode(ClassFor(step), o);
      ghost var typed := Objects(d);
      ObjectsOfTree(d);
      label typedTree:
      match step {
        case Key(key) => child, d, i := MapAt(internal.payload, key, d);
        case Index(index) => child, d, i := ListAt(internal.payload, index, d);
      }
      ghost var more := Objects(d);
      ObjectsOfTree(d);
      forall x | x in more - Objects(o) ensures fresh(x) {
        assert x in typed - Objects(o) || x in more - typed;
        assert x in typed || fresh@typedTree(x);
      }
    }

    /** The place of a key in a std::map. */
    static method FindKey(keys: seq<string>, key: string) returns (i: nat)
      requires SortedKeys(keys)
      ensures i <= |keys| && (forall k | 0 <= k < i :: KeyLess(keys[k], key)) && (i < |keys| ==> !KeyLess(keys[i], key))
    {
      i := 0;
      while i < |keys| && KeyLess(keys[i], key)
        invariant i <= |keys| && forall k | 0 <= k < i :: KeyLess(keys[k], key)
      {
        i := i + 1;
      }
    }

    static method MapAt(p: Payload, key: string, ghost o: Own) returns (child: JSON, ghost d: Own, ghost i: nat)
      requires o.Node? && o.payload == p && p.kind == Class.Object && Apart(o) && Holds(o)
      modifies p
      ensures Owns(o.json, d) && IsSlot(d, i, Key(key)) && d.kids[i].json == child
      ensures Meaning(d) == WithChild(Meaning(o), Key(key), ChildOf(Meaning(o), Key(key)))
      ensures fresh(Objects(d) - Objects(o)) && Keeps(o, d, i)
    {
      hide Objects, KidObjects, Holds, Apart, Forest, AllHold, Meaning, ChildOf, WithChild, Inserted, KeyLess, Keeps;
      NodeParts(o);
      ObjectsOfTree(o);
      var place := FindKey(p.keys, key);
      i := place;
      if place < |p.keys| && p.keys[place] == key {
        child := p.cells[place];
        d := o;
        KeepsAll(d, i);
        SlotMeaning(d, i, Key(key), d.kids[i]);
        assert WithKid(d, i, d.kids[i]) == d;
      } else {
        if place < |p.keys| {
          KeyLessTotal(key, p.keys[place]);
        }
        SortedInserted(p.keys, place, key);
        child, d := MapInsert(p, place, key, o);
        MapInsertMeaning(o, place, key, child);
        InsertedKeeps(o, place, key, Scalar(child, Json.Null));
      }
    }

    static method MapInsert(p: Payload, i: nat, key: string, ghost o: Own) returns (child: JSON, ghost d: Own)
      requires o.Node? && o.payload == p && p.kind == Class.Object && Apart(o) && Holds(o)
      requires i <= |o.kids| && SortedKeys(Inserted(o.keys, i, key))
      modifies p
      ensures Owns(o.json, d) && fresh(child) && Objects(d) == Objects(o) + {child}
      ensures d == Node(o.json, p, Inserted(o.keys, i, key), Inserted(o.kids, i, Scalar(child, Json.Null)))
    {
      hide Objects, KidObjects, Forest, AllHold, Inserted, SortedKeys, AreCells, Apart, Holds, Meaning;
      NodeParts(o);
      ObjectsOfKids(o.kids);
      p.keys := Inserted(p.keys, i, key);
      ghost var kids;
      child, kids := InsertNull(p, i, o.kids);
      d := Node(o.json, p, p.keys, kids);
      NodeOwns(d);
    }

    /** A cell that holds null, in its place in the payload. */
    static method InsertNull(p: Payload, i: nat, ghost before: seq<Own>) returns (child: JSON, ghost kids: seq<Own>)
      requires AreCells(p.cells, before) && Forest(before) && AllHold(before) && i <= |before| && p !in KidObjects(before)
      modifies p`cells
      ensures fresh(child) && KidObjects(kids) == KidObjects(before) + {child}
      ensures kids == Inserted(before, i, Scalar(child, Json.Null)) && p.cells == Inserted(old(p.cells), i, child)
      ensures AreCells(p.cells, kids) && Forest(kids) && AllHold(kids)
    {
      ObjectsOfKids(before);
      hide KidObjects, Forest, AllHold, Inserted, AreCells;
      child := new JSON();
      ghost var kid := Scalar(child, Json.Null);
      assert Objects(kid) == {child};
      kids := InsertCell(p, i, child, before, kid);
    }

    static method ListAt(p: Payload, index: nat, ghost o: Own) returns (child: JSON, ghost d: Own, ghost i: nat)
      requires o.Node? && o.payload == p && p.kind == Class.Array && Apart(o) && Holds(o)
      modifies p
      ensures Owns(o.json, d) && IsSlot(d, i, Index(index)) && d.kids[i].json == child
      ensures Meaning(d) == WithChild(Meaning(o), Index(index), ChildOf(Meaning(o), Index(index)))
      ensures fresh(Objects(d) - Objects(o)) && Keeps(o, d, i)
    {
      d := Resize(p, index + 1, o);
      i := index;
      child := p.cells[index];
    }

    /** resize of a deque, to at least n cells. */
    static method Resize(p: Payload, n: nat, ghost o: Own) returns (ghost d: Own)
      requires o.Node? && o.payload == p && p.kind == Class.Array && Apart(o) && Holds(o)
      modifies p
      ensures Owns(o.json, d) && fresh(Objects(d) - Objects(o)) && o.kids <= d.kids
      ensures d.Node? && d.json == o.json && d.payload == p && d.keys == [] && ItemsOf(d.kids) == Padded(ItemsOf(o.kids), n)
    {
      d := o;
      while |p.cells| < n
        invariant d.Node? && d.json == o.json && d.payload == p && d.keys == [] && Owns(o.json, d)
        invariant Padded(ItemsOf(d.kids), n) == Padded(ItemsOf(o.kids), n)
        invariant fresh(Objects(d) - Objects(o)) && |p.cells| == |d.kids| && o.kids <= d.kids
        decreases n - |p.cells|
      {
        hide Objects, KidObjects, Meaning, Apart, Holds, ItemsOf;
        d := AppendNull(p, d);
      }
    }

    static method AppendNull(p: Payload, ghost o: Own) returns (ghost d: Own)
      requires o.Node? && o.payload == p && p.kind == Class.Array && Apart(o) && Holds(o)
      modifies p
      ensures d.Node? && d.json == o.json && d.payload == p && d.keys == [] && Owns(o.json, d)
      ensures ItemsOf(d.kids) == ItemsOf(o.kids) + [Json.Null] && o.kids <= d.kids
      ensures |p.cells| == old(|p.cells|) + 1 && fresh(p.cells[|p.cells| - 1])
      ensures Objects(d) == Objects(o) + {p.cells[|p.cells| - 1]}
    {
      hide Objects, Holds, Apart, KidObjects, Forest, AllHold, AreCells, Inserted, ItemsOf, MembersOf;
      NodeParts(o);
      var cell;
      ghost var kids;
      cell, kids := InsertNull(p, |p.cells|, o.kids);
      d := Node(o.json, p, [], kids);
      ItemsInserted(o.kids, Scalar(cell, Json.Null));
      InsertedLast(o.kids, Scalar(cell, Json.Null));
      NodeOwns(d);
    }

    // ----- append, and statements through operator[].

    /** A call of append: its parameter is a copy of the argument, destroyed when it returns. */
    method AppendCopy(other: JSON, ghost o: Own, ghost c: Own) returns (ghost d: Own)
      requires Owns(this, o) && Owns(other, c) && Objects(o) !! Objects(c)
      modifies Objects(o)
      ensures Owns(this, d) && Meaning(d) == Json.Array(WithType(Meaning(o), Class.Array).items + [Meaning(c)])
      ensures fresh(Objects(d) - Objects(o)) && Owns(other, c)
    {
      ObjectsOfTree(o);
      ObjectsOfTree(c);
      hide Objects, Holds, Apart, WithType, Meaning, Payloads;
      var arg;
      ghost var a;
      arg, a := Copied(other, c);
      ObjectsOfTree(a);
      d := Append(arg, o, a);
      ObjectsOfTree(d);
      arg.ClearInternal(a);
    }

    /** append, which copies its parameter into the array. */
    method Append(arg: JSON, ghost o: Own, ghost a: Own) returns (ghost d: Own)
      requires Owns(this, o) && Owns(arg, a) && Objects(o) !! Objects(a)
      modifies Objects(o)
      ensures Owns(this, d) && Meaning(d) == Json.Array(WithType(Meaning(o), Class.Array).items + [Meaning(a)])
      ensures fresh(Objects(d) - Objects(o)) && Owns(arg, a)
    {
      ObjectsOfTree(o);
      ObjectsOfTree(a);
      hide Objects, Holds, Apart, WithType, Meaning;
      ghost var typed, k;
      typed := SetNode(Class.Array, o);
      ObjectsOfTree(typed);
      var cell;
      cell, k := Copied(arg, a);
      d := PushBack(internal.payload, cell, typed, k);
      ObjectsOfTree(d);
    }

    static method PushBack(p: Payload, cell: JSON, ghost o: Own, ghost k: Own) returns (ghost d: Own)
      requires o.Node? && o.payload == p && p.kind == Class.Array && Apart(o) && Holds(o)
      requires Owns(cell, k) && Objects(o) !! Objects(k)
      modifies p
      ensures Owns(o.json, d) && Objects(d) == Objects(o) + Objects(k)
      ensures Meaning(o).Array? && Meaning(d) == Json.Array(Meaning(o).items + [Meaning(k)])
    {
      hide Objects, Holds, Apart, KidObjects, Forest, AllHold, AreCells, Inserted, ItemsOf, MembersOf;
      NodeParts(o);
      ObjectsOfKids(o.kids);
      ghost var kids := InsertCell(p, |p.cells|, cell, o.kids, k);
      d := Node(o.json, p, [], kids);
      ItemsInserted(o.kids, k);
      NodeOwns(d);
    }

    /** One action on this object. */
    method Perform(act: Action, other: JSON, ghost o: Own, ghost c: Own) returns (ghost d: Own, ghost e: Own)
      requires Owns(this, o) && Owns(other, c) && Objects(o) !! Objects(c)
      modifies Objects(o), other
      ensures Owns(this, d) && Owns(other, e) && Objects(d) !! Objects(e)
      ensures Meaning(d) == Performed(act, Meaning(o), Meaning(c)) && Meaning(e) == ArgumentAfter(act, Meaning(c))
      ensures fresh(Objects(d) - Objects(o) - Objects(c)) && Objects(e) <= Objects(c)
    {
      ObjectsOfTree(o);
      ObjectsOfTree(c);
      hide Objects, Holds, Apart, WithType, Meaning;
      e := c;
      match act {
        case ToLong(n) => d := AssignLong(n, o);
        case ToBool(b) => d := AssignBool(b, o);
        case ToText(s) => d := AssignString(s, o);
        case CopyOf => d := AssignCopy(other, o, c);
        case MoveOf =>
          d := AssignMove(other, o, c);
          e := Scalar(other, Json.Null);
          ScalarObjects(e);
        case AppendOf => d := AppendCopy(other, o, c);
      }
      ObjectsOfTree(d);
    }

    /** An action on what a chain of operator[] refers to. */
    method Mutate(path: seq<Step>, act: Action, other: JSON, ghost o: Own, ghost c: Own)
        returns (ghost d: Own, ghost e: Own)
      requires Owns(this, o) && Owns(other, c) && Objects(o) !! Objects(c)
      modifies Objects(o), other
      ensures Owns(this, d) && Owns(other, e) && Objects(d) !! Objects(e)
      ensures Meaning(d) == Applied(Meaning(o), path, act, Meaning(c)) && Meaning(e) == ArgumentAfter(act, Meaning(c))
      ensures fresh(Objects(d) - Objects(o) - Objects(c)) && Objects(e) <= Objects(c)
      decreases |path|, 0
    {
      hide Objects, Holds, Apart, WithType, Meaning, WithChild, ChildOf, IsSlot, Performed, NodeHolds;
      if path == [] {
        d, e := Perform(act, other, o, c);
        return;
      }
      ObjectsOfTree(o);
      ObjectsOfTree(c);
      ghost var m, i, kid;
      var child;
      child, m, i := At(path[0], o);
      ObjectsOfTree(m);
      SlotIsKid(m, i, path[0]);
      KidIsPart(m, i);
      SlotMeaning(m, i, path[0], m.kids[i]);
      ghost var made := Objects(m);
      label found:
      d, e, kid := MutateKid(child, path[1..], act, other, m, i, c);
      SlotMeaning(m, i, path[0], kid);
      ChildTwice(Meaning(o), path[0], ChildOf(Meaning(o), path[0]), Meaning(kid));
      ObjectsOfTree(d);
      forall x | x in Objects(d) - Objects(o) - Objects(c) ensures fresh(x) {
        assert x in made - Objects(o) || x in Objects(d) - made - Objects(c);
        assert x in made || fresh@found(x);
      }
    }

    /** The rest of the path, on one of the cells. */
    static method MutateKid(child: JSON, path: seq<Step>, act: Action, other: JSON,
                            ghost m: Own, ghost i: nat, ghost c: Own)
        returns (ghost d: Own, ghost e: Own, ghost kid: Own)
      requires m.Node? && i < |m.kids| && m.kids[i].json == child && Apart(m) && Holds(m)
      requires Owns(other, c) && Objects(m) !! Objects(c)
      modifies Objects(m.kids[i]), other
      ensures d == WithKid(m, i, kid) && Owns(m.json, d) && Owns(other, e) && Objects(d) !! Objects(e)
      ensures Meaning(kid) == Applied(Meaning(m.kids[i]), path, act, Meaning(c))
      ensures Meaning(e) == ArgumentAfter(act, Meaning(c))
      ensures fresh(Objects(d) - Objects(m) - Objects(c)) && Objects(e) <= Objects(c)
      decreases |path|, 1
    {
      ghost var kids, rest := m.kids, Objects(m) - Objects(m.kids[i]);
      KidIsPart(m, i);
      ObjectsOfTree(m);
      ObjectsOfTree(c);
      hide Objects, KidObjects, Holds, AllHold, Forest, Apart, Meaning;
      label before:
      kid, e := child.Mutate(path, act, other, kids[i], c);
      ObjectsOfTree(kid);
      assert Objects(kid) !! rest;
      assert forall x | x in rest :: unchanged@before(x);
      forall k | 0 <= k < |kids| && k != i ensures Holds(kids[k]) {
        assert forall x | x in Objects(kids[k]) :: x in rest;
      }
      Replanted(m, i, kid);
      d := WithKid(m, i, kid);
    }

    // ----- Arguments that are reached through operator[] too.

    /** The argument is a part of another value. */
    method MutateFrom(path: seq<Step>, act: Action, other: JSON, argPath: seq<Step>, ghost o: Own, ghost c: Own)
        returns (ghost d: Own, ghost e: Own)
      requires Owns(this, o) && Owns(other, c) && Objects(o) !! Objects(c)
      modifies Objects(o), Objects(c)
      ensures Owns(this, d) && Owns(other, e) && Objects(d) !! Objects(e)
      ensures Meaning(d) == Applied(Meaning(o), path, act, ValueAt(Meaning(c), argPath))
      ensures Meaning(e) == SetAt(Meaning(c), argPath, ArgumentAfter(act, ValueAt(Meaning(c), argPath)))
      ensures fresh(Objects(d) - Objects(o) - Objects(c)) && fresh(Objects(e) - Objects(c))
      decreases |argPath|, 1
    {
      hide Objects, Holds, Apart, WithType, Meaning, WithChild, ChildOf, IsSlot, Applied, NodeHolds, Keeps;
      ObjectsOfTree(o);
      ObjectsOfTree(c);
      if argPath == [] {
        d, e := Mutate(path, act, other, o, c);
        return;
      }
      ghost var m, i, kid;
      var child;
      child, m, i := other.At(argPath[0], c);
      ObjectsOfTree(m);
      SlotIsKid(m, i, argPath[0]);
      KidIsPart(m, i);
      SlotMeaning(m, i, argPath[0], m.kids[i]);
      ghost var made := Objects(m);
      label found:
      d, e, kid := MutateFromKid(path, act, child, argPath[1..], o, m, i);
      SlotMeaning(m, i, argPath[0], kid);
      ChildTwice(Meaning(c), argPath[0], ChildOf(Meaning(c), argPath[0]), Meaning(kid));
      ObjectsOfTree(d);
      ObjectsOfTree(e);
      forall x | x in Objects(d) - Objects(o) - Objects(c) ensures fresh(x) {
        assert x in made - Objects(c) || x in Objects(d) - Objects(o) - made;
        assert x in made || fresh@found(x);
      }
      forall x | x in Objects(e) - Objects(c) ensures fresh(x) {
        assert x in made - Objects(c) || x in Objects(e) - made;
        assert x in made || fresh@found(x);
      }
    }

    /** The rest of the argument's path, on one of its cells. */
    method MutateFromKid(path: seq<Step>, act: Action, child: JSON, argPath: seq<Step>,
                         ghost o: Own, ghost m: Own, ghost i: nat)
        returns (ghost d: Own, ghost e: Own, ghost kid: Own)
      requires Owns(this, o) && m.Node? && i < |m.kids| && m.kids[i].json == child && Apart(m) && Holds(m)
      requires Objects(o) !! Objects(m)
      modifies Objects(o), Objects(m.kids[i])
      ensures Owns(this, d) && e == WithKid(m, i, kid) && Owns(m.json, e) && Objects(d) !! Objects(e)
      ensures Meaning(d) == Applied(Meaning(o), path, act, ValueAt(Meaning(m.kids[i]), argPath))
      ensures Meaning(kid) == SetAt(Meaning(m.kids[i]), argPath, ArgumentAfter(act, ValueAt(Meaning(m.kids[i]), argPath)))
      ensures fresh(Objects(d) - Objects(o) - Objects(m)) && fresh(Objects(e) - Objects(m))
      decreases |argPath|, 2
    {
      ghost var kids, rest := m.kids, Objects(m) - Objects(m.kids[i]);
      KidIsPart(m, i);
      ObjectsOfTree(m);
      ObjectsOfTree(o);
      hide Objects, KidObjects, Holds, AllHold, Forest, Apart, Meaning, Applied;
      label before:
      d, kid := MutateFrom(path, act, child, argPath, o, kids[i]);
      ObjectsOfTree(kid);
      ObjectsOfTree(d);
      assert Objects(kid) !! rest && Objects(d) !! rest;
      assert forall x | x in rest :: unchanged@before(x);
      forall k | 0 <= k < |kids| && k != i ensures Holds(kids[k]) {
        assert forall x | x in Objects(kids[k]) :: x in rest;
      }
      Replanted(m, i, kid);
      e := WithKid(m, i, kid);
    }

    /** The argument is another part of the same value. */
    method MutateWithin(path: seq<Step>, act: Action, argPath: seq<Step>, ghost o: Own) returns (ghost d: Own)
      requires Owns(this, o) && Diverge(path, argPath)
      modifies Objects(o)
      ensures Owns(this, d) && Meaning(d) == AppliedWithin(Meaning(o), path, act, argPath)
      ensures fresh(Objects(d) - Objects(o))
      decreases |path|, 1
    {
      hide Objects, Holds, Apart, WithType, Meaning, WithChild, ChildOf, IsSlot, AppliedWithin, NodeHolds, Keeps;
      ObjectsOfTree(o);
      ghost var m, i;
      var child;
      child, m, i := At(argPath[0], o);
      ObjectsOfTree(m);
      SlotIsKid(m, i, argPath[0]);
      KidIsPart(m, i);
      SlotMeaning(m, i, argPath[0], m.kids[i]);
      ghost var made := Objects(m);
      label found:
      if path[0] == argPath[0] {
        ghost var kid;
        d, kid := MutateWithinKid(child, path[1..], act, argPath[1..], m, i);
        SlotMeaning(m, i, argPath[0], kid);
        ChildTwice(Meaning(o), path[0], ChildOf(Meaning(o), path[0]), Meaning(kid));
        WithinChild(Meaning(o), path, act, argPath);
      } else {
        d := MutateApart(path, act, child, argPath, m, i);
        WithinParted(Meaning(o), path, act, argPath);
      }
      ObjectsOfTree(d);
      forall x | x in Objects(d) - Objects(o) ensures fresh(x) {
        assert x in made - Objects(o) || x in Objects(d) - made;
        assert x in made || fresh@found(x);
      }
    }

    static method MutateWithinKid(child: JSON, path: seq<Step>, act: Action, argPath: seq<Step>, ghost m: Own, ghost i: nat)
        returns (ghost d: Own, ghost kid: Own)
      requires m.Node? && i < |m.kids| && m.kids[i].json == child && Apart(m) && Holds(m) && Diverge(path, argPath)
      modifies Objects(m.kids[i])
      ensures d == WithKid(m, i, kid) && Owns(m.json, d) && fresh(Objects(d) - Objects(m))
      ensures Meaning(kid) == AppliedWithin(Meaning(m.kids[i]), path, act, argPath)
      decreases |path|, 2
    {
      ghost var kids, rest := m.kids, Objects(m) - Objects(m.kids[i]);
      KidIsPart(m, i);
      ObjectsOfTree(m);
      hide Objects, KidObjects, Holds, AllHold, Forest, Apart, Meaning, AppliedWithin, Diverge;
      label before:
      kid := child.MutateWithin(path, act, argPath, kids[i]);
      ObjectsOfTree(kid);
      assert Objects(kid) !! rest;
      assert forall x | x in rest :: unchanged@before(x);
      forall k | 0 <= k < |kids| && k != i ensures Holds(kids[k]) {
        assert forall x | x in Objects(kids[k]) :: x in rest;
      }
      Replanted(m, i, kid);
      d := WithKid(m, i, kid);
    }

    /** The two paths part at this object; the argument's cell has been looked up. */
    method MutateApart(path: seq<Step>, act: Action, source: JSON, argPath: seq<Step>, ghost m: Own, ghost a: nat)
        returns (ghost d: Own)
      requires Owns(this, m) && path != [] && argPath != []
      requires path[0] != argPath[0] && path[0].Key? == argPath[0].Key?
      requires IsSlot(m, a, argPath[0]) && m.kids[a].json == source
      modifies Objects(m)
      ensures Owns(this, d) && Meaning(d) == Parted(Meaning(m), path, act, argPath)
      ensures fresh(Objects(d) - Objects(m))
    {
      hide Objects, Holds, Apart, WithType, Meaning, WithChild, ChildOf, Applied, NodeHolds, Keeps, Moved;
      ObjectsOfTree(m);
      SlotMeaning(m, a, argPath[0], m.kids[a]);
      assert m.payload.kind == ClassFor(path[0]);
      hide IsSlot, ClassFor;
      ghost var n, t;
      var target;
      target, n, t := At(path[0], m);
      ghost var b := Moved(m, n, t, a);
      SlotMoves(m, n, t, path[0], a, argPath[0]);
      SlotIsKid(n, t, path[0]);
      KidIsPart(n, t);
      KidIsPart(n, b);
      ObjectsOfTree(n);
      ghost var made := Objects(n);
      label found:
      ghost var x, y;
      d, x, y := MutateTwoKids(target, path[1..], act, source, argPath[1..], n, t, b);
      TwoSlotsMeaning(n, t, path[0], x, b, argPath[0], y);
      MadeFirst(Meaning(m), argPath[0], Meaning(y), path[0], Meaning(x));
      ObjectsOfTree(d);
      forall x | x in Objects(d) - Objects(m) ensures fresh(x) {
        assert x in made - Objects(m) || x in Objects(d) - made;
        assert x in made || fresh@found(x);
      }
    }

    static method MutateTwoKids(target: JSON, path: seq<Step>, act: Action, source: JSON, argPath: seq<Step>,
                                ghost m: Own, ghost t: nat, ghost a: nat)
        returns (ghost d: Own, ghost x: Own, ghost y: Own)
      requires m.Node? && t < |m.kids| && a < |m.kids| && t != a && Apart(m) && Holds(m)
      requires m.kids[t].json == target && m.kids[a].json == source
      modifies Objects(m.kids[t]), Objects(m.kids[a])
      ensures d == WithKid(WithKid(m, a, y), t, x) && Owns(m.json, d) && fresh(Objects(d) - Objects(m))
      ensures Meaning(x) == Applied(Meaning(m.kids[t]), path, act, ValueAt(Meaning(m.kids[a]), argPath))
      ensures Meaning(y) == SetAt(Meaning(m.kids[a]), argPath, ArgumentAfter(act, ValueAt(Meaning(m.kids[a]), argPath)))
    {
      ghost var kids, rest := m.kids, Objects(m) - Objects(m.kids[t]) - Objects(m.kids[a]);
      KidIsPart(m, t);
      KidIsPart(m, a);
      ObjectsOfTree(m);
      hide Objects, KidObjects, Holds, AllHold, Forest, Apart, Meaning, Applied;
      label before:
      x, y := target.MutateFrom(path, act, source, argPath, kids[t], kids[a]);
      ObjectsOfTree(x);
      ObjectsOfTree(y);
      assert Objects(x) !! rest && Objects(y) !! rest;
      assert forall z | z in rest :: unchanged@before(z);
      forall k | 0 <= k < |kids| && k != t && k != a ensures Holds(kids[k]) {
        assert forall z | z in Objects(kids[k]) :: z in rest;
      }
      ReplantedTwo(m, t, x, a, y);
      d := WithKid(WithKid(m, a, y), t, x);
      ObjectsOfTree(d);
    }
  }


  /** Every JSON object holds a value with its keys in order and its integers in range. */
  lemma {:induction false} HeldIsWellFormed(o: Own)
    requires Holds(o)
    ensures WellFormed(Meaning(o))
    decreases o
  {
    if o.Node? {
      forall i | 0 <= i < |o.kids| ensures WellFormed(Meaning(o.kids[i])) {
        HeldIsWellFormed(o.kids[i]);
      }
      hide Holds, WellFormed;
      NodeIsWellFormed(o);
    }
  }

  lemma NodeIsWellFormed(o: Own)
    requires o.Node? && NodeHolds(o) && forall i | 0 <= i < |o.kids| :: WellFormed(Meaning(o.kids[i]))
    ensures WellFormed(Meaning(o))
  {
    var members, items := MembersOf(o.keys, o.kids), ItemsOf(o.kids);
    hide MembersOf, ItemsOf;
    assert o.payload.kind == Class.Object ==> SortedMembers(members);
  }

  // ----- Programs.

  /** The variables of a program: JSON objects that share nothing. */
  ghost predicate Program(vars: seq<JSON>, owns: seq<Own>)
    reads KidObjects(owns)
  {
    AreCells(vars, owns) && Forest(owns) && AllHold(owns)
  }

  /** Two variables changed, one of them by taking over what the other owned. */
  lemma ProgramUpdated(vars: seq<JSON>, owns: seq<Own>, t: nat, a: nat, d: Own, e: Own)
    requires AreCells(vars, owns) && Forest(owns) && t < |owns| && a < |owns| && t != a
    requires Owns(vars[t], d) && Owns(vars[a], e) && Objects(d) !! Objects(e)
    requires forall k | 0 <= k < |owns| && k != t && k != a ::
      Holds(owns[k]) && Objects(owns[k]) !! Objects(d) && Objects(owns[k]) !! Objects(e)
    ensures Program(vars, owns[a := e][t := d])
    ensures ItemsOf(owns[a := e][t := d]) == ItemsOf(owns)[a := Meaning(e)][t := Meaning(d)]
    ensures KidObjects(owns[a := e][t := d]) <= KidObjects(owns) + Objects(d) + Objects(e)
  {
    hide Objects, Apart, Holds, Meaning, ItemsOf;
    var after := owns[a := e][t := d];
    forall i, k | 0 <= i < k < |after| ensures Objects(after[i]) !! Objects(after[k]) {
    }
  }

  lemma ProgramUpdatedOne(vars: seq<JSON>, owns: seq<Own>, t: nat, d: Own)
    requires AreCells(vars, owns) && Forest(owns) && t < |owns| && Owns(vars[t], d)
    requires forall k | 0 <= k < |owns| && k != t :: Holds(owns[k]) && Objects(owns[k]) !! Objects(d)
    ensures Program(vars, owns[t := d]) && ItemsOf(owns[t := d]) == ItemsOf(owns)[t := Meaning(d)]
    ensures KidObjects(owns[t := d]) <= KidObjects(owns) + Objects(d)
  {
    hide Objects, Apart, Holds, Meaning, ItemsOf;
    var after := owns[t := d];
    forall i, k | 0 <= i < k < |after| ensures Objects(after[i]) !! Objects(after[k]) {
    }
  }

  /** One statement does to the objects what it does to their values. */
  method Execute(vars: seq<JSON>, st: Statement, ghost owns: seq<Own>) returns (ghost after: seq<Own>)
    requires Program(vars, owns) && Allowed(st, |vars|)
    modifies KidObjects(owns)
    ensures Program(vars, after) && ItemsOf(after) == AfterOne(ItemsOf(owns), st)
    ensures fresh(KidObjects(after) - KidObjects(owns))
  {
    var t, a := st.target, st.argument;
    ProgramParts(vars, owns);
    hide Program, KidObjects, ItemsOf, Applied, AppliedWithin;
    if !st.act.TakesArgument() {
      after := ExecuteWithout(vars, t, st.act, owns);
    } else if t.variable == a.variable {
      after := ExecuteWithin(vars, t, st.act, a.path, owns);
    } else {
      after := ExecuteWith(vars, t, st.act, a, owns);
    }
  }

  method ExecuteWithout(vars: seq<JSON>, t: Place, act: Action, ghost owns: seq<Own>) returns (ghost after: seq<Own>)
    requires Program(vars, owns) && t.variable < |vars| == |owns| && !act.TakesArgument()
    modifies KidObjects(owns)
    ensures Program(vars, after) && fresh(KidObjects(after) - KidObjects(owns))
    ensures
      var values := ItemsOf(owns);
      ItemsOf(after) == values[t.variable := Applied(values[t.variable], t.path, act, Json.Null)]
  {
    hide Objects, KidObjects, Holds, AllHold, Forest, Apart, Meaning, ItemsOf, Applied, Program;
    ghost var was := KidObjects(owns);
    var i := t.variable;
    ObjectsOfKids(owns);
    ProgramParts(vars, owns);
    var temp := new JSON();
    ghost var c := Scalar(temp, Json.Null);
    ScalarOwns(c);
    ghost var d, e;
    label before:
    d, e := vars[i].Mutate(t.path, act, temp, owns[i], c);
    ObjectsOfTree(d);
    forall k | 0 <= k < |owns| && k != i ensures Holds(owns[k]) && Objects(owns[k]) !! Objects(d) {
      assert forall x | x in Objects(owns[k]) :: x in was && unchanged@before(x);
    }
    ProgramUpdatedOne(vars, owns, i, d);
    after := owns[i := d];
    ObjectsOfKids(after);
  }

  method ExecuteWithin(vars: seq<JSON>, t: Place, act: Action, argPath: seq<Step>, ghost owns: seq<Own>)
      returns (ghost after: seq<Own>)
    requires Program(vars, owns) && t.variable < |vars| == |owns| && Diverge(t.path, argPath)
    modifies KidObjects(owns)
    ensures Program(vars, after) && fresh(KidObjects(after) - KidObjects(owns))
    ensures
      var values := ItemsOf(owns);
      ItemsOf(after) == values[t.variable := AppliedWithin(values[t.variable], t.path, act, argPath)]
  {
    hide Objects, KidObjects, Holds, AllHold, Forest, Apart, Meaning, ItemsOf, AppliedWithin, Program, Diverge;
    ghost var was := KidObjects(owns);
    var i := t.variable;
    ObjectsOfKids(owns);
    ProgramParts(vars, owns);
    label before:
    ghost var d := vars[i].MutateWithin(t.path, act, argPath, owns[i]);
    ObjectsOfTree(d);
    forall k | 0 <= k < |owns| && k != i ensures Holds(owns[k]) && Objects(owns[k]) !! Objects(d) {
      assert forall x | x in Objects(owns[k]) :: x in was && unchanged@before(x);
    }
    ProgramUpdatedOne(vars, owns, i, d);
    after := owns[i := d];
    ObjectsOfKids(after);
  }

  method ExecuteWith(vars: seq<JSON>, t: Place, act: Action, a: Place, ghost owns: seq<Own>)
      returns (ghost after: seq<Own>)
    requires Program(vars, owns) && t.variable < |vars| == |owns| && a.variable < |vars| && t.variable != a.variable
    modifies KidObjects(owns)
    ensures Program(vars, after) && fresh(KidObjects(after) - KidObjects(owns))
    ensures
      var values := ItemsOf(owns);
      var arg := ValueAt(values[a.variable], a.path);
      ItemsOf(after)
      == values[a.variable := SetAt(values[a.variable], a.path, ArgumentAfter(act, arg))]
               [t.variable := Applied(values[t.variable], t.path, act, arg)]
  {
    hide Objects, KidObjects, Holds, AllHold, Forest, Apart, Meaning, ItemsOf, Applied, Program;
    ghost var was := KidObjects(owns);
    var i, j := t.variable, a.variable;
    ObjectsOfKids(owns);
    ProgramParts(vars, owns);
    label before:
    ghost var d, e;
    d, e := vars[i].MutateFrom(t.path, act, vars[j], a.path, owns[i], owns[j]);
    ObjectsOfTree(d);
    ObjectsOfTree(e);
    forall k | 0 <= k < |owns| && k != i && k != j
      ensures Holds(owns[k]) && Objects(owns[k]) !! Objects(d) && Objects(owns[k]) !! Objects(e)
    {
      assert forall x | x in Objects(owns[k]) :: x in was && unchanged@before(x);
    }
    ProgramUpdated(vars, owns, i, j, d, e);
    after := owns[j := e][i := d];
    ObjectsOfKids(after);
  }

  lemma ProgramParts(vars: seq<JSON>, owns: seq<Own>)
    requires Program(vars, owns)
    ensures AreCells(vars, owns) && Forest(owns)
    ensures forall k | 0 <= k < |owns| :: Owns(vars[k], owns[k]) && Meaning(owns[k]) == ItemsOf(owns)[k]
    ensures forall i, k, x | 0 <= i < |owns| && 0 <= k < |owns| && i != k && x in Objects(owns[i]) ::
      x !in Objects(owns[k])
  {
    ForestApart(owns);
    hide Objects, Apart, Holds, Meaning;
  }

  /** Over any run of statements the objects mean what value semantics says. */
  method Run(vars: seq<JSON>, run: seq<Statement>, ghost owns: seq<Own>) returns (ghost after: seq<Own>)
    requires Program(vars, owns) && forall i | 0 <= i < |run| :: Allowed(run[i], |vars|)
    modifies KidObjects(owns)
    ensures Program(vars, after) && ItemsOf(after) == AfterAll(ItemsOf(owns), run)
    ensures fresh(KidObjects(after) - KidObjects(owns))
  {
    after := owns;
    assert run[0..] == run;
    hide Program, AfterOne, AfterAll, KidObjects, ItemsOf, Allowed;
    for i := 0 to |run|
      invariant Program(vars, after) && |after| == |owns|
      invariant AfterAll(ItemsOf(after), run[i..]) == AfterAll(ItemsOf(owns), run)
      invariant fresh(KidObjects(after) - KidObjects(owns))
    {
      ghost var was := KidObjects(after);
      AfterAllStep(ItemsOf(after), run, i);
      ObjectsOfKids(after);
      label turn:
      after := Execute(vars, run[i], after);
      ObjectsOfKids(after);
      forall x | x in KidObjects(after) - KidObjects(owns) ensures fresh(x) {
        assert x in was - KidObjects(owns) || x in KidObjects(after) - was;
        assert x in was || fresh@turn(x);
      }
    }
    AfterAllEnd(ItemsOf(after), run);
  }

  lemma NodeParts(o: Own)
    requires o.Node? && Apart(o) && Holds(o)
    ensures NodeHolds(o) && |o.payload.cells| == |o.kids| && AllHold(o.kids) && Forest(o.kids)
    ensures o.json !in KidObjects(o.kids) && o.payload !in KidObjects(o.kids)
    ensures Objects(o) == {o.json, o.payload} + KidObjects(o.kids)
  {
  }

  lemma NodeOwns(d: Own)
    requires d.Node? && NodeHolds(d) && AllHold(d.kids)
    requires Forest(d.kids) && d.json !in KidObjects(d.kids) && d.payload !in KidObjects(d.kids)
    ensures Owns(d.json, d) && Objects(d) == {d.json, d.payload} + KidObjects(d.kids)
  {
  }

  lemma ScalarOwns(o: Own)
    requires o.Scalar? && o.v == Json.Null && o.json.typ == Class.Null
    ensures Owns(o.json, o) && Objects(o) == {o.json} && Meaning(o) == Json.Null
  {
  }

  lemma ScalarObjects(o: Own)
    requires o.Scalar?
    ensures Objects(o) == {o.json} && Apart(o) && Meaning(o) == o.v
  {
  }

  lemma SlotIsKid(m: Own, i: nat, step: Step)
    requires IsSlot(m, i, step)
    ensures m.Node? && i < |m.kids|
  {
  }

  lemma KidIsPart(m: Own, i: nat)
    requires m.Node? && i < |m.kids| && Apart(m) && Holds(m)
    ensures Objects(m.kids[i]) <= Objects(m) && Apart(m.kids[i]) && Holds(m.kids[i])
    ensures m.json in Objects(m) - Objects(m.kids[i]) && m.payload in Objects(m) - Objects(m.kids[i])
    ensures forall k | 0 <= k < |m.kids| && k != i ::
      Holds(m.kids[k]) && Objects(m.kids[k]) <= Objects(m) - Objects(m.kids[i])
    ensures NodeHolds(m)
  {
    ForestApart(m.kids);
    hide Apart, Objects, Holds;
  }

  /** A kid that was changed in place fits where the old one was. */
  lemma Replanted(m: Own, i: nat, kid: Own)
    requires m.Node? && i < |m.kids| && Apart(m) && NodeHolds(m) && Owns(m.kids[i].json, kid)
    requires forall k | 0 <= k < |m.kids| && k != i :: Holds(m.kids[k])
    requires Objects(kid) !! Objects(m) - Objects(m.kids[i])
    ensures Owns(m.json, WithKid(m, i, kid))
    ensures Objects(WithKid(m, i, kid)) <= (Objects(m) - Objects(m.kids[i])) + Objects(kid)
  {
  }

  lemma NodeApart(m: Own)
    requires m.Node? && Apart(m)
    ensures Forest(m.kids) && Objects(m) == {m.json, m.payload} + KidObjects(m.kids)
    ensures m.json !in KidObjects(m.kids) && m.payload !in KidObjects(m.kids)
  {
  }

  lemma ForestUpdatedTwice(kids: seq<Own>, t: nat, x: Own, a: nat, y: Own)
    requires Forest(kids) && t < |kids| && a < |kids| && t != a && Apart(x) && Apart(y) && Objects(x) !! Objects(y)
    requires forall k | 0 <= k < |kids| && k != t && k != a ::
      Objects(kids[k]) !! Objects(x) && Objects(kids[k]) !! Objects(y)
    ensures Forest(kids[a := y][t := x])
    ensures
      forall z | z in KidObjects(kids[a := y][t := x]) ::
        || z in Objects(x) || z in Objects(y)
        || exists k | 0 <= k < |kids| && k != t && k != a :: z in Objects(kids[k])
  {
    hide Objects, Apart;
    var all := kids[a := y][t := x];
    forall i, k | 0 <= i < k < |all| ensures Objects(all[i]) !! Objects(all[k]) {
    }
  }

  /** Two kids that were changed in place, one perhaps by taking over what the other owned. */
  lemma ReplantedTwo(m: Own, t: nat, x: Own, a: nat, y: Own)
    requires m.Node? && t < |m.kids| && a < |m.kids| && t != a && Apart(m) && NodeHolds(m)
    requires Owns(m.kids[t].json, x) && Owns(m.kids[a].json, y) && Objects(x) !! Objects(y)
    requires forall k | 0 <= k < |m.kids| && k != t && k != a :: Holds(m.kids[k])
    requires Objects(x) !! Objects(m) - Objects(m.kids[t]) - Objects(m.kids[a])
    requires Objects(y) !! Objects(m) - Objects(m.kids[t]) - Objects(m.kids[a])
    ensures Owns(m.json, WithKid(WithKid(m, a, y), t, x))
    ensures
      Objects(WithKid(WithKid(m, a, y), t, x))
      <= (Objects(m) - Objects(m.kids[t]) - Objects(m.kids[a])) + Objects(x) + Objects(y)
  {
    hide Objects, KidObjects, Apart, Holds, Forest;
    var kids, d := m.kids, WithKid(WithKid(m, a, y), t, x);
    NodeApart(m);
    ForestApart(kids);
    ObjectsOfKids(kids);
    forall k | 0 <= k < |kids| && k != t && k != a
      ensures Objects(kids[k]) <= Objects(m) - Objects(kids[t]) - Objects(kids[a])
    {
    }
    ForestUpdatedTwice(kids, t, x, a, y);
    assert m.json in Objects(m) - Objects(kids[t]) - Objects(kids[a]);
    assert m.payload in Objects(m) - Objects(kids[t]) - Objects(kids[a]);
    NodeOwns(d);
  }

  lemma TwoSlotsMeaning(m: Own, t: nat, step: Step, x: Own, a: nat, other: Step, y: Own)
    requires IsSlot(m, t, step) && IsSlot(m, a, other) && t != a
    ensures Meaning(WithKid(WithKid(m, a, y), t, x)) == WithChild(WithChild(Meaning(m), other, Meaning(y)), step, Meaning(x))
    ensures Meaning(m.kids[t]) == ChildOf(Meaning(m), step) && Meaning(m.kids[a]) == ChildOf(Meaning(m), other)
  {
    hide Meaning, WithChild, ChildOf;
    SlotMeaning(m, a, other, y);
    SlotMeaning(m, t, step, x);
    SlotMeaning(WithKid(m, a, y), t, step, x);
  }

  lemma InsertedLast<T>(s: seq<T>, x: T)
    ensures Inserted(s, |s|, x) == s + [x]
  {
  }

  lemma ItemsInserted(kids: seq<Own>, kid: Own)
    ensures ItemsOf(Inserted(kids, |kids|, kid)) == ItemsOf(kids) + [Meaning(kid)]
  {
    hide *;
    InsertedLast(kids, kid);
    var a, b := ItemsOf(kids + [kid]), ItemsOf(kids) + [Meaning(kid)];
    assert |a| == |b|;
    forall i | 0 <= i < |a| ensures a[i] == b[i] {
      assert (kids + [kid])[i] == if i < |kids| then kids[i] else kid;
    }
  }

  lemma ObjectsMoved(c: Own, j: JSON)
    requires Apart(c) && j !in Objects(c)
    ensures Objects(c.(json := j)) == Objects(c) - {c.json} + {j} && Apart(c.(json := j))
    ensures Meaning(c.(json := j)) == Meaning(c)
  {
    hide KidObjects;
    match c
    case Scalar(_, _) =>
    case Text(_, p, _) =>
    case Node(_, p, _, kids) =>
      assert Objects(c) == {c.json, p} + KidObjects(kids);
  }

  lemma NoKids()
    ensures KidObjects([]) == {} && Forest([]) && ItemsOf([]) == [] && AllHold([])
  {
  }

  lemma KidOfForest(kids: seq<Own>, i: nat)
    requires i < |kids| && Forest(kids) && AllHold(kids)
    ensures Apart(kids[i]) && Holds(kids[i]) && Objects(kids[i]) <= KidObjects(kids)
    ensures Meaning(kids[i]) == ItemsOf(kids)[i]
  {
  }

  lemma SameMeaning(c: Own, d: Own)
    requires c.Node? && d.Node? && c.payload.kind == d.payload.kind && c.keys == d.keys
    requires ItemsOf(c.kids) == ItemsOf(d.kids)
    ensures Meaning(c) == Meaning(d)
  {
    assert forall i | 0 <= i < |c.kids| :: Meaning(c.kids[i]) == ItemsOf(c.kids)[i];
    assert forall i | 0 <= i < |c.kids| :: Meaning(d.kids[i]) == ItemsOf(d.kids)[i];
    assert MembersOf(c.keys, c.kids) == MembersOf(d.keys, d.kids);
  }
}
