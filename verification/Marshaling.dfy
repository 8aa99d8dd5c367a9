/** Resources as JSON documents. Unmarshalling reads strings with ToString(), which escapes them,
    so a resource comes back as it was only if escaping changes none of its strings. */
module Marshaling {
  import opened JsonValues
  import opened JsonParser
  import opened JsonGrammar
  import opened JsonPrinter
  import opened JsonRoundTrip

  /** The id of a resource is not part of its document, and not of this model. */
  datatype Resource = Resource(subject: string, values: seq<ResourceValue>)

  datatype ResourceValue = ResourceValue(name: string, value: string, flags: nat, children: seq<ResourceValue>)

  /** ResourceValueFlags::Empty */
  const EMPTY_FLAGS: nat := 0

  // ----- Marshalling.

  function MarshalValue(v: ResourceValue): Json
    decreases v, 1
  {
    var named := Put([], "n", String(v.name));
    var both := Put(named, "v", String(v.value));
    Object(if v.children == [] then both else Put(both, "c", Array(MarshalValues(v.children))))
  }

  /** MarshalValuesRecursively; the flags are not written. */
  function MarshalValues(values: seq<ResourceValue>): (items: seq<Json>)
    ensures |items| == |values|
    decreases values, 0
  {
    if values == [] then [] else [MarshalValue(values[0])] + MarshalValues(values[1..])
  }

  function Marshal(r: Resource): Json {
    var subject := Put([], "subject", String(r.subject));
    Object(if r.values == [] then subject else Put(subject, "values", Array(MarshalValues(r.values))))
  }

  /** MarshalResourceToJSON */
  function MarshalToJson(r: Resource): string {
    Dump(Marshal(r), 1, "  ")
  }

  // ----- Unmarshalling.

  /** UnmarshalValuesRecursively: a value that is no array has no elements. */
  function ValuesOf(doc: Json): seq<ResourceValue>
    decreases doc, 1
  {
    if doc.Array? then ValuesOfItems(doc.items) else []
  }

  function ValuesOfItems(items: seq<Json>): seq<ResourceValue>
    decreases items, 0
  {
    if items == [] then []
    else
      var it := items[0];
      var children := if FieldOf(it, "c") == Null then [] else ValuesOf(FieldOf(it, "c"));
      [ResourceValue(KeyText(FieldOf(it, "n")), KeyText(FieldOf(it, "v")), EMPTY_FLAGS, children)]
      + ValuesOfItems(items[1..])
  }

  function ResourceOf(doc: Json): Resource {
    Resource(KeyText(FieldOf(doc, "subject")), ValuesOf(FieldOf(doc, "values")))
  }

  /** How unmarshalling a text ends; Failed stands for every outcome of the parser but a value. */
  datatype Unmarshalled = Got(resource: Resource) | Failed(why: Outcome)

  /** UnmarshalResourceFromJSON on a string */
  function Unmarshal(text: string): Unmarshalled {
    var out := Load(text);
    if out.Done? then Got(ResourceOf(out.value)) else Failed(out)
  }

  // ----- What comes back.

  /** The resource a document of r gives back. */
  function EscapedResource(r: Resource): Resource {
    Resource(Escape(r.subject), EscapedValues(r.values))
  }

  /** Every string escaped once more, every flag lost. */
  function EscapedValues(values: seq<ResourceValue>): seq<ResourceValue> {
    if values == [] then []
    else
      var v := values[0];
      [ResourceValue(Escape(v.name), Escape(v.value), EMPTY_FLAGS, EscapedValues(v.children))]
      + EscapedValues(values[1..])
  }

  // ----- The documents: keys in order, all of them canonical.

  lemma KeysInOrder()
    ensures KeyLess("c", "n") && !KeyLess("n", "c") && KeyLess("n", "v") && !KeyLess("v", "n")
    ensures KeyLess("subject", "values") && !KeyLess("values", "subject")
  {
  }

  /** Put on members whose keys are above, in the order in which the code stores them. */
  lemma PutThree(n: Json, v: Json, c: Json)
    ensures Put([], "n", n) == [Member("n", n)]
    ensures Put([Member("n", n)], "v", v) == [Member("n", n), Member("v", v)]
    ensures Put([Member("n", n), Member("v", v)], "c", c) == [Member("c", c), Member("n", n), Member("v", v)]
  {
    KeysInOrder();
    hide KeyLess;
    assert [Member("n", n)][1..] == [];
  }

  lemma MarshalValueMembers(v: ResourceValue)
    ensures var nv := [Member("n", String(v.name)), Member("v", String(v.value))];
      MarshalValue(v) == Object(if v.children == [] then nv else [Member("c", Array(MarshalValues(v.children)))] + nv)
  {
    hide Put, MarshalValues;
    var n, w, c := Member("n", String(v.name)), Member("v", String(v.value)), Member("c", Array(MarshalValues(v.children)));
    PutThree(n.value, w.value, c.value);
    assert Put([], "n", n.value) == [n];
    assert Put(Put([], "n", n.value), "v", w.value) == [n, w];
    assert v.children == [] ==> MarshalValue(v) == Object([n, w]);
    assert v.children != [] ==> MarshalValue(v) == Object(Put([n, w], "c", c.value));
    assert [c] + [n, w] == [c, n, w];
    assert v.children != [] ==> MarshalValue(v) == Object([c] + [n, w]);
  }

  lemma MarshalMembers(r: Resource)
    ensures var subject := [Member("subject", String(r.subject))];
      Marshal(r) == Object(if r.values == [] then subject else subject + [Member("values", Array(MarshalValues(r.values)))])
  {
    hide MarshalValues;
    KeysInOrder();
    hide KeyLess;
    var subject, values := Member("subject", String(r.subject)), Member("values", Array(MarshalValues(r.values)));
    assert Put([], "subject", subject.value) == [subject];
    assert [subject][1..] == [];
    assert Put([subject], "values", values.value) == [subject] + [values];
    assert r.values == [] ==> Marshal(r) == Object([subject]);
    assert r.values != [] ==> Marshal(r) == Object([subject] + [values]);
  }

  lemma {:induction false} LettersAreCanonical(key: string)
    requires forall i | 0 <= i < |key| :: 'a' <= key[i] <= 'z'
    ensures CanonicalKey(key)
  {
    if key != "" {
      LettersAreCanonical(key[1..]);
      assert EscapeChar(key[0]) == [key[0]];
      assert Unescape(key) == [key[0]] + Unescape(key[1..]);
      assert Unescape(key)[1..] == Unescape(key[1..]);
      assert key == [key[0]] + key[1..];
    }
  }

  /** Objects like those the code builds, with two or three keys in order. */
  lemma ObjectIsWellFormed(members: seq<Member>)
    requires 1 <= |members| <= 3
    requires forall i | 0 <= i < |members| - 1 :: KeyLess(members[i].key, members[i + 1].key)
    requires forall i | 0 <= i < |members| ::
      WellFormed(members[i].value) && CanonicalKey(members[i].key) && CanonicalKeys(members[i].value)
    ensures WellFormed(Object(members)) && CanonicalKeys(Object(members))
  {
    hide KeyLess, CanonicalKey;
    if |members| == 3 {
      KeyLessTransitive(members[0].key, members[1].key, members[2].key);
    }
  }

  lemma ArrayIsWellFormed(items: seq<Json>)
    requires forall i | 0 <= i < |items| :: WellFormed(items[i]) && CanonicalKeys(items[i])
    ensures WellFormed(Array(items)) && CanonicalKeys(Array(items))
  {
  }

  lemma StringIsWellFormed(s: string)
    ensures WellFormed(String(s)) && CanonicalKeys(String(s))
  {
  }

  lemma {:induction false} ValueIsWellFormed(v: ResourceValue)
    ensures WellFormed(MarshalValue(v)) && CanonicalKeys(MarshalValue(v))
    decreases v, 1
  {
    hide MarshalValue, MarshalValues, KeyLess, CanonicalKey, WellFormed, CanonicalKeys;
    KeysInOrder();
    LettersAreCanonical("c");
    LettersAreCanonical("n");
    LettersAreCanonical("v");
    MarshalValueMembers(v);
    ValuesAreWellFormed(v.children);
    ArrayIsWellFormed(MarshalValues(v.children));
    StringIsWellFormed(v.name);
    StringIsWellFormed(v.value);
    ObjectIsWellFormed(MarshalValue(v).members);
  }

  lemma {:induction false} ValuesAreWellFormed(values: seq<ResourceValue>)
    ensures var items := MarshalValues(values);
      forall i | 0 <= i < |items| :: WellFormed(items[i]) && CanonicalKeys(items[i])
    decreases values, 0
  {
    hide MarshalValue, WellFormed, CanonicalKeys;
    if values != [] {
      ValueIsWellFormed(values[0]);
      ValuesAreWellFormed(values[1..]);
      assert MarshalValues(values)[1..] == MarshalValues(values[1..]);
      var items := MarshalValues(values);
      forall i | 0 <= i < |items| ensures WellFormed(items[i]) && CanonicalKeys(items[i]) {
        assert i == 0 || items[i] == items[1..][i - 1];
      }
    }
  }

  lemma MarshalIsWellFormed(r: Resource)
    ensures WellFormed(Marshal(r)) && CanonicalKeys(Marshal(r))
  {
    hide Marshal, MarshalValues, KeyLess, CanonicalKey, WellFormed, CanonicalKeys;
    KeysInOrder();
    LettersAreCanonical("subject");
    LettersAreCanonical("values");
    MarshalMembers(r);
    ValuesAreWellFormed(r.values);
    ArrayIsWellFormed(MarshalValues(r.values));
    StringIsWellFormed(r.subject);
    ObjectIsWellFormed(Marshal(r).members);
  }

  // ----- Reading a document back.

  lemma FieldsOfValue(v: ResourceValue)
    ensures FieldOf(MarshalValue(v), "n") == String(v.name) && FieldOf(MarshalValue(v), "v") == String(v.value)
    ensures FieldOf(MarshalValue(v), "c") == if v.children == [] then Null else Array(MarshalValues(v.children))
  {
    MarshalValueMembers(v);
    var n, w := Member("n", String(v.name)), Member("v", String(v.value));
    var c := Member("c", Array(MarshalValues(v.children)));
    hide MarshalValue, MarshalValues, Lookup;
    assert [n] + [w] == [n, w];
    assert "c"[0] != "n"[0] && "c"[0] != "v"[0] && "n"[0] != "v"[0];
    LookupFirst(c, [n, w], "c");
    LookupFirst(c, [n, w], "n");
    LookupFirst(c, [n, w], "v");
    LookupFirst(n, [w], "c");
    LookupFirst(n, [w], "n");
    LookupFirst(n, [w], "v");
    LookupFirst(w, [], "c");
    LookupFirst(w, [], "v");
  }

  lemma FieldsOfResource(r: Resource)
    ensures FieldOf(Marshal(r), "subject") == String(r.subject)
    ensures FieldOf(Marshal(r), "values") == if r.values == [] then Null else Array(MarshalValues(r.values))
  {
    MarshalMembers(r);
    hide Marshal, MarshalValues, Lookup;
    assert "subject"[0] != "values"[0];
    var subject, values := Member("subject", String(r.subject)), Member("values", Array(MarshalValues(r.values)));
    LookupFirst(subject, [values], "subject");
    LookupFirst(subject, [values], "values");
    LookupFirst(values, [], "values");
  }

  lemma {:induction false} ValuesComeBackEscaped(values: seq<ResourceValue>)
    ensures ValuesOfItems(MarshalValues(values)) == EscapedValues(values)
  {
    if values != [] {
      var v := values[0];
      FieldsOfValue(v);
      ValuesComeBackEscaped(v.children);
      ValuesComeBackEscaped(values[1..]);
      assert MarshalValues(values)[1..] == MarshalValues(values[1..]);
      hide MarshalValue, FieldOf, Escape;
    }
  }

  /** What unmarshalling makes of the text that marshalling wrote, for every resource. */
  lemma MarshalledComesBackEscaped(r: Resource)
    ensures Unmarshal(MarshalToJson(r)) == Got(EscapedResource(r))
  {
    hide Marshal, MarshalValues, EscapedValues, Escape, Dump, Load, FieldOf, WellFormed, CanonicalKeys;
    MarshalIsWellFormed(r);
    assert Blank("  ");
    LoadOfDump(Marshal(r), 1, "  ");
    FieldsOfResource(r);
    ValuesComeBackEscaped(r.values);
    assert !Marshal(r).Integral? by {
      MarshalMembers(r);
    }
  }

  /** A text that loads as anything but an object gives an empty resource. */
  lemma NoObjectNoResource(text: string)
    requires Load(text).Done? && !Load(text).value.Object?
    ensures Unmarshal(text) == Got(Resource("", []))
  {
    hide Load;
  }

  // ----- Which resources survive.

  /** None of the seven characters that JSON text escapes. */
  predicate NothingToEscape(s: string) {
    forall c | c in s :: c !in ['\"', '\\', '\U{8}', '\U{c}', '\n', '\r', '\t']
  }

  /** Nothing to escape in any string, no flag set. */
  predicate Unharmed(values: seq<ResourceValue>)
    decreases values, 0
  {
    forall v | v in values :: UnharmedValue(v)
  }

  predicate UnharmedValue(v: ResourceValue)
    decreases v, 1
  {
    NothingToEscape(v.name) && NothingToEscape(v.value) && v.flags == 0 && Unharmed(v.children)
  }

  lemma EscapeKeeps(s: string)
    ensures Escape(s) == s <==> NothingToEscape(s)
  {
    hide Escape;
    EscapeChangesNothing(s);
  }

  lemma UnharmedCons(v: ResourceValue, rest: seq<ResourceValue>)
    ensures Unharmed([v] + rest) <==> UnharmedValue(v) && Unharmed(rest)
  {
    hide UnharmedValue;
    var values := [v] + rest;
    assert v in values && forall x | x in values :: x == v || x in rest;
    assert forall x | x in rest :: x in values;
  }

  lemma {:induction false} EscapedValuesAre(values: seq<ResourceValue>)
    ensures EscapedValues(values) == values <==> Unharmed(values)
  {
    if values != [] {
      hide NothingToEscape, Escape, Unharmed;
      var v, rest := values[0], values[1..];
      EscapeKeeps(v.name);
      EscapeKeeps(v.value);
      EscapedValuesAre(v.children);
      EscapedValuesAre(rest);
      UnharmedCons(v, rest);
      assert values == [v] + rest;
      var w := ResourceValue(Escape(v.name), Escape(v.value), EMPTY_FLAGS, EscapedValues(v.children));
      assert EscapedValues(values)[1..] == EscapedValues(rest) && EscapedValues(values)[0] == w;
    }
  }

  /** A resource survives being marshalled and unmarshalled exactly when none of its strings has a
      character to escape and none of its values a flag. */
  lemma UnmarshalMarshal(r: Resource)
    ensures Unmarshal(MarshalToJson(r)) == Got(r) <==> NothingToEscape(r.subject) && Unharmed(r.values)
  {
    hide NothingToEscape, Escape, Unharmed, Unmarshal, MarshalToJson;
    MarshalledComesBackEscaped(r);
    EscapeKeeps(r.subject);
    EscapedValuesAre(r.values);
  }

  /** A password with a quote in it comes back with a backslash before the quote. */
  lemma QuoteIsNotKept()
    ensures var r := Resource("", [ResourceValue("", "\"", EMPTY_FLAGS, [])]);
      Unmarshal(MarshalToJson(r)) == Got(Resource("", [ResourceValue("", "\\\"", EMPTY_FLAGS, [])]))
  {
    hide Unmarshal, MarshalToJson;
    var v := ResourceValue("", "\"", EMPTY_FLAGS, []);
    MarshalledComesBackEscaped(Resource("", [v]));
    assert |v.value[1..]| == 0;
    assert Escape(v.value) == "\\\"" + Escape("") == "\\\"";
    assert Escape(v.name) == "";
    hide Escape;
    assert [v][1..] == [];
    assert EscapedValues([]) == [];
    assert EscapedValues([v]) == [ResourceValue("", "\\\"", EMPTY_FLAGS, [])] + EscapedValues([]);
  }

  // ----- The loops.

  lemma MarshalTurn(doc: seq<Json>, values: seq<ResourceValue>, i: nat)
    requires i < |values|
    ensures doc + MarshalValues(values[i..]) == (doc + [MarshalValue(values[i])]) + MarshalValues(values[i + 1..])
  {
    hide MarshalValue;
    assert values[i..][1..] == values[i + 1..];
    Associate(doc, [MarshalValue(values[i])], MarshalValues(values[i + 1..]));
  }

  /** MarshalValuesRecursively, filling the array index by index. */
  method MarshalValuesRecursively(values: seq<ResourceValue>) returns (doc: seq<Json>)
    ensures doc == MarshalValues(values)
    decreases values
  {
    hide Put, MarshalValues;
    doc := [];
    assert values[0..] == values;
    assert doc + MarshalValues(values) == MarshalValues(values);
    for i := 0 to |values|
      invariant doc + MarshalValues(values[i..]) == MarshalValues(values)
    {
      MarshalTurn(doc, values, i);
      var v := values[i];
      var row := Put([], "n", String(v.name));
      row := Put(row, "v", String(v.value));
      if v.children != [] {
        var children := MarshalValuesRecursively(v.children);
        row := Put(row, "c", Array(children));
      }
      assert Object(row) == MarshalValue(v);
      doc := doc + [Object(row)];
    }
    NoValuesLeft(doc, values);
  }

  lemma NoValuesLeft(doc: seq<Json>, values: seq<ResourceValue>)
    ensures doc + MarshalValues(values[|values|..]) == doc
  {
  }

  function ValueOfItem(it: Json): ResourceValue {
    var c := FieldOf(it, "c");
    ResourceValue(KeyText(FieldOf(it, "n")), KeyText(FieldOf(it, "v")), EMPTY_FLAGS, if c == Null then [] else ValuesOf(c))
  }

  lemma UnmarshalTurn(values: seq<ResourceValue>, items: seq<Json>, i: nat)
    requires i < |items|
    ensures values + ValuesOfItems(items[i..]) == (values + [ValueOfItem(items[i])]) + ValuesOfItems(items[i + 1..])
  {
    hide KeyText, FieldOf;
    assert items[i..][1..] == items[i + 1..];
    Associate(values, [ValueOfItem(items[i])], ValuesOfItems(items[i + 1..]));
  }

  /** UnmarshalValuesRecursively, on a fresh list of values. */
  method UnmarshalValuesRecursively(doc: Json) returns (values: seq<ResourceValue>)
    ensures values == ValuesOf(doc)
    decreases doc != Null, doc, 1
  {
    values := [];
    if doc == Null || !doc.Array? {
      return;
    }
    hide ValuesOfItems, FieldOf, KeyText, ValueOfItem;
    var items := doc.items;
    assert items[0..] == items;
    for i := 0 to |items|
      invariant values + ValuesOfItems(items[i..]) == ValuesOfItems(items)
    {
      UnmarshalTurn(values, items, i);
      var value := UnmarshalItem(items[i]);
      values := values + [value];
    }
    NoItemsLeft(values, items);
  }

  /** The body of its loop. */
  method UnmarshalItem(it: Json) returns (value: ResourceValue)
    ensures value == ValueOfItem(it)
    decreases true, it, 0
  {
    hide FieldOf, KeyText;
    var children := UnmarshalValuesRecursively(FieldOf(it, "c"));
    value := ResourceValue(KeyText(FieldOf(it, "n")), KeyText(FieldOf(it, "v")), EMPTY_FLAGS, children);
  }

  lemma NoItemsLeft(values: seq<ResourceValue>, items: seq<Json>)
    ensures values + ValuesOfItems(items[|items|..]) == values
  {
  }
}
