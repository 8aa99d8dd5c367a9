/** What the database does to one resource: marshalled, encrypted and stored as a blob; fetched,
    decrypted, cut at the first zero byte and unmarshalled. The path runs through every other
    module: marshalling, printing, the block cipher in CBC mode, and parsing. */
module Vault {
  import opened Field
  import opened JsonValues
  import opened JsonParser
  import opened JsonGrammar
  import opened JsonPrinter
  import opened Marshaling
  import JsonReader
  import Counter
  import Cryptor

  // ----- Bytes and characters.

  function ByteOf(n: nat): byte {
    if n == 0 then 0 else ByteOf(n - 1) + 1
  }

  lemma {:induction false} ByteOfValue(n: nat)
    requires n < 256
    ensures ByteOf(n) as int == n
  {
    if n > 0 {
      ByteOfValue(n - 1);
      Counter.ByteSuccessor(ByteOf(n - 1));
    }
  }

  /** The bytes of a std::string. */
  function Bytes(s: string): (b: seq<byte>)
    ensures |b| == |s|
  {
    seq(|s|, i requires 0 <= i < |s| => ByteOf(s[i] as nat))
  }

  function Chars(b: seq<byte>): (s: string)
    ensures |s| == |b|
  {
    seq(|b|, i requires 0 <= i < |b| => b[i] as int as char)
  }

  /** A string of bytes, without a NUL where none is allowed. */
  predicate Clean(s: string, noNul: bool) {
    forall c | c in s :: c as int < 256 && (noNul ==> c != '\0')
  }

  /** Every character is stored as the byte of its number. */
  lemma BytesOfString(s: string, i: nat)
    requires i < |s| && s[i] as int < 256
    ensures Bytes(s)[i] as int == s[i] as int
  {
    ByteOfValue(s[i] as nat);
  }

  lemma CharsOfBytes(s: string, noNul: bool)
    requires Clean(s, noNul)
    ensures Chars(Bytes(s)) == s
    ensures noNul ==> forall i | 0 <= i < |s| :: Bytes(s)[i] != 0
  {
    hide ByteOf;
    var b := Bytes(s);
    forall i | 0 <= i < |s| ensures b[i] as int == s[i] as int && (noNul ==> b[i] != 0) && Chars(b)[i] == s[i] {
      assert s[i] in s;
      ByteOfValue(s[i] as nat);
    }
  }

  // ----- A printed text has no bytes but those of the strings in it.

  predicate CleanValue(v: Json, noNul: bool) {
    match v
    case Object(members) =>
      forall i | 0 <= i < |members| :: Clean(members[i].key, noNul) && CleanValue(members[i].value, noNul)
    case Array(items) => forall i | 0 <= i < |items| :: CleanValue(items[i], noNul)
    case String(s) => Clean(s, noNul)
    case _ => true
  }

  lemma CleanBoth(a: string, b: string, noNul: bool)
    ensures Clean(a + b, noNul) <==> Clean(a, noNul) && Clean(b, noNul)
  {
    assert forall c | c in a :: c in a + b;
    assert forall c | c in b :: c in a + b;
  }

  lemma {:induction false} CleanEscape(s: string, noNul: bool)
    ensures Clean(Escape(s), noNul) <==> Clean(s, noNul)
  {
    if s != "" {
      CleanEscape(s[1..], noNul);
      CleanBoth(EscapeChar(s[0]), Escape(s[1..]), noNul);
      CleanBoth([s[0]], s[1..], noNul);
      assert s == [s[0]] + s[1..];
      CleanEscapeChar(s[0], noNul);
      hide Clean, EscapeChar;
    }
  }

  lemma CleanEscapeChar(c: char, noNul: bool)
    ensures Clean(EscapeChar(c), noNul) <==> Clean([c], noNul)
  {
    assert c in [c];
    if EscapeChar(c) != [c] {
      assert EscapeChar(c)[0] == '\\' && |EscapeChar(c)| == 2;
    }
  }

  lemma CleanDecimal(n: int, noNul: bool)
    ensures Clean(LongToString(n), noNul)
  {
    var d := Decimal(if n < 0 then -n else n);
    hide Decimal;
    assert Clean(d, noNul) && Clean("-", noNul);
    CleanBoth("-", d, noNul);
  }

  lemma {:induction false} CleanPad(depth: int, tab: string, noNul: bool)
    requires Clean(tab, noNul)
    ensures Clean(Pad(depth, tab), noNul)
    decreases if depth < 0 then 0 else depth
  {
    if depth > 0 {
      CleanPad(depth - 1, tab, noNul);
      CleanBoth(Pad(depth - 1, tab), tab, noNul);
      hide Clean;
    }
  }

  lemma CleanErase2(s: string, noNul: bool)
    requires Clean(s, noNul)
    ensures Clean(Erase2(s), noNul)
  {
    if |s| > 2 {
      hide Clean;
      CleanBoth(s[..2], s[2..], noNul);
      assert s == s[..2] + s[2..];
    } else {
      assert Clean("", noNul);
    }
  }

  lemma CleanWords(noNul: bool)
    ensures Clean("null", noNul) && Clean("true", noNul) && Clean("false", noNul) && Clean("", noNul)
    ensures Clean("{\n", noNul) && Clean("\n", noNul) && Clean("}", noNul) && Clean("[", noNul) && Clean("]", noNul)
    ensures Clean("\"", noNul) && Clean("\" : ", noNul) && Clean(", ", noNul) && Clean(",\n", noNul)
  {
  }

  lemma {:induction false} CleanDump(v: Json, depth: int, tab: string, noNul: bool)
    requires CleanValue(v, noNul) && Clean(tab, noNul)
    ensures Clean(Dump(v, depth, tab), noNul)
    decreases v, 1
  {
    hide Clean, Pad, Erase2, DumpMembers, DumpItems, Escape, LongToString;
    CleanWords(noNul);
    match v
    case Object(members) =>
      var body, end := DumpMembers(members, depth, tab), Erase2(Pad(depth, tab));
      CleanPad(depth, tab, noNul);
      CleanErase2(Pad(depth, tab), noNul);
      CleanMembers(members, depth, tab, noNul);
      CleanBoth("{\n", body, noNul);
      CleanBoth("\n", end, noNul);
      CleanBoth("\n" + end, "}", noNul);
      CleanBoth("{\n" + body, "\n" + end + "}", noNul);
    case Array(items) =>
      CleanItems(items, depth, tab, noNul);
      CleanBoth("[", DumpItems(items, depth, tab), noNul);
      CleanBoth("[" + DumpItems(items, depth, tab), "]", noNul);
    case String(s) =>
      CleanEscape(s, noNul);
      CleanBoth("\"", Escape(s), noNul);
      CleanBoth("\"" + Escape(s), "\"", noNul);
    case Integral(n) => CleanDecimal(n, noNul);
    case _ =>
  }

  lemma {:induction false} CleanItems(items: seq<Json>, depth: int, tab: string, noNul: bool)
    requires Clean(tab, noNul) && forall i | 0 <= i < |items| :: CleanValue(items[i], noNul)
    ensures Clean(DumpItems(items, depth, tab), noNul) && Clean(MoreItems(items, depth, tab), noNul)
    decreases items, 0
  {
    hide Clean, Dump, CleanValue;
    CleanWords(noNul);
    if items != [] {
      var d, more := Dump(items[0], depth + 1, tab), MoreItems(items[1..], depth, tab);
      CleanDump(items[0], depth + 1, tab, noNul);
      CleanItems(items[1..], depth, tab, noNul);
      CleanBoth(d, more, noNul);
      CleanBoth(", ", d + more, noNul);
    }
  }

  lemma {:induction false} CleanMember(m: Member, depth: int, tab: string, noNul: bool)
    requires Clean(tab, noNul) && Clean(m.key, noNul) && CleanValue(m.value, noNul)
    ensures Clean(DumpMember(m, depth, tab), noNul)
    decreases m, 2
  {
    hide Clean, Dump, CleanValue, Pad;
    var pad, d := Pad(depth, tab), Dump(m.value, depth + 1, tab);
    CleanWords(noNul);
    CleanPad(depth, tab, noNul);
    CleanDump(m.value, depth + 1, tab, noNul);
    CleanBoth(pad, "\"", noNul);
    CleanBoth(pad + "\"", m.key, noNul);
    CleanBoth(pad + "\"" + m.key, "\" : ", noNul);
    CleanBoth(pad + "\"" + m.key + "\" : ", d, noNul);
  }

  lemma {:induction false} CleanMembers(members: seq<Member>, depth: int, tab: string, noNul: bool)
    requires Clean(tab, noNul)
    requires forall i | 0 <= i < |members| :: Clean(members[i].key, noNul) && CleanValue(members[i].value, noNul)
    ensures Clean(DumpMembers(members, depth, tab), noNul) && Clean(MoreMembers(members, depth, tab), noNul)
    decreases members, 0
  {
    hide Clean, DumpMember, CleanValue;
    CleanWords(noNul);
    if members != [] {
      var d, more := DumpMember(members[0], depth, tab), MoreMembers(members[1..], depth, tab);
      CleanMember(members[0], depth, tab, noNul);
      CleanMembers(members[1..], depth, tab, noNul);
      CleanBoth(d, more, noNul);
      CleanBoth(",\n", d + more, noNul);
    }
  }

  // ----- Storing and fetching.

  datatype Fetched = NoKey | Read(result: Unmarshalled)

  /** The blob that Upsert stores for a resource. */
  function Stored(keyAndIv: seq<byte>, r: Resource): Cryptor.CryptResult {
    Cryptor.Encrypted(keyAndIv, Bytes(MarshalToJson(r)))
  }

  /** The length of the text before the first zero byte. */
  function EffectiveSize(data: seq<byte>): (n: nat)
    ensures n <= |data| && (forall i | 0 <= i < n :: data[i] != 0) && (n < |data| ==> data[n] == 0)
  {
    if data == [] || data[0] == 0 then 0 else 1 + EffectiveSize(data[1..])
  }

  /** UnmarshalResourceFromJSON on decrypted data */
  function UnmarshalData(data: seq<byte>): Unmarshalled {
    Unmarshal(Chars(data[..EffectiveSize(data)]))
  }

  /** What GetOne makes of a blob. */
  function FetchedFrom(keyAndIv: seq<byte>, blob: seq<byte>): Fetched {
    match Cryptor.Decrypted(keyAndIv, blob)
    case BadKey => NoKey
    case Success(data) => Read(UnmarshalData(data))
  }

  method MeasureText(data: seq<byte>) returns (effectiveSize: nat)
    ensures effectiveSize == EffectiveSize(data)
  {
    effectiveSize := |data|;
    for i := 0 to |data|
      invariant forall k | 0 <= k < i :: data[k] != 0
    {
      if data[i] == 0 {
        effectiveSize := i;
        break;
      }
    }
  }

  method StoreResource(keyAndIv: seq<byte>, r: Resource) returns (blob: Cryptor.CryptResult)
    ensures blob == Stored(keyAndIv, r)
    ensures
      if |keyAndIv| == 32 then blob.Success? && Cryptor.IsEncrypted(keyAndIv, Bytes(MarshalToJson(r)), blob.data)
      else blob == Cryptor.BadKey
  {
    hide Put, Dump, MarshalValues, Cryptor.IsEncrypted;
    var document := Put([], "subject", String(r.subject));
    if r.values != [] {
      var values := MarshalValuesRecursively(r.values);
      document := Put(document, "values", Array(values));
    }
    assert Object(document) == Marshal(r);
    var json := DumpLoop(Object(document), 1, "  ");
    blob := Cryptor.Encrypt(keyAndIv, Bytes(json));
  }

  method FetchResource(keyAndIv: seq<byte>, blob: seq<byte>) returns (fetched: Fetched)
    ensures fetched == FetchedFrom(keyAndIv, blob)
  {
    hide Cryptor.Decrypted, Chars, Load, EffectiveSize, FieldOf, ValuesOf, KeyText;
    var decrypted := Cryptor.Decrypt(keyAndIv, blob);
    if decrypted.BadKey? {
      return NoKey;
    }
    var size := MeasureText(decrypted.data);
    var document := JsonReader.LoadText(Chars(decrypted.data[..size]));
    if !document.Done? {
      return Read(Failed(document));
    }
    var subject := KeyText(FieldOf(document.value, "subject"));
    var values := UnmarshalValuesRecursively(FieldOf(document.value, "values"));
    fetched := Read(Got(Resource(subject, values)));
  }

  // ----- Which resources the database gives back.

  predicate CleanResource(r: Resource, noNul: bool) {
    Clean(r.subject, noNul) && CleanResourceValues(r.values, noNul)
  }

  predicate CleanResourceValues(values: seq<ResourceValue>, noNul: bool)
    decreases values, 0
  {
    forall v | v in values :: CleanResourceValue(v, noNul)
  }

  predicate CleanResourceValue(v: ResourceValue, noNul: bool)
    decreases v, 1
  {
    Clean(v.name, noNul) && Clean(v.value, noNul) && CleanResourceValues(v.children, noNul)
  }

  lemma CleanArray(items: seq<Json>, noNul: bool)
    requires forall i | 0 <= i < |items| :: CleanValue(items[i], noNul)
    ensures CleanValue(Array(items), noNul)
  {
  }

  lemma CleanObject(members: seq<Member>, noNul: bool)
    requires forall i | 0 <= i < |members| :: Clean(members[i].key, noNul) && CleanValue(members[i].value, noNul)
    ensures CleanValue(Object(members), noNul)
  {
  }

  lemma CleanString(s: string, noNul: bool)
    requires Clean(s, noNul)
    ensures CleanValue(String(s), noNul)
  {
  }

  lemma CleanKeys(noNul: bool)
    ensures Clean("subject", noNul) && Clean("values", noNul)
    ensures Clean("n", noNul) && Clean("v", noNul) && Clean("c", noNul) && Clean("  ", noNul)
  {
  }

  lemma {:induction false} CleanMarshalValue(v: ResourceValue, noNul: bool)
    requires CleanResourceValue(v, noNul)
    ensures CleanValue(MarshalValue(v), noNul)
    decreases v, 1
  {
    hide Clean, CleanValue, MarshalValue, MarshalValues, CleanResourceValues;
    CleanKeys(noNul);
    MarshalValueMembers(v);
    CleanString(v.name, noNul);
    CleanString(v.value, noNul);
    CleanMarshalValues(v.children, noNul);
    CleanArray(MarshalValues(v.children), noNul);
    CleanObject(MarshalValue(v).members, noNul);
  }

  lemma {:induction false} CleanMarshalValues(values: seq<ResourceValue>, noNul: bool)
    requires CleanResourceValues(values, noNul)
    ensures forall i | 0 <= i < |values| :: CleanValue(MarshalValues(values)[i], noNul)
    decreases values, 0
  {
    hide CleanValue, MarshalValue, CleanResourceValue;
    if values != [] {
      CleanMarshalValue(values[0], noNul);
      assert forall v | v in values[1..] :: v in values;
      CleanMarshalValues(values[1..], noNul);
    }
  }

  lemma CleanMarshal(r: Resource, noNul: bool)
    requires CleanResource(r, noNul)
    ensures Clean(MarshalToJson(r), noNul)
  {
    hide Clean, CleanValue, Marshal, MarshalValues, CleanResourceValues, Dump;
    CleanKeys(noNul);
    MarshalMembers(r);
    CleanString(r.subject, noNul);
    CleanMarshalValues(r.values, noNul);
    CleanArray(MarshalValues(r.values), noNul);
    CleanObject(Marshal(r).members, noNul);
    CleanDump(Marshal(r), 1, "  ", noNul);
  }

  predicate NulFreeResource(r: Resource) {
    '\0' !in r.subject && NulFreeValues(r.values)
  }

  predicate NulFreeValues(values: seq<ResourceValue>)
    decreases values, 0
  {
    forall v | v in values :: NulFreeValue(v)
  }

  predicate NulFreeValue(v: ResourceValue)
    decreases v, 1
  {
    '\0' !in v.name && '\0' !in v.value && NulFreeValues(v.children)
  }

  lemma {:induction false} CleanWithoutNul(values: seq<ResourceValue>)
    requires CleanResourceValues(values, false) && NulFreeValues(values)
    ensures CleanResourceValues(values, true)
  {
    forall v | v in values ensures CleanResourceValue(v, true) {
      assert CleanResourceValue(v, false) && NulFreeValue(v);
      CleanWithoutNul(v.children);
      hide CleanResourceValues, NulFreeValues;
    }
  }

  lemma FieldNulFree(doc: Json, key: string)
    requires NulFree(doc)
    ensures NulFree(FieldOf(doc, key)) && '\0' !in KeyText(FieldOf(doc, key))
  {
    hide Lookup;
    var f := FieldOf(doc, key);
    if f.String? {
      EscapeNulFree(f.s);
    }
  }

  lemma {:induction false} ValuesNulFree(doc: Json)
    requires NulFree(doc)
    ensures NulFreeValues(ValuesOf(doc))
    decreases doc, 1
  {
    hide ValuesOfItems;
    if doc.Array? {
      ItemsNulFree(doc.items);
    }
  }

  lemma {:induction false} ItemsNulFree(items: seq<Json>)
    requires forall i | 0 <= i < |items| :: NulFree(items[i])
    ensures NulFreeValues(ValuesOfItems(items))
    decreases items, 0
  {
    hide NulFree, FieldOf, KeyText, ValuesOf, NulFreeValue;
    if items != [] {
      var it, rest := items[0], ValuesOfItems(items[1..]);
      ItemNulFree(it);
      ItemsNulFree(items[1..]);
      assert ValuesOfItems(items) == [ValueOfItem(it)] + rest;
      hide ValueOfItem, ValuesOfItems;
      assert forall v | v in [ValueOfItem(it)] + rest :: v == ValueOfItem(it) || v in rest;
    }
  }

  lemma {:induction false} ItemNulFree(it: Json)
    requires NulFree(it)
    ensures NulFreeValue(ValueOfItem(it))
    decreases it, 0
  {
    hide NulFree, FieldOf, KeyText, ValuesOf;
    FieldNulFree(it, "n");
    FieldNulFree(it, "v");
    FieldNulFree(it, "c");
    var c := FieldOf(it, "c");
    if c != Null {
      ValuesNulFree(c);
    }
  }

  /** A resource unmarshalled from a text without NUL has none. */
  lemma UnmarshalledNulFree(text: string)
    requires '\0' !in text && Unmarshal(text).Got?
    ensures NulFreeResource(Unmarshal(text).resource)
  {
    hide ParseNext, FieldOf, NulFree, KeyText, ValuesOf, WellFormed, CanonicalKeys;
    ParsedIsReturnable(text, 0);
    var doc := Load(text).value;
    FieldNulFree(doc, "subject");
    FieldNulFree(doc, "values");
    ValuesNulFree(FieldOf(doc, "values"));
  }

  lemma EffectiveSizeStops(text: seq<byte>, data: seq<byte>)
    requires text + [0] <= data && forall i | 0 <= i < |text| :: text[i] != 0
    ensures EffectiveSize(data) == |text|
  {
    hide EffectiveSize;
    assert forall i | 0 <= i <= |text| :: data[i] == (text + [0])[i];
    assert data[|text|] == 0 && forall i | 0 <= i < |text| :: data[i] != 0;
  }

  /** Data unmarshals like the text before its first zero byte. */
  lemma DataNulFree(data: seq<byte>)
    requires UnmarshalData(data).Got?
    ensures NulFreeResource(UnmarshalData(data).resource)
  {
    hide Unmarshal, EffectiveSize;
    var text := Chars(data[..EffectiveSize(data)]);
    forall i | 0 <= i < |text| ensures text[i] != '\0' {
    }
    UnmarshalledNulFree(text);
  }

  /** What is fetched is what marshalling keeps, if the strings have no NUL. */
  lemma FetchedWhenNulFree(keyAndIv: seq<byte>, r: Resource)
    requires |keyAndIv| == 2 * Cryptor.KEYLEN && CleanResource(r, true)
    ensures FetchedFrom(keyAndIv, Stored(keyAndIv, r).data) == Read(Got(EscapedResource(r)))
  {
    hide MarshalToJson, Unmarshal, Bytes, Chars, EffectiveSize, CleanResource, Clean, EscapedResource;
    hide Cryptor.Encrypted, Cryptor.Decrypted, Cryptor.PadToBlocks;
    var json := MarshalToJson(r);
    var text := Bytes(json);
    Cryptor.DecryptedEncrypted(keyAndIv, text);
    CleanMarshal(r, true);
    CharsOfBytes(json, true);
    var data := Cryptor.PadToBlocks(text + [0]);
    EffectiveSizeStops(text, data);
    assert data[..|text|] == text by {
      assert data[..|text| + 1] == text + [0];
    }
    MarshalledComesBackEscaped(r);
  }

  /** Storing and fetching gives a resource back exactly when no string in it has a character
      that JSON escapes or a NUL, and no value in it a flag. */
  lemma FetchedStored(keyAndIv: seq<byte>, r: Resource)
    requires |keyAndIv| == 2 * Cryptor.KEYLEN && CleanResource(r, false)
    ensures
      FetchedFrom(keyAndIv, Stored(keyAndIv, r).data) == Read(Got(r))
      <==> NulFreeResource(r) && NothingToEscape(r.subject) && Unharmed(r.values)
  {
    assert Stored(keyAndIv, r).Success?;
    hide FetchedFrom, Stored, NothingToEscape, Unharmed, NulFreeValues;
    hide Cryptor.Encrypted, Cryptor.Decrypted, Cryptor.PadToBlocks, UnmarshalData, Escape, CleanResourceValues;
    if NulFreeResource(r) {
      CleanWithoutNul(r.values);
      FetchedWhenNulFree(keyAndIv, r);
      EscapeKeeps(r.subject);
      EscapedValuesAre(r.values);
    } else {
      hide NulFreeResource;
      FetchedNulFree(keyAndIv, Stored(keyAndIv, r).data);
    }
  }

  lemma FetchedNulFree(keyAndIv: seq<byte>, blob: seq<byte>)
    ensures var f := FetchedFrom(keyAndIv, blob);
      f.Read? && f.result.Got? ==> NulFreeResource(f.result.resource)
  {
    hide Cryptor.Decrypted, UnmarshalData, NulFreeResource;
    match Cryptor.Decrypted(keyAndIv, blob)
    case BadKey =>
    case Success(data) =>
      if UnmarshalData(data).Got? {
        DataNulFree(data);
      }
  }
}
