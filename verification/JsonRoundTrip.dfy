/** Printing and parsing undo each other: the printed text of a value is a well-formed text with
    that value, exactly when its keys are canonical. */
module JsonRoundTrip {
  import opened JsonValues
  import opened JsonParser
  import opened JsonGrammar
  import opened JsonPrinter

  // ----- The syntax tree of a printed value.

  function ChrOf(c: char): Chr {
    if EscapeChar(c) == [c] then Plain(c) else Escaped(EscapeChar(c)[1])
  }

  function CharsOf(s: string): seq<Chr> {
    if s == "" then [] else [ChrOf(s[0])] + CharsOf(s[1..])
  }

  function TreeOf(v: Json, depth: int, tab: string): Tree
    decreases v, 1
  {
    match v
    case Null => NullLit
    case Object(members) =>
      var end := "\n" + Erase2(Pad(depth, tab));
      ObjectLit("\n" + end, PairsOf(members, depth, tab, end))
    case Array(items) => ArrayLit("", ElemsOf(items, depth, tab, ""))
    case String(s) => StringLit(CharsOf(s))
    case Integral(n) => NumberLit(LongToString(n))
    case Boolean(b) => BoolLit(b)
  }

  function ElemsOf(items: seq<Json>, depth: int, tab: string, before: string): (elems: seq<Elem>)
    ensures |elems| == |items|
    decreases items, 0
  {
    if items == [] then []
    else [Elem(before, TreeOf(items[0], depth + 1, tab), "")] + ElemsOf(items[1..], depth, tab, " ")
  }

  function PairsOf(members: seq<Member>, depth: int, tab: string, end: string): (pairs: seq<Pair>)
    ensures |pairs| == |members|
    decreases members, 0
  {
    if members == [] then []
    else
      var m := members[0];
      [Pair("\n" + Pad(depth, tab), CharsOf(Unescape(m.key)), " ", " ", TreeOf(m.value, depth + 1, tab),
            if |members| == 1 then end else "")]
      + PairsOf(members[1..], depth, tab, end)
  }

  // ----- Strings.

  lemma {:induction false} CharsOfString(s: string)
    ensures IsLiteral(CharsOf(s)) && RenderChars(CharsOf(s)) == Escape(s) && LiteralValue(CharsOf(s)) == s
  {
    if s != "" {
      hide ChrOf, EscapeChar, RenderChr, ChrValue, IsChr, IsLiteral;
      var c, rest, chars := s[0], s[1..], CharsOf(s);
      CharsOfString(rest);
      ChrOfChar(c);
      assert chars[0] == ChrOf(c) && chars[1..] == CharsOf(rest);
      LiteralCons(chars);
      hide CharsOf;
      assert LiteralValue(chars) == [c] + rest == s;
    } else {
      LiteralEmpty();
    }
  }

  lemma LiteralEmpty()
    ensures IsLiteral([])
  {
  }

  lemma LiteralCons(chars: seq<Chr>)
    requires chars != [] && IsChr(chars[0]) && IsLiteral(chars[1..])
    ensures IsLiteral(chars)
  {
    hide IsChr;
    forall i | 0 <= i < |chars| ensures IsChr(chars[i]) {
      assert i == 0 || chars[i] == chars[1..][i - 1];
    }
  }

  lemma ChrOfChar(c: char)
    ensures IsChr(ChrOf(c)) && RenderChr(ChrOf(c)) == EscapeChar(c) && ChrValue(ChrOf(c)) == [c]
  {
  }

  /** parse_string undoes json_escape, whatever follows the closing quote. */
  lemma EscapedStringParses(str: string, o: nat, s: string)
    requires o <= |str| && StartsAt(str, o, "\"" + (Escape(s) + "\""))
    ensures ParseString(str, o + 1, "") == Done(String(s), o + |Escape(s)| + 2)
  {
    hide StartsAt, ParseString, Escape, CharsOf, RenderChars, LiteralValue, IsLiteral;
    CharsOfString(s);
    StartsAtApart(str, o, "\"", Escape(s) + "\"");
    ParsesChars(str, o + 1, CharsOf(s), "");
    assert "" + s == s;
  }

  // ----- The tree is a text.

  lemma PadBlank(depth: int, tab: string)
    requires Blank(tab)
    ensures Blank(Pad(depth, tab)) && Blank("\n" + Pad(depth, tab)) && Blank("\n" + Erase2(Pad(depth, tab)))
    ensures Blank("\n" + ("\n" + Erase2(Pad(depth, tab))))
    decreases if depth < 0 then 0 else depth
  {
    if depth > 0 {
      PadBlank(depth - 1, tab);
    }
  }

  lemma LongIsInteger(n: int)
    requires LONG_MIN <= n <= LONG_MAX
    ensures IsInteger(LongToString(n))
  {
    StolOfLong(n);
    hide Stol;
    if n < 0 {
      assert LongToString(n)[1..] == Decimal(-n);
    } else {
      assert IsDigit(Decimal(n)[0]);
    }
  }

  lemma {:induction false} TreeIsText(v: Json, depth: int, tab: string)
    requires WellFormed(v) && Blank(tab)
    ensures IsText(TreeOf(v, depth, tab))
    decreases v, 1
  {
    hide Blank, Pad, Erase2;
    match v
    case Object(members) =>
      PadBlank(depth, tab);
      PairsAreTexts(members, depth, tab, "\n" + Erase2(Pad(depth, tab)));
    case Array(items) =>
      EmptyBlank();
      ElemsAreTexts(items, depth, tab, "");
    case String(s) => CharsOfString(s);
    case Integral(n) => LongIsInteger(n);
    case _ =>
  }

  lemma EmptyBlank()
    ensures Blank("") && Blank(" ")
  {
  }

  lemma {:induction false} ElemsAreTexts(items: seq<Json>, depth: int, tab: string, before: string)
    requires (forall i | 0 <= i < |items| :: WellFormed(items[i])) && Blank(tab) && Blank(before)
    ensures AreElems(ElemsOf(items, depth, tab, before))
    decreases items, 0
  {
    hide Blank, WellFormed;
    if items != [] {
      EmptyBlank();
      TreeIsText(items[0], depth + 1, tab);
      ElemsAreTexts(items[1..], depth, tab, " ");
      assert ElemsOf(items, depth, tab, before)[1..] == ElemsOf(items[1..], depth, tab, " ");
    }
  }

  lemma {:induction false} PairsAreTexts(members: seq<Member>, depth: int, tab: string, end: string)
    requires (forall i | 0 <= i < |members| :: WellFormed(members[i].value)) && Blank(tab) && Blank(end)
    ensures ArePairs(PairsOf(members, depth, tab, end))
    decreases members, 0
  {
    hide Blank, WellFormed, Pad, Unescape, IsLiteral;
    if members != [] {
      var m := members[0];
      EmptyBlank();
      PadBlank(depth, tab);
      CharsOfString(Unescape(m.key));
      TreeIsText(m.value, depth + 1, tab);
      PairsAreTexts(members[1..], depth, tab, end);
      assert PairsOf(members, depth, tab, end)[1..] == PairsOf(members[1..], depth, tab, end);
    }
  }

  // ----- Its text is what dump prints.

  lemma {:induction false} TreeRendersDump(v: Json, depth: int, tab: string)
    requires CanonicalKeys(v)
    ensures Render(TreeOf(v, depth, tab)) == Dump(v, depth, tab)
    decreases v, 1
  {
    match v
    case Object(members) =>
      hide DumpMembers, Pad, Erase2, RenderPairs;
      var end := "\n" + Erase2(Pad(depth, tab));
      if members == [] {
        NoMembers(depth, tab);
      } else {
        PairsRender(members, depth, tab, end);
      }
      ObjectText(DumpMembers(members, depth, tab), end);
    case Array(items) =>
      hide DumpItems, RenderElems;
      if items == [] {
        NoItems(depth, tab);
      } else {
        ElemsRender(items, depth, tab, "");
        ArrayText(DumpItems(items, depth, tab));
      }
    case String(s) =>
      CharsOfString(s);
    case _ =>
  }

  lemma ObjectText(members: string, end: string)
    ensures "{" + ("\n" + members + (end + "}")) == "{\n" + members + (end + "}")
    ensures members == "" ==> "{" + (("\n" + end) + "}") == "{\n" + members + (end + "}")
  {
  }

  lemma ArrayText(items: string)
    ensures "[" + ("" + items + "]") == "[" + items + "]"
  {
  }

  lemma NoMembers(depth: int, tab: string)
    ensures DumpMembers([], depth, tab) == ""
  {
  }

  lemma NoItems(depth: int, tab: string)
    ensures DumpItems([], depth, tab) == ""
  {
  }

  lemma RenderElemsParts(elems: seq<Elem>)
    requires elems != []
    ensures RenderElems(elems) == elems[0].before + (Render(elems[0].value) + (elems[0].after + RenderMoreElems(elems)))
    ensures RenderMoreElems(elems) == if |elems| == 1 then "]" else "," + RenderElems(elems[1..])
  {
    hide Render;
    assert RenderElems(elems) == elems[0].before + RenderElem(elems);
  }

  lemma {:induction false} ElemsRender(items: seq<Json>, depth: int, tab: string, before: string)
    requires items != [] && forall i | 0 <= i < |items| :: CanonicalKeys(items[i])
    ensures RenderElems(ElemsOf(items, depth, tab, before)) == before + DumpItems(items, depth, tab) + "]"
    decreases items, 0
  {
    hide CanonicalKeys, Dump, Render, TreeOf, RenderElems, RenderMoreElems;
    var d, elems, rest := Dump(items[0], depth + 1, tab), ElemsOf(items, depth, tab, before), items[1..];
    TreeRendersDump(items[0], depth + 1, tab);
    RenderElemsParts(elems);
    if rest == [] {
      OneElemText(before, d);
    } else {
      assert elems[1..] == ElemsOf(rest, depth, tab, " ");
      ElemsRender(rest, depth, tab, " ");
      MoreItemsAre(rest, depth, tab);
      var more := DumpItems(rest, depth, tab);
      hide DumpItems, MoreItems;
      ElemText(before, d, more);
    }
  }

  lemma OneElemText(before: string, d: string)
    ensures before + (d + ("" + "]")) == before + (d + "") + "]"
  {
    Associate(before, d, "]");
  }

  lemma ElemText(before: string, d: string, more: string)
    ensures before + (d + ("" + ("," + (" " + more + "]")))) == before + (d + (", " + more)) + "]"
  {
    var tail := "," + (" " + more + "]");
    assert tail == ", " + more + "]";
    assert "" + tail == tail;
    Associate(d, ", " + more, "]");
    Associate(before, d + (", " + more), "]");
  }

  lemma MoreItemsAre(items: seq<Json>, depth: int, tab: string)
    requires items != []
    ensures MoreItems(items, depth, tab) == ", " + DumpItems(items, depth, tab)
  {
    hide Dump;
  }

  lemma MoreMembersAre(members: seq<Member>, depth: int, tab: string)
    requires members != []
    ensures MoreMembers(members, depth, tab) == ",\n" + DumpMembers(members, depth, tab)
  {
    hide DumpMember;
  }

  lemma RenderPairsParts(pairs: seq<Pair>)
    requires pairs != []
    ensures RenderPairs(pairs) == pairs[0].beforeKey + RenderKey(pairs)
    ensures RenderMorePairs(pairs) == if |pairs| == 1 then "}" else "," + RenderPairs(pairs[1..])
  {
    hide RenderKey;
  }

  lemma {:induction false} PairsRender(members: seq<Member>, depth: int, tab: string, end: string)
    requires members != []
    requires forall i | 0 <= i < |members| :: CanonicalKey(members[i].key) && CanonicalKeys(members[i].value)
    ensures RenderPairs(PairsOf(members, depth, tab, end)) == "\n" + DumpMembers(members, depth, tab) + (end + "}")
    decreases members, 0
  {
    hide CanonicalKey, CanonicalKeys, Dump, Render, TreeOf, Pad, DumpMember, RenderKey, RenderPairs, RenderMorePairs;
    var m, pairs, rest := members[0], PairsOf(members, depth, tab, end), members[1..];
    var d, pad := DumpMember(m, depth, tab), Pad(depth, tab);
    TreeRendersDump(m.value, depth + 1, tab);
    MemberRenders(pairs, m, depth, tab);
    RenderPairsParts(pairs);
    Associate("\n", pad, RenderKey(pairs));
    if rest == [] {
      Associate("\n", d, end + "}");
      assert d + "" == d;
    } else {
      assert pairs[1..] == PairsOf(rest, depth, tab, end);
      PairsRender(rest, depth, tab, end);
      MoreMembersAre(rest, depth, tab);
      var more := DumpMembers(rest, depth, tab);
      hide DumpMembers, MoreMembers;
      MemberText(d, more, end + "}");
    }
  }

  lemma MemberText(d: string, more: string, end: string)
    ensures "\n" + (d + ("" + ("," + ("\n" + more + end)))) == "\n" + (d + (",\n" + more)) + end
  {
    var tail := "," + ("\n" + more + end);
    assert tail == ",\n" + more + end;
    assert "" + tail == tail;
    Associate(d, ",\n" + more, end);
    Associate("\n", d + (",\n" + more), end);
  }

  lemma MemberRenders(pairs: seq<Pair>, m: Member, depth: int, tab: string)
    requires pairs != [] && pairs[0].key == CharsOf(Unescape(m.key)) && CanonicalKey(m.key)
    requires pairs[0].afterKey == " " && pairs[0].beforeValue == " "
    requires Render(pairs[0].value) == Dump(m.value, depth + 1, tab)
    ensures Pad(depth, tab) + RenderKey(pairs) == DumpMember(m, depth, tab) + (pairs[0].after + RenderMorePairs(pairs))
  {
    CharsOfString(Unescape(m.key));
    hide Pad, Dump, Render, RenderMorePairs, Unescape, CharsOf, Escape, RenderChars;
    KeyLayout(Pad(depth, tab), m.key, Dump(m.value, depth + 1, tab), pairs[0].after + RenderMorePairs(pairs));
  }

  lemma KeyLayout(pad: string, key: string, x: string, more: string)
    ensures pad + (("\"" + (key + "\"")) + (" " + (":" + (" " + (x + more)))))
         == (pad + "\"" + key + "\" : " + x) + more
  {
    var colon := "\" : ";
    assert ("\"" + (key + "\"")) + (" " + (":" + (" " + (x + more)))) == "\"" + (key + (colon + (x + more)));
    Associate(pad + "\"" + key + colon, x, more);
    Associate(pad + "\"" + key, colon, x + more);
    Associate(pad + "\"", key, colon + (x + more));
    Associate(pad, "\"", key + (colon + (x + more)));
  }

  // ----- Its value is the value printed.

  /** Members stored in key order give themselves back. */
  lemma {:induction false} PairsGiveMembers(done: seq<Member>, members: seq<Member>, depth: int, tab: string, end: string)
    requires SortedMembers(done + members) && ArePairs(PairsOf(members, depth, tab, end))
    requires forall i | 0 <= i < |members| ::
      WellFormed(members[i].value) && CanonicalKey(members[i].key) && CanonicalKeys(members[i].value)
    requires Blank(tab)
    ensures PutPairs(done, PairsOf(members, depth, tab, end)) == done + members
    decreases members, 0
  {
    hide WellFormed, CanonicalKeys, CanonicalKey, Blank, Pad, SortedMembers, Put, IsText, IsLiteral, Unescape;
    if members == [] {
      assert done + members == done;
    } else {
      var m, rest, pairs := members[0], members[1..], PairsOf(members, depth, tab, end);
      assert pairs[1..] == PairsOf(rest, depth, tab, end);
      TreeGivesValue(m.value, depth + 1, tab);
      CharsOfString(Unescape(m.key));
      AfterAllBefore(done, members);
      CanonicalKeyIs(m.key);
      PutLast(done, m.key, m.value);
      AppendCons(done, m, rest);
      assert [m] + rest == members;
      PairsGiveMembers(done + [m], rest, depth, tab, end);
    }
  }

  lemma AfterAllBefore(done: seq<Member>, members: seq<Member>)
    requires SortedMembers(done + members) && members != []
    ensures forall x | x in done :: KeyLess(x.key, members[0].key)
  {
    hide KeyLess;
    forall x | x in done ensures KeyLess(x.key, members[0].key) {
      var i :| 0 <= i < |done| && done[i] == x;
      assert (done + members)[i] == x && (done + members)[|done|] == members[0];
    }
  }

  lemma CanonicalKeyIs(key: string)
    requires CanonicalKey(key)
    ensures Escape(Unescape(key)) == key
  {
  }

  lemma {:induction false} ElemsGiveItems(items: seq<Json>, depth: int, tab: string, before: string)
    requires AreElems(ElemsOf(items, depth, tab, before)) && Blank(tab)
    requires forall i | 0 <= i < |items| :: WellFormed(items[i]) && CanonicalKeys(items[i])
    ensures ElemValues(ElemsOf(items, depth, tab, before)) == items
    decreases items, 0
  {
    hide WellFormed, CanonicalKeys, Blank;
    if items != [] {
      assert ElemsOf(items, depth, tab, before)[1..] == ElemsOf(items[1..], depth, tab, " ");
      TreeGivesValue(items[0], depth + 1, tab);
      ElemsGiveItems(items[1..], depth, tab, " ");
      assert items == [items[0]] + items[1..];
    }
  }

  lemma {:induction false} TreeGivesValue(v: Json, depth: int, tab: string)
    requires WellFormed(v) && CanonicalKeys(v) && Blank(tab)
    ensures IsText(TreeOf(v, depth, tab)) && ValueOf(TreeOf(v, depth, tab)) == v
    decreases v, 1
  {
    TreeIsText(v, depth, tab);
    match v
    case Object(members) =>
      hide PutPairs, ArePairs, Blank;
      PairsGiveMembers([], members, depth, tab, "\n" + Erase2(Pad(depth, tab)));
      assert [] + members == members;
    case Array(items) =>
      hide ElemValues, AreElems, Blank;
      ElemsGiveItems(items, depth, tab, "");
    case String(s) => CharsOfString(s);
    case Integral(n) => StolOfLong(n);
    case _ =>
  }

  // ----- The theorems.

  /** Wherever it stands, the printed text of a value with canonical keys is read back as that
      value, and reading stops exactly behind it; an integer needs a delimiter after it. */
  lemma FramedRoundTrip(str: string, o: nat, v: Json, depth: int, tab: string)
    requires WellFormed(v) && CanonicalKeys(v) && Blank(tab)
    requires StartsAt(str, o, Dump(v, depth, tab))
    requires v.Integral? ==> IsDelimiter(At(str, o + |Dump(v, depth, tab)|))
    ensures ParseNext(str, o) == Done(v, o + |Dump(v, depth, tab)|)
  {
    hide Dump, Render, ValueOf, StartsAt, At, ParseNext, IsText, WellFormed, CanonicalKeys;
    TreeRendersDump(v, depth, tab);
    TreeGivesValue(v, depth, tab);
    assert v.Integral? <==> TreeOf(v, depth, tab).NumberLit?;
    hide TreeOf;
    ParsesTree(str, o, TreeOf(v, depth, tab));
  }

  /** A number alone is not read back: the NUL behind it is no delimiter. */
  lemma BareNumberIsLost(n: int)
    requires LONG_MIN <= n <= LONG_MAX
    ensures Load(LongToString(n)) == Done(Null, |LongToString(n)| + 1)
  {
    var s := LongToString(n);
    LongIsInteger(n);
    WholeStarts(s);
    StartsAtChar(s, 0, s);
    IntegerChars(s);
    hide ParseNext, LongToString, StartsAt;
    NextStays(s, 0);
    NumberEndsAt(s, 0, s);
  }

  /** Load(dump(v)) is v exactly when every key in v is canonical and v is not a bare number. */
  lemma LoadOfDump(v: Json, depth: int, tab: string)
    requires WellFormed(v) && Blank(tab)
    ensures
      var r := Load(Dump(v, depth, tab));
      r.Done? && r.value == v <==> CanonicalKeys(v) && !v.Integral?
  {
    hide ParseNext, CanonicalKeys, WellFormed;
    var text := Dump(v, depth, tab);
    ParsedIsReturnable(text, 0);
    if v.Integral? {
      IntegralInRange(v);
      BareNumberIsLost(v.n);
    } else if CanonicalKeys(v) {
      hide Dump;
      WholeStarts(text);
      FramedRoundTrip(text, 0, v, depth, tab);
    }
  }

  /** A key with a line break in it, printed raw, is read back escaped. */
  lemma RawKeyIsLost(depth: int, tab: string)
    requires Blank(tab)
    ensures
      var v := Object([Member("\n", Null)]);
      var r := Load(Dump(v, depth, tab));
      WellFormed(v) && !(r.Done? && r.value == v)
  {
    var v := Object([Member("\n", Null)]);
    assert "\n"[1..] == "";
    assert Unescape("\n") == "\n" + Unescape("") == "\n";
    assert Escape("\n") == "\\n" + Escape("");
    assert |Escape("\n")| == 2;
    assert !CanonicalKey("\n");
    assert WellFormed(v) && v.members[0].key == "\n";
    assert !CanonicalKeys(v);
    hide Dump, Load, Escape, Unescape;
    LoadOfDump(v, depth, tab);
  }

  lemma IntegralInRange(v: Json)
    requires WellFormed(v) && v.Integral?
    ensures LONG_MIN <= v.n <= LONG_MAX
  {
  }

  /** Whatever text a value was loaded from, well-formed or not, printing and loading it again
      gives the same value, unless it is a bare number. */
  lemma ReloadIsStable(text: string, depth: int, tab: string)
    requires Load(text).Done? && !Load(text).value.Integral? && Blank(tab)
    ensures
      var r := Load(Dump(Load(text).value, depth, tab));
      r.Done? && r.value == Load(text).value
  {
    hide ParseNext, Dump;
    ParsedIsReturnable(text, 0);
    LoadOfDump(Load(text).value, depth, tab);
  }
}
