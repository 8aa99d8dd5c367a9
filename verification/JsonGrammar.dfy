/** The well-formed texts of RFC 8259 (sections 2 to 7), integers only, as syntax trees that keep
    the whitespace, and the theorem that the parser reads exactly such a text and stops exactly
    behind it, whatever stands around it. The trees also have what the parser accepts beyond the
    standard: more whitespace characters, raw control characters in strings, leading zeros. */
module JsonGrammar {
  import opened JsonValues
  import opened JsonParser

  /** One character of a string literal: itself, a backslash and a letter, or \u and four
      hexadecimal digits. */
  datatype Chr = Plain(c: char) | Escaped(letter: char) | Unicode(hex: string)

  datatype Tree =
    | NullLit
    | BoolLit(b: bool)
    | NumberLit(lexeme: string)
    | StringLit(chars: seq<Chr>)
    | ArrayLit(blank: string, elems: seq<Elem>)
    | ObjectLit(blank: string, pairs: seq<Pair>)

  /** A value in an array with the whitespace around it. */
  datatype Elem = Elem(before: string, value: Tree, after: string)

  /** A member of an object with the whitespace around its parts. */
  datatype Pair = Pair(beforeKey: string, key: seq<Chr>, afterKey: string, beforeValue: string, value: Tree, after: string)

  // ----- Which trees are texts.

  predicate Blank(s: string) {
    forall i :: 0 <= i < |s| ==> IsSpace(s[i])
  }

  predicate IsChr(c: Chr) {
    match c
    case Plain(c) => c != '\"' && c != '\\'
    case Escaped(l) => l in "\"\\/bfnrt"
    case Unicode(hex) => |hex| == 4 && forall i :: 0 <= i < 4 ==> IsHex(hex[i])
  }

  predicate IsLiteral(chars: seq<Chr>) {
    forall i :: 0 <= i < |chars| ==> IsChr(chars[i])
  }

  /** An integer in range: digits, with or without a minus sign before them. */
  predicate IsInteger(lexeme: string) {
    var digits := if lexeme != "" && lexeme[0] == '-' then lexeme[1..] else lexeme;
    digits != "" && AllDigits(digits) && Stol(lexeme).Long?
  }

  predicate IsText(t: Tree) {
    match t
    case NullLit => true
    case BoolLit(_) => true
    case NumberLit(lexeme) => IsInteger(lexeme)
    case StringLit(chars) => IsLiteral(chars)
    case ArrayLit(blank, elems) => Blank(blank) && AreElems(elems)
    case ObjectLit(blank, pairs) => Blank(blank) && ArePairs(pairs)
  }

  predicate AreElems(elems: seq<Elem>) {
    elems != [] ==>
      var e := elems[0];
      Blank(e.before) && IsText(e.value) && Blank(e.after) && AreElems(elems[1..])
  }

  predicate ArePairs(pairs: seq<Pair>) {
    pairs != [] ==>
      var p := pairs[0];
      && Blank(p.beforeKey) && IsLiteral(p.key) && Blank(p.afterKey)
      && Blank(p.beforeValue) && IsText(p.value) && Blank(p.after)
      && ArePairs(pairs[1..])
  }

  // ----- The text of a tree.

  function RenderChr(c: Chr): (s: string)
    ensures s != ""
  {
    match c
    case Plain(c) => [c]
    case Escaped(l) => ['\\', l]
    case Unicode(hex) => "\\u" + hex
  }

  function RenderChars(chars: seq<Chr>): string {
    if chars == [] then "" else RenderChr(chars[0]) + RenderChars(chars[1..])
  }

  function RenderLiteral(chars: seq<Chr>): string {
    "\"" + (RenderChars(chars) + "\"")
  }

  function Render(t: Tree): string {
    match t
    case NullLit => "null"
    case BoolLit(b) => if b then "true" else "false"
    case NumberLit(lexeme) => lexeme
    case StringLit(chars) => RenderLiteral(chars)
    case ArrayLit(blank, elems) => "[" + if elems == [] then blank + "]" else RenderElems(elems)
    case ObjectLit(blank, pairs) => "{" + if pairs == [] then blank + "}" else RenderPairs(pairs)
  }

  /** The elements from the first to the closing bracket. */
  function RenderElems(elems: seq<Elem>): string
    requires elems != []
    decreases elems, 2
  {
    elems[0].before + RenderElem(elems)
  }

  function RenderElem(elems: seq<Elem>): string
    requires elems != []
    decreases elems, 1
  {
    Render(elems[0].value) + (elems[0].after + RenderMoreElems(elems))
  }

  function RenderMoreElems(elems: seq<Elem>): (s: string)
    requires elems != []
    ensures s != "" && (s[0] == ',' || s[0] == ']')
    decreases elems, 0
  {
    if |elems| == 1 then "]" else "," + RenderElems(elems[1..])
  }

  /** The members from the first to the closing brace. */
  function RenderPairs(pairs: seq<Pair>): string
    requires pairs != []
    decreases pairs, 3
  {
    pairs[0].beforeKey + RenderKey(pairs)
  }

  function RenderKey(pairs: seq<Pair>): string
    requires pairs != []
    decreases pairs, 2
  {
    RenderLiteral(pairs[0].key) + (pairs[0].afterKey + (":" + (pairs[0].beforeValue + RenderMember(pairs))))
  }

  function RenderMember(pairs: seq<Pair>): string
    requires pairs != []
    decreases pairs, 1
  {
    Render(pairs[0].value) + (pairs[0].after + RenderMorePairs(pairs))
  }

  function RenderMorePairs(pairs: seq<Pair>): (s: string)
    requires pairs != []
    ensures s != "" && (s[0] == ',' || s[0] == '}')
    decreases pairs, 0
  {
    if |pairs| == 1 then "}" else "," + RenderPairs(pairs[1..])
  }

  // ----- The value of a tree; whitespace plays no part in it.

  function ChrValue(c: Chr): string {
    match c
    case Plain(c) => [c]
    case Escaped(l) => [EscapedChar(l)]
    case Unicode(hex) => "\\u" + hex
  }

  function LiteralValue(chars: seq<Chr>): string {
    if chars == [] then "" else ChrValue(chars[0]) + LiteralValue(chars[1..])
  }

  function ValueOf(t: Tree): Json
    requires IsText(t)
  {
    match t
    case NullLit => Null
    case BoolLit(b) => Boolean(b)
    case NumberLit(lexeme) => Integral(Stol(lexeme).n)
    case StringLit(chars) => String(LiteralValue(chars))
    case ArrayLit(_, elems) => Array(ElemValues(elems))
    case ObjectLit(_, pairs) => Object(PutPairs([], pairs))
  }

  function ElemValues(elems: seq<Elem>): (items: seq<Json>)
    requires AreElems(elems)
    ensures |items| == |elems|
  {
    if elems == [] then [] else [ValueOf(elems[0].value)] + ElemValues(elems[1..])
  }

  /** The members are stored one after the other, under escaped keys; a repeated key overwrites. */
  function PutPairs(members: seq<Member>, pairs: seq<Pair>): seq<Member>
    requires ArePairs(pairs)
    decreases pairs
  {
    if pairs == [] then members
    else PutPairs(Put(members, Escape(LiteralValue(pairs[0].key)), ValueOf(pairs[0].value)), pairs[1..])
  }

  // ----- Reading a text at an offset.

  lemma StartsAtSplit(str: string, o: nat, a: string, b: string)
    requires o <= |str|
    ensures StartsAt(str, o, a + b) <==> StartsAt(str, o, a) && StartsAt(str, o + |a|, b)
  {
    if StartsAt(str, o, a + b) {
      var w := str[o..o + |a + b|];
      assert str[o..o + |a|] == w[..|a|] == a;
      assert str[o + |a|..o + |a| + |b|] == w[|a|..] == b;
    }
    if StartsAt(str, o, a) && StartsAt(str, o + |a|, b) {
      assert str[o..o + |a + b|] == str[o..o + |a|] + str[o + |a|..o + |a| + |b|];
    }
  }

  lemma StartsAtChar(str: string, o: nat, s: string)
    requires s != "" && StartsAt(str, o, s)
    ensures At(str, o) == s[0]
  {
    assert str[o..o + |s|][0] == s[0];
  }

  lemma {:induction false} SkipsBlank(str: string, o: nat, blank: string)
    requires StartsAt(str, o, blank) && Blank(blank) && !IsSpace(At(str, o + |blank|))
    ensures SkipSpace(str, o) == o + |blank|
    decreases |blank|
  {
    if blank != "" {
      StartsAtSplit(str, o, [blank[0]], blank[1..]);
      assert [blank[0]] + blank[1..] == blank;
      StartsAtChar(str, o, blank);
      SkipsBlank(str, o + 1, blank[1..]);
    }
  }

  /** parse_next skips whitespace first. */
  lemma NextAfterBlank(str: string, o: nat, blank: string)
    requires StartsAt(str, o, blank) && Blank(blank) && !IsSpace(At(str, o + |blank|))
    ensures ParseNext(str, o) == ParseNext(str, o + |blank|)
  {
    SkipsBlank(str, o, blank);
    SkipsBlank(str, o + |blank|, "");
  }

  /** The first character decides which parse function runs. */
  lemma NextStays(str: string, o: nat)
    requires o <= |str| && !IsSpace(At(str, o))
    ensures SkipSpace(str, o) == o
    ensures At(str, o) == '[' ==> ParseNext(str, o) == ParseArray(str, o)
    ensures At(str, o) == '{' ==> ParseNext(str, o) == ParseObject(str, o)
    ensures At(str, o) == '\"' ==> ParseNext(str, o) == ParseString(str, o + 1, "")
    ensures At(str, o) == 't' || At(str, o) == 'f' ==> ParseNext(str, o) == ParseBool(str, o)
    ensures At(str, o) == 'n' ==> ParseNext(str, o) == ParseNull(str, o)
    ensures IsDigit(At(str, o)) || At(str, o) == '-' ==> ParseNext(str, o) == ParseNumber(str, o)
  {
    hide ParseArray, ParseObject, ParseString, ParseBool, ParseNull, ParseNumber;
  }

  lemma RenderStart(t: Tree)
    requires IsText(t)
    ensures Render(t) != "" && !IsSpace(Render(t)[0]) && Render(t)[0] != ']' && Render(t)[0] != '}'
  {
  }

  // ----- Literals and numbers.

  lemma {:induction false} ParsesChars(str: string, o: nat, chars: seq<Chr>, val: string)
    requires o <= |str| && IsLiteral(chars) && StartsAt(str, o, RenderChars(chars) + "\"")
    ensures ParseString(str, o, val) == Done(String(val + LiteralValue(chars)), o + |RenderChars(chars)| + 1)
    decreases |chars|
  {
    if chars == [] {
      assert RenderChars(chars) + "\"" == "\"";
      StartsAtChar(str, o, "\"");
      assert val + LiteralValue(chars) == val;
    } else {
      var first, rest := chars[0], chars[1..];
      var text := RenderChr(first);
      CharsCons(chars, val);
      hide ParseString, StartsAt, IsChr, RenderChr, RenderChars, ChrValue, LiteralValue;
      StartsAtSplit(str, o, text, RenderChars(rest) + "\"");
      ReadsChr(str, o, first, val);
      StartsAtFits(str, o, text);
      ParsesChars(str, o + |text|, rest, val + ChrValue(first));
    }
  }

  lemma CharsCons(chars: seq<Chr>, val: string)
    requires chars != []
    ensures RenderChars(chars) + "\"" == RenderChr(chars[0]) + (RenderChars(chars[1..]) + "\"")
    ensures |RenderChars(chars)| == |RenderChr(chars[0])| + |RenderChars(chars[1..])|
    ensures val + LiteralValue(chars) == val + ChrValue(chars[0]) + LiteralValue(chars[1..])
  {
    hide RenderChr, ChrValue;
    Associate(RenderChr(chars[0]), RenderChars(chars[1..]), "\"");
    Associate(val, ChrValue(chars[0]), LiteralValue(chars[1..]));
  }

  lemma Associate<T>(a: seq<T>, b: seq<T>, c: seq<T>)
    ensures (a + b) + c == a + (b + c)
  {
  }

  lemma StartsAtFits(str: string, o: nat, s: string)
    requires StartsAt(str, o, s)
    ensures o + |s| <= |str|
  {
  }

  /** One turn of the loop of parse_string. */
  lemma ReadsChr(str: string, o: nat, c: Chr, val: string)
    requires IsChr(c) && StartsAt(str, o, RenderChr(c))
    ensures ParseString(str, o, val) == ParseString(str, o + |RenderChr(c)|, val + ChrValue(c))
  {
    var text := RenderChr(c);
    StartsAtChar(str, o, text);
    if !c.Plain? {
      StartsAtSplit(str, o, text[..1], text[1..]);
      assert text[..1] + text[1..] == text;
      StartsAtChar(str, o + 1, text[1..]);
    }
    if c.Unicode? {
      StartsAtSplit(str, o, "\\u", c.hex);
      ReadsHex(str, o + 2, c.hex);
      assert val + "\\u" + c.hex == val + ChrValue(c);
    }
  }

  lemma {:induction false} ReadsHex(str: string, o: nat, hex: string)
    requires StartsAt(str, o, hex) && forall i :: 0 <= i < |hex| ==> IsHex(hex[i])
    ensures AllHex(str, o, |hex|)
    decreases |hex|
  {
    if hex != "" {
      StartsAtSplit(str, o, [hex[0]], hex[1..]);
      assert [hex[0]] + hex[1..] == hex;
      StartsAtChar(str, o, hex);
      ReadsHex(str, o + 1, hex[1..]);
    }
  }

  lemma ParsesLiteral(str: string, o: nat, chars: seq<Chr>)
    requires IsLiteral(chars) && StartsAt(str, o, RenderLiteral(chars))
    ensures ParseNext(str, o) == Done(String(LiteralValue(chars)), o + |RenderLiteral(chars)|)
  {
    hide ParseNext, ParseString, SkipSpace, RenderChars, LiteralValue;
    StartsAtChar(str, o, RenderLiteral(chars));
    NextStays(str, o);
    StartsAtSplit(str, o, "\"", RenderChars(chars) + "\"");
    ParsesChars(str, o + 1, chars, "");
    assert "" + LiteralValue(chars) == LiteralValue(chars);
  }

  lemma {:induction false} NumberEndsAt(str: string, o: nat, lexeme: string)
    requires StartsAt(str, o, lexeme) && !IsNumberChar(At(str, o + |lexeme|))
    requires forall i :: 0 <= i < |lexeme| ==> IsNumberChar(lexeme[i])
    ensures NumberEnd(str, o) == o + |lexeme|
    decreases |lexeme|
  {
    if lexeme != "" {
      StartsAtSplit(str, o, [lexeme[0]], lexeme[1..]);
      assert [lexeme[0]] + lexeme[1..] == lexeme;
      StartsAtChar(str, o, lexeme);
      NumberEndsAt(str, o + 1, lexeme[1..]);
    }
  }

  lemma ParsesNumber(str: string, o: nat, lexeme: string)
    requires IsInteger(lexeme) && StartsAt(str, o, lexeme) && IsDelimiter(At(str, o + |lexeme|))
    ensures ParseNext(str, o) == Done(Integral(Stol(lexeme).n), o + |lexeme|)
  {
    hide ParseNext, Stol, SkipSpace, NumberEnd;
    StartsAtChar(str, o, lexeme);
    IntegerChars(lexeme);
    NextStays(str, o);
    NumberEndsAt(str, o, lexeme);
  }

  lemma IntegerChars(lexeme: string)
    requires IsInteger(lexeme)
    ensures lexeme[0] == '-' || IsDigit(lexeme[0])
    ensures forall i :: 0 <= i < |lexeme| ==> lexeme[i] != '.' && IsNumberChar(lexeme[i])
  {
    forall i | 0 <= i < |lexeme| ensures lexeme[i] != '.' && IsNumberChar(lexeme[i]) {
      var digits := if lexeme[0] == '-' then lexeme[1..] else lexeme;
      if i > 0 || lexeme[0] != '-' {
        assert IsDigit(digits[if lexeme[0] == '-' then i - 1 else i]);
      }
    }
  }

  // ----- The framed theorem.

  /** The parser reads exactly the text of the tree and stops exactly behind it, whatever comes
      before and after; only a number needs a delimiter after it. */
  lemma {:induction false} ParsesTree(str: string, o: nat, t: Tree)
    requires IsText(t) && StartsAt(str, o, Render(t))
    requires t.NumberLit? ==> IsDelimiter(At(str, o + |Render(t)|))
    ensures ParseNext(str, o) == Done(ValueOf(t), o + |Render(t)|)
    decreases t, 1
  {
    hide ParseNext, ParseArray, ParseObject, SkipSpace, At, IsDelimiter, Stol, StartsAt;
    hide RenderElems, RenderPairs, RenderLiteral, AreElems, ArePairs, IsInteger, IsLiteral;
    hide Blank, LiteralValue, ElemValues, PutPairs;
    match t
    case NullLit =>
      ParsesWord(str, o, t);
    case BoolLit(b) =>
      ParsesWord(str, o, t);
    case NumberLit(lexeme) =>
      ParsesNumber(str, o, lexeme);
    case StringLit(chars) =>
      ParsesLiteral(str, o, chars);
    case ArrayLit(blank, elems) =>
      StartsAtChar(str, o, Render(t));
      StartsAtFits(str, o, Render(t));
      NextStays(str, o);
      if elems == [] {
        ParsesEmptyArray(str, o, blank);
        EmptyValues();
      } else {
        StartsAtApart(str, o, "[", RenderElems(elems));
        ParsesArray(str, o, elems);
      }
    case ObjectLit(blank, pairs) =>
      StartsAtChar(str, o, Render(t));
      StartsAtFits(str, o, Render(t));
      NextStays(str, o);
      if pairs == [] {
        ParsesEmptyObject(str, o, blank);
        EmptyValues();
      } else {
        StartsAtApart(str, o, "{", RenderPairs(pairs));
        ParsesObject(str, o, pairs);
      }
  }

  lemma EmptyValues()
    ensures ElemValues([]) == [] && PutPairs([], []) == []
  {
  }

  lemma ParsesWord(str: string, o: nat, t: Tree)
    requires t.NullLit? || t.BoolLit?
    requires StartsAt(str, o, Render(t))
    ensures ParseNext(str, o) == Done(ValueOf(t), o + |Render(t)|)
  {
    hide ParseNext, SkipSpace;
    StartsAtChar(str, o, Render(t));
    NextStays(str, o);
    if t.BoolLit? && !t.b {
      NotTrue(str, o);
    }
  }

  lemma NotTrue(str: string, o: nat)
    requires StartsAt(str, o, "false")
    ensures !StartsAt(str, o, "true")
  {
    StartsAtChar(str, o, "false");
    if StartsAt(str, o, "true") {
      StartsAtChar(str, o, "true");
    }
  }

  lemma ParsesEmptyArray(str: string, o: nat, blank: string)
    requires Blank(blank) && StartsAt(str, o, "[" + (blank + "]"))
    ensures ParseArray(str, o) == Done(Array([]), o + |blank| + 2)
  {
    StartsAtSplit(str, o, "[", blank + "]");
    StartsAtSplit(str, o + 1, blank, "]");
    StartsAtChar(str, o + 1 + |blank|, "]");
    SkipsBlank(str, o + 1, blank);
  }

  lemma ParsesEmptyObject(str: string, o: nat, blank: string)
    requires Blank(blank) && StartsAt(str, o, "{" + (blank + "}"))
    ensures ParseObject(str, o) == Done(Object([]), o + |blank| + 2)
  {
    StartsAtSplit(str, o, "{", blank + "}");
    StartsAtSplit(str, o + 1, blank, "}");
    StartsAtChar(str, o + 1 + |blank|, "}");
    SkipsBlank(str, o + 1, blank);
  }

  /** Behind a value and whitespace, a comma or bracket: there the scan for it stops, and a
      number has its delimiter. */
  lemma AfterValue(str: string, o: nat, after: string, more: string)
    requires Blank(after) && StartsAt(str, o, after + more)
    requires more != "" && (more[0] == ',' || more[0] == ']' || more[0] == '}')
    ensures o + |after| <= |str| && StartsAt(str, o + |after|, more) && At(str, o + |after|) == more[0]
    ensures SkipSpace(str, o) == o + |after| && IsDelimiter(At(str, o))
  {
    StartsAtSplit(str, o, after, more);
    StartsAtChar(str, o + |after|, more);
    SkipsBlank(str, o, after);
    if after != "" {
      StartsAtChar(str, o, after);
    }
  }

  /** One turn of the loop of parse_array. */
  lemma ElementStep(str: string, o: nat, items: seq<Json>, v: Json, o1: nat)
    requires o <= |str| && o1 <= |str| && ParseNext(str, o) == Done(v, o1)
    ensures
      var q := SkipSpace(str, o1);
      && (At(str, q) == ',' ==> ParseElements(str, o, items) == ParseElements(str, q + 1, items + [v]))
      && (At(str, q) == ']' ==> ParseElements(str, o, items) == Done(Array(items + [v]), q + 1))
  {
    hide ParseNext, SkipSpace, At;
  }

  lemma ElementsFrom(str: string, o: nat, p: nat, items: seq<Json>)
    requires o <= |str| && p <= |str| && ParseNext(str, o) == ParseNext(str, p)
    ensures ParseElements(str, o, items) == ParseElements(str, p, items)
  {
    hide ParseNext, SkipSpace, At;
  }

  /** An element is followed by a delimiter. */
  lemma ElemApart(str: string, o: nat, elems: seq<Elem>)
    requires elems != [] && AreElems(elems) && StartsAt(str, o, RenderElem(elems))
    ensures
      var e := elems[0];
      var o1 := o + |Render(e.value)|;
      && o1 <= |str| && StartsAt(str, o, Render(e.value)) && IsDelimiter(At(str, o1))
      && SkipSpace(str, o1) == o1 + |e.after|
      && StartsAt(str, o1 + |e.after|, RenderMoreElems(elems))
      && At(str, o1 + |e.after|) == RenderMoreElems(elems)[0]
  {
    hide SkipSpace, StartsAt, IsDelimiter, Render, Blank, At, IsText, RenderMoreElems;
    var e := elems[0];
    StartsAtApart(str, o, Render(e.value), e.after + RenderMoreElems(elems));
    AfterValue(str, o + |Render(e.value)|, e.after, RenderMoreElems(elems));
  }

  /** From one element to the next, or to the bracket. */
  lemma ElemTurn(str: string, o: nat, elems: seq<Elem>, items: seq<Json>)
    requires elems != [] && AreElems(elems) && StartsAt(str, o, RenderElem(elems))
    requires ParseNext(str, o) == Done(ValueOf(elems[0].value), o + |Render(elems[0].value)|)
    ensures
      var items' := items + [ValueOf(elems[0].value)];
      var end := o + |RenderElem(elems)|;
      if |elems| == 1 then ParseElements(str, o, items) == Done(Array(items'), end)
      else
        var p := end - |RenderElem(elems[1..])|;
        p >= 0 && StartsAt(str, p, RenderElem(elems[1..])) && ParseElements(str, o, items) == ParseElements(str, p, items')
  {
    hide ParseNext, ParseElements, SkipSpace, StartsAt, IsDelimiter, Render, ValueOf, Blank, At, IsText;
    var v := ValueOf(elems[0].value);
    var o1 := o + |Render(elems[0].value)|;
    ElemApart(str, o, elems);
    ElementStep(str, o, items, v, o1);
    if |elems| > 1 {
      var q := o1 + |elems[0].after|;
      StartsAtApart(str, q, ",", RenderElems(elems[1..]));
      ElemsAfterBlank(str, q + 1, elems[1..], items + [v]);
    }
  }

  /** The loop of parse_array, from the first character of an element. */
  lemma {:induction false} ParsesElem(str: string, o: nat, elems: seq<Elem>, items: seq<Json>)
    requires elems != [] && AreElems(elems) && StartsAt(str, o, RenderElem(elems))
    ensures ParseElements(str, o, items) == Done(Array(items + ElemValues(elems)), o + |RenderElem(elems)|)
    decreases elems, 0
  {
    hide ParseNext, ParseElements, SkipSpace, StartsAt, IsDelimiter, Render, RenderElem, ValueOf, Blank, At, IsText;
    ElemApart(str, o, elems);
    ParsesTree(str, o, elems[0].value);
    ElemTurn(str, o, elems, items);
    var v, rest := ValueOf(elems[0].value), elems[1..];
    if rest != [] {
      ParsesElem(str, o + |RenderElem(elems)| - |RenderElem(rest)|, rest, items + [v]);
      AppendCons(items, v, ElemValues(rest));
    } else {
      assert ElemValues(elems) == [v];
    }
  }

  lemma AppendCons<T>(s: seq<T>, x: T, t: seq<T>)
    ensures s + ([x] + t) == s + [x] + t
  {
  }

  lemma StartsAtApart(str: string, o: nat, a: string, b: string)
    requires StartsAt(str, o, a + b)
    ensures StartsAt(str, o, a) && StartsAt(str, o + |a|, b)
    ensures o + |a| + |b| <= |str|
  {
    StartsAtSplit(str, o, a, b);
  }

  lemma ElemsAfterBlank(str: string, o: nat, elems: seq<Elem>, items: seq<Json>)
    requires elems != [] && AreElems(elems) && StartsAt(str, o, RenderElems(elems))
    ensures
      var p := o + |elems[0].before|;
      && p <= |str| && StartsAt(str, p, RenderElem(elems))
      && SkipSpace(str, o) == p && At(str, p) != ']'
      && ParseElements(str, o, items) == ParseElements(str, p, items)
  {
    hide ParseNext, ParseElements, SkipSpace, StartsAt, Render, Blank, At, IsText;
    var e := elems[0];
    var p := o + |e.before|;
    StartsAtApart(str, o, e.before, RenderElem(elems));
    StartsAtApart(str, p, Render(e.value), e.after + RenderMoreElems(elems));
    RenderStart(e.value);
    StartsAtChar(str, p, Render(e.value));
    SkipsBlank(str, o, e.before);
    NextAfterBlank(str, o, e.before);
    ElementsFrom(str, o, p, items);
  }

  lemma ParsesArray(str: string, o: nat, elems: seq<Elem>)
    requires elems != [] && AreElems(elems) && o < |str| && StartsAt(str, o + 1, RenderElems(elems))
    ensures ParseArray(str, o) == Done(Array(ElemValues(elems)), o + 1 + |RenderElems(elems)|)
    decreases elems, 1
  {
    hide ParseElements, RenderElem, StartsAt, AreElems, SkipSpace, At;
    ElemsAfterBlank(str, o + 1, elems, []);
    ParsesElem(str, o + 1 + |elems[0].before|, elems, []);
    hide ElemValues;
    assert [] + ElemValues(elems) == ElemValues(elems);
  }

  /** Where the value of a member begins whose key begins at o. */
  function ValueStart(o: nat, p: Pair): nat {
    o + |RenderLiteral(p.key)| + |p.afterKey| + 1 + |p.beforeValue|
  }

  /** From the opening quote of a key to the colon. */
  lemma KeyToColon(str: string, o: nat, key: seq<Chr>, afterKey: string, more: string)
    requires IsLiteral(key) && Blank(afterKey) && StartsAt(str, o, RenderLiteral(key) + (afterKey + (":" + more)))
    ensures
      var o1 := o + |RenderLiteral(key)|;
      var o2 := o1 + |afterKey|;
      && o2 + 1 <= |str| && ParseNext(str, o) == Done(String(LiteralValue(key)), o1)
      && SkipSpace(str, o1) == o2 && At(str, o2) == ':' && StartsAt(str, o2 + 1, more)
  {
    hide ParseNext, StartsAt, RenderLiteral, LiteralValue, Blank, At, SkipSpace, IsLiteral;
    var o1 := o + |RenderLiteral(key)|;
    StartsAtApart(str, o, RenderLiteral(key), afterKey + (":" + more));
    ParsesLiteral(str, o, key);
    StartsAtApart(str, o1, afterKey, ":" + more);
    StartsAtApart(str, o1 + |afterKey|, ":", more);
    StartsAtChar(str, o1 + |afterKey|, ":");
    SkipsBlank(str, o1, afterKey);
  }

  /** From the colon to the first character of the value. */
  lemma ColonToValue(str: string, o: nat, pairs: seq<Pair>)
    requires pairs != [] && Blank(pairs[0].beforeValue) && IsText(pairs[0].value)
    requires StartsAt(str, o, pairs[0].beforeValue + RenderMember(pairs))
    ensures
      var o3 := o + |pairs[0].beforeValue|;
      o3 <= |str| && SkipSpace(str, o) == o3 && StartsAt(str, o3, RenderMember(pairs))
  {
    hide StartsAt, Render, Blank, At, SkipSpace, RenderMorePairs, IsText;
    var p := pairs[0];
    var o3 := o + |p.beforeValue|;
    StartsAtApart(str, o, p.beforeValue, RenderMember(pairs));
    StartsAtApart(str, o3, Render(p.value), p.after + RenderMorePairs(pairs));
    RenderStart(p.value);
    StartsAtChar(str, o3, Render(p.value));
    SkipsBlank(str, o, p.beforeValue);
  }

  /** From the opening quote of a key to the first character of its value. */
  lemma KeyToValue(str: string, o: nat, pairs: seq<Pair>)
    requires pairs != [] && ArePairs(pairs) && StartsAt(str, o, RenderKey(pairs))
    ensures
      var p := pairs[0];
      var o1 := o + |RenderLiteral(p.key)|;
      var o2 := o1 + |p.afterKey|;
      var o3 := ValueStart(o, p);
      && o3 <= |str| && ParseNext(str, o) == Done(String(LiteralValue(p.key)), o1)
      && SkipSpace(str, o1) == o2 && At(str, o2) == ':'
      && SkipSpace(str, o2 + 1) == o3 && StartsAt(str, o3, RenderMember(pairs))
  {
    hide ParseNext, StartsAt, RenderLiteral, RenderMember, LiteralValue, Blank, At, SkipSpace, IsLiteral, IsText;
    var p := pairs[0];
    KeyToColon(str, o, p.key, p.afterKey, p.beforeValue + RenderMember(pairs));
    ColonToValue(str, o + |RenderLiteral(p.key)| + |p.afterKey| + 1, pairs);
  }

  /** One turn of the loop of parse_object. */
  lemma MemberStep(str: string, o: nat, members: seq<Member>, k: Json, o1: nat, v: Json, o4: nat)
    requires o <= |str| && o1 <= |str| && o4 <= |str| && ParseNext(str, o) == Done(k, o1)
    requires At(str, SkipSpace(str, o1)) == ':'
    requires ParseNext(str, SkipSpace(str, SkipSpace(str, o1) + 1)) == Done(v, o4)
    ensures
      var q := SkipSpace(str, o4);
      var stored := Put(members, KeyText(k), v);
      && (At(str, q) == ',' ==> ParseMembers(str, o, members) == ParseMembers(str, q + 1, stored))
      && (At(str, q) == '}' ==> ParseMembers(str, o, members) == Done(Object(stored), q + 1))
  {
    hide ParseNext, SkipSpace, Put, KeyText, At;
  }

  lemma MembersFrom(str: string, o: nat, p: nat, members: seq<Member>)
    requires o <= |str| && p <= |str| && ParseNext(str, o) == ParseNext(str, p)
    ensures ParseMembers(str, o, members) == ParseMembers(str, p, members)
  {
    hide ParseNext, SkipSpace, At, Put, KeyText;
  }

  /** From one member to the next, or to the brace. */
  lemma MemberTurn(str: string, o: nat, pairs: seq<Pair>, members: seq<Member>)
    requires pairs != [] && ArePairs(pairs) && StartsAt(str, o, RenderKey(pairs))
    requires
      var o3 := ValueStart(o, pairs[0]);
      o3 <= |str| && ParseNext(str, o3) == Done(ValueOf(pairs[0].value), o3 + |Render(pairs[0].value)|)
    ensures
      var stored := Put(members, Escape(LiteralValue(pairs[0].key)), ValueOf(pairs[0].value));
      var end := o + |RenderKey(pairs)|;
      if |pairs| == 1 then ParseMembers(str, o, members) == Done(Object(stored), end)
      else
        var p := end - |RenderKey(pairs[1..])|;
        p >= 0 && StartsAt(str, p, RenderKey(pairs[1..])) && ParseMembers(str, o, members) == ParseMembers(str, p, stored)
  {
    hide ParseNext, ParseMembers, SkipSpace, StartsAt, IsDelimiter, At, Put;
    hide Render, RenderLiteral, LiteralValue, ValueOf, Blank, IsLiteral, IsText;
    var p, v := pairs[0], ValueOf(pairs[0].value);
    KeyToValue(str, o, pairs);
    ValueApart(str, ValueStart(o, p), pairs);
    var o1 := o + |RenderLiteral(p.key)|;
    var o4 := ValueStart(o, p) + |Render(p.value)|;
    MemberStep(str, o, members, String(LiteralValue(p.key)), o1, v, o4);
    if |pairs| > 1 {
      var q := o4 + |p.after|;
      StartsAtApart(str, q, ",", RenderPairs(pairs[1..]));
      PairsAfterBlank(str, q + 1, pairs[1..], Put(members, Escape(LiteralValue(p.key)), v));
    }
  }

  /** The loop of parse_object, from the opening quote of a key. */
  lemma {:induction false} ParsesMember(str: string, o: nat, pairs: seq<Pair>, members: seq<Member>)
    requires pairs != [] && ArePairs(pairs) && StartsAt(str, o, RenderKey(pairs))
    ensures ParseMembers(str, o, members) == Done(Object(PutPairs(members, pairs)), o + |RenderKey(pairs)|)
    decreases pairs, 0
  {
    hide ParseNext, ParseMembers, SkipSpace, StartsAt, IsDelimiter, At, Put, ValueStart;
    hide Render, RenderKey, RenderLiteral, LiteralValue, ValueOf, Blank, IsLiteral, IsText;
    var o3 := ValueStart(o, pairs[0]);
    KeyToValue(str, o, pairs);
    ValueApart(str, o3, pairs);
    ParsesTree(str, o3, pairs[0].value);
    MemberTurn(str, o, pairs, members);
    if |pairs| > 1 {
      var rest := pairs[1..];
      var stored := Put(members, Escape(LiteralValue(pairs[0].key)), ValueOf(pairs[0].value));
      ParsesMember(str, o + |RenderKey(pairs)| - |RenderKey(rest)|, rest, stored);
    }
  }

  /** The value of a member is followed by a delimiter. */
  lemma ValueApart(str: string, o: nat, pairs: seq<Pair>)
    requires pairs != [] && ArePairs(pairs) && StartsAt(str, o, RenderMember(pairs))
    ensures
      var p := pairs[0];
      var o1 := o + |Render(p.value)|;
      && o1 <= |str| && StartsAt(str, o, Render(p.value)) && IsDelimiter(At(str, o1))
      && SkipSpace(str, o1) == o1 + |p.after|
      && StartsAt(str, o1 + |p.after|, RenderMorePairs(pairs))
      && At(str, o1 + |p.after|) == RenderMorePairs(pairs)[0]
  {
    hide SkipSpace, StartsAt, IsDelimiter, Render, Blank, At, IsText, IsLiteral, RenderMorePairs;
    var p := pairs[0];
    StartsAtApart(str, o, Render(p.value), p.after + RenderMorePairs(pairs));
    AfterValue(str, o + |Render(p.value)|, p.after, RenderMorePairs(pairs));
  }

  lemma PairsAfterBlank(str: string, o: nat, pairs: seq<Pair>, members: seq<Member>)
    requires pairs != [] && ArePairs(pairs) && StartsAt(str, o, RenderPairs(pairs))
    ensures
      var p := o + |pairs[0].beforeKey|;
      && p <= |str| && StartsAt(str, p, RenderKey(pairs))
      && SkipSpace(str, o) == p && At(str, p) == '\"'
      && ParseMembers(str, o, members) == ParseMembers(str, p, members)
  {
    hide ParseNext, ParseMembers, SkipSpace, StartsAt, Blank, At, IsText, RenderMember;
    var pair := pairs[0];
    var p := o + |pair.beforeKey|;
    StartsAtApart(str, o, pair.beforeKey, RenderKey(pairs));
    StartsAtApart(str, p, RenderLiteral(pair.key), pair.afterKey + (":" + (pair.beforeValue + RenderMember(pairs))));
    StartsAtChar(str, p, RenderLiteral(pair.key));
    SkipsBlank(str, o, pair.beforeKey);
    NextAfterBlank(str, o, pair.beforeKey);
    MembersFrom(str, o, p, members);
  }

  lemma ParsesObject(str: string, o: nat, pairs: seq<Pair>)
    requires pairs != [] && ArePairs(pairs) && o < |str| && StartsAt(str, o + 1, RenderPairs(pairs))
    ensures ParseObject(str, o) == Done(Object(PutPairs([], pairs)), o + 1 + |RenderPairs(pairs)|)
    decreases pairs, 1
  {
    hide ParseMembers, RenderKey, PutPairs, StartsAt, ArePairs, SkipSpace, At;
    PairsAfterBlank(str, o + 1, pairs, []);
    ParsesMember(str, o + 1 + |pairs[0].beforeKey|, pairs, []);
  }

  // ----- Whole texts.

  lemma WholeStarts(str: string)
    ensures StartsAt(str, 0, str)
  {
  }

  /** A text alone, or between whitespace: Load returns its value, unless it is a bare number. */
  lemma LoadsText(before: string, t: Tree, after: string)
    requires Blank(before) && IsText(t) && Blank(after)
    requires t.NumberLit? ==> after != ""
    ensures Load(before + (Render(t) + after)) == Done(ValueOf(t), |before| + |Render(t)|)
  {
    hide Render, ValueOf, StartsAt, At, SkipSpace, ParseNext, IsText;
    var str := before + (Render(t) + after);
    assert StartsAt(str, 0, str) by { WholeStarts(str); }
    StartsAtSplit(str, 0, before, Render(t) + after);
    StartsAtSplit(str, |before|, Render(t), after);
    RenderStart(t);
    StartsAtChar(str, |before|, Render(t));
    if after != "" {
      StartsAtChar(str, |before| + |Render(t)|, after);
    }
    NextAfterBlank(str, 0, before);
    ParsesTree(str, |before|, t);
  }

  // ----- The values of texts, spelled out.

  /** The three words. */
  lemma WordsMean(str: string, o: nat)
    ensures StartsAt(str, o, "true") ==> ParseNext(str, o) == Done(Boolean(true), o + 4)
    ensures StartsAt(str, o, "false") ==> ParseNext(str, o) == Done(Boolean(false), o + 5)
    ensures StartsAt(str, o, "null") ==> ParseNext(str, o) == Done(Null, o + 4)
  {
    hide ParseNext, StartsAt, SkipSpace;
    if StartsAt(str, o, "true") {
      ParsesTree(str, o, BoolLit(true));
    }
    if StartsAt(str, o, "false") {
      ParsesTree(str, o, BoolLit(false));
    }
    if StartsAt(str, o, "null") {
      ParsesTree(str, o, NullLit);
    }
  }

  /** A \u escape stays the six characters it is written with. */
  lemma UnicodeStaysText(str: string, o: nat, hex: string)
    requires |hex| == 4 && (forall i | 0 <= i < 4 :: hex[i] in "0123456789abcdefABCDEF")
    requires StartsAt(str, o, "\"\\u" + hex + "\"")
    ensures ParseNext(str, o) == Done(String("\\u" + hex), o + 8)
  {
    hide ParseNext, StartsAt, RenderLiteral, LiteralValue, IsHex, IsLiteral;
    forall i | 0 <= i < 4 ensures IsHex(hex[i]) {
      TokenClasses(hex[i]);
    }
    OneChr(Unicode(hex));
    assert "\"\\u" == "\"" + "\\u";
    Associate("\"", "\\u", hex);
    Associate("\"", "\\u" + hex, "\"");
    ParsesLiteral(str, o, [Unicode(hex)]);
  }

  lemma OneChr(c: Chr)
    ensures LiteralValue([c]) == ChrValue(c) && RenderLiteral([c]) == "\"" + (RenderChr(c) + "\"")
    ensures IsChr(c) ==> IsLiteral([c])
  {
    hide RenderChr, ChrValue, IsChr;
    assert [c][1..] == [];
    assert RenderChars([c]) == RenderChr(c) + "" == RenderChr(c);
    assert LiteralValue([c]) == ChrValue(c) + "" == ChrValue(c);
  }

  /** A backslash and a letter stand for one character. */
  lemma LetterStandsFor(str: string, o: nat, letter: char)
    requires letter in "\"\\/bfnrt" && StartsAt(str, o, "\"\\" + [letter] + "\"")
    ensures
      ParseNext(str, o)
      == Done(String([match letter
                      case 'b' => '\U{8}'
                      case 'f' => '\U{c}'
                      case 'n' => '\n'
                      case 'r' => '\r'
                      case 't' => '\t'
                      case _ => letter]), o + 4)
  {
    hide ParseNext, StartsAt;
    LettersMean(letter);
    var chars := [Escaped(letter)];
    assert chars[1..] == [];
    assert RenderChars(chars) == "\\" + [letter] && LiteralValue(chars) == [EscapedChar(letter)];
    assert RenderLiteral(chars) == "\"\\" + [letter] + "\"";
    ParsesLiteral(str, o, chars);
  }

  /** An array text has its elements in order. */
  lemma {:induction false} ElementsMean(elems: seq<Elem>, i: nat)
    requires AreElems(elems) && i < |elems|
    ensures IsText(elems[i].value) && ElemValues(elems)[i] == ValueOf(elems[i].value)
  {
    hide IsText;
    if i > 0 {
      ElementsMean(elems[1..], i - 1);
    }
  }

  /** An object text has under every key the value of the last pair with that key. */
  lemma {:induction false} PairsMean(members: seq<Member>, pairs: seq<Pair>, i: nat)
    requires ArePairs(pairs) && i < |pairs|
    requires forall k | i < k < |pairs| :: LiteralValue(pairs[k].key) != LiteralValue(pairs[i].key)
    ensures IsText(pairs[i].value)
    ensures Lookup(PutPairs(members, pairs), Escape(LiteralValue(pairs[i].key))) == ValueOf(pairs[i].value)
    decreases |pairs|
  {
    hide IsText, Blank, IsLiteral, Put, Lookup, LiteralValue, Escape;
    var key, rest := Escape(LiteralValue(pairs[0].key)), pairs[1..];
    var stored := Put(members, key, ValueOf(pairs[0].value));
    if i > 0 {
      PairsMean(stored, rest, i - 1);
    } else {
      PutThenLookup(members, key, ValueOf(pairs[0].value), Null);
      OtherPairs(stored, rest, LiteralValue(pairs[0].key));
    }
  }

  lemma {:induction false} OtherPairs(members: seq<Member>, pairs: seq<Pair>, key: string)
    requires ArePairs(pairs) && forall k | 0 <= k < |pairs| :: LiteralValue(pairs[k].key) != key
    ensures Lookup(PutPairs(members, pairs), Escape(key)) == Lookup(members, Escape(key))
    decreases |pairs|
  {
    hide IsText, Blank, IsLiteral, Put, Lookup, LiteralValue, Escape;
    if pairs != [] {
      var first := LiteralValue(pairs[0].key);
      if Escape(first) == Escape(key) {
        EscapeInjective(first, key);
      }
      LookupOther(members, Escape(first), ValueOf(pairs[0].value), Escape(key));
      OtherPairs(Put(members, Escape(first), ValueOf(pairs[0].value)), pairs[1..], key);
    }
  }

  // ----- Layout independence.

  /** The tree without its whitespace. */
  function Strip(t: Tree): Tree {
    match t
    case ArrayLit(_, elems) => ArrayLit("", StripElems(elems))
    case ObjectLit(_, pairs) => ObjectLit("", StripPairs(pairs))
    case _ => t
  }

  function StripElems(elems: seq<Elem>): seq<Elem> {
    if elems == [] then [] else [Elem("", Strip(elems[0].value), "")] + StripElems(elems[1..])
  }

  function StripPairs(pairs: seq<Pair>): seq<Pair> {
    if pairs == [] then []
    else [Pair("", pairs[0].key, "", "", Strip(pairs[0].value), "")] + StripPairs(pairs[1..])
  }

  lemma {:induction false} StripKeepsValue(t: Tree)
    requires IsText(t)
    ensures IsText(Strip(t)) && ValueOf(Strip(t)) == ValueOf(t)
    decreases t, 1
  {
    match t
    case ArrayLit(_, elems) => StripElemsKeepValues(elems);
    case ObjectLit(_, pairs) => StripPairsKeepMembers(pairs, []);
    case _ =>
  }

  lemma {:induction false} StripElemsKeepValues(elems: seq<Elem>)
    requires AreElems(elems)
    ensures AreElems(StripElems(elems)) && ElemValues(StripElems(elems)) == ElemValues(elems)
    decreases elems, 0
  {
    if elems != [] {
      StripKeepsValue(elems[0].value);
      StripElemsKeepValues(elems[1..]);
      assert StripElems(elems)[1..] == StripElems(elems[1..]);
    }
  }

  lemma {:induction false} StripPairsKeepMembers(pairs: seq<Pair>, members: seq<Member>)
    requires ArePairs(pairs)
    ensures ArePairs(StripPairs(pairs)) && PutPairs(members, StripPairs(pairs)) == PutPairs(members, pairs)
    decreases pairs, 0
  {
    if pairs != [] {
      StripKeepsValue(pairs[0].value);
      StripPairsKeepMembers(pairs[1..], Put(members, Escape(LiteralValue(pairs[0].key)), ValueOf(pairs[0].value)));
      assert StripPairs(pairs)[1..] == StripPairs(pairs[1..]);
    }
  }

  /** Texts that differ in whitespace between tokens only load to the same value. */
  lemma LayoutIsIrrelevant(t: Tree, u: Tree)
    requires IsText(t) && IsText(u) && Strip(t) == Strip(u) && !t.NumberLit?
    ensures Load(Render(t)).Done? && Load(Render(u)).Done?
    ensures Load(Render(t)).value == Load(Render(u)).value
  {
    StripKeepsValue(t);
    StripKeepsValue(u);
    hide Strip, Render, ValueOf, Load;
    assert "" + (Render(t) + "") == Render(t) && "" + (Render(u) + "") == Render(u);
    LoadsText("", t, "");
    LoadsText("", u, "");
  }
}
