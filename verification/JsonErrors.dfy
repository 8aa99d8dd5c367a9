/** What the parser makes of texts that break off or go wrong: which value it still returns, and
    where it stops. */
module JsonErrors {
  import opened JsonValues
  import opened JsonParser
  import opened JsonGrammar

  /** What stands at o is an element or a value with whitespace around it, and then a character that
      has no business there; the next read starts at q. */
  ghost predicate BreaksAfter(str: string, o: nat, e: Elem, q: nat) {
    && Blank(e.before) && IsText(e.value) && Blank(e.after) && (e.value.NumberLit? ==> e.after != "")
    && StartsAt(str, o, e.before + (Render(e.value) + e.after))
    && q == o + |e.before| + |Render(e.value)| + |e.after| && q <= |str| && !IsSpace(At(str, q))
  }

  lemma ReadsBeforeBreak(str: string, o: nat, e: Elem, q: nat)
    requires o <= |str| && BreaksAfter(str, o, e, q)
    ensures
      var p := o + |e.before| + |Render(e.value)|;
      p <= |str| && ParseNext(str, o) == Done(ValueOf(e.value), p) && SkipSpace(str, p) == q
  {
    hide Render, ValueOf, StartsAt, SkipSpace, ParseNext, IsText, Blank;
    var text, p := Render(e.value), o + |e.before| + |Render(e.value)|;
    StartsAtSplit(str, o, e.before, text + e.after);
    StartsAtSplit(str, o + |e.before|, text, e.after);
    RenderStart(e.value);
    StartsAtChar(str, o + |e.before|, text);
    NextAfterBlank(str, o, e.before);
    SkipsBlank(str, p, e.after);
    if e.value.NumberLit? {
      StartsAtChar(str, p, e.after);
      FirstOfBlank(e.after);
    }
    ParsesTree(str, o + |e.before|, e.value);
  }

  lemma FirstOfBlank(s: string)
    requires Blank(s) && s != ""
    ensures IsDelimiter(s[0])
  {
  }

  /** An array that goes on with neither a comma nor a bracket is given up: an empty array is
      returned, whatever was read before, and the offset stands at the character. */
  lemma BrokenArray(str: string, o: nat, items: seq<Json>, e: Elem, q: nat)
    requires o <= |str| && BreaksAfter(str, o, e, q) && At(str, q) != ',' && At(str, q) != ']'
    ensures ParseElements(str, o, items) == Done(Array([]), q)
  {
    hide BreaksAfter, SkipSpace, ParseNext, Render, ValueOf;
    ReadsBeforeBreak(str, o, e, q);
  }

  /** An object whose key is followed by no colon ends there, with the members read before. */
  lemma BrokenKey(str: string, o: nat, members: seq<Member>, e: Elem, q: nat)
    requires o <= |str| && BreaksAfter(str, o, e, q) && At(str, q) != ':'
    ensures ParseMembers(str, o, members) == Done(Object(members), q)
  {
    hide BreaksAfter, SkipSpace, ParseNext, Render, ValueOf;
    ReadsBeforeBreak(str, o, e, q);
  }

  /** An object whose value is followed by neither a comma nor a brace ends there too, and keeps
      that member; a key that is no string counts as the empty one. */
  lemma BrokenMember(str: string, o: nat, members: seq<Member>, key: Elem, colon: nat, value: Elem, q: nat)
    requires o <= |str| && BreaksAfter(str, o, key, colon) && At(str, colon) == ':'
    requires colon + 1 <= |str| && BreaksAfter(str, colon + 1, value, q) && At(str, q) != ',' && At(str, q) != '}'
    ensures
      var k := if key.value.StringLit? then Escape(LiteralValue(key.value.chars)) else "";
      IsText(value.value) && ParseMembers(str, o, members) == Done(Object(Put(members, k, ValueOf(value.value))), q)
  {
    hide BreaksAfter, IsText, Blank, StartsAt, At, SkipSpace, ParseNext, ParseMembers;
    hide Render, ValueOf, Put, KeyText, Escape, LiteralValue;
    IsTextOf(str, o, key, colon);
    IsTextOf(str, colon + 1, value, q);
    ReadsBeforeBreak(str, o, key, colon);
    ReadsBeforeBreak(str, colon + 1, value, q);
    SkipTwice(str, colon + 1);
    var o1, o2 := o + |key.before| + |Render(key.value)|, colon + 1 + |value.before| + |Render(value.value)|;
    MemberBreaks(str, o, members, ValueOf(key.value), o1, ValueOf(value.value), o2);
    KeyOf(key.value);
  }

  lemma MemberBreaks(str: string, o: nat, members: seq<Member>, k: Json, o1: nat, v: Json, o2: nat)
    requires o <= |str| && o1 <= |str| && o2 <= |str| && ParseNext(str, o) == Done(k, o1)
    requires
      var colon := SkipSpace(str, o1);
      At(str, colon) == ':' && colon < |str| && ParseNext(str, SkipSpace(str, colon + 1)) == Done(v, o2)
    requires At(str, SkipSpace(str, o2)) != ',' && At(str, SkipSpace(str, o2)) != '}'
    ensures ParseMembers(str, o, members) == Done(Object(Put(members, KeyText(k), v)), SkipSpace(str, o2))
  {
    hide ParseNext, SkipSpace, Put, KeyText, At;
  }

  lemma IsTextOf(str: string, o: nat, e: Elem, q: nat)
    requires BreaksAfter(str, o, e, q)
    ensures IsText(e.value)
  {
  }

  lemma KeyOf(t: Tree)
    requires IsText(t)
    ensures KeyText(ValueOf(t)) == if t.StringLit? then Escape(LiteralValue(t.chars)) else ""
  {
    hide Escape, LiteralValue;
  }

  /** parse_next skips whitespace itself, so that skipping it before changes nothing. */
  lemma SkipTwice(str: string, o: nat)
    requires o <= |str|
    ensures SkipSpace(str, SkipSpace(str, o)) == SkipSpace(str, o)
    ensures ParseNext(str, SkipSpace(str, o)) == ParseNext(str, o)
  {
    hide ParseArray, ParseObject, ParseString, ParseBool, ParseNull, ParseNumber;
    var p := SkipSpace(str, o);
    assert !IsSpace(At(str, p));
  }

  /** A character that starts no value gives null; the offset stays on it. */
  lemma UnknownStart(str: string, o: nat)
    requires o <= |str| && !IsSpace(At(str, o)) && At(str, o) !in "[{\"tfn-0123456789"
    ensures ParseNext(str, o) == Done(Null, o)
  {
    TokenClasses(At(str, o));
    NextSkipsNothing(str, o);
  }

  lemma NextSkipsNothing(str: string, o: nat)
    requires o <= |str| && !IsSpace(At(str, o))
    ensures SkipSpace(str, o) == o
  {
  }

  /** A word that is none of the three gives null; the offset stays on its first letter. */
  lemma UnknownWord(str: string, o: nat)
    requires o <= |str| && At(str, o) in "tfn"
    requires !StartsAt(str, o, "true") && !StartsAt(str, o, "false") && !StartsAt(str, o, "null")
    ensures ParseNext(str, o) == Done(Null, o)
  {
    hide StartsAt;
    NextStays(str, o);
  }

  /** Digits with anything but a delimiter behind them give null; the offset is one further than
      the character that was not expected. */
  lemma UnfinishedNumber(str: string, o: nat, lexeme: string)
    requires lexeme != "" && (forall i | 0 <= i < |lexeme| :: lexeme[i] in "-0123456789") && StartsAt(str, o, lexeme)
    requires
      var c := At(str, o + |lexeme|);
      c !in "-.0123456789eE" && c !in [' ', '\t', '\n', '\U{b}', '\U{c}', '\r', ',', ']', '}']
    ensures ParseNext(str, o) == Done(Null, o + |lexeme| + 1)
  {
    hide StartsAt, ParseNext;
    StartsAtFits(str, o, lexeme);
    StartsAtChar(str, o, lexeme);
    TokenClasses(lexeme[0]);
    TokenClasses(At(str, o + |lexeme|));
    NextStays(str, o);
    forall i | 0 <= i < |lexeme| ensures IsDigit(lexeme[i]) || lexeme[i] == '-' {
      TokenClasses(lexeme[i]);
    }
    NumberEndsAt(str, o, lexeme);
  }

  /** A backslash before a letter without meaning leaves the backslash and drops the letter. */
  lemma UnknownLetter(str: string, o: nat, letter: char)
    requires letter !in "\"\\/bfnrtu" && StartsAt(str, o, "\"\\" + [letter] + "\"")
    ensures ParseNext(str, o) == Done(String("\\"), o + 4)
  {
    LettersMean(letter);
    Quoted(str, o, "\\" + [letter] + "\"");
    var text := "\"\\" + [letter] + "\"";
    assert str[o..o + 4] == text;
    assert str[o + 1] == text[1] && str[o + 2] == text[2] && str[o + 3] == text[3];
    assert ParseString(str, o + 3, "" + [EscapedChar(letter)]) == Done(String("" + [EscapedChar(letter)]), o + 4);
    assert "" + [EscapedChar(letter)] == "\\";
  }

  lemma Quoted(str: string, o: nat, rest: string)
    requires StartsAt(str, o, "\"" + rest)
    ensures ParseNext(str, o) == ParseString(str, o + 1, "")
  {
    hide ParseNext, ParseString;
    StartsAtChar(str, o, "\"" + rest);
    StartsAtFits(str, o, "\"" + rest);
    NextStays(str, o);
  }

  /** A \u without four hexadecimal digits ends the string: the empty one is returned, and the offset
      stands on the u. */
  lemma BrokenUnicode(str: string, o: nat, val: string, digits: string)
    requires |digits| < 4 && (forall i | 0 <= i < |digits| :: digits[i] in "0123456789abcdefABCDEF")
    requires StartsAt(str, o, "\\u" + digits) && At(str, o + 2 + |digits|) !in "0123456789abcdefABCDEF"
    ensures ParseString(str, o, val) == Done(String(""), o + 1)
  {
    StartsAtSplit(str, o, "\\u", digits);
    StartsAtFits(str, o + 2, digits);
    assert str[o..o + 2] == "\\u";
    assert str[o] == "\\u"[0] && str[o + 1] == "\\u"[1];
    TokenClasses(At(str, o + 2 + |digits|));
    NotHex(str, o + 2, digits, 4);
  }

  lemma {:induction false} NotHex(str: string, o: nat, digits: string, n: nat)
    requires |digits| < n && StartsAt(str, o, digits) && o + |digits| <= |str| && !IsHex(At(str, o + |digits|))
    ensures !AllHex(str, o, n)
    decreases n
  {
    if digits != "" {
      StartsAtSplit(str, o, [digits[0]], digits[1..]);
      assert [digits[0]] + digits[1..] == digits;
      NotHex(str, o + 1, digits[1..], n - 1);
    }
  }
}
