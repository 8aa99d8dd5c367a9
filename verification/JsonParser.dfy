/** The parser of SimpleJSON as mutually recursive functions from a text and an offset, total on
    every text: malformed input takes the branches the code takes. */
module JsonParser {
  import opened JsonValues

  /** What a parse function does: it returns a value and moves the offset; or it reads past the
      terminator of the string, which C++ leaves undefined; or std::stol throws; or it meets a
      number with a fraction or an exponent, which is not part of this model. */
  datatype Outcome = Done(value: Json, offset: nat) | OutOfBounds | Throws | NotIntegral

  /** str[o]: the string is followed by one NUL. */
  function At(str: string, o: nat): char
    requires o <= |str|
  {
    if o < |str| then str[o] else '\0'
  }

  /** isspace in the "C" locale. */
  predicate IsSpace(c: char) {
    c == ' ' || '\t' <= c <= '\r'
  }

  predicate IsHex(c: char) {
    IsDigit(c) || 'a' <= c <= 'f' || 'A' <= c <= 'F'
  }

  /** What may follow a number. */
  predicate IsDelimiter(c: char) {
    IsSpace(c) || c == ',' || c == ']' || c == '}'
  }

  /** consume_ws */
  function SkipSpace(str: string, o: nat): (p: nat)
    requires o <= |str|
    ensures o <= p <= |str| && !IsSpace(At(str, p))
    ensures forall i | o <= i < p :: IsSpace(str[i])
    decreases |str| - o
  {
    if o < |str| && IsSpace(str[o]) then SkipSpace(str, o + 1) else o
  }

  /** Key.ToString(): the escaped text of a string value, "" for any other. */
  function KeyText(v: Json): string {
    if v.String? then Escape(v.s) else ""
  }

  /** Whether `word` stands at o, as str.substr(o, |word|) == word decides. */
  predicate StartsAt(str: string, o: nat, word: string) {
    o + |word| <= |str| && str[o..o + |word|] == word
  }

  /** The classes of characters and the meaning of the letters, spelled out. */
  lemma TokenClasses(c: char)
    ensures IsSpace(c) <==> c in [' ', '\t', '\n', '\U{b}', '\U{c}', '\r']
    ensures IsDigit(c) <==> c in "0123456789"
    ensures IsHex(c) <==> c in "0123456789abcdefABCDEF"
    ensures IsDelimiter(c) <==> c in [' ', '\t', '\n', '\U{b}', '\U{c}', '\r', ',', ']', '}']
  {
  }

  lemma LettersMean(c: char)
    ensures c in "\"\\/" ==> EscapedChar(c) == c
    ensures EscapedChar('b') == '\U{8}' && EscapedChar('f') == '\U{c}' && EscapedChar('n') == '\n'
    ensures EscapedChar('r') == '\r' && EscapedChar('t') == '\t'
    ensures c !in "\"\\/bfnrt" ==> EscapedChar(c) == '\\'
  {
  }

  function ParseNext(str: string, o: nat): (r: Outcome)
    requires o <= |str|
    ensures r.Done? ==> o <= r.offset <= |str| + 1
    decreases |str| - o, 2
  {
    var p := SkipSpace(str, o);
    var c := At(str, p);
    if c == '[' then ParseArray(str, p)
    else if c == '{' then ParseObject(str, p)
    else if c == '\"' then ParseString(str, p + 1, "")
    else if c == 't' || c == 'f' then ParseBool(str, p)
    else if c == 'n' then ParseNull(str, p)
    else if IsDigit(c) || c == '-' then ParseNumber(str, p)
    else Done(Null, p)
  }

  function ParseArray(str: string, p: nat): (r: Outcome)
    requires p < |str|
    ensures r.Done? ==> p < r.offset <= |str| + 1
    decreases |str| - p, 1
  {
    var o := SkipSpace(str, p + 1);
    if At(str, o) == ']' then Done(Array([]), o + 1) else ParseElements(str, o, [])
  }

  /** The loop of parse_array, with the elements read so far. */
  function ParseElements(str: string, o: nat, items: seq<Json>): (r: Outcome)
    requires o <= |str|
    ensures r.Done? ==> o <= r.offset <= |str| + 1
    decreases |str| - o, 3
  {
    var r := ParseNext(str, o);
    if !r.Done? then r
    else if r.offset > |str| then OutOfBounds
    else
      var q := SkipSpace(str, r.offset);
      if At(str, q) == ',' then ParseElements(str, q + 1, items + [r.value])
      else if At(str, q) == ']' then Done(Array(items + [r.value]), q + 1)
      else Done(Array([]), q)
  }

  function ParseObject(str: string, p: nat): (r: Outcome)
    requires p < |str|
    ensures r.Done? ==> p < r.offset <= |str| + 1
    decreases |str| - p, 1
  {
    var o := SkipSpace(str, p + 1);
    if At(str, o) == '}' then Done(Object([]), o + 1) else ParseMembers(str, o, [])
  }

  /** The loop of parse_object, with the members stored so far. */
  function ParseMembers(str: string, o: nat, members: seq<Member>): (r: Outcome)
    requires o <= |str|
    ensures r.Done? ==> o <= r.offset <= |str| + 1
    decreases |str| - o, 3
  {
    var key := ParseNext(str, o);
    if !key.Done? then key
    else if key.offset > |str| then OutOfBounds
    else
      var colon := SkipSpace(str, key.offset);
      if At(str, colon) != ':' then Done(Object(members), colon)
      else
        var r := ParseNext(str, SkipSpace(str, colon + 1));
        if !r.Done? then r
        else if r.offset > |str| then OutOfBounds
        else
          var stored := Put(members, KeyText(key.value), r.value);
          var q := SkipSpace(str, r.offset);
          if At(str, q) == ',' then ParseMembers(str, q + 1, stored)
          else if At(str, q) == '}' then Done(Object(stored), q + 1)
          else Done(Object(stored), q)
  }

  /** The characters of parse_string, from the one after the opening quote or the last one read. */
  function ParseString(str: string, o: nat, val: string): (r: Outcome)
    requires o <= |str| + 1
    ensures r.Done? ==> o <= r.offset <= |str| + 1
    decreases |str| + 1 - o
  {
    if o > |str| then OutOfBounds
    else
      var c := At(str, o);
      if c == '\"' then Done(String(val), o + 1)
      else if c == '\\' then
        var e := At(str, o + 1);
        if e == 'u' then
          if AllHex(str, o + 2, 4) then ParseString(str, o + 6, val + "\\u" + str[o + 2..o + 6])
          else Done(String(""), o + 1)
        else ParseString(str, o + 2, val + [EscapedChar(e)])
      else ParseString(str, o + 1, val + [c])
  }

  /** n hexadecimal digits from o on; reading stops at the first character that is none. */
  predicate AllHex(str: string, o: nat, n: nat)
    requires o <= |str|
    ensures AllHex(str, o, n) ==> o + n <= |str|
    decreases n
  {
    n == 0 || (IsHex(At(str, o)) && AllHex(str, o + 1, n - 1))
  }

  /** What the switch of parse_string appends for a backslash followed by c; an unknown letter
      leaves a backslash. */
  function EscapedChar(c: char): char {
    match c
    case '\"' => '\"'
    case '\\' => '\\'
    case '/' => '/'
    case 'b' => '\U{8}'
    case 'f' => '\U{c}'
    case 'n' => '\n'
    case 'r' => '\r'
    case 't' => '\t'
    case _ => '\\'
  }

  predicate IsNumberChar(c: char) {
    IsDigit(c) || c == '-' || c == '.'
  }

  /** Where the first loop of parse_number stops. */
  function NumberEnd(str: string, o: nat): (p: nat)
    requires o <= |str|
    ensures o <= p <= |str| && !IsNumberChar(At(str, p))
    ensures forall i | o <= i < p :: IsNumberChar(str[i])
    decreases |str| - o
  {
    if o < |str| && IsNumberChar(str[o]) then NumberEnd(str, o + 1) else o
  }

  function ParseNumber(str: string, o: nat): (r: Outcome)
    requires o <= |str|
    ensures r.Done? ==> o <= r.offset <= |str| + 1
  {
    var end := NumberEnd(str, o);
    var c := At(str, end);
    if c == 'E' || c == 'e' then NotIntegral
    else if !IsDelimiter(c) then Done(Null, end + 1)
    else if '.' in str[o..end] then NotIntegral
    else
      match Stol(str[o..end])
      case Long(n) => Done(Integral(n), end)
      case StolThrows => Throws
  }

  function ParseBool(str: string, o: nat): (r: Outcome)
    requires o <= |str|
    ensures r.Done? ==> o <= r.offset <= |str|
  {
    if StartsAt(str, o, "true") then Done(Boolean(true), o + 4)
    else if StartsAt(str, o, "false") then Done(Boolean(false), o + 5)
    else Done(Null, o)
  }

  function ParseNull(str: string, o: nat): (r: Outcome)
    requires o <= |str|
    ensures r.Done? ==> o <= r.offset <= |str|
  {
    if StartsAt(str, o, "null") then Done(Null, o + 4) else Done(Null, o)
  }

  /** JSON::Load */
  function Load(str: string): Outcome {
    ParseNext(str, 0)
  }

  // ----- What holds of every value the parser returns, on every text.

  /** No character of the value's strings and keys is NUL. */
  predicate NulFree(v: Json) {
    match v
    case Object(members) => forall i | 0 <= i < |members| :: '\0' !in members[i].key && NulFree(members[i].value)
    case Array(items) => forall i | 0 <= i < |items| :: NulFree(items[i])
    case String(s) => '\0' !in s
    case _ => true
  }

  /** A value a parse function may return from a text with or without NULs. */
  predicate Returnable(v: Json, noNul: bool) {
    WellFormed(v) && CanonicalKeys(v) && (noNul ==> NulFree(v))
  }

  predicate AllReturnable(items: seq<Json>, noNul: bool) {
    forall i | 0 <= i < |items| :: Returnable(items[i], noNul)
  }

  lemma {:induction false} EscapeNulFree(s: string)
    requires '\0' !in s
    ensures '\0' !in Escape(s)
  {
    if s != "" {
      EscapeNulFree(s[1..]);
    }
  }

  lemma PutReturnable(members: seq<Member>, key: Json, value: Json, noNul: bool)
    requires Returnable(Object(members), noNul) && Returnable(key, noNul) && Returnable(value, noNul)
    ensures Returnable(Object(Put(members, KeyText(key), value)), noNul)
  {
    var k := KeyText(key);
    PutSorted(members, k, value);
    PutMembers(members, k, value);
    if key.String? {
      UnescapeEscape(key.s);
      if noNul {
        EscapeNulFree(key.s);
      }
    }
    var stored := Put(members, k, value);
    forall i | 0 <= i < |stored|
      ensures WellFormed(stored[i].value) && CanonicalKey(stored[i].key) && CanonicalKeys(stored[i].value)
      ensures noNul ==> '\0' !in stored[i].key && NulFree(stored[i].value)
    {
      assert stored[i] in stored;
      if stored[i] in members {
        var j :| 0 <= j < |members| && members[j] == stored[i];
      }
    }
  }

  lemma ArrayReturnable(items: seq<Json>, v: Json, noNul: bool)
    requires AllReturnable(items, noNul) && Returnable(v, noNul)
    ensures AllReturnable(items + [v], noNul) && Returnable(Array(items + [v]), noNul)
  {
    var all := items + [v];
    assert AllReturnable(all, noNul);
    forall i | 0 <= i < |all| ensures WellFormed(all[i]) && CanonicalKeys(all[i]) && (noNul ==> NulFree(all[i])) {
      assert Returnable(all[i], noNul);
    }
  }

  lemma EmptyReturnable(noNul: bool)
    ensures Returnable(Array([]), noNul) && Returnable(Object([]), noNul) && AllReturnable([], noNul)
  {
  }

  /** Whatever the text, a value that is returned has its keys in order and canonical and its
      integers in range; and from a text without NUL it has no NUL in it. */
  lemma {:induction false} ParsedIsReturnable(str: string, o: nat)
    requires o <= |str|
    ensures var r := ParseNext(str, o); r.Done? ==> Returnable(r.value, '\0' !in str)
    decreases |str| - o, 2
  {
    var p := SkipSpace(str, o);
    var c := At(str, p);
    if c == '[' {
      var q := SkipSpace(str, p + 1);
      if At(str, q) != ']' {
        ElementsReturnable(str, q, []);
      }
    } else if c == '{' {
      var q := SkipSpace(str, p + 1);
      if At(str, q) != '}' {
        MembersReturnable(str, q, []);
      }
    } else if c == '\"' {
      StringReturnable(str, p + 1, "");
    }
  }

  lemma {:induction false} ElementsReturnable(str: string, o: nat, items: seq<Json>)
    requires o <= |str| && AllReturnable(items, '\0' !in str)
    ensures var r := ParseElements(str, o, items); r.Done? ==> Returnable(r.value, '\0' !in str)
    decreases |str| - o, 3
  {
    hide ParseNext, SkipSpace, Returnable, AllReturnable;
    EmptyReturnable('\0' !in str);
    ParsedIsReturnable(str, o);
    var r := ParseNext(str, o);
    if r.Done? && r.offset <= |str| {
      ArrayReturnable(items, r.value, '\0' !in str);
      var q := SkipSpace(str, r.offset);
      if At(str, q) == ',' {
        ElementsReturnable(str, q + 1, items + [r.value]);
      }
    }
  }

  lemma {:induction false} MembersReturnable(str: string, o: nat, members: seq<Member>)
    requires o <= |str| && Returnable(Object(members), '\0' !in str)
    ensures var r := ParseMembers(str, o, members); r.Done? ==> Returnable(r.value, '\0' !in str)
    decreases |str| - o, 3
  {
    hide ParseNext, SkipSpace, Put, KeyText, Returnable;
    ParsedIsReturnable(str, o);
    var key := ParseNext(str, o);
    if key.Done? && key.offset <= |str| {
      var colon := SkipSpace(str, key.offset);
      if At(str, colon) == ':' {
        var start := SkipSpace(str, colon + 1);
        ParsedIsReturnable(str, start);
        var r := ParseNext(str, start);
        if r.Done? && r.offset <= |str| {
          PutReturnable(members, key.value, r.value, '\0' !in str);
          var q := SkipSpace(str, r.offset);
          if At(str, q) == ',' {
            MembersReturnable(str, q + 1, Put(members, KeyText(key.value), r.value));
          }
        }
      }
    }
  }

  /** The NUL after the text is appended too, but then the next read is out of bounds. */
  lemma {:induction false} StringReturnable(str: string, o: nat, val: string)
    requires o <= |str| + 1 && ('\0' in val ==> '\0' in str || o == |str| + 1)
    ensures var r := ParseString(str, o, val); r.Done? ==> Returnable(r.value, '\0' !in str)
    decreases |str| + 1 - o
  {
    if o <= |str| {
      var c := At(str, o);
      if c == '\\' {
        var e := At(str, o + 1);
        if e == 'u' {
          if AllHex(str, o + 2, 4) {
            StringReturnable(str, o + 6, val + "\\u" + str[o + 2..o + 6]);
          }
        } else {
          StringReturnable(str, o + 2, val + [EscapedChar(e)]);
        }
      } else if c != '\"' {
        StringReturnable(str, o + 1, val + [c]);
      }
    }
  }
}
