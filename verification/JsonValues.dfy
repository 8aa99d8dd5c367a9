/** The values of SimpleJSON, the order of object keys, and escaping and decimal notation, the
    two encodings on which printing and parsing rest. A text is a sequence of characters; the
    C++ code reads bytes, which are the characters below 256. */
module JsonValues {

  /** The content of a JSON object by tag. Numbers with a fraction or an exponent (Floating)
      are not part of this model. Members stand in the order in which std::map iterates. */
  datatype Json =
    | Null
    | Object(members: seq<Member>)
    | Array(items: seq<Json>)
    | String(s: string)
    | Integral(n: int)
    | Boolean(b: bool)

  datatype Member = Member(key: string, value: Json)

  /** The range of long on an LP64 platform. */
  const LONG_MAX := 0x7fff_ffff_ffff_ffff
  const LONG_MIN := -0x8000_0000_0000_0000

  type long = n: int | LONG_MIN <= n <= LONG_MAX

  // ----- Keys in order, as std::map<string, JSON> keeps them.

  /** The order of std::string: lexicographic. */
  predicate KeyLess(a: string, b: string) {
    if b == "" then false
    else if a == "" then true
    else a[0] < b[0] || (a[0] == b[0] && KeyLess(a[1..], b[1..]))
  }

  lemma {:induction false} KeyLessTotal(a: string, b: string)
    ensures a == b || KeyLess(a, b) || KeyLess(b, a)
    ensures !(KeyLess(a, b) && KeyLess(b, a))
    ensures KeyLess(a, b) ==> a != b
  {
    if a != "" && b != "" {
      KeyLessTotal(a[1..], b[1..]);
      assert a == [a[0]] + a[1..] && b == [b[0]] + b[1..];
    }
  }

  lemma {:induction false} KeyLessTransitive(a: string, b: string, c: string)
    requires KeyLess(a, b) && KeyLess(b, c)
    ensures KeyLess(a, c)
  {
    if a != "" && a[0] == b[0] == c[0] {
      KeyLessTransitive(a[1..], b[1..], c[1..]);
    }
  }

  /** Equal up to i, where a ends or has the smaller character. */
  predicate Deciding(a: string, b: string, i: nat) {
    i <= |a| && i < |b| && a[..i] == b[..i] && (i < |a| ==> a[i] < b[i])
  }

  lemma DecidingTail(a: string, b: string, i: nat)
    requires a != "" && b != ""
    ensures Deciding(a, b, i + 1) <==> a[0] == b[0] && Deciding(a[1..], b[1..], i)
    ensures Deciding(a, b, 0) <==> a[0] < b[0]
  {
    if i < |a| && i < |b| {
      assert a[..i + 1] == [a[0]] + a[1..][..i] && b[..i + 1] == [b[0]] + b[1..][..i];
    }
  }

  /** The order is the lexicographic one: the first difference decides, a proper prefix comes
      first. */
  lemma {:induction false} KeyLessIsLexicographic(a: string, b: string)
    ensures KeyLess(a, b) <==> exists i: nat :: Deciding(a, b, i)
  {
    hide Deciding;
    if a == "" || b == "" {
      DecidingAtEnd(a, b);
    } else {
      KeyLessIsLexicographic(a[1..], b[1..]);
      DecidingTail(a, b, 0);
      if KeyLess(a, b) && a[0] == b[0] {
        var i: nat :| Deciding(a[1..], b[1..], i);
        DecidingTail(a, b, i);
      }
      if i: nat :| Deciding(a, b, i) && i > 0 {
        DecidingTail(a, b, i - 1);
      }
    }
  }

  lemma DecidingAtEnd(a: string, b: string)
    requires a == "" || b == ""
    ensures (exists i: nat :: Deciding(a, b, i)) <==> a == "" && b != ""
  {
    if a == "" && b != "" {
      assert Deciding(a, b, 0);
    }
  }

  predicate SortedMembers(members: seq<Member>) {
    forall i, j :: 0 <= i < j < |members| ==> KeyLess(members[i].key, members[j].key)
  }

  /** What `object[key] = value` makes of the members. */
  function Put(members: seq<Member>, key: string, value: Json): seq<Member> {
    if members == [] then [Member(key, value)]
    else if key == members[0].key then [Member(key, value)] + members[1..]
    else if KeyLess(key, members[0].key) then [Member(key, value)] + members
    else [members[0]] + Put(members[1..], key, value)
  }

  /** Every member after Put is the new one or an old one. */
  lemma {:induction false} PutMembers(members: seq<Member>, key: string, value: Json)
    ensures forall m | m in Put(members, key, value) :: m == Member(key, value) || m in members
  {
    if members != [] && key != members[0].key && !KeyLess(key, members[0].key) {
      PutMembers(members[1..], key, value);
    }
  }

  lemma {:induction false} PutSorted(members: seq<Member>, key: string, value: Json)
    requires SortedMembers(members)
    ensures SortedMembers(Put(members, key, value))
  {
    if members != [] {
      var first, rest := members[0], members[1..];
      KeyLessTotal(key, first.key);
      if KeyLess(key, first.key) {
        forall j | 0 <= j < |rest| ensures KeyLess(key, rest[j].key) {
          assert KeyLess(first.key, members[j + 1].key);
          KeyLessTransitive(key, first.key, rest[j].key);
        }
      } else if key != first.key {
        PutSorted(rest, key, value);
        PutMembers(rest, key, value);
        var tail := Put(rest, key, value);
        forall j | 0 <= j < |tail| ensures KeyLess(first.key, tail[j].key) {
          assert tail[j] in tail;
          if tail[j] != Member(key, value) {
            var k :| 0 <= k < |rest| && rest[k] == tail[j];
            assert members[k + 1] == tail[j];
          }
        }
      }
    }
  }

  /** A key after all others goes to the end. */
  lemma {:induction false} PutLast(members: seq<Member>, key: string, value: Json)
    requires forall m | m in members :: KeyLess(m.key, key)
    ensures Put(members, key, value) == members + [Member(key, value)]
  {
    if members != [] {
      KeyLessTotal(members[0].key, key);
      PutLast(members[1..], key, value);
      assert members == [members[0]] + members[1..];
    }
  }

  // ----- Reading a member.

  /** The value that `v[key]` refers to: operator[] turns anything but an object into an empty
      one, and a missing key gives Null. */
  function FieldOf(v: Json, key: string): (f: Json)
    ensures f == Null || f < v
  {
    if !v.Object? then Null else Lookup(v.members, key)
  }

  function Lookup(members: seq<Member>, key: string): (f: Json)
    ensures f == Null || exists i :: 0 <= i < |members| && f == members[i].value
  {
    if members == [] then Null
    else if members[0].key == key then members[0].value
    else Lookup(members[1..], key)
  }

  lemma LookupFirst(m: Member, rest: seq<Member>, key: string)
    ensures Lookup([m] + rest, key) == if m.key == key then m.value else Lookup(rest, key)
    ensures Lookup([m], key) == if m.key == key then m.value else Null
  {
    assert ([m] + rest)[1..] == rest && [m][1..] == [];
  }

  /** Put and Lookup are the two halves of operator[]. */
  lemma {:induction false} PutThenLookup(members: seq<Member>, key: string, a: Json, b: Json)
    ensures Lookup(Put(members, key, a), key) == a
    ensures Put(Put(members, key, a), key, b) == Put(members, key, b)
  {
    if members != [] && key != members[0].key {
      var rest := members[1..];
      KeyLessTotal(key, members[0].key);
      if !KeyLess(key, members[0].key) {
        PutThenLookup(rest, key, a, b);
        assert ([members[0]] + Put(rest, key, a))[1..] == Put(rest, key, a);
      } else {
        assert ([Member(key, a)] + members)[1..] == members;
      }
    } else if members != [] {
      assert ([Member(key, a)] + members[1..])[1..] == members[1..];
    } else {
      assert [Member(key, a)][1..] == [];
    }
  }

  lemma PutCons(m: Member, rest: seq<Member>, key: string, value: Json)
    ensures
      Put([m] + rest, key, value)
      == if key == m.key then [Member(key, value)] + rest
         else if KeyLess(key, m.key) then [Member(key, value)] + ([m] + rest)
         else [m] + Put(rest, key, value)
  {
    hide KeyLess;
    assert ([m] + rest)[1..] == rest;
  }

  /** Assignments to different keys commute. */
  lemma {:induction false} PutCommutes(members: seq<Member>, k: string, a: Json, l: string, b: Json)
    requires KeyLess(k, l)
    ensures Put(Put(members, k, a), l, b) == Put(Put(members, l, b), k, a)
  {
    hide KeyLess;
    KeyLessTotal(k, l);
    var mk, ml := Member(k, a), Member(l, b);
    if members == [] {
      PutCons(mk, [], l, b);
      PutCons(ml, [], k, a);
      assert [mk] + [] == [mk] && [ml] + [] == [ml];
    } else {
      var first, rest := members[0], members[1..];
      assert [first] + rest == members;
      KeyLessTotal(k, first.key);
      KeyLessTotal(l, first.key);
      if KeyLess(first.key, k) {
        KeyLessTransitive(first.key, k, l);
        PutCommutes(rest, k, a, l, b);
      } else if KeyLess(k, first.key) {
        PutCons(mk, members, l, b);
      }
      hide Put;
      PutCons(first, rest, k, a);
      PutCons(first, rest, l, b);
      PutCons(first, Put(rest, k, a), l, b);
      PutCons(first, Put(rest, l, b), k, a);
      PutCons(mk, rest, l, b);
      PutCons(ml, rest, k, a);
      PutCons(ml, members, k, a);
    }
  }

  /** An assignment to one key leaves the others. */
  lemma {:induction false} LookupOther(members: seq<Member>, k: string, a: Json, l: string)
    requires k != l
    ensures Lookup(Put(members, k, a), l) == Lookup(members, l)
  {
    assert Lookup([], l) == Null;
    hide KeyLess, Lookup;
    LookupFirst(Member(k, a), [], l);
    if members != [] {
      var first, rest := members[0], members[1..];
      assert [first] + rest == members;
      LookupOther(rest, k, a, l);
      LookupFirst(Member(k, a), rest, l);
      LookupFirst(Member(k, a), members, l);
      LookupFirst(first, rest, l);
      LookupFirst(first, Put(rest, k, a), l);
    }
  }

  lemma {:induction false} LookupAbsent(members: seq<Member>, key: string)
    requires forall k | 0 <= k < |members| :: members[k].key != key
    ensures Lookup(members, key) == Null
  {
    if members != [] {
      LookupAbsent(members[1..], key);
    }
  }

  /** The place of a key: where it stands, or before the first greater one. */
  predicate IsPlace(members: seq<Member>, i: nat, key: string) {
    && i <= |members|
    && (forall k | 0 <= k < i :: KeyLess(members[k].key, key))
    && (i < |members| ==> members[i].key == key || KeyLess(key, members[i].key))
  }

  lemma {:induction false} PutPresent(members: seq<Member>, i: nat, key: string, w: Json)
    requires SortedMembers(members) && i < |members| && members[i].key == key
    ensures Put(members, key, w) == members[i := Member(key, w)]
  {
    hide KeyLess;
    if i == 0 {
      assert members[0 := Member(key, w)] == [Member(key, w)] + members[1..];
    } else {
      var rest := members[1..];
      KeyLessTotal(members[0].key, key);
      PutPresent(rest, i - 1, key, w);
      assert members[i := Member(key, w)] == [members[0]] + rest[i - 1 := Member(key, w)];
    }
  }

  lemma {:induction false} PutAbsent(members: seq<Member>, i: nat, key: string, w: Json)
    requires IsPlace(members, i, key) && (i < |members| ==> members[i].key != key)
    ensures Put(members, key, w) == members[..i] + ([Member(key, w)] + members[i..])
  {
    hide KeyLess;
    if i == 0 {
      assert members[..0] + ([Member(key, w)] + members[0..]) == [Member(key, w)] + members;
    } else {
      var rest := members[1..];
      KeyLessTotal(members[0].key, key);
      PutAbsent(rest, i - 1, key, w);
      assert members[i..] == rest[i - 1..];
      assert members[..i] + ([Member(key, w)] + members[i..])
          == [members[0]] + (rest[..i - 1] + ([Member(key, w)] + rest[i - 1..]));
    }
  }

  lemma {:induction false} LookupAtPlace(members: seq<Member>, i: nat, key: string)
    requires SortedMembers(members) && IsPlace(members, i, key)
    ensures Lookup(members, key) == if i < |members| && members[i].key == key then members[i].value else Null
  {
    hide KeyLess;
    if i > 0 {
      KeyLessTotal(members[0].key, key);
      LookupAtPlace(members[1..], i - 1, key);
    } else if members != [] && members[0].key != key {
      forall k | 0 <= k < |members| ensures members[k].key != key {
        if k > 0 {
          KeyLessTransitive(key, members[0].key, members[k].key);
        }
        KeyLessTotal(key, members[k].key);
      }
      LookupAbsent(members, key);
    }
  }

  // ----- Escaping.

  function EscapeChar(c: char): (e: string)
    ensures e != ""
  {
    match c
    case '\"' => "\\\""
    case '\\' => "\\\\"
    case '\U{8}' => "\\b"
    case '\U{c}' => "\\f"
    case '\n' => "\\n"
    case '\r' => "\\r"
    case '\t' => "\\t"
    case _ => [c]
  }

  /** json_escape */
  function Escape(s: string): string {
    if s == "" then "" else EscapeChar(s[0]) + Escape(s[1..])
  }

  /** The character a letter after a backslash stands for. */
  function UnescapeChar(c: char): char {
    match c
    case 'b' => '\U{8}'
    case 'f' => '\U{c}'
    case 'n' => '\n'
    case 'r' => '\r'
    case 't' => '\t'
    case _ => c
  }

  /** Undoes Escape; on other strings the result means nothing. */
  function Unescape(s: string): string {
    if |s| >= 2 && s[0] == '\\' then [UnescapeChar(s[1])] + Unescape(s[2..])
    else if s != "" then [s[0]] + Unescape(s[1..])
    else ""
  }

  lemma UnescapeChars(c: char, rest: string)
    ensures Unescape(EscapeChar(c) + rest) == [c] + Unescape(rest)
  {
    var e := EscapeChar(c);
    assert (e + rest)[|e|..] == rest;
    if e != [c] {
      assert (e + rest)[0] == '\\' && UnescapeChar((e + rest)[1]) == c;
    }
  }

  lemma {:induction false} UnescapeEscape(s: string)
    ensures Unescape(Escape(s)) == s
  {
    if s != "" {
      hide EscapeChar, Unescape;
      UnescapeEscape(s[1..]);
      UnescapeChars(s[0], Escape(s[1..]));
      assert s == [s[0]] + s[1..];
    } else {
      assert Escape(s) == "";
    }
  }

  lemma EscapeInjective(s: string, t: string)
    requires Escape(s) == Escape(t)
    ensures s == t
  {
    UnescapeEscape(s);
    UnescapeEscape(t);
  }

  /** A key that json_escape could have produced, decided by reading it once. */
  predicate CanonicalKey(key: string) {
    key == Escape(Unescape(key))
  }

  lemma CanonicalKeyMeans(key: string)
    ensures CanonicalKey(key) <==> exists s :: key == Escape(s)
  {
    if s :| key == Escape(s) {
      UnescapeEscape(s);
    }
  }

  // ----- What escaping does, character by character.

  /** The seven characters that JSON text escapes with a letter of their own. */
  predicate IsSpecial(c: char) {
    c in ['\"', '\\', '\U{8}', '\U{c}', '\n', '\r', '\t']
  }

  predicate IsLetterOf(letter: char, c: char) {
    || (c == '\"' && letter == '\"') || (c == '\\' && letter == '\\')
    || (c == '\U{8}' && letter == 'b') || (c == '\U{c}' && letter == 'f')
    || (c == '\n' && letter == 'n') || (c == '\r' && letter == 'r') || (c == '\t' && letter == 't')
  }

  function CountSpecial(s: string): (n: nat)
    ensures n <= |s|
  {
    if s == "" then 0 else (if IsSpecial(s[0]) then 1 else 0) + CountSpecial(s[1..])
  }

  /** The character of e that belongs to s[i], or the two. */
  predicate InPlace(s: string, e: string, i: nat)
    requires i < |s|
  {
    var p := i + CountSpecial(s[..i]);
    if IsSpecial(s[i]) then p + 1 < |e| && e[p] == '\\' && IsLetterOf(e[p + 1], s[i])
    else p < |e| && e[p] == s[i]
  }

  /** Each character in its place: a special one as a backslash and its letter, any other as
      itself; a character stands as many places further on as there are special ones before it. */
  predicate IsEscaping(s: string, e: string) {
    |e| == |s| + CountSpecial(s) && forall i | 0 <= i < |s| :: InPlace(s, e, i)
  }

  /** Read from the left, every backslash has a letter after it, and outside these pairs there is
      no quote, backslash or control character that needs escaping. */
  predicate IsPaired(e: string) {
    if e == "" then true
    else if e[0] == '\\' then |e| >= 2 && e[1] in "\"\\bfnrt" && IsPaired(e[2..])
    else !IsSpecial(e[0]) && IsPaired(e[1..])
  }

  lemma EscapeCharIs(c: char)
    ensures
      if IsSpecial(c) then |EscapeChar(c)| == 2 && EscapeChar(c)[0] == '\\' && IsLetterOf(EscapeChar(c)[1], c)
      else EscapeChar(c) == [c]
  {
  }

  lemma CountSpecialCons(s: string, i: nat)
    requires 0 < i <= |s|
    ensures CountSpecial(s[..i]) == (if IsSpecial(s[0]) then 1 else 0) + CountSpecial(s[1..][..i - 1])
  {
    assert s[..i][1..] == s[1..][..i - 1];
  }

  lemma InPlaceTail(s: string, e: string, i: nat, n: nat)
    requires 0 < i < |s| && n == (if IsSpecial(s[0]) then 2 else 1) && n <= |e|
    ensures InPlace(s, e, i) <==> InPlace(s[1..], e[n..], i - 1)
  {
    hide IsSpecial, IsLetterOf, CountSpecial;
    CountSpecialCons(s, i);
    var p, q := i + CountSpecial(s[..i]), i - 1 + CountSpecial(s[1..][..i - 1]);
    assert p == q + n && s[1..][i - 1] == s[i];
    assert q < |e[n..]| ==> e[n..][q] == e[p];
    assert q + 1 < |e[n..]| ==> e[n..][q + 1] == e[p + 1];
  }

  lemma InPlaceFirst(s: string, e: string)
    requires s != ""
    ensures InPlace(s, e, 0) <==> EscapeChar(s[0]) <= e
  {
    assert s[..0] == "";
    var first := EscapeChar(s[0]);
    if |first| <= |e| {
      assert first <= e <==> forall k | 0 <= k < |first| :: first[k] == e[k];
    }
  }

  lemma {:induction false} EscapingStep(s: string, e: string)
    requires s != ""
    ensures
      var first := EscapeChar(s[0]);
      IsEscaping(s, e) <==> first <= e && IsEscaping(s[1..], e[|first|..])
  {
    hide IsSpecial, IsLetterOf, EscapeChar, InPlace;
    var first, rest := EscapeChar(s[0]), s[1..];
    EscapeCharIs(s[0]);
    InPlaceFirst(s, e);
    if first <= e {
      forall i | 0 < i < |s| ensures InPlace(s, e, i) <==> InPlace(rest, e[|first|..], i - 1) {
        InPlaceTail(s, e, i, |first|);
      }
      if IsEscaping(s, e) {
        forall i | 0 <= i < |rest| ensures InPlace(rest, e[|first|..], i) {
          assert InPlace(s, e, i + 1);
        }
      }
    }
  }

  /** This describes one string, the escaped one. */
  lemma {:induction false} EscapingIs(s: string, e: string)
    ensures IsEscaping(s, e) <==> e == Escape(s)
  {
    hide IsSpecial, IsLetterOf, EscapeChar, InPlace, IsEscaping;
    if s == "" {
      EscapingNothing(e);
    } else {
      EscapingStep(s, e);
      var first := EscapeChar(s[0]);
      if first <= e {
        EscapingIs(s[1..], e[|first|..]);
        assert e == first + e[|first|..];
      }
      assert first <= Escape(s) && Escape(s)[|first|..] == Escape(s[1..]);
    }
  }

  lemma EscapingNothing(e: string)
    ensures IsEscaping("", e) <==> e == ""
  {
  }

  lemma {:induction false} NoneSpecial(s: string)
    ensures CountSpecial(s) == 0 <==> forall c | c in s :: !IsSpecial(c)
  {
    hide IsSpecial;
    if s != "" {
      NoneSpecial(s[1..]);
      assert s == [s[0]] + s[1..];
    }
  }

  /** Nothing is changed exactly when there is nothing to escape; otherwise the string grows. */
  lemma EscapeChangesNothing(s: string)
    ensures Escape(s) == s <==> forall c | c in s :: !IsSpecial(c)
    ensures |Escape(s)| == |s| + CountSpecial(s)
  {
    hide IsSpecial, Escape, CountSpecial;
    EscapingIs(s, Escape(s));
    NoneSpecial(s);
    if CountSpecial(s) == 0 {
      EscapingIs(s, s);
      forall i | 0 <= i < |s| ensures InPlace(s, s, i) {
        NoneSpecial(s[..i]);
      }
    }
  }

  lemma PairedCons(c: char, rest: string)
    requires IsPaired(rest)
    ensures IsPaired(EscapeChar(c) + rest)
  {
    var e := EscapeChar(c) + rest;
    if IsSpecial(c) {
      assert e[2..] == rest;
    } else {
      assert e[1..] == rest;
    }
  }

  /** Every escaped string is made of pairs and harmless characters: it cannot end the literal it
      stands in, and none of the five control characters is left raw. */
  lemma {:induction false} EscapeIsPaired(s: string)
    ensures IsPaired(Escape(s))
    ensures forall c | c in Escape(s) :: c !in ['\U{8}', '\U{c}', '\n', '\r', '\t']
  {
    if s != "" {
      EscapeIsPaired(s[1..]);
      PairedCons(s[0], Escape(s[1..]));
      hide IsPaired;
      assert forall c | c in EscapeChar(s[0]) :: c !in ['\U{8}', '\U{c}', '\n', '\r', '\t'];
    }
  }

  /** json_escape, building the output character by character. */
  method JsonEscape(str: string) returns (output: string)
    ensures output == Escape(str) && IsEscaping(str, output)
  {
    output := "";
    hide Escape, IsEscaping;
    assert str[0..] == str;
    for i := 0 to |str|
      invariant output + Escape(str[i..]) == Escape(str)
    {
      ghost var before := output;
      var piece :=
        match str[i]
        case '\"' => "\\\""
        case '\\' => "\\\\"
        case '\U{8}' => "\\b"
        case '\U{c}' => "\\f"
        case '\n' => "\\n"
        case '\r' => "\\r"
        case '\t' => "\\t"
        case _ => [str[i]];
      assert piece == EscapeChar(str[i]);
      output := output + piece;
      hide EscapeChar;
      EscapeStep(str, i);
      assert before + (EscapeChar(str[i]) + Escape(str[i + 1..])) == output + Escape(str[i + 1..]);
    }
    EscapeEnd(str);
    EscapingIs(str, output);
  }

  lemma EscapeStep(str: string, i: nat)
    requires i < |str|
    ensures Escape(str[i..]) == EscapeChar(str[i]) + Escape(str[i + 1..])
  {
    assert str[i..][1..] == str[i + 1..];
  }

  lemma EscapeEnd(str: string)
    ensures Escape(str[|str|..]) == ""
  {
  }

  // ----- Decimal notation: std::to_string and std::stol.

  predicate IsDigit(c: char) {
    '0' <= c <= '9'
  }

  predicate AllDigits(s: string) {
    forall i :: 0 <= i < |s| ==> IsDigit(s[i])
  }

  function Digit(d: nat): (c: char)
    requires d < 10
    ensures IsDigit(c) && DigitValue(c) == d
  {
    '0' + d as char
  }

  function DigitValue(c: char): (d: nat)
    requires IsDigit(c)
    ensures d < 10
  {
    c as int - '0' as int
  }

  function Decimal(n: nat): (s: string)
    ensures s != "" && AllDigits(s)
  {
    if n < 10 then [Digit(n)] else Decimal(n / 10) + [Digit(n % 10)]
  }

  /** std::to_string on a long. */
  function LongToString(n: int): string {
    if n < 0 then "-" + Decimal(-n) else Decimal(n)
  }

  function DigitsValue(s: string): nat
    requires AllDigits(s)
  {
    if s == "" then 0 else 10 * DigitsValue(s[..|s| - 1]) + DigitValue(s[|s| - 1])
  }

  /** The digits s starts with. */
  function LeadingDigits(s: string): (d: string)
    ensures AllDigits(d)
  {
    if s == "" || !IsDigit(s[0]) then "" else [s[0]] + LeadingDigits(s[1..])
  }

  datatype LongResult = Long(n: int) | StolThrows

  /** std::stol on a text of digits and minus signs: an optional sign and the digits after it,
      the rest ignored; no digits, or a number out of range, throws. */
  function Stol(s: string): LongResult {
    var negative := s != "" && s[0] == '-';
    var digits := LeadingDigits(if negative then s[1..] else s);
    if digits == "" then StolThrows
    else
      var m: int := DigitsValue(digits);
      var n := if negative then -m else m;
      if LONG_MIN <= n <= LONG_MAX then Long(n) else StolThrows
  }

  lemma {:induction false} DecimalValue(n: nat)
    ensures DigitsValue(Decimal(n)) == n
  {
    if n >= 10 {
      DecimalValue(n / 10);
      assert Decimal(n)[..|Decimal(n)| - 1] == Decimal(n / 10);
    } else {
      assert Decimal(n)[..0] == "";
    }
  }

  function Power10(k: nat): (p: nat)
    ensures p > 0
  {
    if k == 0 then 1 else 10 * Power10(k - 1)
  }

  /** The k-th digit from the right is the coefficient of 10^k, and no zero is written in front. */
  lemma {:induction false} DecimalDigits(n: nat, k: nat)
    requires k < |Decimal(n)|
    ensures Decimal(n)[|Decimal(n)| - 1 - k] as int == '0' as int + n / Power10(k) % 10
    ensures n < Power10(|Decimal(n)|) && (|Decimal(n)| > 1 ==> Power10(|Decimal(n)| - 1) <= n)
    decreases n
  {
    if n >= 10 {
      var d := Decimal(n / 10);
      assert Decimal(n) == d + [Digit(n % 10)];
      if k > 0 {
        DecimalDigits(n / 10, k - 1);
        DivideTwice(n, Power10(k - 1));
      } else {
        DecimalDigits(n / 10, 0);
      }
    }
  }

  lemma DivideTwice(n: nat, p: nat)
    requires p > 0
    ensures n / 10 / p == n / (10 * p)
  {
    var q, t := n / 10 / p, n / 10 % p;
    assert n / 10 == p * q + t;
    QuotientIs(n, 10 * p, q, 10 * t + n % 10);
  }

  lemma QuotientIs(x: nat, d: nat, q: nat, r: nat)
    requires r < d && x == d * q + r
    ensures x / d == q
  {
    if x / d < q {
      QuotientGap(d, q - x / d, x % d - r);
    } else if x / d > q {
      QuotientGap(d, x / d - q, r - x % d);
    }
  }

  lemma QuotientGap(d: nat, gap: nat, r: int)
    requires gap >= 1 && r < d
    ensures d * gap != r
  {
  }

  lemma {:induction false} AllLeadingDigits(s: string)
    requires AllDigits(s)
    ensures LeadingDigits(s) == s
  {
    if s != "" {
      AllLeadingDigits(s[1..]);
    }
  }

  /** stol reads back what to_string wrote, for every long. */
  lemma StolOfLong(n: int)
    requires LONG_MIN <= n <= LONG_MAX
    ensures Stol(LongToString(n)) == Long(n)
  {
    hide Decimal, DigitsValue, LeadingDigits;
    var d := Decimal(if n < 0 then -n else n);
    AllLeadingDigits(d);
    DecimalValue(if n < 0 then -n else n);
    if n < 0 {
      assert LongToString(n)[1..] == d;
    } else {
      assert IsDigit(d[0]);
    }
  }

  /** The first digit is the most significant one. */
  lemma {:induction false} DigitsFromFront(s: string)
    requires s != "" && AllDigits(s)
    ensures DigitsValue(s) == (s[0] as int - '0' as int) * Power10(|s| - 1) + DigitsValue(s[1..])
  {
    if |s| > 1 {
      var init, last := s[..|s| - 1], s[|s| - 1];
      DigitsFromFront(init);
      assert init[1..] == s[1..][..|s| - 2];
      assert DigitsValue(s[1..]) == 10 * DigitsValue(init[1..]) + DigitValue(last);
      TenTimes(s[0] as int - '0' as int, Power10(|s| - 2), DigitsValue(init[1..]));
    } else {
      assert s[..0] == "" && s[1..] == "";
    }
  }

  lemma TenTimes(x: int, p: nat, v: nat)
    ensures 10 * (x * p + v) == x * (10 * p) + 10 * v
  {
  }

  lemma {:induction false} LeadingDigitsEnd(digits: string, rest: string)
    requires AllDigits(digits) && (rest == "" || !IsDigit(rest[0]))
    ensures LeadingDigits(digits + rest) == digits
  {
    if digits == "" {
      assert digits + rest == rest;
    } else {
      LeadingDigitsEnd(digits[1..], rest);
      assert (digits + rest)[1..] == digits[1..] + rest;
      assert digits == [digits[0]] + digits[1..];
    }
  }

  /** What stol makes of an optional sign, digits, and whatever follows them: the number if it is
      one of 64 bits, else out_of_range. */
  lemma StolIs(negative: bool, digits: string, rest: string)
    requires digits != "" && AllDigits(digits) && (rest == "" || !IsDigit(rest[0]))
    ensures
      var m: int := DigitsValue(digits);
      var n := if negative then -m else m;
      Stol((if negative then "-" else "") + (digits + rest))
      == if -9_223_372_036_854_775_808 <= n <= 9_223_372_036_854_775_807 then Long(n) else StolThrows
  {
    hide DigitsValue, LeadingDigits;
    LeadingDigitsEnd(digits, rest);
    var s := (if negative then "-" else "") + (digits + rest);
    if negative {
      assert s[0] == '-' && s[1..] == digits + rest;
    } else {
      assert s == digits + rest && IsDigit(s[0]);
    }
  }

  /** And without digits it throws. */
  lemma StolWithoutDigits(s: string)
    requires s == "" || !IsDigit(s[0])
    requires |s| >= 2 && s[0] == '-' ==> !IsDigit(s[1])
    ensures Stol(s) == StolThrows
  {
  }

  // ----- Which values a JSON object can hold, and which survive a printed copy.

  /** Members in strict key order and integers in range, at every depth. */
  predicate WellFormed(v: Json) {
    match v
    case Object(members) =>
      SortedMembers(members) && forall i | 0 <= i < |members| :: WellFormed(members[i].value)
    case Array(items) => forall i | 0 <= i < |items| :: WellFormed(items[i])
    case Integral(n) => LONG_MIN <= n <= LONG_MAX
    case _ => true
  }

  /** All object keys, at every depth, are canonical. */
  predicate CanonicalKeys(v: Json) {
    match v
    case Object(members) =>
      forall i | 0 <= i < |members| :: CanonicalKey(members[i].key) && CanonicalKeys(members[i].value)
    case Array(items) => forall i | 0 <= i < |items| :: CanonicalKeys(items[i])
    case _ => true
  }
}
