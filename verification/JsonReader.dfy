/** The parse functions of SimpleJSON as the code runs them: loops that move one offset shared by
    all of them and fill containers as they go. Each is proved equal to its function in module
    JsonParser, on every text. */
module JsonReader {
  import opened JsonValues
  import opened JsonParser

  /** The `size_t &offset` that all parse functions share. */
  class Offset {
    var at: nat

    constructor ()
      ensures at == 0
    {
      at := 0;
    }
  }

  /** The call ended as the specification says, with the offset moved accordingly. */
  ghost predicate Ended(spec: Outcome, out: Outcome, at: nat) {
    out == spec && (out.Done? ==> at == out.offset)
  }

  method ConsumeWs(str: string, offset: Offset)
    requires offset.at <= |str|
    modifies offset
    ensures offset.at == SkipSpace(str, old(offset.at))
  {
    while IsSpace(At(str, offset.at))
      invariant offset.at <= |str| && SkipSpace(str, offset.at) == SkipSpace(str, old(offset.at))
      decreases |str| - offset.at
    {
      offset.at := offset.at + 1;
    }
  }

  method ReadObject(str: string, offset: Offset) returns (out: Outcome)
    requires offset.at < |str|
    modifies offset
    ensures Ended(ParseObject(str, old(offset.at)), out, offset.at)
    decreases |str| - offset.at, 1
  {
    hide ParseMembers, SkipSpace;
    ghost var start := offset.at;
    var members: seq<Member> := [];
    offset.at := offset.at + 1;
    ConsumeWs(str, offset);
    if At(str, offset.at) == '}' {
      offset.at := offset.at + 1;
      return Done(Object(members), offset.at);
    }
    while true
      invariant start < offset.at <= |str|
      invariant ParseObject(str, start) == ParseMembers(str, offset.at, members)
      decreases |str| - offset.at
    {
      var turn := ReadMember(str, offset, members);
      if turn.Leave? {
        return turn.out;
      }
      members := turn.members;
    }
  }

  /** How a turn of the loop of parse_object ends: with `continue`, or by leaving the loop. */
  datatype Turn = Continue(members: seq<Member>) | Leave(out: Outcome)

  /** One turn of the loop of parse_object. */
  method ReadMember(str: string, offset: Offset, members: seq<Member>) returns (turn: Turn)
    requires offset.at <= |str|
    modifies offset
    ensures turn.Continue? ==> old(offset.at) < offset.at <= |str|
    ensures turn.Continue? ==>
              ParseMembers(str, old(offset.at), members) == ParseMembers(str, offset.at, turn.members)
    ensures turn.Leave? ==> Ended(ParseMembers(str, old(offset.at), members), turn.out, offset.at)
    decreases |str| - offset.at, 3
  {
    hide ParseNext, SkipSpace, Put, KeyText;
    var key := ReadNext(str, offset);
    if !key.Done? {
      return Leave(key);
    }
    if offset.at > |str| {
      return Leave(OutOfBounds);
    }
    ConsumeWs(str, offset);
    if At(str, offset.at) != ':' {
      return Leave(Done(Object(members), offset.at));
    }
    offset.at := offset.at + 1;
    ConsumeWs(str, offset);
    var value := ReadNext(str, offset);
    if !value.Done? {
      return Leave(value);
    }
    if offset.at > |str| {
      return Leave(OutOfBounds);
    }
    var stored := Put(members, KeyText(key.value), value.value);
    ConsumeWs(str, offset);
    if At(str, offset.at) == ',' {
      offset.at := offset.at + 1;
      return Continue(stored);
    }
    if At(str, offset.at) == '}' {
      offset.at := offset.at + 1;
    }
    return Leave(Done(Object(stored), offset.at));
  }

  method ReadArray(str: string, offset: Offset) returns (out: Outcome)
    requires offset.at < |str|
    modifies offset
    ensures Ended(ParseArray(str, old(offset.at)), out, offset.at)
    decreases |str| - offset.at, 1
  {
    hide ParseNext, SkipSpace;
    ghost var start := offset.at;
    var items: seq<Json> := [];
    offset.at := offset.at + 1;
    ConsumeWs(str, offset);
    if At(str, offset.at) == ']' {
      offset.at := offset.at + 1;
      return Done(Array(items), offset.at);
    }
    while true
      invariant start < offset.at <= |str|
      invariant ParseArray(str, start) == ParseElements(str, offset.at, items)
      decreases |str| - offset.at
    {
      var element := ReadNext(str, offset);
      if !element.Done? {
        return element;
      }
      items := items + [element.value];
      if offset.at > |str| {
        return OutOfBounds;
      }
      ConsumeWs(str, offset);
      if At(str, offset.at) == ',' {
        offset.at := offset.at + 1;
      } else if At(str, offset.at) == ']' {
        offset.at := offset.at + 1;
        return Done(Array(items), offset.at);
      } else {
        return Done(Array([]), offset.at);
      }
    }
  }

  method ReadString(str: string, offset: Offset) returns (out: Outcome)
    requires offset.at < |str|
    modifies offset
    ensures Ended(ParseString(str, old(offset.at) + 1, ""), out, offset.at)
  {
    hide EscapedChar;
    ghost var start := offset.at;
    var val := "";
    while true
      invariant offset.at <= |str|
      invariant ParseString(str, start + 1, "") == ParseString(str, offset.at + 1, val)
      decreases |str| - offset.at
    {
      offset.at := offset.at + 1;
      if offset.at > |str| {
        return OutOfBounds;
      }
      var c := At(str, offset.at);
      if c == '\"' {
        offset.at := offset.at + 1;
        return Done(String(val), offset.at);
      }
      if c == '\\' {
        offset.at := offset.at + 1;
        if At(str, offset.at) == 'u' {
          var hex := ReadHex(str, offset.at + 1);
          if |hex| < 4 {
            return Done(String(""), offset.at);
          }
          val := val + "\\u" + hex;
          offset.at := offset.at + 4;
        } else {
          val := val + [EscapedChar(At(str, offset.at))];
        }
      } else {
        val := val + [c];
      }
    }
  }

  /** The loop over the digits of a \u escape: those read before the first character that is
      not hexadecimal, four at most. */
  method ReadHex(str: string, o: nat) returns (hex: string)
    requires o <= |str|
    ensures |hex| == 4 <==> AllHex(str, o, 4)
    ensures |hex| <= 4 && StartsAt(str, o, hex)
  {
    hex := "";
    var i := 0;
    while i < 4
      invariant 0 <= i <= 4 && |hex| == i && StartsAt(str, o, hex)
      invariant AllHex(str, o, 4) == AllHex(str, o + i, 4 - i)
    {
      var c := At(str, o + i);
      if !IsHex(c) {
        return;
      }
      hex := hex + [c];
      i := i + 1;
    }
  }

  method ReadNumber(str: string, offset: Offset) returns (out: Outcome)
    requires offset.at <= |str|
    modifies offset
    ensures Ended(ParseNumber(str, old(offset.at)), out, offset.at)
  {
    hide Stol;
    ghost var start := offset.at;
    var val := "";
    var isDouble := false;
    var c;
    while true
      invariant start <= offset.at <= |str| && val == str[start..offset.at]
      invariant NumberEnd(str, offset.at) == NumberEnd(str, start)
      invariant isDouble <==> '.' in val
      decreases |str| - offset.at
    {
      c := At(str, offset.at);
      offset.at := offset.at + 1;
      if c == '-' || IsDigit(c) {
        val := val + [c];
      } else if c == '.' {
        val := val + [c];
        isDouble := true;
      } else {
        break;
      }
    }
    if c == 'E' || c == 'e' {
      return NotIntegral;
    }
    if !IsSpace(c) && c != ',' && c != ']' && c != '}' {
      return Done(Null, offset.at);
    }
    offset.at := offset.at - 1;
    if isDouble {
      return NotIntegral;
    }
    match Stol(val)
    case Long(n) => out := Done(Integral(n), offset.at);
    case StolThrows => out := Throws;
  }

  method ReadBool(str: string, offset: Offset) returns (out: Outcome)
    requires offset.at <= |str|
    modifies offset
    ensures Ended(ParseBool(str, old(offset.at)), out, offset.at)
  {
    var b;
    if StartsAt(str, offset.at, "true") {
      b := true;
    } else if StartsAt(str, offset.at, "false") {
      b := false;
    } else {
      return Done(Null, offset.at);
    }
    offset.at := offset.at + if b then 4 else 5;
    out := Done(Boolean(b), offset.at);
  }

  method ReadNull(str: string, offset: Offset) returns (out: Outcome)
    requires offset.at <= |str|
    modifies offset
    ensures Ended(ParseNull(str, old(offset.at)), out, offset.at)
  {
    if !StartsAt(str, offset.at, "null") {
      return Done(Null, offset.at);
    }
    offset.at := offset.at + 4;
    out := Done(Null, offset.at);
  }

  /** parse_next */
  method ReadNext(str: string, offset: Offset) returns (out: Outcome)
    requires offset.at <= |str|
    modifies offset
    ensures Ended(ParseNext(str, old(offset.at)), out, offset.at)
    decreases |str| - offset.at, 2
  {
    hide SkipSpace, ParseArray, ParseObject, ParseString, ParseBool, ParseNull, ParseNumber;
    ConsumeWs(str, offset);
    var value := At(str, offset.at);
    if value == '[' {
      out := ReadArray(str, offset);
    } else if value == '{' {
      out := ReadObject(str, offset);
    } else if value == '\"' {
      out := ReadString(str, offset);
    } else if value == 't' || value == 'f' {
      out := ReadBool(str, offset);
    } else if value == 'n' {
      out := ReadNull(str, offset);
    } else if IsDigit(value) || value == '-' {
      out := ReadNumber(str, offset);
    } else {
      out := Done(Null, offset.at);
    }
  }

  /** JSON::Load */
  method LoadText(str: string) returns (out: Outcome)
    ensures out == Load(str)
  {
    var offset := new Offset();
    out := ReadNext(str, offset);
  }
}
