/** JSON::dump: its text, the loops that build it, and the syntax tree it is the text of. */
module JsonPrinter {
  import opened JsonValues
  import opened JsonParser
  import opened JsonGrammar

  // ----- The text.

  function Pad(depth: int, tab: string): string {
    if depth <= 0 then "" else Pad(depth - 1, tab) + tab
  }

  /** pad.erase( 0, 2 ) */
  function Erase2(s: string): string {
    if |s| <= 2 then "" else s[2..]
  }

  function Dump(v: Json, depth: int, tab: string): string
    decreases v, 1
  {
    match v
    case Null => "null"
    case Object(members) =>
      "{\n" + DumpMembers(members, depth, tab) + ("\n" + Erase2(Pad(depth, tab)) + "}")
    case Array(items) => "[" + DumpItems(items, depth, tab) + "]"
    case String(s) => "\"" + Escape(s) + "\""
    case Integral(n) => LongToString(n)
    case Boolean(b) => if b then "true" else "false"
  }

  function DumpItems(items: seq<Json>, depth: int, tab: string): string
    decreases items, 0
  {
    if items == [] then ""
    else Dump(items[0], depth + 1, tab) + MoreItems(items[1..], depth, tab)
  }

  /** The items after the first, each behind its separator. */
  function MoreItems(items: seq<Json>, depth: int, tab: string): string
    decreases items, 0
  {
    if items == [] then ""
    else ", " + (Dump(items[0], depth + 1, tab) + MoreItems(items[1..], depth, tab))
  }

  function DumpMember(m: Member, depth: int, tab: string): string
    decreases m, 2
  {
    Pad(depth, tab) + "\"" + m.key + "\" : " + Dump(m.value, depth + 1, tab)
  }

  function DumpMembers(members: seq<Member>, depth: int, tab: string): string
    decreases members, 0
  {
    if members == [] then ""
    else DumpMember(members[0], depth, tab) + MoreMembers(members[1..], depth, tab)
  }

  function MoreMembers(members: seq<Member>, depth: int, tab: string): string
    decreases members, 0
  {
    if members == [] then ""
    else ",\n" + (DumpMember(members[0], depth, tab) + MoreMembers(members[1..], depth, tab))
  }

  // ----- The layout, spelled out.

  function Spaces(n: nat): string {
    seq(n, _ => ' ')
  }

  function Joined(parts: seq<string>, separator: string): string {
    if parts == [] then ""
    else if |parts| == 1 then parts[0]
    else parts[0] + (separator + Joined(parts[1..], separator))
  }

  /** The padding is the tab, once for every level. */
  lemma {:induction false} PadIsTabs(depth: nat, tab: string)
    ensures |Pad(depth, tab)| == depth * |tab|
    ensures forall k: nat | k < depth :: k * |tab| + |tab| <= |Pad(depth, tab)|
    ensures forall k: nat | k < depth :: Pad(depth, tab)[k * |tab|..k * |tab| + |tab|] == tab
  {
    if depth > 0 {
      PadIsTabs(depth - 1, tab);
      var pad, before := Pad(depth, tab), Pad(depth - 1, tab);
      assert pad == before + tab && depth * |tab| == (depth - 1) * |tab| + |tab|;
      forall k: nat | k < depth
        ensures k * |tab| + |tab| <= |pad| && pad[k * |tab|..k * |tab| + |tab|] == tab
      {
        if k < depth - 1 {
          assert pad[k * |tab|..k * |tab| + |tab|] == before[k * |tab|..k * |tab| + |tab|];
        }
      }
    }
  }

  /** With the default tab a member stands two spaces further in than the brace that closes its
      object. */
  lemma {:induction false} Indentation(depth: nat)
    requires depth >= 1
    ensures Pad(depth, "  ") == Spaces(2 * depth) && Erase2(Pad(depth, "  ")) == Spaces(2 * depth - 2)
  {
    if depth > 1 {
      Indentation(depth - 1);
      assert Spaces(2 * depth) == Spaces(2 * depth - 2) + "  ";
    } else {
      assert Pad(1, "  ") == Pad(0, "  ") + "  " == "  ";
    }
  }

  function MemberLine(m: Member, depth: nat): string {
    Spaces(2 * depth) + "\"" + m.key + "\" : " + Dump(m.value, depth + 1, "  ")
  }

  lemma {:induction false} MembersAreLines(members: seq<Member>, depth: nat)
    requires depth >= 1
    ensures
      DumpMembers(members, depth, "  ")
      == Joined(seq(|members|, i requires 0 <= i < |members| => MemberLine(members[i], depth)), ",\n")
    decreases |members|
  {
    hide Dump, Pad, Spaces;
    Indentation(depth);
    if members != [] {
      var rest := members[1..];
      MembersAreLines(rest, depth);
      var lines := seq(|members|, i requires 0 <= i < |members| => MemberLine(members[i], depth));
      assert lines[1..] == seq(|rest|, i requires 0 <= i < |rest| => MemberLine(rest[i], depth));
      assert DumpMember(members[0], depth, "  ") == lines[0];
      if rest != [] {
        assert MoreMembers(rest, depth, "  ") == ",\n" + DumpMembers(rest, depth, "  ");
      } else {
        assert lines[0] + "" == lines[0];
      }
    }
  }

  /** An object: braces, a member on each line behind its indentation, commas at the line ends. */
  lemma ObjectLayout(members: seq<Member>, depth: nat)
    requires depth >= 1
    ensures
      var lines := seq(|members|, i requires 0 <= i < |members| => MemberLine(members[i], depth));
      Dump(Object(members), depth, "  ")
      == "{\n" + Joined(lines, ",\n") + ("\n" + Spaces(2 * depth - 2) + "}")
  {
    hide Pad, Spaces, Joined, DumpMembers;
    Indentation(depth);
    MembersAreLines(members, depth);
  }

  /** An array: brackets, the elements on one line, a comma and a space between them. */
  lemma {:induction false} ArrayLayout(items: seq<Json>, depth: int, tab: string)
    ensures
      var parts := seq(|items|, i requires 0 <= i < |items| => Dump(items[i], depth + 1, tab));
      Dump(Array(items), depth, tab) == "[" + Joined(parts, ", ") + "]"
  {
    ItemsAreParts(items, depth, tab);
    hide Joined, DumpItems;
  }

  lemma {:induction false} ItemsAreParts(items: seq<Json>, depth: int, tab: string)
    ensures
      DumpItems(items, depth, tab)
      == Joined(seq(|items|, i requires 0 <= i < |items| => Dump(items[i], depth + 1, tab)), ", ")
    decreases |items|
  {
    hide Dump;
    if items != [] {
      var rest := items[1..];
      ItemsAreParts(rest, depth, tab);
      var parts := seq(|items|, i requires 0 <= i < |items| => Dump(items[i], depth + 1, tab));
      assert parts[1..] == seq(|rest|, i requires 0 <= i < |rest| => Dump(rest[i], depth + 1, tab));
      if rest != [] {
        assert MoreItems(rest, depth, tab) == ", " + DumpItems(rest, depth, tab);
      } else {
        assert parts[0] + "" == parts[0];
      }
    }
  }

  lemma ScalarsPrinted(depth: int, tab: string, n: int)
    ensures Dump(Null, depth, tab) == "null"
    ensures Dump(Boolean(true), depth, tab) == "true" && Dump(Boolean(false), depth, tab) == "false"
    ensures Dump(Integral(n), depth, tab) == if n < 0 then "-" + Decimal(-n) else Decimal(n)
  {
  }

  // ----- The loops.

  method PadLoop(depth: int, tab: string) returns (pad: string)
    ensures pad == Pad(depth, tab)
  {
    pad := "";
    var i := 0;
    while i < depth
      invariant 0 <= i && (if depth <= 0 then i == 0 else i <= depth) && pad == Pad(i, tab)
    {
      i := i + 1;
      pad := pad + tab;
    }
  }

  lemma {:induction false} MoreItemsSnoc(items: seq<Json>, last: Json, depth: int, tab: string)
    ensures MoreItems(items + [last], depth, tab) == MoreItems(items, depth, tab) + (", " + Dump(last, depth + 1, tab))
    decreases |items|
  {
    hide Dump;
    if items == [] {
      assert (items + [last])[1..] == [];
    } else {
      assert (items + [last])[1..] == items[1..] + [last];
      MoreItemsSnoc(items[1..], last, depth, tab);
    }
  }

  lemma {:induction false} MoreMembersSnoc(members: seq<Member>, last: Member, depth: int, tab: string)
    ensures MoreMembers(members + [last], depth, tab)
         == MoreMembers(members, depth, tab) + (",\n" + DumpMember(last, depth, tab))
    decreases |members|
  {
    hide DumpMember;
    if members == [] {
      assert (members + [last])[1..] == [];
    } else {
      assert (members + [last])[1..] == members[1..] + [last];
      MoreMembersSnoc(members[1..], last, depth, tab);
    }
  }

  /** The items before the i-th, as the loop has written them. */
  lemma DumpItemsStep(items: seq<Json>, i: nat, depth: int, tab: string)
    requires i < |items|
    ensures DumpItems(items[..i + 1], depth, tab)
         == DumpItems(items[..i], depth, tab) + ((if i == 0 then "" else ", ") + Dump(items[i], depth + 1, tab))
  {
    hide Dump;
    if i == 0 {
      assert items[..1][1..] == [];
    } else {
      assert items[..i + 1][1..] == items[..i][1..] + [items[i]];
      MoreItemsSnoc(items[..i][1..], items[i], depth, tab);
    }
  }

  lemma DumpMembersStep(members: seq<Member>, i: nat, depth: int, tab: string)
    requires i < |members|
    ensures DumpMembers(members[..i + 1], depth, tab)
         == DumpMembers(members[..i], depth, tab) + ((if i == 0 then "" else ",\n") + DumpMember(members[i], depth, tab))
  {
    hide DumpMember;
    if i == 0 {
      assert members[..1][1..] == [];
    } else {
      assert members[..i + 1][1..] == members[..i][1..] + [members[i]];
      MoreMembersSnoc(members[..i][1..], members[i], depth, tab);
    }
  }

  /** JSON::dump, with its accumulating strings and the flag that skips the first separator. */
  method DumpLoop(v: Json, depth: int, tab: string) returns (text: string)
    ensures text == Dump(v, depth, tab)
    decreases v
  {
    var pad := PadLoop(depth, tab);
    match v
    case Null => text := "null";
    case Object(members) =>
      var s := "{\n";
      var skip := true;
      for i := 0 to |members|
        invariant s == "{\n" + DumpMembers(members[..i], depth, tab) && skip == (i == 0)
      {
        if !skip {
          s := s + ",\n";
        }
        var inner := DumpLoop(members[i].value, depth + 1, tab);
        s := s + (pad + "\"" + members[i].key + "\" : " + inner);
        skip := false;
        DumpMembersStep(members, i, depth, tab);
      }
      assert members[..|members|] == members;
      s := s + ("\n" + Erase2(pad) + "}");
      text := s;
    case Array(items) =>
      var s := "[";
      var skip := true;
      for i := 0 to |items|
        invariant s == "[" + DumpItems(items[..i], depth, tab) && skip == (i == 0)
      {
        if !skip {
          s := s + ", ";
        }
        var inner := DumpLoop(items[i], depth + 1, tab);
        s := s + inner;
        skip := false;
        DumpItemsStep(items, i, depth, tab);
      }
      assert items[..|items|] == items;
      s := s + "]";
      text := s;
    case String(s) =>
      var escaped := JsonEscape(s);
      text := "\"" + escaped + "\"";
    case Integral(n) => text := LongToString(n);
    case Boolean(b) => text := if b then "true" else "false";
  }
}
