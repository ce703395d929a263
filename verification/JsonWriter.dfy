/**
 value::serialize and serialize_str of picojson/picojson.h, writing to an output iterator.
 */
module JsonWriter {
  import opened Bytes
  import opened JsonValue
  import opened JsonText

  class Output {
    var text: bytes

    constructor ()
      ensures text == []
    {
      text := [];
    }

    method Put(c: byte)
      modifies this
      ensures text == old(text) + [c]
    {
      text := text + [c];
    }

    method Copy(s: bytes)
      modifies this
      ensures text == old(text) + s
    {
      text := text + s;
    }
  }

  method SerializeString(s: bytes, out: Output)
    modifies out
    ensures out.text == old(out.text) + StringText(s)
  {
    hide EscapeByte;
    out.Put(QUOTE);
    ghost var start := out.text;
    for i := 0 to |s|
      invariant out.text + EscapedBody(s[i..]) == start + EscapedBody(s)
    {
      SerializeByte(s[i], out);
      BodyStep(s, i);
    }
    assert EscapedBody(s[|s|..]) == [];
    out.Put(QUOTE);
    assert out.text == old(out.text) + [QUOTE] + EscapedBody(s) + [QUOTE];
  }

  lemma BodyStep(s: bytes, i: nat)
    requires i < |s|
    ensures EscapedBody(s[i..]) == EscapeByte(s[i]) + EscapedBody(s[i + 1..])
  {
    assert s[i..][1..] == s[i + 1..];
  }

  method SerializeByte(c: byte, out: Output)
    modifies out
    ensures out.text == old(out.text) + EscapeByte(c)
  {
    if c == QUOTE {
      out.Copy([BACKSLASH, QUOTE]);
    } else if c == BACKSLASH {
      out.Copy([BACKSLASH, BACKSLASH]);
    } else if c == '/' as int {
      out.Copy([BACKSLASH, '/' as int]);
    } else if c == 8 {
      out.Copy([BACKSLASH, 'b' as int]);
    } else if c == 12 {
      out.Copy([BACKSLASH, 'f' as int]);
    } else if c == 10 {
      out.Copy([BACKSLASH, 'n' as int]);
    } else if c == 13 {
      out.Copy([BACKSLASH, 'r' as int]);
    } else if c == 9 {
      out.Copy([BACKSLASH, 't' as int]);
    } else if c < 32 || c == 127 {
      out.Copy([BACKSLASH, 'u' as int, ZERO, ZERO, LowerHex(c / 16), LowerHex(c % 16)]);
    } else {
      out.Put(c);
    }
  }

  /** value::serialize. */
  method Serialize(v: Value, out: Output)
    requires Integral(v)
    modifies out
    ensures out.text == old(out.text) + Text(v)
    decreases v, 1
  {
    hide StringText, NumberText;
    match v
    case String(s) => SerializeString(s, out);
    case Array(items) => SerializeArray(items, out);
    case Object(members) => SerializeObject(members, out);
    case Null => out.Copy(NULL_TEXT);
    case Boolean(b) => out.Copy(if b then TRUE_TEXT else FALSE_TEXT);
    case Number(n) => out.Copy(NumberText(n));
  }

  lemma {:induction false} ItemAt(items: seq<Value>, i: nat)
    requires AllIntegral(items) && i < |items|
    ensures Integral(items[i]) && AllIntegral(items[i..]) && AllIntegral(items[i + 1..])
    decreases items
  {
    hide Integral;
    if i > 0 {
      ItemAt(items[1..], i - 1);
      assert items[1..][i - 1..] == items[i..] && items[1..][i..] == items[i + 1..];
    } else {
      assert items[0..] == items;
    }
  }

  /** The text of the elements from i on, with a comma in front unless i is the first. */
  function ItemsFrom(items: seq<Value>, i: nat): bytes
    requires AllIntegral(items) && i <= |items|
  {
    if i == |items| then [CLOSE_ARRAY]
    else
      ItemAt(items, i);
      (if i > 0 then [COMMA] else []) + ItemsText(items[i..])
  }

  lemma ItemsFromStep(items: seq<Value>, i: nat)
    requires AllIntegral(items) && i < |items|
    ensures Integral(items[i])
    ensures ItemsFrom(items, i) == (if i > 0 then [COMMA] else []) + (Text(items[i]) + ItemsFrom(items, i + 1))
  {
    ItemAt(items, i);
    var rest := items[i..];
    assert rest[1..] == items[i + 1..] && rest[0] == items[i];
    hide Text, Integral;
    if i + 1 < |items| { ItemAt(items, i + 1); }
  }

  method SerializeArray(items: seq<Value>, out: Output)
    requires AllIntegral(items)
    modifies out
    ensures out.text == old(out.text) + ([OPEN_ARRAY] + ItemsText(items))
    decreases items, 0
  {
    hide Text, ItemsText, Integral, AllIntegral, ItemsFrom;
    out.Put(OPEN_ARRAY);
    ghost var start := out.text;
    ItemsFromStart(items);
    for i := 0 to |items|
      invariant out.text + ItemsFrom(items, i) == start + ItemsText(items)
    {
      ItemsFromStep(items, i);
      ghost var before := out.text;
      if i != 0 {
        out.Put(COMMA);
      }
      Serialize(items[i], out);
      assert out.text + ItemsFrom(items, i + 1) == before + ItemsFrom(items, i);
    }
    ItemsFromEnd(items);
    out.Put(CLOSE_ARRAY);
  }

  lemma ItemsFromStart(items: seq<Value>)
    requires AllIntegral(items)
    ensures ItemsFrom(items, 0) == ItemsText(items)
  {
    assert items[0..] == items;
  }

  lemma ItemsFromEnd(items: seq<Value>)
    requires AllIntegral(items)
    ensures ItemsFrom(items, |items|) == [CLOSE_ARRAY]
  {
  }

  lemma {:induction false} EntryAt(members: seq<Member>, i: nat)
    requires MembersIntegral(members) && i < |members|
    ensures Integral(members[i].value) && MembersIntegral(members[i..]) && MembersIntegral(members[i + 1..])
    decreases members
  {
    hide Integral;
    if i > 0 {
      EntryAt(members[1..], i - 1);
      assert members[1..][i - 1..] == members[i..] && members[1..][i..] == members[i + 1..];
    } else {
      assert members[0..] == members;
    }
  }

  function EntriesFrom(members: seq<Member>, i: nat): bytes
    requires MembersIntegral(members) && i <= |members|
  {
    if i == |members| then [CLOSE_OBJECT]
    else
      EntryAt(members, i);
      (if i > 0 then [COMMA] else []) + MembersText(members[i..])
  }

  lemma EntriesFromStep(members: seq<Member>, i: nat)
    requires MembersIntegral(members) && i < |members|
    ensures Integral(members[i].value)
    ensures EntriesFrom(members, i) == (if i > 0 then [COMMA] else []) +
            (MemberText(members[i]) + EntriesFrom(members, i + 1))
  {
    EntryAt(members, i);
    var rest := members[i..];
    assert rest[1..] == members[i + 1..] && rest[0] == members[i];
    hide MemberText, Integral;
    if i + 1 < |members| { EntryAt(members, i + 1); }
  }

  method SerializeObject(members: seq<Member>, out: Output)
    requires MembersIntegral(members)
    modifies out
    ensures out.text == old(out.text) + ([OPEN_OBJECT] + MembersText(members))
    decreases members, 0
  {
    hide Text, MembersText, MemberText, Integral, MembersIntegral, EntriesFrom;
    out.Put(OPEN_OBJECT);
    ghost var start := out.text;
    EntriesFromEnds(members);
    for i := 0 to |members|
      invariant out.text + EntriesFrom(members, i) == start + MembersText(members)
    {
      EntriesFromStep(members, i);
      ghost var before := out.text;
      if i != 0 {
        out.Put(COMMA);
      }
      SerializeMember(members[i], out);
      assert out.text + EntriesFrom(members, i + 1) == before + EntriesFrom(members, i);
    }
    out.Put(CLOSE_OBJECT);
  }

  lemma EntriesFromEnds(members: seq<Member>)
    requires MembersIntegral(members)
    ensures EntriesFrom(members, 0) == MembersText(members) && EntriesFrom(members, |members|) == [CLOSE_OBJECT]
  {
    hide MemberText;
    assert members[0..] == members;
  }

  method SerializeMember(m: Member, out: Output)
    requires Integral(m.value)
    modifies out
    ensures out.text == old(out.text) + MemberText(m)
    decreases m, 2
  {
    hide Text, StringText, Integral;
    SerializeString(m.key, out);
    out.Put(COLON);
    Serialize(m.value, out);
  }
}
