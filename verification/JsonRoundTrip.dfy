/**
 Parsing what serialize wrote: the JSON round trip of picojson/picojson.h, for values nested to any
 depth and followed by any text.
 */
module JsonRoundTrip {
  import opened Bytes
  import opened JsonNumber
  import opened JsonValue
  import opened JsonText
  import opened JsonNumeral
  import opened JsonGrammar

  // ----- integers -----

  lemma {:induction false} DigitsValueOf(n: nat)
    ensures AllDigits(Digits(n)) && DigitsValue(Digits(n)) == n
  {
    var d := Digits(n);
    if n >= 10 {
      DigitsValueOf(n / 10);
      assert d[..|d| - 1] == Digits(n / 10);
    } else {
      assert d[..|d| - 1] == [];
    }
  }

  /** A proper prefix of the digits stands for a smaller number. */
  lemma {:induction false} DigitsPrefix(n: nat, k: nat)
    requires 1 <= k <= |Digits(n)|
    ensures AllDigits(Digits(n)[..k])
    ensures if k < |Digits(n)| then DigitsValue(Digits(n)[..k]) < n else DigitsValue(Digits(n)[..k]) == n
  {
    var d := Digits(n);
    if k == |d| {
      assert d[..k] == d;
      DigitsValueOf(n);
    } else {
      assert d[..|d| - 1] == Digits(n / 10);
      assert d[..k] == Digits(n / 10)[..k];
      DigitsPrefix(n / 10, k);
    }
  }

  lemma {:induction false} LeadingDigit(n: nat)
    ensures IsDigit(Digits(n)[0])
  {
    if n >= 10 {
      LeadingDigit(n / 10);
      assert Digits(n)[0] == Digits(n / 10)[0];
    }
  }

  /** The number that comes back: what is read from the text that fits the buffer. */
  function StoredNumber(n: int): (r: Value) {
    NumberTextReads(n);
    IntegerToken(NumberText(n))
  }

  lemma NumberTextReads(n: int)
    ensures IsInteger(NumberText(n))
    ensures IsDigit(NumberText(n)[0]) || NumberText(n)[0] == MINUS
    ensures IntegerValue(NumberText(n)) == n <==> |IntegerText(n)| <= MAX_NUMBER_TEXT
    ensures NumberText(n)[0] == MINUS <==> n < 0
  {
    hide Digits, AllDigits, DigitsValue;
    var t := NumberText(n);
    if n < 0 {
      assert t[0] == MINUS;
      LeadingDigit(-n);
      var k := |t| - 1;
      assert t[1..] == Digits(-n)[..k];
      assert |Digits(-n)| >= 1;
      DigitsPrefix(-n, k);
    } else {
      LeadingDigit(n);
      assert t == Digits(n)[..|t|];
      DigitsPrefix(n, |t|);
    }
  }

  /** The text of an integer: its decimal digits without a leading zero, and a minus in front of a negative one. Of
      more than 255 characters the first 255 are left. */
  lemma IntegerTextMeans(n: int)
    ensures var t := IntegerText(n);
            var d := if n < 0 then t[1..] else t;
            && (n < 0 ==> t[0] == 45) && Decimal(d) && DecimalValue(d) == (if n < 0 then -n else n)
            && d != [] && (d[0] == 48 ==> n == 0)
            && NumberText(n) == if |t| <= 255 then t else t[..255]
  {
    var m := if n < 0 then -n else n;
    DigitsValueOf(m);
    AllDigitsIs(Digits(m));
    DigitsValueIs(Digits(m));
    NoLeadingZero(m);
  }

  lemma {:induction false} NoLeadingZero(n: nat)
    ensures Digits(n)[0] == 48 ==> n == 0
  {
    if n >= 10 {
      NoLeadingZero(n / 10);
      assert Digits(n)[0] == Digits(n / 10)[0];
    }
  }

  /** An integer that a double holds survives exactly when its text fits the buffer. */
  lemma StoredNumberExact(n: int)
    requires IsDouble(n)
    ensures StoredNumber(n) == Number(n) <==> |IntegerText(n)| <= 255
  {
    hide IsDouble, NumberText, IntegerText, IntegerValue, IsInteger;
    NumberTextReads(n);
  }

  lemma {:induction false} DigitCount(n: nat, k: nat)
    requires n >= Pow10(k)
    ensures |Digits(n)| > k
  {
    if k > 0 {
      assert n >= 10 * Pow10(k - 1);
      DigitCount(n / 10, k - 1);
    }
  }

  lemma TenBits(j: nat)
    ensures Pow2(j + 10) == 1024 * Pow2(j)
  {
    assert Pow2(j + 2) == 4 * Pow2(j);
    assert Pow2(j + 4) == 4 * Pow2(j + 2);
    assert Pow2(j + 6) == 4 * Pow2(j + 4);
    assert Pow2(j + 8) == 4 * Pow2(j + 6);
    assert Pow2(j + 10) == 4 * Pow2(j + 8);
  }

  lemma {:induction false} ThousandsInBits(k: nat)
    ensures Pow2(10 * k) >= Pow10(3 * k)
  {
    if k > 0 {
      ThousandsInBits(k - 1);
      TenBits(10 * k - 10);
      assert Pow10(3 * k) == 10 * Pow10(3 * k - 1) == 100 * Pow10(3 * k - 2) == 1000 * Pow10(3 * k - 3);
    }
  }

  /** There are doubles that do not survive: 2 to the 860th, to the 870th and so on. */
  lemma LongNumberIsCut(k: nat)
    requires 86 <= k <= 97
    ensures var n := Pow2(10 * k); IsDouble(n) && |IntegerText(n)| > 255 && StoredNumber(n) != Number(n)
  {
    var n := Pow2(10 * k);
    assert IsScaled(n, 1, 10 * k);
    ScaledFits(n, 1, 10 * k, MAX_SHIFT);
    ThousandsInBits(k);
    DigitCount(n, 3 * k);
    hide Pow2, Fits, StoredNumber, Digits;
    StoredNumberExact(n);
  }

  // ----- strings -----

  /** The escape that serialize_str writes for a byte. */
  function PieceOfByte(c: byte): (r: Piece) {
    if c == QUOTE || c == BACKSLASH || c == '/' as int then Short(c)
    else if c == 8 then Short('b' as int)
    else if c == 12 then Short('f' as int)
    else if c == 10 then Short('n' as int)
    else if c == 13 then Short('r' as int)
    else if c == 9 then Short('t' as int)
    else if c < 32 || c == 127 then Basic([ZERO, ZERO, LowerHex(c / 16), LowerHex(c % 16)])
    else Raw(c)
  }

  /** The escapes written, byte by byte: those of two characters, the "u" escapes with two zeros and two lower-case
      digits for the other control characters and 127, and every other byte as it is. */
  lemma EscapesWritten(c: byte)
    ensures c == 34 || c == 47 || c == 92 ==> EscapeByte(c) == [92, c]
    ensures EscapeByte(8) == [92, 98] && EscapeByte(9) == [92, 116] && EscapeByte(10) == [92, 110]
    ensures EscapeByte(12) == [92, 102] && EscapeByte(13) == [92, 114]
    ensures (c < 32 && c !in {8, 9, 10, 12, 13}) || c == 127 ==>
              var low: byte := c % 16;
              EscapeByte(c) == [92, 117, 48, 48, 48 + c / 16, if low < 10 then 48 + low else 87 + low]
    ensures c >= 32 && c !in {34, 47, 92, 127} ==> EscapeByte(c) == [c]
  {
  }

  /** It is a proper escape of that byte. */
  lemma PieceIsEscape(c: byte)
    ensures var p := PieceOfByte(c); p.Proper() && p.Render() == EscapeByte(c) && p.Meaning() == [c]
  {
    if PieceOfByte(c).Basic? {
      var d := PieceOfByte(c).digits;
      assert HexDigit(d[2]) == c / 16 && HexDigit(d[3]) == c % 16;
      assert Code(d) == c as nat;
    }
  }

  function PiecesOfString(t: bytes): (r: seq<Piece>) {
    if t == [] then [] else [PieceOfByte(t[0])] + PiecesOfString(t[1..])
  }

  lemma {:induction false} StringPieces(t: bytes)
    ensures var r := PiecesOfString(t);
            AllProper(r) && [34] + PiecesText(r) == StringText(t) && PiecesMeaning(r) == t
    decreases |t|
  {
    hide Piece.Proper, Piece.Render, Piece.Meaning, EscapeByte, PieceOfByte;
    if t != [] {
      PieceIsEscape(t[0]);
      StringPieces(t[1..]);
      var r := PiecesOfString(t);
      assert r[1..] == PiecesOfString(t[1..]);
      var e, rest := EscapeByte(t[0]), EscapedBody(t[1..]);
      assert StringText(t[1..])[1..] == rest + [34];
      assert ([34] + PiecesText(r[1..]))[1..] == PiecesText(r[1..]);
      assert e + rest + [34] == e + (rest + [34]);
      assert t == [t[0]] + t[1..];
    }
  }

  /** A quoted string, read from its opening quote. */
  lemma ReadStringText(s: bytes, p: nat, t: bytes)
    requires At(s, p, StringText(t))
    ensures s[p] == QUOTE && ReadString(s, p + 1) == Some((t, p + |StringText(t)|))
  {
    hide ReadString, PiecesText, PiecesMeaning, StringText;
    StringPieces(t);
    AtByte(s, p, 34, PiecesText(PiecesOfString(t)));
    ReadPieces(s, p + 1, PiecesOfString(t));
  }

  // ----- values -----

  /** The value that comes back: every number is replaced by what its buffer kept. */
  function Stored(v: Value): (r: Value)
    decreases v
  {
    match v
    case Number(n) => StoredNumber(n)
    case Array(items) => Array(StoredItems(items))
    case Object(members) => Object(StoredMembers(members))
    case _ => v
  }

  function StoredItems(items: seq<Value>): (r: seq<Value>)
    ensures |r| == |items|
    decreases items
  {
    if items == [] then [] else [Stored(items[0])] + StoredItems(items[1..])
  }

  function StoredMembers(members: seq<Member>): (r: seq<Member>)
    ensures |r| == |members|
    decreases members
  {
    if members == [] then [] else [Member(members[0].key, Stored(members[0].value))] + StoredMembers(members[1..])
  }

  /** The text of every number, at any depth, fits the buffer. */
  predicate NumbersFit(v: Value)
    decreases v
  {
    match v
    case Number(n) => |IntegerText(n)| <= 255
    case Array(items) => ItemsFit(items)
    case Object(members) => MembersFit(members)
    case _ => true
  }

  predicate ItemsFit(items: seq<Value>)
    decreases items
  {
    items == [] || (NumbersFit(items[0]) && ItemsFit(items[1..]))
  }

  predicate MembersFit(members: seq<Member>)
    decreases members
  {
    members == [] || (NumbersFit(members[0].value) && MembersFit(members[1..]))
  }

  /** A value is stored unchanged exactly when all its numbers fit. */
  lemma {:induction false} StoredExact(v: Value)
    requires Integral(v)
    ensures Stored(v) == v <==> NumbersFit(v)
    decreases v
  {
    match v
    case Number(n) => StoredNumberExact(n);
    case Array(items) => StoredItemsExact(items);
    case Object(members) => StoredMembersExact(members);
    case _ =>
  }

  lemma {:induction false} StoredItemsExact(items: seq<Value>)
    requires AllIntegral(items)
    ensures StoredItems(items) == items <==> ItemsFit(items)
    decreases items
  {
    if items != [] {
      StoredExact(items[0]);
      StoredItemsExact(items[1..]);
      var r := StoredItems(items);
      assert r[0] == Stored(items[0]) && r[1..] == StoredItems(items[1..]);
      assert items == [items[0]] + items[1..];
      assert r == items <==> r[0] == items[0] && r[1..] == items[1..];
    }
  }

  lemma {:induction false} StoredMembersExact(members: seq<Member>)
    requires MembersIntegral(members)
    ensures StoredMembers(members) == members <==> MembersFit(members)
    decreases members
  {
    if members != [] {
      StoredExact(members[0].value);
      StoredMembersExact(members[1..]);
      var r := StoredMembers(members);
      assert r[0] == Member(members[0].key, Stored(members[0].value)) && r[1..] == StoredMembers(members[1..]);
      assert members == [members[0]] + members[1..];
      assert r == members <==> r[0] == members[0] && r[1..] == members[1..];
    }
  }

  /** A number must not be followed by a byte that would be read as part of it. */
  predicate EndsCleanly(v: Value, s: bytes, q: nat) {
    v.Number? ==> q >= |s| || !IsNumberByte(s[q])
  }

  // ----- the text of a value as a tree -----

  /** The tree of the text that serialize writes: no white space anywhere. */
  function TreeOfValue(v: Value): (t: Tree)
    requires Integral(v)
    decreases v
  {
    match v
    case Null => NullTree([])
    case Boolean(b) => if b then TrueTree([]) else FalseTree([])
    case Number(n) => NumberTree([], Token(n < 0, NumberText(n)[if n < 0 then 1 else 0..], None, None))
    case String(s) => StringTree([], PiecesOfString(s))
    case Array(items) => ArrayTree([], ItemTrees(items), [])
    case Object(members) => ObjectTree([], EntryTrees(members), [])
  }

  function ItemTrees(items: seq<Value>): (r: seq<Item>)
    requires AllIntegral(items)
    ensures |r| == |items|
    decreases items
  {
    if items == [] then [] else [Item(TreeOfValue(items[0]), [])] + ItemTrees(items[1..])
  }

  function EntryTrees(members: seq<Member>): (r: seq<Entry>)
    requires MembersIntegral(members)
    ensures |r| == |members|
    decreases members
  {
    if members == [] then []
    else [Entry([], PiecesOfString(members[0].key), [], TreeOfValue(members[0].value), [])] + EntryTrees(members[1..])
  }

  lemma NumberToken(n: int)
    requires IsDouble(n)
    ensures var t := Token(n < 0, NumberText(n)[if n < 0 then 1 else 0..], None, None);
            t.Proper() && t.Render() == NumberText(n) && t.Meaning() == StoredNumber(n)
  {
    hide IsDouble, NumberText, IntegerValue, IsNumeral;
    NumberTextReads(n);
    var text := NumberText(n);
    var t := Token(n < 0, text[if n < 0 then 1 else 0..], None, None);
    AllDigitsIs(t.whole);
    assert n >= 0 ==> t.whole == text;
    assert t.Render() == t.Sign() + t.whole == text;
    ReadToken(t);
    hide Token.Proper, Token.Render, Token.Meaning;
  }

  /** The text of a value is that of its tree, which stands for the stored value. */
  lemma {:induction false} TreeIsText(v: Value)
    requires Integral(v) && Ordered(v)
    ensures var t := TreeOfValue(v); Proper(t) && Render(t) == Text(v) && Denotes(t) == Stored(v)
    decreases v, 0
  {
    hide IsDouble, StringText, PiecesText, AllProper, PiecesMeaning, NumberText, ItemsRender, EntriesRender, ItemsText,
         MembersText, ItemsDenote, EntriesDenote, ItemTrees, EntryTrees, StoredItems, StoredMembers, ItemsProper,
         EntriesProper, AllIntegral, MembersIntegral, AllOrdered, MembersOrdered, Sorted, Token.Proper, Token.Render,
         Token.Meaning, StoredNumber;
    match v
    case Null =>
    case Boolean(_) =>
    case Number(n) => NumberToken(n);
    case String(t) => StringPieces(t);
    case Array(items) =>
      ItemsAreText(items);
      EmptyText();
    case Object(members) =>
      EmptyText();
      assert members != [] ==> AllBelow([], members[0].key);
      EntriesAreText(members, []);
      assert [] + StoredMembers(members) == StoredMembers(members);
  }

  lemma EmptyText()
    ensures ItemsText([]) == [] + [93] && MembersText([]) == [] + [125] && Spaces([])
  {
  }

  lemma {:induction false} ItemsAreText(items: seq<Value>)
    requires AllIntegral(items) && AllOrdered(items)
    ensures var r := ItemTrees(items);
            ItemsProper(r) && ItemsDenote(r) == StoredItems(items) &&
            (items != [] ==> ItemsRender(r) == ItemsText(items))
    decreases items, 1
  {
    hide Integral, Ordered, Render, Proper, Denotes, Stored, TreeOfValue, Text, ItemsRender, ItemsText;
    if items != [] {
      TreeIsText(items[0]);
      ItemsAreText(items[1..]);
      var r := ItemTrees(items);
      assert r[0] == Item(TreeOfValue(items[0]), []) && r[1..] == ItemTrees(items[1..]);
      NoSpaces();
      hide ItemTrees, ItemsDenote, ItemsProper, AllIntegral, AllOrdered;
      ItemsBack(r, r[0].tree, [], r[1..]);
      ItemsParts(r);
      ItemsTextFirst(items);
    }
  }

  /** The text of the elements, with the nothing between an element and what follows it. */
  lemma ItemsTextFirst(items: seq<Value>)
    requires items != [] && AllIntegral(items)
    ensures Integral(items[0]) && AllIntegral(items[1..])
    ensures ItemsText(items) ==
            Text(items[0]) + ([] + (if |items| == 1 then [93] + [] else [44] + ItemsText(items[1..])))
  {
    hide Text, Integral;
  }

  /** The entries are stored behind those already there, because their keys come in order. */
  lemma {:induction false} EntriesAreText(members: seq<Member>, o: seq<Member>)
    requires MembersIntegral(members) && MembersOrdered(members) && Sorted(members)
    requires members != [] ==> AllBelow(o, members[0].key)
    ensures var r := EntryTrees(members);
            EntriesProper(r) && EntriesDenote(r, o) == o + StoredMembers(members) &&
            (members != [] ==> EntriesRender(r) == MembersText(members))
    decreases members, 1
  {
    hide Integral, Ordered, EntryRender, EntryProper, EntryDenotes, Stored, TreeOfValue, MemberText, EntriesRender, Put,
         Less;
    if members != [] {
      var m := members[0];
      var m' := Member(m.key, Stored(m.value));
      EntryIsText(m);
      var r := EntryTrees(members);
      assert r[0] == Entry([], PiecesOfString(m.key), [], TreeOfValue(m.value), []);
      assert r[1..] == EntryTrees(members[1..]);
      PutAppends(o, m'.key, m'.value);
      if |members| > 1 {
        assert members[1..][0] == members[1];
        BelowAppend(o, m', members[1].key);
      }
      EntriesAreText(members[1..], o + [m']);
      assert EntriesProper(r);
      hide EntryTrees, EntriesDenote, EntriesProper, Sorted, AllBelow, AllAbove, MembersIntegral, MembersOrdered;
      EntriesParts(r, o);
      StoredAppend(o, members);
      var text := MemberText(m);
      if |members| == 1 {
        assert text + ([] + ([125] + [])) == text + [125];
      } else {
        var rest := MembersText(members[1..]);
        assert text + ([] + ([44] + rest)) == text + ([44] + rest);
      }
    }
  }

  lemma StoredFirst(members: seq<Member>)
    requires members != []
    ensures StoredMembers(members) == [Member(members[0].key, Stored(members[0].value))] + StoredMembers(members[1..])
    ensures |members| == 1 ==> StoredMembers(members[1..]) == []
  {
    hide Stored;
  }

  lemma StoredAppend(o: seq<Member>, members: seq<Member>)
    requires members != []
    ensures var m' := Member(members[0].key, Stored(members[0].value));
            o + StoredMembers(members) == o + [m'] + StoredMembers(members[1..])
    ensures |members| == 1 ==> StoredMembers(members[1..]) == []
  {
    hide Stored, StoredMembers;
    StoredFirst(members);
    Regroup(o, [Member(members[0].key, Stored(members[0].value))], StoredMembers(members[1..]));
  }

  lemma {:induction false} EntryIsText(m: Member)
    requires Integral(m.value) && Ordered(m.value)
    ensures var e := Entry([], PiecesOfString(m.key), [], TreeOfValue(m.value), []);
            EntryProper(e) && EntryRender(e) == MemberText(m) && EntryDenotes(e) == Member(m.key, Stored(m.value))
    decreases m, 2
  {
    hide PiecesText, PiecesMeaning, AllProper, StringText, Proper, Render, Denotes, Stored, TreeOfValue, Text,
         PiecesOfString;
    TreeIsText(m.value);
    StringPieces(m.key);
    var key, text := PiecesText(PiecesOfString(m.key)), Text(m.value);
    assert [] + ([34] + (key + ([] + ([58] + text)))) == [34] + key + ([58] + text);
  }

  /**
   The round trip. Wherever the text of v stands, and whatever follows it, the parser returns the
   stored form of v and stops right behind the text.
   */
  lemma ReadText(s: bytes, p: nat, v: Value)
    requires Integral(v) && Ordered(v)
    requires At(s, p, Text(v)) && EndsCleanly(v, s, p + |Text(v)|)
    ensures ReadValue(s, p) == Some((Stored(v), p + |Text(v)|))
  {
    hide Proper, Render, Denotes, Stored, Text, ReadValue, At;
    TreeIsText(v);
    ReadTree(s, p, TreeOfValue(v));
  }

  // ----- objects that were parsed -----

  lemma {:induction false} PutOrdered(o: seq<Member>, key: bytes, v: Value)
    requires MembersOrdered(o) && Ordered(v)
    ensures MembersOrdered(Put(o, key, v))
  {
    hide Ordered, Less;
    var r := Put(o, key, v);
    if o != [] {
      PutOrdered(o[1..], key, v);
      assert r[1..] == Put(o[1..], key, v) || r[1..] == o[1..] || r[1..] == o;
    }
  }

  /** Every parsed value has its object keys in strict order: no key twice, the last one given wins. */
  lemma {:induction false} ParsedIsOrdered(s: bytes, p: nat)
    requires p <= |s| && ReadValue(s, p).Some?
    ensures Ordered(ReadValue(s, p).value.0)
    decreases |s| - p, 1
  {
    hide ReadString, Matches, IsInteger, IsNumeral, IntegerValue, NumberEnd, Expects;
    var q := SkipSpace(s, p);
    if s[q] == OPEN_ARRAY {
      if !Expects(s, q + 1, CLOSE_ARRAY) { ItemsAreOrdered(s, q + 1); }
    } else if s[q] == OPEN_OBJECT {
      if !Expects(s, q + 1, CLOSE_OBJECT) { EntriesAreOrdered(s, q + 1, []); }
    }
  }

  lemma {:induction false} ItemsAreOrdered(s: bytes, p: nat)
    requires p <= |s| && ReadItems(s, p).Some?
    ensures AllOrdered(ReadItems(s, p).value.0)
    decreases |s| - p, 2
  {
    hide ReadValue, Expects, SkipSpace, Ordered;
    ParsedIsOrdered(s, p);
    var (v, q) := ReadValue(s, p).value;
    if Expects(s, q, COMMA) {
      ItemsAreOrdered(s, SkipSpace(s, q) + 1);
      var rest := ReadItems(s, SkipSpace(s, q) + 1).value.0;
      assert ([v] + rest)[1..] == rest;
    }
  }

  lemma {:induction false} EntriesAreOrdered(s: bytes, p: nat, o: seq<Member>)
    requires p <= |s| && ReadMembers(s, p, o).Some? && Sorted(o) && MembersOrdered(o)
    ensures Sorted(ReadMembers(s, p, o).value.0) && MembersOrdered(ReadMembers(s, p, o).value.0)
    decreases |s| - p, 3
  {
    hide ReadValue, ReadString, Expects, SkipSpace, Ordered, Put, Sorted, MembersOrdered;
    var (m, q) := ReadMember(s, p).value;
    var (key, k) := ReadString(s, SkipSpace(s, p) + 1).value;
    ParsedIsOrdered(s, SkipSpace(s, k) + 1);
    PutSorted(o, m.key, m.value);
    PutOrdered(o, m.key, m.value);
    if Expects(s, q, COMMA) {
      EntriesAreOrdered(s, SkipSpace(s, q) + 1, Put(o, m.key, m.value));
    }
  }

  // ----- the main results -----

  /** A whole text: parsing gives back exactly v if and only if every number in v fits the buffer. */
  lemma RoundTrip(v: Value, rest: bytes)
    requires Integral(v) && Ordered(v)
    requires v.Number? ==> rest == [] || !IsNumberByte(rest[0])
    ensures ReadValue(Text(v) + rest, 0) == Some((Stored(v), |Text(v)|))
    ensures ReadValue(Text(v) + rest, 0) == Some((v, |Text(v)|)) <==> NumbersFit(v)
  {
    var s := Text(v) + rest;
    assert s[0..|Text(v)|] == Text(v);
    if rest != [] { assert s[|Text(v)|] == rest[0]; }
    ReadText(s, 0, v);
    StoredExact(v);
  }

  /** Different values have different texts. */
  lemma TextInjective(v: Value, w: Value)
    requires Integral(v) && Ordered(v) && NumbersFit(v)
    requires Integral(w) && Ordered(w) && NumbersFit(w)
    requires Text(v) == Text(w)
    ensures v == w
  {
    assert Text(v) + [] == Text(v) && Text(w) + [] == Text(w);
    RoundTrip(v, []);
    RoundTrip(w, []);
  }

  /** Whatever text a value was parsed from: if its numbers are integers that a double holds and fit the buffer,
      the serialized value is read back as the same value. */
  lemma ParsedComesBack(s: bytes, p: nat)
    requires p <= |s| && ReadValue(s, p).Some?
    ensures var v := ReadValue(s, p).value.0;
            Integral(v) ==> (ReadValue(Text(v), 0) == Some((v, |Text(v)|)) <==> NumbersFit(v))
  {
    hide ReadValue;
    var v := ReadValue(s, p).value.0;
    ParsedIsOrdered(s, p);
    if Integral(v) {
      RoundTrip(v, []);
      assert Text(v) + [] == Text(v);
    }
  }
}
