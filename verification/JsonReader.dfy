/**
 The parser of picojson/picojson.h: an input with one character of pushback, and the recursive
 descent over it. Every method is proved to read exactly what the functions of JsonText say.
 */
module JsonReader {
  import opened Bytes
  import opened JsonValue
  import opened JsonText

  /** The number of line feeds in t. */
  function Newlines(t: bytes): nat {
    if t == [] then 0 else Newlines(t[..|t| - 1]) + if t[|t| - 1] == 10 then 1 else 0
  }

  lemma NewlinesLast(t: bytes, c: byte)
    ensures Newlines([]) == 0 && Newlines(t + [c]) == if c == 10 then Newlines(t) + 1 else Newlines(t)
  {
    assert (t + [c])[..|t|] == t;
  }

  class Input {
    const data: bytes
    var cur: nat
    var lastCh: int
    var ungot: bool
    var line: nat

    /** The pushed-back character, if any, is the last one read, and the line number counts the line
        feeds before that character. */
    ghost predicate Valid()
      reads this
    {
      && cur <= |data|
      && (lastCh != -1 ==> cur > 0 && lastCh == data[cur - 1])
      && (lastCh == -1 ==> cur == 0 || cur == |data|)
      && (ungot ==> lastCh != -1)
      && line == 1 + if cur == 0 then 0 else Newlines(data[..cur - 1])
    }

    /** The position of the next character to be read. */
    ghost function Pos(): (p: nat)
      requires Valid()
      reads this
      ensures p <= |data|
    {
      if ungot then cur - 1 else cur
    }

    constructor (text: bytes)
      ensures Valid() && data == text && Pos() == 0
    {
      data := text;
      cur, lastCh, ungot, line := 0, -1, false, 1;
    }

    method Getc() returns (ch: int)
      requires Valid()
      modifies this
      ensures Valid() && !ungot && lastCh == ch
      ensures ch == if old(Pos()) < |data| then data[old(Pos())] else -1
      ensures Pos() == if old(Pos()) < |data| then old(Pos()) + 1 else old(Pos())
    {
      if ungot {
        ungot := false;
        return lastCh;
      }
      if cur == |data| {
        lastCh := -1;
        return -1;
      }
      if cur > 0 { assert data[..cur][..cur - 1] == data[..cur - 1]; }
      if lastCh == 10 {
        line := line + 1;
      }
      lastCh := data[cur];
      cur := cur + 1;
      return lastCh;
    }

    /** The precondition is the assertion of the source: no character is pushed back already. */
    method Ungetc()
      requires Valid() && !ungot
      modifies this
      ensures Valid() && cur == old(cur) && lastCh == old(lastCh) && line == old(line)
      ensures Pos() == if lastCh == -1 then old(Pos()) else old(Pos()) - 1
    {
      if lastCh != -1 {
        ungot := true;
      }
    }

    method SkipWs()
      requires Valid()
      modifies this
      ensures Valid() && Pos() == SkipSpace(data, old(Pos()))
    {
      while true
        invariant Valid() && SkipSpace(data, Pos()) == SkipSpace(data, old(Pos()))
        decreases |data| - Pos()
      {
        var ch := Getc();
        if !(ch == 32 || ch == 9 || ch == 10 || ch == 13) {
          Ungetc();
          break;
        }
      }
    }

    method Expect(expected: byte) returns (ok: bool)
      requires Valid()
      modifies this
      ensures Valid()
      ensures ok == Expects(data, old(Pos()), expected)
      ensures Pos() == SkipSpace(data, old(Pos())) + if ok then 1 else 0
    {
      SkipWs();
      var ch := Getc();
      if ch != expected {
        Ungetc();
        return false;
      }
      return true;
    }

    method Match(pattern: bytes) returns (ok: bool)
      requires Valid()
      modifies this
      ensures Valid()
      ensures ok == Matches(data, old(Pos()), pattern)
      ensures ok ==> Pos() == old(Pos()) + |pattern|
    {
      ghost var p := Pos();
      MatchesPointwise(data, p, pattern);
      hide Matches, Newlines;
      for i := 0 to |pattern|
        invariant Valid() && Pos() == p + i
        invariant forall j :: 0 <= j < i ==> data[p + j] == pattern[j]
      {
        var ch := Getc();
        if ch != pattern[i] {
          Ungetc();
          return false;
        }
      }
      return true;
    }
  }

  lemma MatchesPointwise(s: bytes, p: nat, word: bytes)
    ensures Matches(s, p, word) <==> p + |word| <= |s| && forall j :: 0 <= j < |word| ==> s[p + j] == word[j]
  {
    if p + |word| <= |s| {
      var w := s[p..p + |word|];
      assert w == word <==> forall j :: 0 <= j < |word| ==> w[j] == word[j];
    }
  }

  /** _parse_quadhex: -1 when four digits do not come next. */
  method ParseQuadHex(input: Input) returns (u: int)
    requires input.Valid()
    modifies input
    ensures input.Valid()
    ensures var r := QuadHex(input.data, old(input.Pos()));
            if r.Some? then u == r.value && input.Pos() == old(input.Pos()) + 4 else u == -1
  {
    hide HexValue, QuadHex;
    ghost var p := input.Pos();
    QuadHexIsReadHex(input.data, p);
    u := 0;
    for i := 0 to 4
      invariant input.Valid() && input.Pos() == p + i && u >= 0
      invariant ReadHex(input.data, p + i, 4 - i, u) == ReadHex(input.data, p, 4, 0)
    {
      var hex := input.Getc();
      if hex == -1 {
        return -1;
      }
      var digit := HexDigit(hex);
      if digit < 0 {
        input.Ungetc();
        return -1;
      }
      u := u * 16 + digit;
    }
  }

  method HexDigit(c: byte) returns (d: int)
    ensures if HexValue(c).Some? then d == HexValue(c).value else d == -1
  {
    if '0' as int <= c <= '9' as int {
      d := c - '0' as int;
    } else if 'A' as int <= c <= 'F' as int {
      d := c - ('A' as int - 10);
    } else if 'a' as int <= c <= 'f' as int {
      d := c - ('a' as int - 10);
    } else {
      d := -1;
    }
  }

  /** The bytes that _parse_codepoint pushes for a code point. */
  method PushUtf8(out: bytes, u: nat) returns (out': bytes)
    requires u < 0x110000
    ensures out' == out + Utf8(u)
  {
    out' := out;
    if u < 0x80 {
      out' := out' + [u];
    } else {
      if u < 0x800 {
        out' := out' + [0xC0 + u / 64];
      } else {
        if u < 0x10000 {
          out' := out' + [0xE0 + u / 4096];
        } else {
          out' := out' + [0xF0 + u / 262144];
          out' := out' + [0x80 + u / 4096 % 64];
        }
        out' := out' + [0x80 + u / 64 % 64];
      }
      out' := out' + [0x80 + u % 64];
    }
  }

  method ParseCodepoint(out: bytes, input: Input) returns (ok: bool, out': bytes)
    requires input.Valid()
    modifies input
    ensures input.Valid()
    ensures ok == ReadCodepoint(input.data, old(input.Pos())).Some?
    ensures ok ==>
              out + ReadCodepoint(input.data, old(input.Pos())).value.0 == out' &&
              input.Pos() == ReadCodepoint(input.data, old(input.Pos())).value.1
  {
    hide QuadHex, Utf8;
    out' := out;
    var u := ParseQuadHex(input);
    if u == -1 {
      return false, out';
    }
    if 0xD800 <= u <= 0xDFFF {
      if 0xDC00 <= u {
        return false, out';
      }
      var ch := input.Getc();
      var pair := false;
      if ch == BACKSLASH {
        ch := input.Getc();
        pair := ch == 'u' as int;
      }
      if !pair {
        input.Ungetc();
        return false, out';
      }
      var second := ParseQuadHex(input);
      if !(0xDC00 <= second <= 0xDFFF) {
        return false, out';
      }
      u := (u - 0xD800) * 1024 + (second - 0xDC00);
      u := u + 0x10000;
    }
    out' := PushUtf8(out', u);
    ok := true;
  }

  /** The switch after a backslash in _parse_string. */
  method ParseEscape(out: bytes, input: Input) returns (ok: bool, out': bytes)
    requires input.Valid()
    modifies input
    ensures input.Valid()
    ensures ok == ReadEscape(input.data, old(input.Pos())).Some?
    ensures ok ==>
              out + ReadEscape(input.data, old(input.Pos())).value.0 == out' &&
              input.Pos() == ReadEscape(input.data, old(input.Pos())).value.1
  {
    hide ReadCodepoint;
    out' := out;
    var ch := input.Getc();
    if ch == -1 {
      return false, out';
    }
    ok := true;
    if ch == QUOTE {
      out' := out' + [QUOTE];
    } else if ch == BACKSLASH {
      out' := out' + [BACKSLASH];
    } else if ch == '/' as int {
      out' := out' + ['/' as int];
    } else if ch == 'b' as int {
      out' := out' + [8];
    } else if ch == 'f' as int {
      out' := out' + [12];
    } else if ch == 'n' as int {
      out' := out' + [10];
    } else if ch == 'r' as int {
      out' := out' + [13];
    } else if ch == 't' as int {
      out' := out' + [9];
    } else if ch == 'u' as int {
      ok, out' := ParseCodepoint(out', input);
    } else {
      ok := false;
    }
  }

  /** A string read in two parts. */
  function Prefixed(out: bytes, r: Option<(bytes, nat)>): Option<(bytes, nat)> {
    match r
    case None => None
    case Some((rest, e)) => Some((out + rest, e))
  }

  lemma PrefixedTwice(out: bytes, c: bytes, r: Option<(bytes, nat)>)
    ensures Prefixed(out, Prefixed(c, r)) == Prefixed(out + c, r)
  {
    if r.Some? { assert out + (c + r.value.0) == out + c + r.value.0; }
  }

  lemma PrefixedNothing(r: Option<(bytes, nat)>)
    ensures Prefixed([], r) == r
  {
    if r.Some? { assert [] + r.value.0 == r.value.0; }
  }

  lemma ReadStringStep(s: bytes, p: nat, c: bytes, q: nat)
    requires p < |s| && s[p] != QUOTE && ReadChar(s, p) == Some((c, q))
    ensures ReadString(s, p) == Prefixed(c, ReadString(s, q))
  {
    hide ReadChar;
  }

  /** _parse_string: the text after the opening quote. */
  method ParseString(input: Input) returns (ok: bool, out: bytes)
    requires input.Valid()
    modifies input
    ensures input.Valid()
    ensures ok == ReadString(input.data, old(input.Pos())).Some?
    ensures ok ==> ReadString(input.data, old(input.Pos())) == Some((out, input.Pos()))
  {
    hide ReadEscape;
    ghost var s, p := input.data, input.Pos();
    out := [];
    PrefixedNothing(ReadString(s, p));
    while true
      invariant input.Valid()
      invariant Prefixed(out, ReadString(s, input.Pos())) == ReadString(s, p)
      decreases |s| - input.Pos()
    {
      ghost var at := input.Pos();
      ghost var before := out;
      var ch := input.Getc();
      if ch < 32 {
        assert ReadChar(s, at) == None;
        input.Ungetc();
        return false, out;
      } else if ch == QUOTE {
        assert out + [] == out;
        return true, out;
      } else if ch == BACKSLASH {
        ok, out := ParseEscape(out, input);
        if !ok {
          assert ReadChar(s, at) == None;
          return false, out;
        }
      } else {
        out := out + [ch];
      }
      ghost var c := ReadChar(s, at).value.0;
      assert out == before + c;
      ReadStringStep(s, at, c, input.Pos());
      PrefixedTwice(before, c, ReadString(s, input.Pos()));
    }
  }

  /** _parse_number. */
  method ParseNumber(input: Input) returns (ok: bool, v: Value)
    requires input.Valid()
    modifies input
    ensures input.Valid()
    ensures var p := old(input.Pos());
            var e := NumberEnd(input.data, p);
            input.Pos() == e && (ok == ReadNumeral(input.data[p..e]).Some?) &&
            (ok ==> ReadNumeral(input.data[p..e]) == Some(v))
  {
    hide ReadNumeral;
    ghost var s, p := input.data, input.Pos();
    var num: bytes := [];
    while true
      invariant input.Valid() && p <= input.Pos() && num == s[p..input.Pos()]
      invariant NumberEnd(s, input.Pos()) == NumberEnd(s, p)
      decreases |s| - input.Pos()
    {
      var ch := input.Getc();
      if (ZERO <= ch <= ZERO + 9) || ch == '+' as int || ch == MINUS || ch == '.' as int || ch == 'e' as int ||
         ch == 'E' as int {
        num := num + [ch];
      } else {
        input.Ungetc();
        break;
      }
    }
    var r := ReadNumeral(num);
    match r {
      case None => return false, Null;
      case Some(n) => return true, n;
    }
  }

  /** _parse. */
  method ParseValue(input: Input) returns (ok: bool, v: Value)
    requires input.Valid()
    modifies input
    ensures input.Valid()
    ensures ok == ReadValue(input.data, old(input.Pos())).Some?
    ensures ok ==> ReadValue(input.data, old(input.Pos())) == Some((v, input.Pos()))
    decreases |input.data| - input.Pos(), 1
  {
    hide ReadString, ReadNumeral, NumberEnd, SkipSpace, Matches, ReadArray, ReadObject, Input.Valid, Input.Pos,
         Newlines;
    v := Null;
    input.SkipWs();
    var ch := input.Getc();
    if ch == 'n' as int {
      ok := input.Match(NULL_TEXT[1..]);
      return ok, Null;
    } else if ch == 'f' as int {
      ok := input.Match(FALSE_TEXT[1..]);
      return ok, Boolean(false);
    } else if ch == 't' as int {
      ok := input.Match(TRUE_TEXT[1..]);
      return ok, Boolean(true);
    } else if ch == QUOTE {
      var text;
      ok, text := ParseString(input);
      return ok, String(text);
    } else if ch == OPEN_ARRAY {
      ok, v := ParseArray(input);
      return;
    } else if ch == OPEN_OBJECT {
      ok, v := ParseObject(input);
      return;
    } else if (ZERO <= ch <= ZERO + 9) || ch == MINUS {
      input.Ungetc();
      ok, v := ParseNumber(input);
      return;
    }
    input.Ungetc();
    ok := false;
  }

  // White space in front of a construct may be skipped beforehand.

  lemma {:induction false} SkipSpaceTwice(s: bytes, p: nat)
    requires p <= |s|
    ensures SkipSpace(s, SkipSpace(s, p)) == SkipSpace(s, p)
    decreases |s| - p
  {
    if p < |s| && IsSpace(s[p]) { SkipSpaceTwice(s, p + 1); }
  }

  lemma ExpectsAfterSpace(s: bytes, p: nat, c: byte)
    requires p <= |s|
    ensures Expects(s, SkipSpace(s, p), c) == Expects(s, p, c)
    ensures SkipSpace(s, SkipSpace(s, p)) == SkipSpace(s, p)
  {
    SkipSpaceTwice(s, p);
  }

  lemma ValueAfterSpace(s: bytes, p: nat)
    requires p <= |s|
    ensures ReadValue(s, SkipSpace(s, p)) == ReadValue(s, p)
  {
    SkipSpaceTwice(s, p);
    hide SkipSpace, ReadString, ReadNumeral, NumberEnd, Matches, ReadArray, ReadObject;
  }

  lemma ItemsAfterSpace(s: bytes, p: nat)
    requires p <= |s|
    ensures ReadItems(s, SkipSpace(s, p)) == ReadItems(s, p)
  {
    hide SkipSpace, Expects, ReadValue;
    ValueAfterSpace(s, p);
  }

  lemma MembersAfterSpace(s: bytes, p: nat, o: seq<Member>)
    requires p <= |s|
    ensures ReadMembers(s, SkipSpace(s, p), o) == ReadMembers(s, p, o)
  {
    hide SkipSpace, Expects, ReadValue, ReadString, Put;
    ExpectsAfterSpace(s, p, QUOTE);
  }

  function Elements(a: seq<Value>, r: Option<(seq<Value>, nat)>): Option<(seq<Value>, nat)> {
    match r
    case None => None
    case Some((rest, e)) => Some((a + rest, e))
  }

  lemma ReadItemsStep(s: bytes, p: nat, a: seq<Value>, v: Value, q: nat)
    requires p <= |s| && ReadValue(s, p) == Some((v, q))
    ensures Expects(s, q, COMMA) ==>
              Elements(a, ReadItems(s, p)) == Elements(a + [v], ReadItems(s, SkipSpace(s, q) + 1))
    ensures !Expects(s, q, COMMA) ==>
              Elements(a, ReadItems(s, p)) ==
              if Expects(s, q, CLOSE_ARRAY) then Some((a + [v], SkipSpace(s, q) + 1)) else None
  {
    hide ReadValue, SkipSpace;
    if Expects(s, q, COMMA) {
      var r := ReadItems(s, SkipSpace(s, q) + 1);
      if r.Some? { assert a + ([v] + r.value.0) == a + [v] + r.value.0; }
    }
  }

  lemma NoItem(s: bytes, p: nat)
    requires p <= |s| && ReadValue(s, p) == None
    ensures ReadItems(s, p) == None
  {
    hide ReadValue, SkipSpace, Expects;
  }

  lemma NoElements(r: Option<(seq<Value>, nat)>)
    ensures Elements([], r) == r
  {
    if r.Some? { assert [] + r.value.0 == r.value.0; }
  }

  /** _parse_array: the text after the opening bracket. */
  method ParseArray(input: Input) returns (ok: bool, v: Value)
    requires input.Valid()
    modifies input
    ensures input.Valid()
    ensures ok == ReadArray(input.data, old(input.Pos())).Some?
    ensures ok ==> ReadArray(input.data, old(input.Pos())) == Some((v, input.Pos()))
    decreases |input.data| - input.Pos(), 2
  {
    hide ReadValue, ReadItems, SkipSpace, Expects, Input.Valid, Input.Pos, Newlines;
    ghost var s, p := input.data, input.Pos();
    var a: seq<Value> := [];
    ok := input.Expect(CLOSE_ARRAY);
    if ok {
      return true, Array(a);
    }
    ghost var at := input.Pos();
    ItemsAfterSpace(s, p);
    NoElements(ReadItems(s, p));
    while true
      invariant input.Valid() && p <= at == input.Pos()
      invariant Elements(a, ReadItems(s, at)) == ReadItems(s, p)
      decreases |s| - input.Pos()
    {
      var item;
      ok, item := ParseValue(input);
      if !ok {
        NoItem(s, at);
        return false, Array(a);
      }
      ghost var q := input.Pos();
      ReadItemsStep(s, at, a, item, q);
      a := a + [item];
      var more := input.Expect(COMMA);
      if !more {
        ExpectsAfterSpace(s, q, CLOSE_ARRAY);
        break;
      }
      at := input.Pos();
    }
    ok := input.Expect(CLOSE_ARRAY);
    v := Array(a);
  }

  /** One key and value of _parse_object. */
  method ParseMember(input: Input) returns (ok: bool, m: Member)
    requires input.Valid()
    modifies input
    ensures input.Valid()
    ensures ok == ReadMember(input.data, old(input.Pos())).Some?
    ensures ok ==> ReadMember(input.data, old(input.Pos())) == Some((m, input.Pos()))
    decreases |input.data| - input.Pos(), 2
  {
    hide ReadValue, ReadString, SkipSpace, Expects;
    m := Member([], Null);
    ok := input.Expect(QUOTE);
    if ok {
      var key;
      ok, key := ParseString(input);
      if ok {
        ok := input.Expect(COLON);
        if ok {
          var v;
          ok, v := ParseValue(input);
          m := Member(key, v);
        }
      }
    }
  }

  lemma ReadMembersStep(s: bytes, p: nat, o: seq<Member>, m: Member, q: nat)
    requires p <= |s| && ReadMember(s, p) == Some((m, q))
    ensures Expects(s, q, COMMA) ==> ReadMembers(s, p, o) == ReadMembers(s, SkipSpace(s, q) + 1, Put(o, m.key, m.value))
    ensures !Expects(s, q, COMMA) ==>
              ReadMembers(s, p, o) ==
              if Expects(s, q, CLOSE_OBJECT) then Some((Put(o, m.key, m.value), SkipSpace(s, q) + 1)) else None
  {
    hide ReadMember, SkipSpace, Expects, Put;
  }

  lemma NoMember(s: bytes, p: nat, o: seq<Member>)
    requires p <= |s| && ReadMember(s, p) == None
    ensures ReadMembers(s, p, o) == None
  {
    hide ReadMember, SkipSpace, Expects;
  }

  /** _parse_object: the text after the opening brace. */
  method ParseObject(input: Input) returns (ok: bool, v: Value)
    requires input.Valid()
    modifies input
    ensures input.Valid()
    ensures ok == ReadObject(input.data, old(input.Pos())).Some?
    ensures ok ==> ReadObject(input.data, old(input.Pos())) == Some((v, input.Pos()))
    decreases |input.data| - input.Pos(), 3
  {
    hide ReadMember, ReadMembers, SkipSpace, Expects, Put, Input.Valid, Input.Pos, Newlines;
    ghost var s, p := input.data, input.Pos();
    var o: seq<Member> := [];
    ok := input.Expect(CLOSE_OBJECT);
    if ok {
      return true, Object(o);
    }
    ghost var at := input.Pos();
    MembersAfterSpace(s, p, o);
    while true
      invariant input.Valid() && p <= at == input.Pos()
      invariant ReadMembers(s, at, o) == ReadMembers(s, p, [])
      decreases |s| - input.Pos()
    {
      var m;
      ok, m := ParseMember(input);
      if !ok {
        NoMember(s, at, o);
        return false, Object(o);
      }
      ghost var q := input.Pos();
      ReadMembersStep(s, at, o, m, q);
      o := Put(o, m.key, m.value);
      var more := input.Expect(COMMA);
      if !more {
        ExpectsAfterSpace(s, q, CLOSE_OBJECT);
        break;
      }
      at := input.Pos();
    }
    ok := input.Expect(CLOSE_OBJECT);
    v := Object(o);
  }

  /** parse over a whole text; line is the line number an error message would show. */
  method Parse(text: bytes) returns (ok: bool, v: Value, ghost end: nat, line: nat)
    ensures ok == ReadValue(text, 0).Some?
    ensures ok ==> ReadValue(text, 0) == Some((v, end))
    ensures 1 <= line <= 1 + Newlines(text)
  {
    var input := new Input(text);
    ok, v := ParseValue(input);
    end := input.Pos();
    line := input.line;
    if input.cur > 0 { NewlinesPrefix(text, input.cur - 1); }
  }

  lemma {:induction false} NewlinesPrefix(t: bytes, n: nat)
    requires n <= |t|
    ensures Newlines(t[..n]) <= Newlines(t)
    decreases |t|
  {
    if n == |t| {
      assert t[..n] == t;
    } else {
      assert t[..|t| - 1][..n] == t[..n];
      NewlinesPrefix(t[..|t| - 1], n);
    }
  }
}
