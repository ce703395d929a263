/**
 What the parser of picojson/picojson.h accepts, as a grammar over single bytes: trees that keep every white space,
 escape and digit of a text. RFC 8259.
 */
module JsonGrammar {
  import opened Bytes
  import opened JsonValue
  import opened JsonText
  import opened JsonNumeral

  // ----- the grammar -----

  /** Space, tab, line feed and carriage return. */
  predicate Spaces(w: bytes) {
    forall i :: 0 <= i < |w| ==> w[i] == 32 || w[i] == 9 || w[i] == 10 || w[i] == 13
  }

  predicate HexDigits(d: bytes) {
    |d| == 4 &&
    forall i :: 0 <= i < 4 ==> 48 <= d[i] <= 57 || 65 <= d[i] <= 70 || 97 <= d[i] <= 102
  }

  function HexDigit(c: byte): (d: nat)
    requires 48 <= c <= 57 || 65 <= c <= 70 || 97 <= c <= 102
    ensures d < 16
  {
    if c >= 97 then c - 87 else if c >= 65 then c - 55 else c - 48
  }

  function Code(d: bytes): (u: nat)
    requires HexDigits(d)
    ensures u < 65536
  {
    4096 * HexDigit(d[0]) + 256 * HexDigit(d[1]) + 16 * HexDigit(d[2]) + HexDigit(d[3])
  }

  /** One byte of a string, a two-character escape, or a "\u" escape of one or two code units. */
  datatype Piece = Raw(c: byte) | Short(letter: byte) | Basic(digits: bytes) | Pair(high: bytes, low: bytes)
  {
    predicate Proper() {
      match this
      case Raw(c) => c >= 32 && c != 34 && c != 92
      case Short(l) => l == 34 || l == 92 || l == 47 || l == 98 || l == 102 || l == 110 || l == 114 || l == 116
      case Basic(d) => HexDigits(d) && !(0xD800 <= Code(d) <= 0xDFFF)
      case Pair(h, l) => HexDigits(h) && HexDigits(l) && 0xD800 <= Code(h) <= 0xDBFF && 0xDC00 <= Code(l) <= 0xDFFF
    }

    function Render(): (r: bytes) {
      match this
      case Raw(c) => [c]
      case Short(l) => [92, l]
      case Basic(d) => [92, 117] + d
      case Pair(h, l) => [92, 117] + (h + ([92, 117] + l))
    }

    /** The bytes that it stands for. */
    function Meaning(): (r: bytes)
      requires Proper()
    {
      match this
      case Raw(c) => [c]
      case Short(98) => [8]
      case Short(102) => [12]
      case Short(110) => [10]
      case Short(114) => [13]
      case Short(116) => [9]
      case Short(l) => [l]
      case Basic(d) => Utf8(Code(d))
      case Pair(h, l) => Utf8(0x10000 + 1024 * (Code(h) - 0xD800) + (Code(l) - 0xDC00))
    }
  }

  predicate AllProper(pieces: seq<Piece>) {
    pieces == [] || (pieces[0].Proper() && AllProper(pieces[1..]))
  }

  /** The pieces and the closing quote. */
  function PiecesText(pieces: seq<Piece>): (r: bytes) {
    if pieces == [] then [34] else pieces[0].Render() + PiecesText(pieces[1..])
  }

  function PiecesMeaning(pieces: seq<Piece>): (r: bytes)
    requires AllProper(pieces)
  {
    if pieces == [] then [] else pieces[0].Meaning() + PiecesMeaning(pieces[1..])
  }

  /** A value with the white space in front of it; inner is the white space between empty brackets. */
  datatype Tree =
    | NullTree(gap: bytes)
    | TrueTree(gap: bytes)
    | FalseTree(gap: bytes)
    | NumberTree(gap: bytes, token: Token)
    | StringTree(gap: bytes, pieces: seq<Piece>)
    | ArrayTree(gap: bytes, items: seq<Item>, inner: bytes)
    | ObjectTree(gap: bytes, entries: seq<Entry>, inner: bytes)

  /** An element, and the white space in front of the comma or bracket behind it. */
  datatype Item = Item(tree: Tree, after: bytes)

  datatype Entry = Entry(gap: bytes, key: seq<Piece>, colonGap: bytes, tree: Tree, after: bytes)

  predicate Proper(t: Tree)
    decreases t
  {
    Spaces(t.gap) &&
    match t
    case NumberTree(_, token) => token.Proper()
    case StringTree(_, pieces) => AllProper(pieces)
    case ArrayTree(_, items, inner) => ItemsProper(items) && Spaces(inner)
    case ObjectTree(_, entries, inner) => EntriesProper(entries) && Spaces(inner)
    case _ => true
  }

  predicate ItemsProper(items: seq<Item>)
    decreases items
  {
    items == [] || (Proper(items[0].tree) && Spaces(items[0].after) && ItemsProper(items[1..]))
  }

  predicate EntryProper(e: Entry)
    decreases e
  {
    Spaces(e.gap) && AllProper(e.key) && Spaces(e.colonGap) && Proper(e.tree) && Spaces(e.after)
  }

  predicate EntriesProper(entries: seq<Entry>)
    decreases entries
  {
    entries == [] || (EntryProper(entries[0]) && EntriesProper(entries[1..]))
  }

  /** The text of a tree. */
  function Render(t: Tree): (r: bytes)
    decreases t, 1
  {
    t.gap + Core(t)
  }

  function Core(t: Tree): (r: bytes)
    decreases t, 0
  {
    match t
    case NullTree(_) => [110, 117, 108, 108]
    case TrueTree(_) => [116, 114, 117, 101]
    case FalseTree(_) => [102, 97, 108, 115, 101]
    case NumberTree(_, token) => token.Render()
    case StringTree(_, pieces) => [34] + PiecesText(pieces)
    case ArrayTree(_, items, inner) => [91] + if items == [] then inner + [93] else ItemsRender(items)
    case ObjectTree(_, entries, inner) => [123] + if entries == [] then inner + [125] else EntriesRender(entries)
  }

  function ItemsRender(items: seq<Item>): (r: bytes)
    requires items != []
    decreases items
  {
    Render(items[0].tree) + (items[0].after + if |items| == 1 then [93] else [44] + ItemsRender(items[1..]))
  }

  function EntryRender(e: Entry): (r: bytes)
    decreases e
  {
    e.gap + ([34] + (PiecesText(e.key) + (e.colonGap + ([58] + Render(e.tree)))))
  }

  function EntriesRender(entries: seq<Entry>): (r: bytes)
    requires entries != []
    decreases entries
  {
    EntryRender(entries[0]) +
    (entries[0].after + if |entries| == 1 then [125] else [44] + EntriesRender(entries[1..]))
  }

  /** The value that a tree stands for. Of several entries with one key the last one counts. */
  function Denotes(t: Tree): (v: Value)
    requires Proper(t)
    decreases t
  {
    match t
    case NullTree(_) => Null
    case TrueTree(_) => Boolean(true)
    case FalseTree(_) => Boolean(false)
    case NumberTree(_, token) => token.Meaning()
    case StringTree(_, pieces) => String(PiecesMeaning(pieces))
    case ArrayTree(_, items, _) => Array(ItemsDenote(items))
    case ObjectTree(_, entries, _) => Object(EntriesDenote(entries, []))
  }

  function ItemsDenote(items: seq<Item>): (r: seq<Value>)
    requires ItemsProper(items)
    decreases items
  {
    if items == [] then [] else [Denotes(items[0].tree)] + ItemsDenote(items[1..])
  }

  function EntryDenotes(e: Entry): (m: Member)
    requires EntryProper(e)
    decreases e
  {
    Member(PiecesMeaning(e.key), Denotes(e.tree))
  }

  function EntriesDenote(entries: seq<Entry>, o: seq<Member>): (r: seq<Member>)
    requires EntriesProper(entries)
    decreases entries
  {
    if entries == [] then o
    else
      var m := EntryDenotes(entries[0]);
      EntriesDenote(entries[1..], Put(o, m.key, m.value))
  }

  /** A number does not run on behind its tree. */
  predicate Ends(t: Tree, s: bytes, e: nat) {
    t.NumberTree? ==> e >= |s| || !NumberByte(s[e])
  }

  /** The tree stands at p. */
  ghost predicate Stands(t: Tree, s: bytes, p: nat) {
    Proper(t) && At(s, p, Render(t)) && Ends(t, s, p + |Render(t)|)
  }

  // ----- reading pieces of text -----

  lemma AtByte(s: bytes, p: nat, c: byte, rest: bytes)
    requires At(s, p, [c] + rest)
    ensures p < |s| && s[p] == c && At(s, p + 1, rest)
  {
    AtSplit(s, p, [c], rest);
    assert s[p] == s[p..p + 1][0];
  }

  lemma ByteJoin(s: bytes, p: nat, c: byte, rest: bytes)
    requires p < |s| && s[p] == c && At(s, p + 1, rest)
    ensures At(s, p, [c] + rest)
  {
    AtJoin(s, p, [c], rest);
  }

  /** White space is skipped exactly up to the first other byte. */
  lemma {:induction false} SkipGap(s: bytes, p: nat, w: bytes)
    requires Spaces(w) && At(s, p, w)
    requires p + |w| < |s| ==> !Spaces([s[p + |w|]])
    ensures SkipSpace(s, p) == p + |w|
    decreases |w|
  {
    if w == [] {
      if p < |s| { assert [s[p]][0] == s[p]; }
    } else {
      assert w == [w[0]] + w[1..];
      AtByte(s, p, w[0], w[1..]);
      SkipGap(s, p + 1, w[1..]);
    }
  }

  lemma {:induction false} SkippedIsGap(s: bytes, p: nat)
    requires p <= |s|
    ensures Spaces(s[p..SkipSpace(s, p)])
    decreases |s| - p
  {
    var q := SkipSpace(s, p);
    if p < q {
      SkippedIsGap(s, p + 1);
      assert s[p..q] == [s[p]] + s[p + 1..q];
    }
  }

  /** White space w and then the byte c. */
  lemma ExpectGap(s: bytes, p: nat, w: bytes, c: byte, rest: bytes)
    requires Spaces(w) && !Spaces([c]) && At(s, p, w + ([c] + rest))
    ensures SkipSpace(s, p) == p + |w| < |s| && s[p + |w|] == c && At(s, p + |w| + 1, rest)
    ensures forall d: byte :: Expects(s, p, d) <==> c == d
  {
    AtSplit(s, p, w, [c] + rest);
    AtByte(s, p + |w|, c, rest);
    SkipGap(s, p, w);
  }

  lemma GapExpected(s: bytes, p: nat, c: byte)
    requires p <= |s| && Expects(s, p, c)
    ensures var w := s[p..SkipSpace(s, p)];
            Spaces(w) && At(s, p, w + [c]) && p + |w + [c]| == SkipSpace(s, p) + 1
  {
    var q := SkipSpace(s, p);
    SkippedIsGap(s, p);
    assert s[p..q + 1] == s[p..q] + [c];
  }

  // ----- strings -----

  lemma HexIs(c: byte)
    ensures HexValue(c) == if 48 <= c <= 57 || 65 <= c <= 70 || 97 <= c <= 102 then Some(HexDigit(c)) else None
  {
  }

  lemma QuadHexIs(s: bytes, p: nat, d: bytes)
    requires HexDigits(d) && At(s, p, d)
    ensures QuadHex(s, p) == Some(Code(d))
  {
    FourBytes(s, p, d);
    HexIs(d[0]);
    HexIs(d[1]);
    HexIs(d[2]);
    HexIs(d[3]);
    hide HexValue, HexDigit;
    FourDigits(s, p);
  }

  lemma FourBytes(s: bytes, p: nat, d: bytes)
    requires |d| == 4 && At(s, p, d)
    ensures p + 4 <= |s| && s[p] == d[0] && s[p + 1] == d[1] && s[p + 2] == d[2] && s[p + 3] == d[3]
  {
    var w := s[p..p + 4];
    assert w[0] == s[p] && w[1] == s[p + 1] && w[2] == s[p + 2] && w[3] == s[p + 3];
  }

  lemma HexStep(s: bytes, p: nat, n: nat, u: nat)
    requires n > 0
    ensures ReadHex(s, p, n, u) ==
            if p < |s| && HexValue(s[p]).Some? then ReadHex(s, p + 1, n - 1, u * 16 + HexValue(s[p]).value) else None
  {
    hide HexValue;
  }

  /** Four digits are read exactly where four digits stand. */
  lemma FourDigits(s: bytes, p: nat)
    ensures QuadHex(s, p).Some? <==>
            p + 4 <= |s| && HexValue(s[p]).Some? && HexValue(s[p + 1]).Some? && HexValue(s[p + 2]).Some? &&
            HexValue(s[p + 3]).Some?
  {
    hide HexValue;
    HexStep(s, p, 4, 0);
    if p < |s| && HexValue(s[p]).Some? {
      var a := 0 * 16 + HexValue(s[p]).value;
      HexStep(s, p + 1, 3, a);
      if p + 1 < |s| && HexValue(s[p + 1]).Some? {
        var b := a * 16 + HexValue(s[p + 1]).value;
        HexStep(s, p + 2, 2, b);
        if p + 2 < |s| && HexValue(s[p + 2]).Some? {
          HexStep(s, p + 3, 1, b * 16 + HexValue(s[p + 2]).value);
        }
      }
    }
  }

  lemma QuadHexDigits(s: bytes, p: nat)
    requires QuadHex(s, p).Some?
    ensures p + 4 <= |s| && HexDigits(s[p..p + 4]) && QuadHex(s, p) == Some(Code(s[p..p + 4]))
  {
    FourDigits(s, p);
    HexIs(s[p]);
    HexIs(s[p + 1]);
    HexIs(s[p + 2]);
    HexIs(s[p + 3]);
    hide HexValue, QuadHex;
    FourBytes(s, p, s[p..p + 4]);
    QuadHexIs(s, p, s[p..p + 4]);
  }

  lemma FourLong(d: bytes)
    requires HexDigits(d)
    ensures |d| == 4
  {
  }

  lemma EscapeStarts(s: bytes, p: nat, d: bytes)
    requires At(s, p, [92, 117] + d)
    ensures p + 2 + |d| <= |s| && s[p] == 92 && s[p + 1] == 117 && At(s, p + 2, d)
  {
    AtSplit(s, p, [92, 117], d);
    assert s[p] == s[p..p + 2][0] && s[p + 1] == s[p..p + 2][1];
  }

  /** A proper piece is read as what it stands for. */
  lemma ReadPiece(s: bytes, p: nat, c: Piece)
    requires c.Proper() && At(s, p, c.Render())
    ensures p < |s| && s[p] != 34 && ReadChar(s, p) == Some((c.Meaning(), p + |c.Render()|))
  {
    hide QuadHex, HexDigits, Code, Utf8, At, ReadCodepoint;
    match c
    case Raw(b) =>
      assert c.Render() == [b] + [];
      AtByte(s, p, b, []);
    case Short(l) =>
      assert c.Render() == [92] + ([l] + []);
      AtByte(s, p, 92, [l] + []);
      AtByte(s, p + 1, l, []);
    case Basic(d) =>
      UnicodeChar(s, p, d);
      FourLong(d);
      QuadHexIs(s, p + 2, d);
      BasicCode(s, p + 2, Code(d));
    case Pair(h, l) =>
      ReadPair(s, p, h, l);
  }

  lemma ReadPair(s: bytes, p: nat, h: bytes, l: bytes)
    requires HexDigits(h) && HexDigits(l) && 0xD800 <= Code(h) <= 0xDBFF && 0xDC00 <= Code(l) <= 0xDFFF
    requires At(s, p, [92, 117] + (h + ([92, 117] + l)))
    ensures |h| == |l| == 4 && p < |s| && s[p] == 92
    ensures ReadChar(s, p) == Some((Utf8(0x10000 + 1024 * (Code(h) - 0xD800) + (Code(l) - 0xDC00)), p + 12))
  {
    hide QuadHex, HexDigits, Code, Utf8, At, ReadChar, ReadCodepoint;
    FourLong(h);
    FourLong(l);
    UnicodeChar(s, p, h + ([92, 117] + l));
    AtSplit(s, p + 2, h, [92, 117] + l);
    EscapeStarts(s, p + 6, l);
    QuadHexIs(s, p + 2, h);
    QuadHexIs(s, p + 8, l);
    PairCode(s, p + 2, Code(h), Code(l));
  }

  lemma UnicodeChar(s: bytes, p: nat, d: bytes)
    requires At(s, p, [92, 117] + d)
    ensures p + 2 + |d| <= |s| && s[p] == 92 && s[p + 1] == 117 && At(s, p + 2, d)
    ensures ReadChar(s, p) == ReadCodepoint(s, p + 2)
  {
    hide At, ReadCodepoint;
    EscapeStarts(s, p, d);
  }

  lemma BasicCode(s: bytes, p: nat, u: nat)
    requires QuadHex(s, p) == Some(u) && !(0xD800 <= u <= 0xDFFF)
    ensures ReadCodepoint(s, p) == Some((Utf8(u), p + 4))
  {
    hide QuadHex, Utf8;
  }

  lemma PairCode(s: bytes, p: nat, u: nat, v: nat)
    requires p + 6 <= |s| && s[p + 4] == 92 && s[p + 5] == 117
    requires QuadHex(s, p) == Some(u) && QuadHex(s, p + 6) == Some(v)
    requires 0xD800 <= u <= 0xDBFF && 0xDC00 <= v <= 0xDFFF
    ensures ReadCodepoint(s, p) == Some((Utf8(0x10000 + 1024 * (u - 0xD800) + (v - 0xDC00)), p + 10))
  {
    hide QuadHex, Utf8;
  }

  /** Whatever the parser reads as one character is a proper piece. */
  lemma PieceOf(s: bytes, p: nat) returns (c: Piece)
    requires p < |s| && s[p] != 34 && ReadChar(s, p).Some?
    ensures c.Proper() && At(s, p, c.Render()) && ReadChar(s, p) == Some((c.Meaning(), p + |c.Render()|))
  {
    if s[p] != 92 {
      c := Raw(s[p]);
    } else if s[p + 1] != 117 {
      c := Short(s[p + 1]);
      assert s[p..p + 2] == [92, s[p + 1]];
    } else {
      c := UnicodePieceOf(s, p);
    }
  }

  lemma UnicodePieceOf(s: bytes, p: nat) returns (c: Piece)
    requires p + 1 < |s| && s[p] == 92 && s[p + 1] == 117 && ReadCodepoint(s, p + 2).Some?
    ensures c.Proper() && At(s, p, c.Render()) && ReadCodepoint(s, p + 2) == Some((c.Meaning(), p + |c.Render()|))
  {
    hide QuadHex, HexDigits, Code, Utf8, At;
    QuadHexDigits(s, p + 2);
    var d := s[p + 2..p + 6];
    assert At(s, p + 2, d) by { AtItself(s, p + 2, d); }
    if IsHighSurrogate(Code(d)) {
      QuadHexDigits(s, p + 8);
      var l := s[p + 8..p + 12];
      AtItself(s, p + 8, l);
      PairAt(s, p, d, l);
      c := Pair(d, l);
    } else {
      EscapeAt(s, p, d);
      c := Basic(d);
    }
  }

  lemma AtItself(s: bytes, p: nat, b: bytes)
    requires p + |b| <= |s| && s[p..p + |b|] == b
    ensures At(s, p, b)
  {
  }

  /** "\u" and the digits. */
  lemma EscapeAt(s: bytes, p: nat, d: bytes)
    requires p + 2 <= |s| && s[p] == 92 && s[p + 1] == 117 && At(s, p + 2, d)
    ensures At(s, p, [92, 117] + d)
  {
    assert s[p..p + 2] == [92, 117];
    AtJoin(s, p, [92, 117], d);
  }

  lemma PairAt(s: bytes, p: nat, h: bytes, l: bytes)
    requires p + 8 <= |s| && |h| == 4 && s[p] == 92 && s[p + 1] == 117 && At(s, p + 2, h)
    requires s[p + 6] == 92 && s[p + 7] == 117 && At(s, p + 8, l)
    ensures At(s, p, [92, 117] + (h + ([92, 117] + l)))
  {
    EscapeAt(s, p + 6, l);
    AtJoin(s, p + 2, h, [92, 117] + l);
    EscapeAt(s, p, h + ([92, 117] + l));
  }

  lemma {:induction false} ReadPieces(s: bytes, p: nat, pieces: seq<Piece>)
    requires AllProper(pieces) && At(s, p, PiecesText(pieces))
    ensures ReadString(s, p) == Some((PiecesMeaning(pieces), p + |PiecesText(pieces)|))
    decreases |pieces|
  {
    hide ReadChar, Piece.Proper, Piece.Render, Piece.Meaning;
    if pieces == [] {
      assert [34] + [] == PiecesText([]);
      AtByte(s, p, 34, []);
    } else {
      AtSplit(s, p, pieces[0].Render(), PiecesText(pieces[1..]));
      ReadPiece(s, p, pieces[0]);
      ReadPieces(s, p + |pieces[0].Render()|, pieces[1..]);
    }
  }

  lemma {:induction false} PiecesOf(s: bytes, p: nat) returns (pieces: seq<Piece>)
    requires ReadString(s, p).Some?
    ensures AllProper(pieces) && At(s, p, PiecesText(pieces))
    ensures ReadString(s, p) == Some((PiecesMeaning(pieces), p + |PiecesText(pieces)|))
    decreases |s| - p
  {
    hide ReadChar, Piece.Proper, Piece.Render, Piece.Meaning;
    if p < |s| && s[p] == 34 {
      pieces := [];
      assert s[p..p + 1] == [34];
    } else {
      assert p < |s| by { EndIsNoChar(s, p); }
      var c := PieceOf(s, p);
      var rest := PiecesOf(s, p + |c.Render()|);
      pieces := [c] + rest;
      assert pieces[1..] == rest;
      AtJoin(s, p, c.Render(), PiecesText(rest));
    }
  }

  lemma EndIsNoChar(s: bytes, p: nat)
    ensures p >= |s| ==> ReadChar(s, p) == None
  {
  }

  // ----- every proper tree is read -----

  lemma FirstByte(t: Tree)
    requires Proper(t)
    ensures Core(t) != [] && !Spaces([Core(t)[0]]) && Core(t)[0] != 93 && Core(t)[0] != 125
  {
    hide AllProper, ItemsProper, EntriesProper, Token.Proper, Token.Render;
    if t.NumberTree? { TokenBytes(t.token); }
    var c := Core(t)[0];
    assert [c][0] == c;
  }

  /** What decides how a value goes on: the first byte behind the white space. */
  lemma ReadFrom(s: bytes, p: nat, q: nat)
    requires p <= |s| && SkipSpace(s, p) == q < |s|
    ensures s[q] == 110 ==> ReadValue(s, p) == if At(s, q + 1, [117, 108, 108]) then Some((Null, q + 4)) else None
    ensures s[q] == 102 ==>
              ReadValue(s, p) == if At(s, q + 1, [97, 108, 115, 101]) then Some((Boolean(false), q + 5)) else None
    ensures s[q] == 116 ==>
              ReadValue(s, p) == if At(s, q + 1, [114, 117, 101]) then Some((Boolean(true), q + 4)) else None
    ensures s[q] == 34 ==>
              ReadValue(s, p) == match ReadString(s, q + 1) case None => None case Some((t, e)) => Some((String(t), e))
    ensures s[q] == 91 ==> ReadValue(s, p) == ReadArray(s, q + 1)
    ensures s[q] == 123 ==> ReadValue(s, p) == ReadObject(s, q + 1)
    ensures 48 <= s[q] <= 57 || s[q] == 45 ==>
              ReadValue(s, p) ==
              match ReadNumeral(s[q..NumberEnd(s, q)]) case None => None case Some(v) => Some((v, NumberEnd(s, q)))
    ensures ReadValue(s, p).Some? ==>
              s[q] == 110 || s[q] == 102 || s[q] == 116 || s[q] == 34 || s[q] == 91 || s[q] == 123 || s[q] == 45 ||
              48 <= s[q] <= 57
  {
    hide SkipSpace, ReadString, ReadArray, ReadObject, ReadNumeral, NumberEnd;
    assert NULL_TEXT[1..] == [117, 108, 108] && FALSE_TEXT[1..] == [97, 108, 115, 101] &&
           TRUE_TEXT[1..] == [114, 117, 101];
  }

  lemma {:induction false} NumberEndIs(s: bytes, p: nat, t: bytes)
    requires At(s, p, t) && NumberBytes(t)
    requires p + |t| < |s| ==> !NumberByte(s[p + |t|])
    ensures NumberEnd(s, p) == p + |t|
    decreases |t|
  {
    if t != [] {
      assert t == [t[0]] + t[1..];
      AtByte(s, p, t[0], t[1..]);
      NumberEndIs(s, p + 1, t[1..]);
    }
  }

  /**
   Every proper tree is read: wherever its text stands, the parser returns the value that the tree stands for and
   stops right behind the text.
   */
  lemma {:induction false} ReadTree(s: bytes, p: nat, t: Tree)
    requires Stands(t, s, p)
    ensures ReadValue(s, p) == Some((Denotes(t), p + |Render(t)|))
    decreases t, 0
  {
    hide ReadValue, ReadNumeral, At, ItemsRender, EntriesRender, ItemsDenote, EntriesDenote, PiecesText, PiecesMeaning,
         Spaces, AllProper, ItemsProper, EntriesProper, SkipSpace, NumberByte, NumberEnd, ReadString, ReadArray,
         ReadObject, Token.Proper, Token.Render, Token.Meaning;
    var core, q := Core(t), p + |t.gap|;
    SkipTreeGap(s, p, t);
    ReadFrom(s, p, q);
    match t
    case NullTree(_) =>
      assert core == [110] + [117, 108, 108];
      AtByte(s, q, 110, [117, 108, 108]);
    case TrueTree(_) =>
      assert core == [116] + [114, 117, 101];
      AtByte(s, q, 116, [114, 117, 101]);
    case FalseTree(_) =>
      assert core == [102] + [97, 108, 115, 101];
      AtByte(s, q, 102, [97, 108, 115, 101]);
    case NumberTree(_, token) => ScanToken(s, q, token);
    case StringTree(_, pieces) =>
      AtByte(s, q, 34, PiecesText(pieces));
      ReadPieces(s, q + 1, pieces);
    case ArrayTree(_, items, inner) =>
      AtByte(s, q, 91, if items == [] then inner + [93] else ItemsRender(items));
      ReadArrayTree(s, q + 1, items, inner);
    case ObjectTree(_, entries, inner) =>
      AtByte(s, q, 123, if entries == [] then inner + [125] else EntriesRender(entries));
      ReadObjectTree(s, q + 1, entries, inner);
  }

  lemma ScanToken(s: bytes, q: nat, token: Token)
    requires token.Proper() && At(s, q, token.Render())
    requires var e := q + |token.Render()|; e < |s| ==> !NumberByte(s[e])
    ensures q < |s| && (48 <= s[q] <= 57 || s[q] == 45) && NumberEnd(s, q) == q + |token.Render()|
    ensures ReadNumeral(s[q..NumberEnd(s, q)]) == Some(token.Meaning())
  {
    hide ReadNumeral, NumberByte, NumberBytes, NumberEnd, Token.Proper, Token.Render;
    var t := token.Render();
    TokenBytes(token);
    NumberEndIs(s, q, t);
    assert s[q] == s[q..q + |t|][0];
    ReadToken(token);
  }

  lemma SkipTreeGap(s: bytes, p: nat, t: Tree)
    requires Proper(t) && At(s, p, Render(t))
    ensures SkipSpace(s, p) == p + |t.gap| < |s| && At(s, p + |t.gap|, Core(t))
  {
    hide Proper, Core;
    FirstByte(t);
    AtSplit(s, p, t.gap, Core(t));
    assert Core(t) == [Core(t)[0]] + Core(t)[1..];
    AtByte(s, p + |t.gap|, Core(t)[0], Core(t)[1..]);
    assert Spaces(t.gap) by { GapIsSpaces(t); }
    SkipGap(s, p, t.gap);
  }

  lemma GapIsSpaces(t: Tree)
    requires Proper(t)
    ensures Spaces(t.gap)
  {
  }


  lemma {:induction false} ReadArrayTree(s: bytes, p: nat, items: seq<Item>, inner: bytes)
    requires ItemsProper(items) && Spaces(inner)
    requires At(s, p, if items == [] then inner + [93] else ItemsRender(items))
    ensures p <= |s| && ReadArray(s, p) ==
            Some((Array(ItemsDenote(items)), p + if items == [] then |inner| + 1 else |ItemsRender(items)|))
    decreases items, 2
  {
    hide ReadItems, At, Spaces, SkipSpace, ItemsProper, ItemsRender, ItemsDenote;
    if items == [] {
      assert inner + [93] == inner + ([93] + []);
      NoSpace(93);
      ExpectGap(s, p, inner, 93, []);
      assert ItemsDenote([]) == [] by { NothingDenoted(); }
    } else {
      ReadItemsTree(s, p, items);
      OpensItem(s, p, items);
    }
  }

  lemma NothingDenoted()
    ensures ItemsDenote([]) == []
  {
  }

  lemma NoSpace(c: byte)
    requires c > 32
    ensures !Spaces([c])
  {
    assert [c][0] == c;
  }

  /** No closing bracket comes before the first element. */
  lemma OpensItem(s: bytes, p: nat, items: seq<Item>)
    requires items != [] && ItemsProper(items) && At(s, p, ItemsRender(items))
    ensures p <= |s| && !Expects(s, p, 93)
  {
    hide Proper, Spaces, SkipSpace, Render, Core;
    var t := items[0].tree;
    AtSplit(s, p, Render(t), items[0].after + if |items| == 1 then [93] else [44] + ItemsRender(items[1..]));
    SkipTreeGap(s, p, t);
    FirstByte(t);
    assert Core(t) == [Core(t)[0]] + Core(t)[1..];
    AtByte(s, p + |t.gap|, Core(t)[0], Core(t)[1..]);
  }

  /** White space and then a comma or a closing byte end a number. */
  lemma TailEnds(s: bytes, e: nat, after: bytes, c: byte, rest: bytes)
    requires Spaces(after) && (c == 93 || c == 44 || c == 125) && At(s, e, after + ([c] + rest))
    ensures SkipSpace(s, e) == e + |after| < |s| && s[e + |after|] == c && At(s, e + |after| + 1, rest)
    ensures e < |s| && !NumberByte(s[e])
  {
    NoSpace(c);
    ExpectGap(s, e, after, c, rest);
    if after != [] {
      AtSplit(s, e, after, [c] + rest);
      assert s[e] == s[e..e + |after|][0] == after[0];
    }
  }

  lemma SplitTail(s: bytes, p: nat, text: bytes, after: bytes, c: byte, rest: bytes)
    requires Spaces(after) && (c == 93 || c == 44 || c == 125) && At(s, p, text + (after + ([c] + rest)))
    ensures At(s, p, text)
    ensures var e, k := p + |text|, p + |text| + |after|;
            e <= k < |s| && SkipSpace(s, e) == k && s[k] == c && At(s, k + 1, rest) && !NumberByte(s[e])
  {
    hide At, Spaces, SkipSpace, NumberByte;
    AtSplit(s, p, text, after + ([c] + rest));
    TailEnds(s, p + |text|, after, c, rest);
  }

  lemma EndsInside(s: bytes, e: nat, t: Tree)
    requires e < |s| && !NumberByte(s[e])
    ensures Ends(t, s, e)
  {
  }

  lemma StandsInside(s: bytes, p: nat, t: Tree)
    requires Proper(t) && At(s, p, Render(t)) && p + |Render(t)| < |s| && !NumberByte(s[p + |Render(t)|])
    ensures Stands(t, s, p)
  {
    EndsInside(s, p + |Render(t)|, t);
  }

  /** One round of the element loop, by the byte behind the white space. */
  lemma ItemsRound(s: bytes, p: nat, v: Value, q: nat, k: nat)
    requires p <= |s| && ReadValue(s, p) == Some((v, q)) && SkipSpace(s, q) == k < |s|
    ensures s[k] == 93 ==> ReadItems(s, p) == Some(([v], k + 1))
    ensures s[k] == 44 ==>
              ReadItems(s, p) ==
              match ReadItems(s, k + 1) case None => None case Some((rest, e)) => Some(([v] + rest, e))
  {
    hide ReadValue, SkipSpace;
  }

  lemma {:induction false} ReadItemsTree(s: bytes, p: nat, items: seq<Item>)
    requires items != [] && ItemsProper(items) && At(s, p, ItemsRender(items))
    ensures p <= |s| && ReadItems(s, p) == Some((ItemsDenote(items), p + |ItemsRender(items)|))
    decreases items, 1
  {
    hide ReadItems, ReadValue, At, Spaces, SkipSpace, Proper, Render, NumberByte, Denotes, ItemsRender, ItemsDenote,
         ItemsProper, Ends, Stands;
    var t, after := items[0].tree, items[0].after;
    var k := SplitItems(s, p, items);
    ReadTree(s, p, t);
    if |items| > 1 {
      ReadItemsTree(s, k + 1, items[1..]);
    }
    ItemsRound(s, p, Denotes(t), p + |Render(t)|, k);
  }

  /** The first element, the comma or bracket behind it, and the other elements. */
  lemma SplitItems(s: bytes, p: nat, items: seq<Item>) returns (k: nat)
    requires items != [] && ItemsProper(items) && At(s, p, ItemsRender(items))
    ensures p <= |s| && Proper(items[0].tree) && ItemsProper(items[1..]) && Stands(items[0].tree, s, p)
    ensures var e := p + |Render(items[0].tree)|; e <= |s| && SkipSpace(s, e) == k < |s|
    ensures if |items| == 1 then s[k] == 93 else s[k] == 44 && At(s, k + 1, ItemsRender(items[1..]))
    ensures k + 1 - p == |ItemsRender(items)| - if |items| == 1 then 0 else |ItemsRender(items[1..])|
    ensures ItemsDenote(items) ==
            if |items| == 1 then [Denotes(items[0].tree)] else [Denotes(items[0].tree)] + ItemsDenote(items[1..])
  {
    hide At, Spaces, SkipSpace, Proper, Render, NumberByte, Denotes, ItemsRender, ItemsDenote, ItemsProper, Ends,
         Stands;
    var text, after := Render(items[0].tree), items[0].after;
    var rest := if |items| == 1 then [] else ItemsRender(items[1..]);
    ItemsParts(items);
    k := p + |text| + |after|;
    SplitTail(s, p, text, after, if |items| == 1 then 93 else 44, rest);
    StandsInside(s, p, items[0].tree);
  }

  lemma ItemsParts(items: seq<Item>)
    requires items != [] && ItemsProper(items)
    ensures var rest := if |items| == 1 then [] else ItemsRender(items[1..]);
            var c: byte := if |items| == 1 then 93 else 44;
            ItemsRender(items) == Render(items[0].tree) + (items[0].after + ([c] + rest))
    ensures Proper(items[0].tree) && Spaces(items[0].after) && ItemsProper(items[1..])
    ensures ItemsDenote(items) ==
            if |items| == 1 then [Denotes(items[0].tree)] else [Denotes(items[0].tree)] + ItemsDenote(items[1..])
  {
    hide Render, Denotes, Proper, Spaces;
    assert |items| == 1 ==> items[1..] == [] && [93] + [] == [93];
  }

  lemma {:induction false} ReadObjectTree(s: bytes, p: nat, entries: seq<Entry>, inner: bytes)
    requires EntriesProper(entries) && Spaces(inner)
    requires At(s, p, if entries == [] then inner + [125] else EntriesRender(entries))
    ensures p <= |s| && ReadObject(s, p) ==
            Some((Object(EntriesDenote(entries, [])),
                  p + if entries == [] then |inner| + 1 else |EntriesRender(entries)|))
    decreases entries, 3
  {
    hide ReadMembers, At, Spaces, SkipSpace, EntriesProper, EntriesRender, EntriesDenote;
    if entries == [] {
      assert inner + [125] == inner + ([125] + []);
      NoSpace(125);
      ExpectGap(s, p, inner, 125, []);
      assert EntriesDenote([], []) == [] by { NoEntries([]); }
    } else {
      ReadEntriesTree(s, p, entries, []);
      OpensEntry(s, p, entries);
    }
  }

  lemma NoEntries(o: seq<Member>)
    ensures EntriesDenote([], o) == o
  {
  }

  lemma OpensEntry(s: bytes, p: nat, entries: seq<Entry>)
    requires entries != [] && EntriesProper(entries) && At(s, p, EntriesRender(entries))
    ensures p <= |s| && !Expects(s, p, 125)
  {
    hide Spaces, SkipSpace, Render, EntryRender, EntryProper;
    var e := entries[0];
    AtSplit(s, p, EntryRender(e), e.after + if |entries| == 1 then [125] else [44] + EntriesRender(entries[1..]));
    EntryOpens(s, p, e);
  }

  lemma EntryOpens(s: bytes, p: nat, e: Entry)
    requires EntryProper(e) && At(s, p, EntryRender(e))
    ensures p <= |s| && !Expects(s, p, 125)
  {
    NoSpace(34);
    hide Spaces, SkipSpace, Render, AllProper, Proper, Expects;
    ExpectGap(s, p, e.gap, 34, PiecesText(e.key) + (e.colonGap + ([58] + Render(e.tree))));
  }

  /** A key, a colon and a value, with white space anywhere between them. */
  lemma ReadEntryTree(s: bytes, p: nat, e: Entry)
    requires EntryProper(e) && At(s, p, EntryRender(e)) && Ends(e.tree, s, p + |EntryRender(e)|)
    ensures p <= |s| && ReadMember(s, p) == Some((EntryDenotes(e), p + |EntryRender(e)|))
    decreases e, 1
  {
    hide ReadValue, ReadString, At, Spaces, SkipSpace, Expects, AllProper, Proper, Render, PiecesText, PiecesMeaning,
         Denotes, NumberByte;
    NoSpace(34);
    NoSpace(58);
    var tail := e.colonGap + ([58] + Render(e.tree));
    ExpectGap(s, p, e.gap, 34, PiecesText(e.key) + tail);
    var q := p + |e.gap| + 1;
    AtSplit(s, q, PiecesText(e.key), tail);
    ReadPieces(s, q, e.key);
    var k := q + |PiecesText(e.key)|;
    ExpectGap(s, k, e.colonGap, 58, Render(e.tree));
    ReadTree(s, k + |e.colonGap| + 1, e.tree);
  }

  /** One round of the entry loop, by the byte behind the white space. */
  lemma EntriesRound(s: bytes, p: nat, o: seq<Member>, m: Member, q: nat, k: nat)
    requires p <= |s| && ReadMember(s, p) == Some((m, q)) && SkipSpace(s, q) == k < |s|
    ensures s[k] == 125 ==> ReadMembers(s, p, o) == Some((Put(o, m.key, m.value), k + 1))
    ensures s[k] == 44 ==> ReadMembers(s, p, o) == ReadMembers(s, k + 1, Put(o, m.key, m.value))
  {
    hide ReadMember, SkipSpace, Put;
  }

  lemma {:induction false} ReadEntriesTree(s: bytes, p: nat, entries: seq<Entry>, o: seq<Member>)
    requires entries != [] && EntriesProper(entries) && At(s, p, EntriesRender(entries))
    ensures p <= |s| && ReadMembers(s, p, o) == Some((EntriesDenote(entries, o), p + |EntriesRender(entries)|))
    decreases entries, 2
  {
    hide ReadMembers, ReadMember, At, Spaces, SkipSpace, EntryProper, EntryRender, NumberByte, EntryDenotes, Put,
         EntriesRender, EntriesDenote, EntriesProper, Ends;
    var e, after := entries[0], entries[0].after;
    var rest := if |entries| == 1 then [] else EntriesRender(entries[1..]);
    var c: byte := if |entries| == 1 then 125 else 44;
    EntriesParts(entries, o);
    var m := EntryDenotes(e);
    var k := p + |EntryRender(e)|;
    SplitTail(s, p, EntryRender(e), after, c, rest);
    EndsInside(s, k, e.tree);
    ReadEntryTree(s, p, e);
    EntriesRound(s, p, o, m, k, k + |after|);
    if |entries| > 1 {
      ReadEntriesTree(s, k + |after| + 1, entries[1..], Put(o, m.key, m.value));
    }
  }

  lemma EntriesParts(entries: seq<Entry>, o: seq<Member>)
    requires entries != [] && EntriesProper(entries)
    ensures var rest := if |entries| == 1 then [] else EntriesRender(entries[1..]);
            var c: byte := if |entries| == 1 then 125 else 44;
            EntriesRender(entries) == EntryRender(entries[0]) + (entries[0].after + ([c] + rest))
    ensures EntryProper(entries[0]) && Spaces(entries[0].after) && EntriesProper(entries[1..])
    ensures var m := EntryDenotes(entries[0]);
            EntriesDenote(entries, o) ==
            if |entries| == 1 then Put(o, m.key, m.value) else EntriesDenote(entries[1..], Put(o, m.key, m.value))
  {
    hide EntryRender, EntryDenotes, Put;
    assert |entries| == 1 ==> entries[1..] == [] && [125] + [] == [125];
  }

  // ----- every text that is read has a tree -----

  lemma {:induction false} NumberRun(s: bytes, q: nat)
    requires q <= |s|
    ensures NumberEnd(s, q) < |s| ==> !NumberByte(s[NumberEnd(s, q)])
    decreases |s| - q
  {
    if q < |s| && IsNumberByte(s[q]) { NumberRun(s, q + 1); }
  }

  /** A proper tree with the given white space in front of it was read. */
  ghost predicate Built(t: Tree, s: bytes, p: nat, gap: bytes)
    requires p <= |s|
  {
    Proper(t) && t.gap == gap && At(s, p + |gap|, Core(t)) && Ends(t, s, p + |gap| + |Core(t)|) &&
    ReadValue(s, p) == Some((Denotes(t), p + |gap| + |Core(t)|))
  }

  lemma WithGap(s: bytes, p: nat, gap: bytes, t: Tree)
    requires p <= |s| && Built(t, s, p, gap) && At(s, p, gap)
    ensures Stands(t, s, p) && ReadValue(s, p) == Some((Denotes(t), p + |Render(t)|))
  {
    hide Core, ReadValue, Denotes, At, Ends, Proper;
    AtJoin(s, p, gap, Core(t));
  }

  /**
   Whatever the parser reads has a tree: the text up to where it stopped is that of a proper tree, which stands for
   the value returned.
   */
  lemma {:induction false} TreeOf(s: bytes, p: nat) returns (t: Tree)
    requires p <= |s| && ReadValue(s, p).Some?
    ensures Stands(t, s, p) && ReadValue(s, p) == Some((Denotes(t), p + |Render(t)|))
    decreases |s| - p, 1
  {
    hide ReadValue, ReadNumeral, SkipSpace, NumberByte, NumberEnd, ReadString, ReadItems, ReadMembers, Spaces,
         AllProper, ItemsProper, EntriesProper, PiecesText, PiecesMeaning, ItemsRender, EntriesRender, ItemsDenote,
         EntriesDenote, Built, Proper, Denotes, Render, Core, At, Expects, ReadArray, ReadObject, Stands, Ends;
    var q := SkipSpace(s, p);
    NotAtEnd(s, p);
    ReadFrom(s, p, q);
    SkippedIsGap(s, p);
    var gap := s[p..q];
    AtItself(s, p, gap);
    if s[q] == 34 {
      var pieces := PiecesOf(s, q + 1);
      t := StringTree(gap, pieces);
      StringBuilt(s, p, gap, pieces);
    } else if s[q] == 91 {
      var items, inner := ArrayOf(s, q + 1);
      t := ArrayTree(gap, items, inner);
      ArrayBuilt(s, p, gap, items, inner);
    } else if s[q] == 123 {
      var entries, inner := ObjectOf(s, q + 1);
      t := ObjectTree(gap, entries, inner);
      ObjectBuilt(s, p, gap, entries, inner);
    } else {
      t := LeafOf(s, p, gap);
    }
    WithGap(s, p, gap, t);
  }

  lemma LeafOf(s: bytes, p: nat, gap: bytes) returns (t: Tree)
    requires p <= |s| && ReadValue(s, p).Some? && SkipSpace(s, p) == p + |gap| < |s| && Spaces(gap)
    requires s[p + |gap|] != 34 && s[p + |gap|] != 91 && s[p + |gap|] != 123
    ensures Built(t, s, p, gap)
  {
    hide ReadValue, ReadNumeral, SkipSpace, NumberByte, NumberEnd, Spaces, AllProper, ItemsProper, EntriesProper,
         PiecesText, PiecesMeaning, ItemsRender, EntriesRender, ItemsDenote, EntriesDenote, ReadString, ReadArray,
         ReadObject, Token.Proper, Token.Render, Token.Meaning;
    var q := p + |gap|;
    ReadFrom(s, p, q);
    if s[q] == 110 || s[q] == 102 || s[q] == 116 {
      t := WordOf(s, p, gap);
    } else {
      hide Built;
      var token := TokenOf(s[q..NumberEnd(s, q)]);
      NumberRun(s, q);
      AtItself(s, q, token.Render());
      ReadToken(token);
      NumberBuilt(s, p, gap, token);
      t := NumberTree(gap, token);
    }
  }

  lemma WordOf(s: bytes, p: nat, gap: bytes) returns (t: Tree)
    requires p <= |s| && ReadValue(s, p).Some? && SkipSpace(s, p) == p + |gap| < |s| && Spaces(gap)
    requires s[p + |gap|] == 110 || s[p + |gap|] == 102 || s[p + |gap|] == 116
    ensures Built(t, s, p, gap)
  {
    hide ReadValue, ReadNumeral, SkipSpace, NumberEnd, Spaces, ReadString, ReadArray, ReadObject, At;
    var q := p + |gap|;
    ReadFrom(s, p, q);
    if s[q] == 110 {
      t := NullTree(gap);
      ByteJoin(s, q, 110, [117, 108, 108]);
      assert Core(t) == [110] + [117, 108, 108];
    } else if s[q] == 102 {
      t := FalseTree(gap);
      ByteJoin(s, q, 102, [97, 108, 115, 101]);
      assert Core(t) == [102] + [97, 108, 115, 101];
    } else {
      t := TrueTree(gap);
      ByteJoin(s, q, 116, [114, 117, 101]);
      assert Core(t) == [116] + [114, 117, 101];
    }
  }

  lemma NumberBuilt(s: bytes, p: nat, gap: bytes, token: Token)
    requires p <= |s| && Spaces(gap) && token.Proper() && At(s, p + |gap|, token.Render())
    requires var e := p + |gap| + |token.Render()|;
             (e < |s| ==> !NumberByte(s[e])) && ReadValue(s, p) == Some((token.Meaning(), e))
    ensures Built(NumberTree(gap, token), s, p, gap)
  {
    hide ReadValue, Spaces, NumberByte, At, Token.Proper, Token.Render, Token.Meaning;
  }

  lemma StringBuilt(s: bytes, p: nat, gap: bytes, pieces: seq<Piece>)
    requires p <= |s| && Spaces(gap) && AllProper(pieces)
    requires p + |gap| < |s| && s[p + |gap|] == 34 && At(s, p + |gap| + 1, PiecesText(pieces))
    requires ReadValue(s, p) == Some((String(PiecesMeaning(pieces)), p + |gap| + 1 + |PiecesText(pieces)|))
    ensures Built(StringTree(gap, pieces), s, p, gap)
  {
    hide ReadValue, Spaces, AllProper, PiecesText, PiecesMeaning, At;
    ByteJoin(s, p + |gap|, 34, PiecesText(pieces));
  }

  lemma ArrayBuilt(s: bytes, p: nat, gap: bytes, items: seq<Item>, inner: bytes)
    requires p <= |s| && Spaces(gap) && ItemsProper(items) && Spaces(inner)
    requires var rest := if items == [] then inner + [93] else ItemsRender(items);
             p + |gap| < |s| && s[p + |gap|] == 91 && At(s, p + |gap| + 1, rest) &&
             ReadValue(s, p) == Some((Array(ItemsDenote(items)), p + |gap| + 1 + |rest|))
    ensures Built(ArrayTree(gap, items, inner), s, p, gap)
  {
    hide ReadValue, Spaces, ItemsProper, ItemsRender, ItemsDenote, At;
    ByteJoin(s, p + |gap|, 91, if items == [] then inner + [93] else ItemsRender(items));
  }

  lemma ObjectBuilt(s: bytes, p: nat, gap: bytes, entries: seq<Entry>, inner: bytes)
    requires p <= |s| && Spaces(gap) && EntriesProper(entries) && Spaces(inner)
    requires var rest := if entries == [] then inner + [125] else EntriesRender(entries);
             p + |gap| < |s| && s[p + |gap|] == 123 && At(s, p + |gap| + 1, rest) &&
             ReadValue(s, p) == Some((Object(EntriesDenote(entries, [])), p + |gap| + 1 + |rest|))
    ensures Built(ObjectTree(gap, entries, inner), s, p, gap)
  {
    hide ReadValue, Spaces, EntriesProper, EntriesRender, EntriesDenote, At;
    ByteJoin(s, p + |gap|, 123, if entries == [] then inner + [125] else EntriesRender(entries));
  }

  lemma NotAtEnd(s: bytes, p: nat)
    requires p <= |s| && ReadValue(s, p).Some?
    ensures SkipSpace(s, p) < |s|
  {
    hide SkipSpace, ReadString, ReadArray, ReadObject, ReadNumeral, NumberEnd;
  }

  lemma {:induction false} ArrayOf(s: bytes, p: nat) returns (items: seq<Item>, inner: bytes)
    requires p <= |s| && ReadArray(s, p).Some?
    ensures ItemsProper(items) && Spaces(inner)
    ensures At(s, p, if items == [] then inner + [93] else ItemsRender(items))
    ensures ReadArray(s, p) ==
            Some((Array(ItemsDenote(items)), p + if items == [] then |inner| + 1 else |ItemsRender(items)|))
    decreases |s| - p, 3
  {
    hide ReadItems, SkipSpace, Spaces, ItemsRender, At;
    if Expects(s, p, 93) {
      items, inner := [], s[p..SkipSpace(s, p)];
      GapExpected(s, p, 93);
    } else {
      items := ItemsOf(s, p);
      inner := [];
      assert Spaces([]) by { NoSpaces(); }
    }
  }

  lemma NoSpaces()
    ensures Spaces([])
  {
  }

  lemma {:induction false} ItemsOf(s: bytes, p: nat) returns (items: seq<Item>)
    requires p <= |s| && ReadItems(s, p).Some?
    ensures items != [] && ItemsProper(items) && At(s, p, ItemsRender(items))
    ensures ReadItems(s, p) == Some((ItemsDenote(items), p + |ItemsRender(items)|))
    decreases |s| - p, 2
  {
    hide ReadItems, ReadValue, SkipSpace, Spaces, Proper, Render, Denotes, At, ItemsRender, ItemsDenote, ItemsProper;
    var e, k := ItemsGoOn(s, p);
    var t := TreeOf(s, p);
    var after := s[e..k];
    GapExpected(s, e, s[k]);
    ItemsRound(s, p, Denotes(t), e, k);
    var rest: seq<Item> := [];
    if s[k] == 44 {
      rest := ItemsOf(s, k + 1);
    }
    items := [Item(t, after)] + rest;
    ItemsBack(items, t, after, rest);
    ItemsParts(items);
    AtNothing(s, k + 1);
    JoinTail(s, p, Render(t), after, s[k], if rest == [] then [] else ItemsRender(rest));
  }

  /** Behind an element come white space and then a comma or the closing bracket. */
  lemma ItemsGoOn(s: bytes, p: nat) returns (e: nat, k: nat)
    requires p <= |s| && ReadItems(s, p).Some?
    ensures ReadValue(s, p).Some? && ReadValue(s, p).value.1 == e && k == SkipSpace(s, e) && e <= k < |s|
    ensures s[k] == 93 || (s[k] == 44 && ReadItems(s, k + 1).Some?)
    ensures Expects(s, e, s[k])
  {
    hide ReadValue, SkipSpace;
    e := ReadValue(s, p).value.1;
    k := SkipSpace(s, e);
  }

  lemma ItemsBack(items: seq<Item>, t: Tree, after: bytes, rest: seq<Item>)
    requires items == [Item(t, after)] + rest && Proper(t) && Spaces(after) && (rest == [] || ItemsProper(rest))
    ensures items[1..] == rest && ItemsProper(items)
  {
    hide Proper, Spaces;
    assert items[1..] == rest;
  }

  lemma JoinTail(s: bytes, p: nat, text: bytes, after: bytes, c: byte, rest: bytes)
    requires At(s, p, text) && At(s, p + |text|, after + [c]) && At(s, p + |text| + |after| + 1, rest)
    ensures At(s, p, text + (after + ([c] + rest)))
  {
    AtJoin(s, p + |text|, after + [c], rest);
    assert after + [c] + rest == after + ([c] + rest);
    AtJoin(s, p, text, after + ([c] + rest));
  }

  lemma AtNothing(s: bytes, p: nat)
    requires p <= |s|
    ensures At(s, p, [])
  {
  }

  lemma {:induction false} ObjectOf(s: bytes, p: nat) returns (entries: seq<Entry>, inner: bytes)
    requires p <= |s| && ReadObject(s, p).Some?
    ensures EntriesProper(entries) && Spaces(inner)
    ensures At(s, p, if entries == [] then inner + [125] else EntriesRender(entries))
    ensures ReadObject(s, p) ==
            Some((Object(EntriesDenote(entries, [])),
                  p + if entries == [] then |inner| + 1 else |EntriesRender(entries)|))
    decreases |s| - p, 4
  {
    hide ReadMembers, SkipSpace, Spaces, EntriesRender, At;
    if Expects(s, p, 125) {
      entries, inner := [], s[p..SkipSpace(s, p)];
      GapExpected(s, p, 125);
    } else {
      entries := EntriesOf(s, p, []);
      inner := [];
      assert Spaces([]) by { NoSpaces(); }
    }
  }

  lemma {:induction false} EntriesOf(s: bytes, p: nat, o: seq<Member>) returns (entries: seq<Entry>)
    requires p <= |s| && ReadMembers(s, p, o).Some?
    ensures entries != [] && EntriesProper(entries) && At(s, p, EntriesRender(entries))
    ensures ReadMembers(s, p, o) == Some((EntriesDenote(entries, o), p + |EntriesRender(entries)|))
    decreases |s| - p, 3
  {
    hide ReadMembers, ReadMember, SkipSpace, Spaces, EntryProper, EntryRender, EntryDenotes, At, EntriesRender,
         EntriesDenote, EntriesProper, Put;
    var e, k := EntriesGoOn(s, p, o);
    var entry := EntryOf(s, p, s[e..k]);
    var m := EntryDenotes(entry);
    GapExpected(s, e, s[k]);
    EntriesRound(s, p, o, m, e, k);
    var rest: seq<Entry> := [];
    if s[k] == 44 {
      rest := EntriesOf(s, k + 1, Put(o, m.key, m.value));
    }
    entries := [entry] + rest;
    EntriesBack(entries, entry, rest);
    EntriesParts(entries, o);
    AtNothing(s, k + 1);
    JoinTail(s, p, EntryRender(entry), s[e..k], s[k], if rest == [] then [] else EntriesRender(rest));
  }

  lemma EntriesGoOn(s: bytes, p: nat, o: seq<Member>) returns (e: nat, k: nat)
    requires p <= |s| && ReadMembers(s, p, o).Some?
    ensures ReadMember(s, p).Some? && ReadMember(s, p).value.1 == e && k == SkipSpace(s, e) && e <= k < |s|
    ensures var m := ReadMember(s, p).value.0;
            s[k] == 125 || (s[k] == 44 && ReadMembers(s, k + 1, Put(o, m.key, m.value)).Some?)
    ensures Expects(s, e, s[k])
    ensures Spaces(s[e..k])
  {
    hide ReadMember, SkipSpace, Put;
    e := ReadMember(s, p).value.1;
    k := SkipSpace(s, e);
    SkippedIsGap(s, e);
  }

  lemma EntriesBack(entries: seq<Entry>, entry: Entry, rest: seq<Entry>)
    requires entries == [entry] + rest && EntryProper(entry) && (rest == [] || EntriesProper(rest))
    ensures entries[1..] == rest && EntriesProper(entries)
  {
    hide EntryProper;
    assert entries[1..] == rest;
  }

  lemma {:induction false} EntryOf(s: bytes, p: nat, after: bytes) returns (entry: Entry)
    requires p <= |s| && ReadMember(s, p).Some? && Spaces(after)
    ensures EntryProper(entry) && At(s, p, EntryRender(entry)) && entry.after == after
    ensures ReadMember(s, p) == Some((EntryDenotes(entry), p + |EntryRender(entry)|))
    decreases |s| - p, 2
  {
    hide ReadValue, ReadString, SkipSpace, Spaces, AllProper, Proper, Render, PiecesText, PiecesMeaning, Denotes, At;
    var q := SkipSpace(s, p) + 1;
    GapExpected(s, p, 34);
    var key := PiecesOf(s, q);
    var k := q + |PiecesText(key)|;
    GapExpected(s, k, 58);
    var c := SkipSpace(s, k) + 1;
    var t := TreeOf(s, c);
    entry := Entry(s[p..q - 1], key, s[k..c - 1], t, after);
    EntryJoin(s, p, entry);
  }

  lemma EntryJoin(s: bytes, p: nat, e: Entry)
    requires At(s, p, e.gap + [34]) && At(s, p + |e.gap| + 1, PiecesText(e.key))
    requires var k := p + |e.gap| + 1 + |PiecesText(e.key)|;
             At(s, k, e.colonGap + [58]) && At(s, k + |e.colonGap| + 1, Render(e.tree))
    ensures At(s, p, EntryRender(e))
    ensures |EntryRender(e)| == |e.gap| + 1 + |PiecesText(e.key)| + |e.colonGap| + 1 + |Render(e.tree)|
  {
    hide PiecesText, Render, At;
    var k := p + |e.gap| + 1 + |PiecesText(e.key)|;
    AtJoin(s, k, e.colonGap + [58], Render(e.tree));
    var tail := e.colonGap + ([58] + Render(e.tree));
    assert e.colonGap + [58] + Render(e.tree) == tail;
    AtJoin(s, p + |e.gap| + 1, PiecesText(e.key), tail);
    AtJoin(s, p, e.gap + [34], PiecesText(e.key) + tail);
    assert e.gap + [34] + (PiecesText(e.key) + tail) == EntryRender(e);
  }

  // ----- the main result -----

  /** The parser reads the value v from p to e if and only if a proper tree that stands for v stands there. */
  lemma ReadsTheGrammar(s: bytes, p: nat, v: Value, e: nat)
    requires p <= |s|
    ensures ReadValue(s, p) == Some((v, e)) <==>
            exists t :: Stands(t, s, p) && Denotes(t) == v && e == p + |Render(t)|
  {
    hide ReadValue, Render, Denotes, Proper;
    forall t | Stands(t, s, p) ensures ReadValue(s, p) == Some((Denotes(t), p + |Render(t)|)) {
      ReadTree(s, p, t);
    }
    if ReadValue(s, p) == Some((v, e)) {
      var t := TreeOf(s, p);
    }
  }
}
