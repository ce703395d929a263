/**
 The text form of the table: ConfigFile::write and ConfigFile::read of ConfigFile/ConfigFile.cpp.
 A file is its contents; opening it always succeeds.
 */
module ConfigText {
  import opened Bytes
  import opened ConfigTable

  const EQUALS: byte := '=' as int
  const NUMBER_SIGN: byte := '#' as int
  const LF: byte := 10
  const CR: byte := 13

  /** fgets reads at most this many characters into the line buffer of 64 + 8 + 128 bytes. */
  const MAX_CHUNK: nat := 199

  datatype Format = Unix | Mac | Dos

  function Newline(format: Format): (r: bytes) {
    match format
    case Unix => [LF]
    case Mac => [CR]
    case Dos => [CR, LF]
  }

  // ----- write -----

  function LineText(e: Entry, newline: bytes): (r: bytes) { e.key + ([EQUALS] + (e.value + newline)) }

  function LinesText(entries: seq<Entry>, newline: bytes): (r: bytes) {
    if entries == [] then [] else LineText(entries[0], newline) + LinesText(entries[1..], newline)
  }

  function HeaderText(header: Option<bytes>, newline: bytes): (r: bytes) {
    if header.Some? then header.value + newline else []
  }

  lemma LinesFirst(e: Entry, rest: seq<Entry>, newline: bytes)
    ensures LinesText([e] + rest, newline) == LineText(e, newline) + LinesText(rest, newline)
  {
    hide LineText;
    assert ([e] + rest)[1..] == rest;
  }

  lemma {:induction false} LinesAppend(entries: seq<Entry>, e: Entry, newline: bytes)
    ensures LinesText(entries + [e], newline) == LinesText(entries, newline) + LineText(e, newline)
  {
    hide LineText;
    if entries == [] {
      LinesFirst(e, [], newline);
      assert [e] + [] == entries + [e];
    } else {
      hide LinesText;
      var first, rest := entries[0], entries[1..];
      LinesAppend(rest, e, newline);
      LinesFirst(first, rest, newline);
      LinesFirst(first, rest + [e], newline);
      assert entries == [first] + rest && entries + [e] == [first] + (rest + [e]);
      var line, lines, last := LineText(first, newline), LinesText(rest, newline), LineText(e, newline);
      assert line + (lines + last) == line + lines + last;
    }
  }

  /** ConfigFile::write: the file is the header, if any, and one line for every entry in slot order. */
  method Write(cfg: ConfigFile, header: Option<bytes>, format: Format) returns (text: bytes)
    requires cfg.Valid()
    ensures text == HeaderText(header, Newline(format)) + LinesText(Entries(cfg.configlist[..]), Newline(format))
  {
    hide LineText, LinesText, Entries;
    var newline := Newline(format);
    text := [];
    if header.Some? {
      text := header.value + newline;
    }
    NoLines(newline);
    ghost var start := text;
    ghost var t := cfg.configlist[..];
    for i := 0 to MAX_CONFIG
      invariant text == start + LinesText(Entries(t[..i]), newline)
    {
      EntriesStep(t, i);
      var entry := cfg.configlist[i];
      if entry.Some? {
        LinesAppend(Entries(t[..i]), entry.value, newline);
        text := text + FormatLine(entry.value, newline);
        assert text == start + (LinesText(Entries(t[..i]), newline) + LineText(entry.value, newline));
      }
    }
    assert t[..MAX_CONFIG] == t;
  }

  lemma NoLines(newline: bytes)
    ensures LinesText(Entries([]), newline) == []
  {
  }

  lemma EntriesStep(t: slots, i: nat)
    requires i < |t|
    ensures Entries(t[..i + 1]) == if t[i].Some? then Entries(t[..i]) + [t[i].value] else Entries(t[..i])
  {
    assert t[..i + 1][..i] == t[..i];
  }

  /** The bytes of a header and of one line, for each of the three line ends. */
  lemma WrittenBytes(h: bytes, e: Entry)
    ensures HeaderText(None, [10]) == [] && HeaderText(Some(h), Newline(Unix)) == h + [10]
    ensures HeaderText(Some(h), Newline(Mac)) == h + [13] && HeaderText(Some(h), Newline(Dos)) == h + [13, 10]
    ensures LinesText([e], Newline(Unix)) == e.key + [61] + e.value + [10]
    ensures LinesText([e], Newline(Mac)) == e.key + [61] + e.value + [13]
    ensures LinesText([e], Newline(Dos)) == e.key + [61] + e.value + [13, 10]
  {
    OneLine(e, [10]);
    OneLine(e, [13]);
    OneLine(e, [13, 10]);
  }

  lemma OneLine(e: Entry, newline: bytes)
    ensures LinesText([e], newline) == e.key + [61] + e.value + newline
  {
    LinesFirst(e, [], newline);
    assert [e] + [] == [e];
    assert LineText(e, newline) + [] == e.key + [61] + e.value + newline;
  }

  /** fprintf with "%s=%s%s". */
  function FormatLine(e: Entry, newline: bytes): (r: bytes)
    ensures r == LineText(e, newline)
  {
    e.key + [EQUALS] + e.value + newline
  }

  // ----- read -----

  /** Where fgets stops: behind a line feed, at the end of the text, or after n characters. */
  function ChunkEnd(text: bytes, p: nat, n: nat): (e: nat)
    requires p <= |text|
    ensures p <= e <= |text| && (p < |text| && n > 0 ==> p < e) && e <= p + n
    decreases n
  {
    if n == 0 || p == |text| then p else if text[p] == LF then p + 1 else ChunkEnd(text, p + 1, n - 1)
  }

  /** A chunk is at most 199 characters, with a line feed at most at its end, and ends sooner only behind a line feed
      or at the end of the text. */
  lemma {:induction false} ChunkExactly(text: bytes, p: nat, n: nat)
    requires p < |text| && n <= MAX_CHUNK
    ensures var e := ChunkEnd(text, p, n);
            e - p <= n <= 199 && (forall i :: p <= i < e - 1 ==> text[i] != 10) &&
            (e - p < n ==> e == |text| || (e > p && text[e - 1] == 10))
    decreases n
  {
    if n > 0 && text[p] != LF && p + 1 < |text| { ChunkExactly(text, p + 1, n - 1); }
  }

  predicate EndsString(c: byte) { c == CR || c == LF || c == 0 }

  /** The string left in the line buffer once its line ends are zeroed. */
  function Trimmed(chunk: bytes): (r: bytes)
    ensures |r| <= |chunk|
  {
    if chunk == [] || EndsString(chunk[0]) then [] else [chunk[0]] + Trimmed(chunk[1..])
  }

  /** The first position of "=", or the length. */
  function FindEquals(t: bytes): (i: nat)
    ensures i <= |t| && (i < |t| ==> t[i] == EQUALS)
  {
    if t == [] || t[0] == EQUALS then 0 else 1 + FindEquals(t[1..])
  }

  /** The entry on a line, if it is no comment and has a separator. */
  function LineEntry(chunk: bytes): (r: Option<Entry>) {
    if chunk == [] || chunk[0] == NUMBER_SIGN then None
    else
      var t := Trimmed(chunk);
      var i := FindEquals(t);
      if i == |t| then None else Some(Entry(t[..i], t[i + 1..]))
  }

  /** The slots after the rest of the text is read. */
  function Load(text: bytes, p: nat, t: slots): (r: slots)
    requires p <= |text|
    decreases |text| - p
  {
    if p == |text| then t
    else
      var e := ChunkEnd(text, p, MAX_CHUNK);
      var entry := LineEntry(text[p..e]);
      Load(text, e, if entry.Some? then Store(t, entry.value) else t)
  }

  /** Keys and values fit the local arrays of 64 and 128 bytes that they are copied to. */
  predicate EntryFits(e: Option<Entry>) {
    e.Some? ==> |e.value.key| < MAX_KEY && |e.value.value| < MAX_VALUE
  }

  predicate Readable(text: bytes, p: nat)
    requires p <= |text|
    decreases |text| - p
  {
    p == |text| ||
    var e := ChunkEnd(text, p, MAX_CHUNK);
    EntryFits(LineEntry(text[p..e])) && Readable(text, e)
  }

  /** The line buffer holds a chunk and its terminating zero. */
  predicate Buffered(s: bytes, chunk: bytes) {
    |chunk| < |s| && s[..|chunk|] == chunk && s[|chunk|] == 0
  }

  lemma BufferedIs(s: bytes, chunk: bytes)
    requires |chunk| < |s| && s[..|chunk|] == chunk && s[|chunk|] == 0
    ensures Buffered(s, chunk)
  {
  }

  lemma ChunkStep(text: bytes, p: nat, n: nat)
    requires p < |text| && n > 0
    ensures ChunkEnd(text, p, n) == if text[p] == LF then p + 1 else ChunkEnd(text, p + 1, n - 1)
  {
  }

  lemma ChunkStop(text: bytes, p: nat, n: nat)
    requires p <= |text|
    ensures p == |text| || n == 0 ==> ChunkEnd(text, p, n) == p
  {
  }

  /** fgets. */
  method Fgets(text: bytes, p: nat, buf: array<byte>) returns (e: nat)
    requires p < |text| && buf.Length == MAX_CHUNK + 1
    modifies buf
    ensures e == ChunkEnd(text, p, MAX_CHUNK)
    ensures Buffered(buf[..], text[p..e])
  {
    hide ChunkEnd, Buffered;
    e := p;
    var n := 0;
    ghost var end := ChunkEnd(text, p, MAX_CHUNK);
    while n < MAX_CHUNK && e < |text|
      invariant n <= MAX_CHUNK && e == p + n <= |text|
      invariant buf[..n] == text[p..e]
      invariant ChunkEnd(text, e, MAX_CHUNK - n) == end
    {
      ChunkStep(text, e, MAX_CHUNK - n);
      ghost var before := buf[..n];
      buf[n] := text[e];
      assert buf[..n + 1] == before + [text[e]] == text[p..e + 1];
      n, e := n + 1, e + 1;
      if text[e - 1] == LF {
        break;
      }
    }
    ChunkStop(text, e, MAX_CHUNK - n);
    ghost var chunk := buf[..n];
    buf[n] := 0;
    BufferedIs(buf[..], chunk);
  }

  /** strlen of the buffer. */
  method Strlen(buf: array<byte>, ghost chunk: bytes) returns (len: nat)
    requires Buffered(buf[..], chunk)
    ensures len <= |chunk| && buf[len] == 0 && forall i :: 0 <= i < len ==> buf[i] == chunk[i] != 0
  {
    len := 0;
    assert buf[..][|chunk|] == 0;
    while buf[len] != 0
      invariant len <= |chunk| && forall i :: 0 <= i < len ==> buf[i] == chunk[i] != 0
      decreases |chunk| - len
    {
      assert buf[..|chunk|][len] == chunk[len];
      len := len + 1;
    }
  }

  /** The characters up to the first line end, line feed or zero. */
  lemma {:induction false} TrimmedIs(chunk: bytes, n: nat)
    requires n <= |chunk| && (forall i :: 0 <= i < n ==> !EndsString(chunk[i]))
    requires n < |chunk| ==> EndsString(chunk[n])
    ensures Trimmed(chunk) == chunk[..n]
    decreases n
  {
    if n > 0 {
      TrimmedIs(chunk[1..], n - 1);
      assert chunk[..n] == [chunk[0]] + chunk[1..][..n - 1];
    }
  }

  lemma {:induction false} FindEqualsIs(t: bytes, n: nat)
    requires n <= |t| && (forall i :: 0 <= i < n ==> t[i] != EQUALS) && (n < |t| ==> t[n] == EQUALS)
    ensures FindEquals(t) == n
    decreases n
  {
    if n > 0 { FindEqualsIs(t[1..], n - 1); }
  }

  /** The line in the chunk has n characters: the first carriage return, line feed or zero ends it. */
  predicate LineEnds(chunk: bytes, n: nat) {
    n <= |chunk| && (forall i :: 0 <= i < n ==> chunk[i] != 13 && chunk[i] != 10 && chunk[i] != 0) &&
    (n < |chunk| ==> chunk[n] == 13 || chunk[n] == 10 || chunk[n] == 0)
  }

  /** A line without "=" and a line that begins with "#" have no entry; any other line is split at its first "=". */
  lemma LineEntryExactly(chunk: bytes, n: nat)
    requires LineEnds(chunk, n)
    ensures LineEntry(chunk).None? <==> chunk == [] || chunk[0] == 35 || 61 !in chunk[..n]
    ensures forall i :: 0 <= i < n && chunk[i] == 61 && 61 !in chunk[..i] && chunk[0] != 35 ==>
                          LineEntry(chunk) == Some(Entry(chunk[..i], chunk[i + 1..n]))
  {
    TrimmedIs(chunk, n);
    var t := chunk[..n];
    forall i | 0 <= i < n && chunk[i] == 61 && 61 !in chunk[..i] && chunk[0] != 35
      ensures LineEntry(chunk) == Some(Entry(chunk[..i], chunk[i + 1..n]))
    {
      assert t[..i] == chunk[..i] && t[i + 1..] == chunk[i + 1..n];
      forall j | 0 <= j < i ensures t[j] != 61 {
        assert chunk[..i][j] == t[j];
      }
      FindEqualsIs(t, i);
    }
    if 61 !in t {
      assert forall j :: 0 <= j < n ==> t[j] in t;
      FindEqualsIs(t, n);
    } else {
      assert FindEquals(t) < |t| by { FindsEquals(t); }
    }
  }

  lemma {:induction false} FindsEquals(t: bytes)
    requires 61 in t
    ensures FindEquals(t) < |t|
  {
    if t[0] != 61 { FindsEquals(t[1..]); }
  }

  /** The string t stands in the buffer, with its closing zero. */
  ghost predicate HoldsString(s: bytes, t: bytes) {
    |t| < |s| && s[..|t|] == t && s[|t|] == 0 && 0 !in t
  }

  lemma HoldsAt(s: bytes, t: bytes, i: nat)
    requires HoldsString(s, t) && i <= |t|
    ensures |t| < |s| && (s[i] == 0 <==> i == |t|) && (i < |t| ==> s[i] == t[i])
  {
    if i < |t| { assert s[..|t|][i] == s[i]; }
  }

  lemma HoldsSlice(s: bytes, t: bytes, i: nat, j: nat)
    requires HoldsString(s, t) && i <= j <= |t|
    ensures s[i..j] == t[i..j]
  {
    assert s[..|t|][i..j] == s[i..j];
  }

  /** strchr with the separator, the closing zero when there is none. */
  method Strchr(buf: array<byte>, ghost t: bytes) returns (n: nat)
    requires HoldsString(buf[..], t)
    ensures n == FindEquals(t)
    ensures n < buf.Length && (buf[n] == EQUALS <==> n < |t|)
  {
    hide HoldsString, FindEquals;
    n := 0;
    HoldsAt(buf[..], t, 0);
    while buf[n] != 0 && buf[n] != EQUALS
      invariant n <= |t| < buf.Length
      invariant forall i :: 0 <= i < n ==> t[i] != EQUALS
      decreases |t| - n
    {
      HoldsAt(buf[..], t, n);
      n := n + 1;
      HoldsAt(buf[..], t, n);
    }
    HoldsAt(buf[..], t, n);
    FindEqualsIs(t, n);
  }

  /** strcpy of the rest of the string from a position on. */
  method Strcpy(buf: array<byte>, from: nat, ghost t: bytes) returns (r: bytes)
    requires HoldsString(buf[..], t) && from <= |t|
    ensures r == t[from..]
  {
    hide HoldsString;
    var end := from;
    HoldsAt(buf[..], t, end);
    while buf[end] != 0
      invariant from <= end <= |t| < buf.Length
      decreases |t| - end
    {
      HoldsAt(buf[..], t, end);
      end := end + 1;
    }
    HoldsAt(buf[..], t, end);
    HoldsSlice(buf[..], t, from, end);
    r := buf[..][from..end];
  }

  /** One round of the loop of ConfigFile::read after fgets: the line ends are zeroed in place, and the
      buffer is split at the first separator. */
  method SplitLine(buf: array<byte>, ghost chunk: bytes) returns (entry: Option<Entry>)
    requires chunk != [] && Buffered(buf[..], chunk)
    modifies buf
    ensures entry == LineEntry(chunk)
  {
    assert buf[0] == buf[..][..|chunk|][0] == chunk[0];
    hide Buffered, Trimmed, FindEquals, EndsString, HoldsString;
    if buf[0] == NUMBER_SIGN {
      return None;
    }
    var len := Strlen(buf, chunk);
    TrimInPlace(buf, chunk, len);
    ghost var t := Trimmed(chunk);
    var n := Strchr(buf, t);
    if buf[n] == EQUALS {
      var value := Strcpy(buf, n + 1, t);
      HoldsSlice(buf[..], t, 0, n);
      return Some(Entry(buf[..][0..n], value));
    }
    return None;
  }

  method TrimInPlace(buf: array<byte>, ghost chunk: bytes, len: nat)
    requires Buffered(buf[..], chunk) && len <= |chunk| && buf[len] == 0
    requires forall i :: 0 <= i < len ==> buf[i] == chunk[i] != 0
    modifies buf
    ensures HoldsString(buf[..], Trimmed(chunk))
  {
    ghost var cut: nat := len;
    if len < |chunk| { assert buf[..][..|chunk|][len] == chunk[len]; }
    for i := 0 to len
      invariant cut <= len && buf[len] == 0
      invariant cut < len ==> cut < i
      invariant forall k :: 0 <= k < cut ==> buf[k] == chunk[k] != 0
      invariant forall k :: 0 <= k < i && k < cut ==> !EndsString(chunk[k])
      invariant cut < len ==> EndsString(chunk[cut]) && buf[cut] == 0
      invariant forall k :: i <= k < len ==> buf[k] == chunk[k] != 0
    {
      if buf[i] == CR || buf[i] == LF {
        buf[i] := 0;
        if cut == len { cut := i; }
      }
    }
    TrimmedIs(chunk, cut);
    assert buf[..][..cut] == chunk[..cut];
  }

  /** ConfigFile::read. */
  method Read(cfg: ConfigFile, text: bytes)
    requires cfg.Valid() && Readable(text, 0)
    modifies cfg.configlist
    ensures cfg.Valid()
    ensures cfg.configlist[..] == Load(text, 0, Empty())
  {
    cfg.RemoveAll();
    var buf := new byte[MAX_CHUNK + 1](_ => 0);
    var p := 0;
    hide LineEntry, ChunkEnd, Store, FindKey, FindEmpty, ToMap, Distinct, WithinLimits, Buffered;
    while p < |text|
      invariant p <= |text| && cfg.Valid() && Readable(text, p)
      invariant Load(text, p, cfg.configlist[..]) == Load(text, 0, Empty())
      decreases |text| - p
    {
      var e := Fgets(text, p, buf);
      ghost var chunk := text[p..e];
      ghost var before := cfg.configlist[..];
      var entry := SplitLine(buf, chunk);
      if entry.Some? {
        var ok := cfg.SetValue(Some(entry.value.key), Some(entry.value.value));
      }
      p := e;
    }
  }
}
