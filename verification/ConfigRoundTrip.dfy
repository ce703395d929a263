/**
 Reading back a file that was written from the table: ConfigFile/ConfigFile.cpp.
 */
module ConfigRoundTrip {
  import opened Bytes
  import opened ConfigTable
  import opened ConfigText

  // ----- the entries that survive -----

  /** No separator, line end or zero in a key, no line end or zero in a value. */
  predicate CleanValue(v: bytes) {
    v == [] || (!EndsString(v[0]) && CleanValue(v[1..]))
  }

  predicate CleanKey(k: bytes) {
    k == [] || (!EndsString(k[0]) && k[0] != EQUALS && CleanKey(k[1..]))
  }

  predicate Plain(e: Entry) {
    CleanKey(e.key) && (e.key == [] || e.key[0] != NUMBER_SIGN) && CleanValue(e.value)
  }

  predicate AllPlain(entries: seq<Entry>) {
    forall i :: 0 <= i < |entries| ==> Plain(entries[i])
  }

  predicate LineBreak(newline: bytes) { newline == [LF] || newline == [CR, LF] }

  // ----- one line -----

  lemma {:induction false} TrimmedPrefix(a: bytes, rest: bytes)
    requires CleanValue(a) && rest != [] && EndsString(rest[0])
    ensures Trimmed(a + rest) == a
  {
    if a == [] {
      assert a + rest == rest;
    } else {
      TrimmedPrefix(a[1..], rest);
      assert (a + rest)[1..] == a[1..] + rest;
    }
  }

  lemma {:induction false} CleanJoin(k: bytes, v: bytes)
    requires CleanKey(k) && CleanValue(v)
    ensures CleanValue(k + ([EQUALS] + v)) && FindEquals(k + ([EQUALS] + v)) == |k|
  {
    var s := k + ([EQUALS] + v);
    if k == [] {
      assert s == [EQUALS] + v && s[1..] == v;
    } else {
      CleanJoin(k[1..], v);
      assert s[1..] == k[1..] + ([EQUALS] + v);
    }
  }

  /** A plain entry is read back from its line. */
  lemma LineEntryOf(e: Entry, newline: bytes)
    requires Plain(e) && LineBreak(newline)
    ensures LineEntry(LineText(e, newline)) == Some(e)
  {
    var s := e.key + ([EQUALS] + e.value);
    assert LineText(e, newline) == s + newline;
    CleanJoin(e.key, e.value);
    TrimmedPrefix(s, newline);
    assert s[..|e.key|] == e.key && s[|e.key| + 1..] == e.value;
    assert LineText(e, newline)[0] == s[0] != NUMBER_SIGN;
  }

  /** fgets stops behind the first line feed. */
  lemma {:induction false} ChunkEndAt(text: bytes, p: nat, q: nat, n: nat)
    requires p <= q < |text| && text[q] == LF && q - p < n
    requires forall i :: p <= i < q ==> text[i] != LF
    ensures ChunkEnd(text, p, n) == q + 1
    decreases n
  {
    if p < q { ChunkEndAt(text, p + 1, q, n - 1); }
  }

  lemma {:induction false} CleanHasNoLineFeed(v: bytes, i: nat)
    requires CleanValue(v) && i < |v|
    ensures v[i] != LF
  {
    if i > 0 { CleanHasNoLineFeed(v[1..], i - 1); }
  }

  /** The line of a plain entry is one chunk: its only line feed is its last character. */
  lemma LineIsChunk(text: bytes, p: nat, e: Entry, newline: bytes)
    requires Plain(e) && LineBreak(newline) && |e.key| <= MAX_KEY && |e.value| <= MAX_VALUE
    requires At(text, p, LineText(e, newline))
    ensures ChunkEnd(text, p, MAX_CHUNK) == p + |LineText(e, newline)|
  {
    hide At, Plain, LineText;
    var line := LineText(e, newline);
    LineShape(e, newline);
    var q := p + |line| - 1;
    ByteAt(text, p, line, |line| - 1);
    forall i | p <= i < q ensures text[i] != LF {
      ByteAt(text, p, line, i - p);
    }
    ChunkEndAt(text, p, q, MAX_CHUNK);
  }

  lemma ByteAt(s: bytes, p: nat, b: bytes, i: nat)
    requires At(s, p, b) && i < |b|
    ensures p + |b| <= |s| && s[p + i] == b[i]
  {
    assert s[p..p + |b|][i] == b[i];
  }

  lemma LineShape(e: Entry, newline: bytes)
    requires Plain(e) && LineBreak(newline)
    ensures var line := LineText(e, newline);
            0 < |line| <= |e.key| + |e.value| + 3 && line[|line| - 1] == LF &&
            forall i :: 0 <= i < |line| - 1 ==> line[i] != LF
  {
    var line := LineText(e, newline);
    var s := e.key + ([EQUALS] + e.value);
    CleanJoin(e.key, e.value);
    assert line == s + newline;
    hide CleanValue, CleanKey, LineText;
    forall i | 0 <= i < |line| - 1 ensures line[i] != LF {
      if i < |s| {
        CleanHasNoLineFeed(s, i);
        assert line[i] == s[i];
      } else {
        assert line[i] == newline[i - |s|];
      }
    }
    assert line[|line| - 1] == newline[|newline| - 1];
  }

  // ----- compacted tables -----

  /** The first n entries in the first n slots. */
  function Filled(entries: seq<Entry>, n: nat): (t: slots)
    requires n <= |entries|
    ensures |t| == MAX_CONFIG && forall i :: 0 <= i < MAX_CONFIG ==> t[i] == if i < n then Some(entries[i]) else None
  {
    seq(MAX_CONFIG, i => if 0 <= i < n then Some(entries[i]) else None)
  }

  /** The same entries in the same order, moved to the front. */
  function Compact(t: slots): (r: slots) { Filled(Entries(t), |Entries(t)|) }

  predicate DistinctKeys(entries: seq<Entry>) {
    forall i, j :: 0 <= i < j < |entries| ==> entries[i].key != entries[j].key
  }

  predicate AllWithin(entries: seq<Entry>) {
    forall i :: 0 <= i < |entries| ==> |entries[i].key| <= MAX_KEY && |entries[i].value| <= MAX_VALUE
  }

  lemma StoreNext(entries: seq<Entry>, n: nat)
    requires n < |entries| <= MAX_CONFIG && DistinctKeys(entries) && AllWithin(entries)
    ensures Store(Filled(entries, n), entries[n]) == Filled(entries, n + 1)
  {
    var t := Filled(entries, n);
    var k, e := FindKey(t, entries[n].key, 0), FindEmpty(t, 0);
    assert k == |t| by { assert forall j :: 0 <= j < |t| && t[j].Some? ==> t[j] == Some(entries[j]); }
    assert e == n by { assert t[n] == None; }
    assert t[n := Some(entries[n])] == Filled(entries, n + 1);
    assert entries[n] == Entry(entries[n].key, entries[n].value);
  }

  predicate SmallEnough(entries: seq<Entry>, n: nat)
    requires n <= |entries|
  {
    forall i :: n <= i < |entries| ==> |entries[i].key| < 64 && |entries[i].value| < 128
  }

  // ----- files with other lines between those of the entries -----

  /** A line of a file, with its line end if it is ignored. */
  datatype Line = EntryLine(e: Entry) | Ignored(text: bytes)

  /** A comment, or a line without "=" before its first carriage return or zero: at most 199 characters up to the
      line feed. */
  predicate IsIgnored(t: bytes) {
    1 <= |t| <= 199 && t[|t| - 1] == 10 && (forall i :: 0 <= i < |t| - 1 ==> t[i] != 10) &&
    (t[0] == 35 || forall i :: 0 <= i < |t| && t[i] == 61 ==> exists j :: 0 <= j < i && (t[j] == 13 || t[j] == 0))
  }

  predicate LinesProper(lines: seq<Line>) {
    forall i :: 0 <= i < |lines| && lines[i].Ignored? ==> IsIgnored(lines[i].text)
  }

  function TextOf(line: Line, newline: bytes): (r: bytes) {
    match line
    case EntryLine(e) => LineText(e, newline)
    case Ignored(t) => t
  }

  function FileText(lines: seq<Line>, newline: bytes): (r: bytes) {
    if lines == [] then [] else TextOf(lines[0], newline) + FileText(lines[1..], newline)
  }

  function EntriesIn(lines: seq<Line>): (r: seq<Entry>) {
    if lines == [] then []
    else (match lines[0] case EntryLine(e) => [e] case Ignored(_) => []) + EntriesIn(lines[1..])
  }

  /** The end of the line is found within the chunk. */
  lemma {:induction false} FindLineEnd(t: bytes, k: nat) returns (n: nat)
    requires k < |t| && t[|t| - 1] == 10 && forall i :: 0 <= i < k ==> t[i] != 13 && t[i] != 10 && t[i] != 0
    ensures LineEnds(t, n)
    decreases |t| - k
  {
    if t[k] == 13 || t[k] == 10 || t[k] == 0 {
      n := k;
    } else {
      n := FindLineEnd(t, k + 1);
    }
  }

  lemma IgnoredHasNoEntry(t: bytes)
    requires IsIgnored(t)
    ensures LineEntry(t).None?
  {
    var n := FindLineEnd(t, 0);
    LineEntryExactly(t, n);
  }

  lemma IgnoredChunk(text: bytes, p: nat, t: bytes)
    requires IsIgnored(t) && At(text, p, t)
    ensures ChunkEnd(text, p, MAX_CHUNK) == p + |t|
  {
    hide At;
    var q := p + |t| - 1;
    ByteAt(text, p, t, |t| - 1);
    forall i | p <= i < q ensures text[i] != LF {
      ByteAt(text, p, t, i - p);
    }
    ChunkEndAt(text, p, q, MAX_CHUNK);
  }

  lemma SkipStep(text: bytes, p: nat, q: nat, before: slots)
    requires p < q <= |text| && ChunkEnd(text, p, MAX_CHUNK) == q && LineEntry(text[p..q]).None?
    ensures Load(text, p, before) == Load(text, q, before) && (Readable(text, p) <==> Readable(text, q))
  {
    hide LineEntry, ChunkEnd;
  }

  lemma SkipLine(text: bytes, p: nat, t: bytes, rest: bytes, before: slots)
    requires IsIgnored(t) && p <= |text| && text[p..] == t + rest
    ensures var q := p + |t|;
            q <= |text| && text[q..] == rest && Load(text, p, before) == Load(text, q, before) &&
            (Readable(text, p) <==> Readable(text, q))
  {
    hide LineEntry, ChunkEnd, Load, Readable;
    var q := p + |t|;
    assert text[p..q] == text[p..][..|t|] == t;
    assert text[q..] == text[p..][|t|..] == rest;
    IgnoredChunk(text, p, t);
    IgnoredHasNoEntry(t);
    hide IsIgnored;
    SkipStep(text, p, q, before);
  }

  /** Reading the lines from some point on fills the table with their entries. The text can be read without running
      over the local buffers exactly when those entries leave room for the terminators. */
  lemma {:induction false} LoadLines(text: bytes, p: nat, lines: seq<Line>, entries: seq<Entry>, n: nat, newline: bytes)
    requires n <= |entries| <= MAX_CONFIG && LineBreak(newline) && LinesProper(lines)
    requires DistinctKeys(entries) && AllWithin(entries) && AllPlain(entries)
    requires entries[n..] == EntriesIn(lines)
    requires p <= |text| && text[p..] == FileText(lines, newline)
    ensures Load(text, p, Filled(entries, n)) == Filled(entries, |entries|)
    ensures Readable(text, p) <==> SmallEnough(entries, n)
    decreases |lines|
  {
    hide Plain, LineText, LineEntry, ChunkEnd, Store, Filled, IsIgnored, LinesProper, AllPlain, AllWithin, DistinctKeys,
         SmallEnough, FileText, EntriesIn, Load, Readable;
    if lines == [] {
      NothingToLoad(text, p, entries, n, newline);
    } else {
      FirstLine(lines, newline);
      var rest := FileText(lines[1..], newline);
      match lines[0]
      case Ignored(t) =>
        SkipLine(text, p, t, rest, Filled(entries, n));
        LoadLines(text, p + |t|, lines[1..], entries, n, newline);
      case EntryLine(e) =>
        NextEntry(entries, n, e, EntriesIn(lines[1..]));
        NextLine(text, p, e, newline, rest);
        var q := p + |LineText(e, newline)|;
        StoreNext(entries, n);
        LoadLines(text, q, lines[1..], entries, n + 1, newline);
        LoadStep(text, p, q, e, Filled(entries, n));
    }
  }

  lemma NothingToLoad(text: bytes, p: nat, entries: seq<Entry>, n: nat, newline: bytes)
    requires p <= |text| && text[p..] == FileText([], newline)
    requires n <= |entries| <= MAX_CONFIG && entries[n..] == EntriesIn([])
    ensures p == |text| && n == |entries| && Load(text, p, Filled(entries, n)) == Filled(entries, n)
    ensures Readable(text, p) && SmallEnough(entries, n)
  {
  }

  lemma FirstLine(lines: seq<Line>, newline: bytes)
    requires lines != []
    ensures FileText(lines, newline) == TextOf(lines[0], newline) + FileText(lines[1..], newline)
    ensures EntriesIn(lines) ==
            (match lines[0] case EntryLine(e) => [e] + EntriesIn(lines[1..]) case Ignored(_) => EntriesIn(lines[1..]))
    ensures LinesProper(lines) <==> (lines[0].Ignored? ==> IsIgnored(lines[0].text)) && LinesProper(lines[1..])
  {
    hide IsIgnored, TextOf;
    assert forall i :: 1 <= i < |lines| ==> lines[i] == lines[1..][i - 1];
  }

  lemma NextEntry(entries: seq<Entry>, n: nat, e: Entry, rest: seq<Entry>)
    requires n <= |entries| && entries[n..] == [e] + rest && AllPlain(entries) && AllWithin(entries)
    ensures n < |entries| && entries[n] == e && entries[n + 1..] == rest && Plain(e)
    ensures |e.key| <= MAX_KEY && |e.value| <= MAX_VALUE
    ensures SmallEnough(entries, n) <==>
            (|e.key| < MAX_KEY && |e.value| < MAX_VALUE && SmallEnough(entries, n + 1))
  {
    hide Plain;
    assert entries[n..][0] == entries[n] && entries[n..][1..] == entries[n + 1..];
  }

  lemma NextLine(text: bytes, p: nat, e: Entry, newline: bytes, rest: bytes)
    requires Plain(e) && LineBreak(newline) && |e.key| <= MAX_KEY && |e.value| <= MAX_VALUE
    requires p <= |text| && text[p..] == LineText(e, newline) + rest
    ensures var q := p + |LineText(e, newline)|;
            p < q <= |text| && ChunkEnd(text, p, MAX_CHUNK) == q && LineEntry(text[p..q]) == Some(e) &&
            text[q..] == rest
  {
    var line := LineText(e, newline);
    var q := p + |line|;
    assert text[p..q] == text[p..][..|line|] == line;
    assert text[q..] == text[p..][|line|..] == rest;
    LineIsChunk(text, p, e, newline);
    LineEntryOf(e, newline);
  }

  lemma LoadStep(text: bytes, p: nat, q: nat, e: Entry, t: slots)
    requires p < q <= |text| && ChunkEnd(text, p, MAX_CHUNK) == q && LineEntry(text[p..q]) == Some(e)
    ensures Load(text, p, t) == Load(text, q, Store(t, e))
    ensures Readable(text, p) <==> |e.key| < MAX_KEY && |e.value| < MAX_VALUE && Readable(text, q)
  {
    hide LineEntry, ChunkEnd, Store;
  }

  // ----- what can be in a table after reading -----

  lemma {:induction false} TrimmedIsClean(chunk: bytes)
    ensures CleanValue(Trimmed(chunk))
  {
    if chunk != [] && !EndsString(chunk[0]) {
      TrimmedIsClean(chunk[1..]);
      assert Trimmed(chunk)[1..] == Trimmed(chunk[1..]);
    }
  }

  lemma {:induction false} SplitIsClean(t: bytes)
    requires CleanValue(t)
    ensures CleanKey(t[..FindEquals(t)])
    ensures FindEquals(t) < |t| ==> CleanValue(t[FindEquals(t) + 1..])
  {
    if t != [] {
      SplitIsClean(t[1..]);
      if t[0] == EQUALS {
        assert t[1..] == t[FindEquals(t) + 1..];
      } else {
        var i := FindEquals(t[1..]);
        assert t[..i + 1][1..] == t[1..][..i];
        if i + 1 < |t| { assert t[i + 2..] == t[1..][i + 1..]; }
      }
    }
  }

  /** Whatever a line holds, the entry taken from it is plain. */
  lemma LineEntryIsPlain(chunk: bytes)
    requires LineEntry(chunk).Some?
    ensures Plain(LineEntry(chunk).value)
  {
    TrimmedIsClean(chunk);
    SplitIsClean(Trimmed(chunk));
    var t := Trimmed(chunk);
    assert t == [] || t[0] == chunk[0];
  }

  predicate SlotsPlain(t: slots) {
    forall i :: 0 <= i < |t| && t[i].Some? ==> Plain(t[i].value)
  }

  lemma {:induction false} LoadedIsPlain(text: bytes, p: nat, t: slots)
    requires p <= |text| && SlotsPlain(t) && Distinct(t)
    ensures SlotsPlain(Load(text, p, t)) && Distinct(Load(text, p, t))
    decreases |text| - p
  {
    hide Plain, LineEntry, ChunkEnd;
    if p < |text| {
      var e := ChunkEnd(text, p, MAX_CHUNK);
      var entry := LineEntry(text[p..e]);
      if entry.Some? {
        LineEntryIsPlain(text[p..e]);
        SetRefinesMap(t, entry.value.key, entry.value.value);
        StoreKeepsPlain(t, entry.value);
        hide SlotsPlain, Distinct;
        LoadedIsPlain(text, e, Store(t, entry.value));
      } else {
        LoadedIsPlain(text, e, t);
      }
    }
  }

  lemma StoreKeepsPlain(t: slots, e: Entry)
    requires SlotsPlain(t) && Plain(e)
    ensures SlotsPlain(Store(t, e))
  {
    hide Plain;
    assert e == Entry(e.key, e.value);
  }

  // ----- the main results -----

  lemma {:induction false} EntriesWithin(t: slots)
    requires WithinLimits(t)
    ensures AllWithin(Entries(t))
    decreases |t|
  {
    if t != [] {
      EntriesWithin(t[..|t| - 1]);
    }
  }

  lemma {:induction false} EntriesOfFilled(entries: seq<Entry>, n: nat, k: nat)
    requires n <= |entries| <= MAX_CONFIG && k <= MAX_CONFIG
    ensures Entries(Filled(entries, n)[..k]) == if k <= n then entries[..k] else entries[..n]
    decreases k
  {
    if k > 0 {
      EntriesOfFilled(entries, n, k - 1);
      assert Filled(entries, n)[..k][..k - 1] == Filled(entries, n)[..k - 1];
    }
  }

  lemma {:induction false} SameEntriesSameMap(t: slots, u: slots)
    requires Distinct(t) && Distinct(u) && Entries(t) == Entries(u)
    ensures ToMap(t) == ToMap(u)
  {
    var m, n := ToMap(t), ToMap(u);
    forall k ensures k in m <==> k in n {
      if k in m { EntriesAreMap(t, Entry(k, m[k])); EntriesAreMap(u, Entry(k, m[k])); }
      if k in n { EntriesAreMap(t, Entry(k, n[k])); EntriesAreMap(u, Entry(k, n[k])); }
    }
    forall k | k in m ensures m[k] == n[k] {
      EntriesAreMap(t, Entry(k, m[k]));
      EntriesAreMap(u, Entry(k, m[k]));
    }
  }

  /** Compaction keeps the entries, their order and the map. */
  lemma CompactKeepsMap(t: slots)
    requires |t| == MAX_CONFIG && Distinct(t)
    ensures Entries(Compact(t)) == Entries(t) && Distinct(Compact(t)) && ToMap(Compact(t)) == ToMap(t)
  {
    var entries := Entries(t);
    EntriesAtMost(t);
    EntriesOfFilled(entries, |entries|, MAX_CONFIG);
    assert Compact(t)[..MAX_CONFIG] == Compact(t) && entries[..|entries|] == entries;
    EntriesAreMap(t, Entry([], []));
    assert Distinct(Compact(t));
    SameEntriesSameMap(Compact(t), t);
  }

  /** A file with the lines of a table of plain entries, and any ignored lines between them, restores the table with
      its slots compacted in the same order. */
  lemma IgnoredLinesKeepTable(t: slots, lines: seq<Line>, format: Format)
    requires |t| == MAX_CONFIG && Distinct(t) && WithinLimits(t) && AllPlain(Entries(t)) && !format.Mac?
    requires LinesProper(lines) && EntriesIn(lines) == Entries(t)
    ensures Load(FileText(lines, Newline(format)), 0, Empty()) == Compact(t)
    ensures Readable(FileText(lines, Newline(format)), 0) <==> SmallEnough(Entries(t), 0)
  {
    var entries := Entries(t);
    EntriesAtMost(t);
    EntriesWithin(t);
    EntriesAreMap(t, Entry([], []));
    assert Empty() == Filled(entries, 0);
    assert entries[0..] == entries;
    LoadLines(FileText(lines, Newline(format)), 0, lines, entries, 0, Newline(format));
  }

  function EntryLines(entries: seq<Entry>): (r: seq<Line>) {
    if entries == [] then [] else [EntryLine(entries[0])] + EntryLines(entries[1..])
  }

  lemma {:induction false} EntryLinesAre(entries: seq<Entry>, newline: bytes)
    ensures LinesProper(EntryLines(entries)) && EntriesIn(EntryLines(entries)) == entries
    ensures FileText(EntryLines(entries), newline) == LinesText(entries, newline)
  {
    hide LineText, FileText, EntriesIn, LinesProper, IsIgnored;
    if entries == [] {
      NoFile(newline);
    } else {
      EntryLinesAre(entries[1..], newline);
      var lines := EntryLines(entries);
      assert lines[0] == EntryLine(entries[0]) && lines[1..] == EntryLines(entries[1..]);
      FirstLine(lines, newline);
    }
  }

  lemma NoFile(newline: bytes)
    ensures FileText([], newline) == [] && EntriesIn([]) == [] && LinesProper([])
  {
  }

  function IgnoredLines(texts: seq<bytes>): (r: seq<Line>) {
    if texts == [] then [] else [Ignored(texts[0])] + IgnoredLines(texts[1..])
  }

  lemma {:induction false} IgnoredFirst(texts: seq<bytes>, entries: seq<Entry>, newline: bytes)
    requires forall i :: 0 <= i < |texts| ==> IsIgnored(texts[i])
    ensures var lines := IgnoredLines(texts) + EntryLines(entries);
            LinesProper(lines) && EntriesIn(lines) == entries &&
            FileText(lines, newline) == Flatten(texts) + LinesText(entries, newline)
  {
    hide IsIgnored, FileText, EntriesIn, LinesProper, EntryLines, LinesText;
    var lines := IgnoredLines(texts) + EntryLines(entries);
    if texts == [] {
      EntryLinesAre(entries, newline);
      assert lines == EntryLines(entries);
    } else {
      IgnoredFirst(texts[1..], entries, newline);
      assert lines[0] == Ignored(texts[0]) && lines[1..] == IgnoredLines(texts[1..]) + EntryLines(entries);
      FirstLine(lines, newline);
      var rest := Flatten(texts[1..]);
      assert texts[0] + (rest + LinesText(entries, newline)) == texts[0] + rest + LinesText(entries, newline);
    }
  }

  /** The file that write makes, with a header of comments and other ignored lines, restores the table. */
  lemma HeaderKeepsTable(t: slots, header: bytes, texts: seq<bytes>, format: Format)
    requires |t| == MAX_CONFIG && Distinct(t) && WithinLimits(t) && AllPlain(Entries(t)) && !format.Mac?
    requires header + Newline(format) == Flatten(texts) && forall i :: 0 <= i < |texts| ==> IsIgnored(texts[i])
    ensures var text := HeaderText(Some(header), Newline(format)) + LinesText(Entries(t), Newline(format));
            Load(text, 0, Empty()) == Compact(t) && (Readable(text, 0) <==> SmallEnough(Entries(t), 0))
  {
    hide IsIgnored;
    IgnoredFirst(texts, Entries(t), Newline(format));
    IgnoredLinesKeepTable(t, IgnoredLines(texts) + EntryLines(Entries(t)), format);
  }

  /** A table of plain entries is restored with its slots compacted in the same order. */
  lemma PlainTableRestored(t: slots, format: Format)
    requires |t| == MAX_CONFIG && Distinct(t) && WithinLimits(t) && AllPlain(Entries(t)) && !format.Mac?
    ensures Load(LinesText(Entries(t), Newline(format)), 0, Empty()) == Compact(t)
    ensures Readable(LinesText(Entries(t), Newline(format)), 0) <==> SmallEnough(Entries(t), 0)
  {
    EntryLinesAre(Entries(t), Newline(format));
    IgnoredLinesKeepTable(t, EntryLines(Entries(t)), format);
  }

  /**
   The round trip with its exact condition: for every table whose file can be read at all, write
   without a header and read give the same map if and only if every entry is plain.
   */
  lemma ConfigFileRoundTrip(t: slots, format: Format)
    requires |t| == MAX_CONFIG && Distinct(t) && WithinLimits(t) && !format.Mac?
    requires Readable(LinesText(Entries(t), Newline(format)), 0)
    ensures ToMap(Load(LinesText(Entries(t), Newline(format)), 0, Empty())) == ToMap(t) <==> AllPlain(Entries(t))
  {
    var text := LinesText(Entries(t), Newline(format));
    var u := Load(text, 0, Empty());
    LoadedIsPlain(text, 0, Empty());
    if AllPlain(Entries(t)) {
      PlainTableRestored(t, format);
      CompactKeepsMap(t);
    }
    if ToMap(u) == ToMap(t) {
      forall i | 0 <= i < |Entries(t)| ensures Plain(Entries(t)[i]) {
        var e := Entries(t)[i];
        EntriesAreMap(t, e);
        MapHolds(u, e.key, e.value);
        var j :| 0 <= j < |u| && u[j] == Some(Entry(e.key, e.value));
      }
    }
  }

  // ----- the MAC format -----

  lemma {:induction false} ChunkToEnd(text: bytes, p: nat, n: nat)
    requires p <= |text| <= p + n && forall i :: p <= i < |text| ==> text[i] != LF
    ensures ChunkEnd(text, p, n) == |text|
    decreases n
  {
    if p < |text| { ChunkToEnd(text, p + 1, n - 1); }
  }

  /** A line of a plain entry that ends with a carriage return has no line feed. */
  lemma MacLine(e: Entry, i: nat)
    requires Plain(e) && i < |LineText(e, [CR])|
    ensures LineText(e, [CR])[i] != LF
  {
    var s := e.key + ([EQUALS] + e.value);
    CleanJoin(e.key, e.value);
    assert LineText(e, [CR]) == s + [CR];
    if i < |s| { CleanHasNoLineFeed(s, i); }
  }

  lemma {:induction false} MacLines(entries: seq<Entry>, i: nat)
    requires AllPlain(entries) && i < |LinesText(entries, [CR])|
    ensures LinesText(entries, [CR])[i] != LF
    decreases |entries|
  {
    hide Plain, LineText;
    var line, rest := LineText(entries[0], [CR]), LinesText(entries[1..], [CR]);
    assert LinesText(entries, [CR]) == line + rest;
    if i < |line| {
      MacLine(entries[0], i);
    } else {
      MacLines(entries[1..], i - |line|);
    }
  }

  /** Only the first entry of a file in the MAC format is found, because fgets takes the whole file for one line. */
  lemma MacFileKeepsFirst(t: slots)
    requires |t| == MAX_CONFIG && Distinct(t) && WithinLimits(t) && AllPlain(Entries(t)) && Entries(t) != []
    requires |LinesText(Entries(t), Newline(Mac))| <= 199
    ensures Load(LinesText(Entries(t), Newline(Mac)), 0, Empty()) == Filled(Entries(t)[..1], 1)
    ensures ToMap(Filled(Entries(t)[..1], 1)) == ToMap(t) <==> |Entries(t)| == 1
  {
    hide Plain, LineText, LineEntry, ChunkEnd, Store;
    var entries := Entries(t);
    var text := LinesText(entries, [CR]);
    forall i | 0 <= i < |text| ensures text[i] != LF { MacLines(entries, i); }
    ChunkToEnd(text, 0, MAX_CHUNK);
    var e := entries[0];
    MacEntry(e, LinesText(entries[1..], [CR]));
    assert text[0..|text|] == text;
    EntriesAtMost(t);
    EntriesWithin(t);
    var first := entries[..1];
    assert Empty() == Filled(first, 0);
    StoreNext(first, 0);
    assert Load(text, 0, Empty()) == Load(text, |text|, Store(Empty(), e));
    FirstAlone(t);
  }

  lemma MacEntry(e: Entry, rest: bytes)
    requires Plain(e)
    ensures LineText(e, [CR]) + rest != [] && LineEntry(LineText(e, [CR]) + rest) == Some(e)
  {
    var s := e.key + ([EQUALS] + e.value);
    var text := LineText(e, [CR]) + rest;
    assert text == s + ([CR] + rest);
    CleanJoin(e.key, e.value);
    TrimmedPrefix(s, [CR] + rest);
    assert s[..|e.key|] == e.key && s[|e.key| + 1..] == e.value;
    assert text[0] == s[0] != NUMBER_SIGN;
  }

  /** A table is the same map as its first entry alone exactly if it has no other. */
  lemma FirstAlone(t: slots)
    requires |t| == MAX_CONFIG && Distinct(t) && Entries(t) != []
    ensures ToMap(Filled(Entries(t)[..1], 1)) == ToMap(t) <==> |Entries(t)| == 1
  {
    hide ToMap, Entries;
    var entries := Entries(t);
    EntriesAtMost(t);
    var u := Filled(entries[..1], 1);
    EntriesOfFilled(entries[..1], 1, MAX_CONFIG);
    assert u[..MAX_CONFIG] == u && entries[..1][..1] == entries[..1];
    assert Entries(u) == entries[..1];
    if |entries| == 1 {
      assert entries[..1] == entries;
      SameEntriesSameMap(u, t);
    } else {
      EntriesAreMap(t, entries[1]);
      EntriesAreMap(u, entries[1]);
      assert entries[1] in entries && entries[1] !in entries[..1];
    }
  }

  /** The entry with the key "#" and no value, alone in the table, is readable and lost. */
  lemma HashKeyIsLost()
    ensures var t := Filled([Entry([NUMBER_SIGN], [])], 1);
            var text := LinesText(Entries(t), Newline(Unix));
            |t| == MAX_CONFIG && Distinct(t) && WithinLimits(t) && Readable(text, 0) && !AllPlain(Entries(t)) &&
            ToMap(Load(text, 0, Empty())) != ToMap(t)
  {
    var e := Entry([NUMBER_SIGN], []);
    var t := Filled([e], 1);
    EntriesOfFilled([e], 1, MAX_CONFIG);
    assert t[..MAX_CONFIG] == t && [e][..1] == [e];
    assert LinesText([e], [LF]) == LineText(e, [LF]) + LinesText([e][1..], [LF]);
    var text: bytes := [NUMBER_SIGN, EQUALS, LF];
    assert LinesText(Entries(t), Newline(Unix)) == text;
    assert text[2] == LF;
    ChunkEndAt(text, 0, 2, MAX_CHUNK);
    assert text[0..3][0] == NUMBER_SIGN;
    assert Readable(text, 0);
    assert Entries(t)[0] == e && !Plain(e);
    ConfigFileRoundTrip(t, Unix);
  }
}
