/**
 The wildcard matcher isTopicMatched of MQTT/MQTTClient.h against a matcher that works level by
 level, as section 4.7.1 of MQTT 3.1.1 describes filters.
 */
module TopicFilter {
  import opened Bytes

  const SEPARATOR: byte := '/' as int
  const PLUS: byte := '+' as int
  const HASH: byte := '#' as int

  // ----- the two-pointer loop -----

  /** The end of the level that the position n lies in. */
  function LevelEnd(t: bytes, n: nat): (e: nat)
    requires n <= |t|
    ensures n <= e <= |t|
    decreases |t| - n
  {
    if n == |t| || t[n] == SEPARATOR then n else LevelEnd(t, n + 1)
  }

  /** The outcome of the loop from filter position f and topic position n. */
  predicate LoopResult(filter: bytes, f: nat, topic: bytes, n: nat)
    requires f <= |filter| && n <= |topic|
    decreases |filter| - f
  {
    if f == |filter| || n == |topic| then f == |filter| && n == |topic|
    else if topic[n] == SEPARATOR && filter[f] != SEPARATOR then false
    else if filter[f] == PLUS then LoopResult(filter, f + 1, topic, LevelEnd(topic, n + 1))
    else if filter[f] == HASH then LoopResult(filter, f + 1, topic, |topic|)
    else filter[f] == topic[n] && LoopResult(filter, f + 1, topic, n + 1)
  }

  /** isTopicMatched; the C string ends where the sequence ends. */
  method IsTopicMatched(filter: bytes, topic: bytes) returns (matched: bool)
    ensures matched == LoopResult(filter, 0, topic, 0)
    ensures FilterOk(Levels(filter, 0)) ==> matched == MatchLevels(Levels(filter, 0), Levels(topic, 0))
  {
    if FilterOk(Levels(filter, 0)) { LoopIsLevelMatcher(filter, 0, topic, 0); }
    hide MatchLevels, Levels, FilterOk;
    var curf: nat, curn: nat := 0, 0;
    while curf < |filter| && curn < |topic|
      invariant curf <= |filter| && curn <= |topic|
      invariant LoopResult(filter, curf, topic, curn) == LoopResult(filter, 0, topic, 0)
      decreases |filter| - curf
    {
      if topic[curn] == SEPARATOR && filter[curf] != SEPARATOR {
        return false;
      }
      if filter[curf] != PLUS && filter[curf] != HASH && filter[curf] != topic[curn] {
        return false;
      }
      if filter[curf] == PLUS {
        ghost var first := curn;
        var nextpos: nat := curn + 1;
        while nextpos < |topic| && topic[nextpos] != SEPARATOR
          invariant nextpos == curn + 1 <= |topic| && first <= curn
          invariant LevelEnd(topic, nextpos) == LevelEnd(topic, first + 1)
          decreases |topic| - nextpos
        {
          curn := curn + 1;
          nextpos := curn + 1;
        }
      } else if filter[curf] == HASH {
        curn := |topic| - 1;
      }
      curf := curf + 1;
      curn := curn + 1;
    }
    matched := curn == |topic| && curf == |filter|;
  }

  // ----- the level-by-level matcher -----

  /** The levels of t from position i on; the first one is the rest of the level at i. */
  function Levels(t: bytes, i: nat): (r: seq<bytes>)
    requires i <= |t|
    ensures |r| >= 1
    decreases |t| - i
  {
    if i == |t| then [[]]
    else if t[i] == SEPARATOR then [[]] + Levels(t, i + 1)
    else var rest := Levels(t, i + 1); [[t[i]] + rest[0]] + rest[1..]
  }

  predicate IsLiteral(level: bytes) {
    level == [] || (level[0] != PLUS && level[0] != HASH && IsLiteral(level[1..]))
  }

  /** Wildcards stand alone in their level, and "#" only in the last one. */
  predicate FilterOk(levels: seq<bytes>) {
    levels == [] ||
    ((IsLiteral(levels[0]) || levels[0] == [PLUS] || (levels[0] == [HASH] && |levels| == 1)) && FilterOk(levels[1..]))
  }

  /** A literal level matches an equal one, "+" one level that is not empty, and "#" all levels that
      remain provided there is one and it is not empty. */
  predicate MatchLevels(filter: seq<bytes>, topic: seq<bytes>) {
    if filter == [] || topic == [] then filter == [] && topic == []
    else if filter[0] == [HASH] then topic[0] != []
    else (if filter[0] == [PLUS] then topic[0] != [] else filter[0] == topic[0]) && MatchLevels(filter[1..], topic[1..])
  }

  lemma LevelsLiteralStep(t: bytes, i: nat)
    requires i < |t| && t[i] != SEPARATOR
    ensures Levels(t, i)[0] == [t[i]] + Levels(t, i + 1)[0]
    ensures Levels(t, i)[1..] == Levels(t, i + 1)[1..]
  {
  }

  /** Skipping to the end of a level leaves the levels behind it as they are. */
  lemma {:induction false} LevelsAtEnd(t: bytes, n: nat)
    requires n <= |t|
    ensures Levels(t, LevelEnd(t, n))[0] == [] && Levels(t, LevelEnd(t, n))[1..] == Levels(t, n)[1..]
    decreases |t| - n
  {
    if n < |t| && t[n] != SEPARATOR {
      LevelsAtEnd(t, n + 1);
      LevelsLiteralStep(t, n);
    }
  }

  /** How the first levels begin, by the character at the position. */
  lemma FirstLevel(t: bytes, n: nat)
    requires n <= |t|
    ensures Levels(t, n)[0] == [] <==> n == |t| || t[n] == SEPARATOR
    ensures n < |t| && t[n] == SEPARATOR ==> Levels(t, n)[1..] == Levels(t, n + 1)
    ensures n == |t| ==> Levels(t, n)[1..] == []
    ensures n < |t| && t[n] != SEPARATOR ==> Levels(t, n)[0][0] == t[n] && Levels(t, n)[0][1..] == Levels(t, n + 1)[0]
  {
  }

  /** Both positions move over one equal literal character. */
  lemma LiteralStep(filter: bytes, f: nat, topic: bytes, n: nat)
    requires f < |filter| && n < |topic| && filter[f] == topic[n] != SEPARATOR
    requires filter[f] != PLUS && filter[f] != HASH && FilterOk(Levels(filter, f))
    ensures FilterOk(Levels(filter, f + 1))
    ensures MatchLevels(Levels(filter, f), Levels(topic, n)) == MatchLevels(Levels(filter, f + 1), Levels(topic, n + 1))
  {
    FirstLevel(filter, f);
    FirstLevel(topic, n);
    LevelsLiteralStep(filter, f);
    LevelsLiteralStep(topic, n);
    var a, b := Levels(filter, f), Levels(filter, f + 1);
    var c, d := Levels(topic, n), Levels(topic, n + 1);
    hide Levels;
    assert IsLiteral(a[0]) && IsLiteral(b[0]);
    assert a[0] == c[0] <==> b[0] == d[0];
  }

  /** A separator is passed on both sides, or on neither. */
  lemma SeparatorStep(filter: bytes, f: nat, topic: bytes, n: nat)
    requires f < |filter| && n < |topic| && filter[f] == SEPARATOR && FilterOk(Levels(filter, f))
    ensures FilterOk(Levels(filter, f + 1))
    ensures MatchLevels(Levels(filter, f), Levels(topic, n)) <==>
            topic[n] == SEPARATOR && MatchLevels(Levels(filter, f + 1), Levels(topic, n + 1))
  {
    FirstLevel(filter, f);
    FirstLevel(topic, n);
    hide Levels;
  }

  lemma PlusStep(filter: bytes, f: nat, topic: bytes, n: nat)
    requires f < |filter| && n < |topic| && filter[f] == PLUS && FilterOk(Levels(filter, f))
    ensures FilterOk(Levels(filter, f + 1))
    ensures MatchLevels(Levels(filter, f), Levels(topic, n)) <==>
            topic[n] != SEPARATOR && MatchLevels(Levels(filter, f + 1), Levels(topic, LevelEnd(topic, n + 1)))
  {
    FirstLevel(filter, f);
    FirstLevel(topic, n);
    LevelsLiteralStep(filter, f);
    var a, b := Levels(filter, f), Levels(filter, f + 1);
    assert a[0] == [PLUS] && b[0] == [];
    if topic[n] != SEPARATOR {
      LevelsAtEnd(topic, n + 1);
      LevelsLiteralStep(topic, n);
    }
    hide Levels, LevelEnd;
  }

  lemma HashStep(filter: bytes, f: nat, topic: bytes, n: nat)
    requires f < |filter| && n < |topic| && filter[f] == HASH && FilterOk(Levels(filter, f))
    ensures f + 1 == |filter|
    ensures MatchLevels(Levels(filter, f), Levels(topic, n)) <==> topic[n] != SEPARATOR
  {
    FirstLevel(filter, f);
    FirstLevel(topic, n);
    LevelsLiteralStep(filter, f);
    FirstLevel(filter, f + 1);
    var a, b := Levels(filter, f), Levels(filter, f + 1);
    assert a[0] == [HASH] && |a| == 1 && b[0] == [];
    assert |b| == |b[1..]| + 1 == 1;
    hide Levels;
  }

  /** One side is exhausted: they match only if both are. */
  lemma EndStep(filter: bytes, f: nat, topic: bytes, n: nat)
    requires f <= |filter| && n <= |topic| && (f == |filter| || n == |topic|)
    ensures MatchLevels(Levels(filter, f), Levels(topic, n)) <==> f == |filter| && n == |topic|
  {
    FirstLevel(filter, f);
    FirstLevel(topic, n);
    hide Levels;
  }

  /**
   The main result: for every well-formed filter and every topic name, the loop decides exactly what
   the level-by-level matcher decides; here from any two positions.
   */
  lemma {:induction false} LoopIsLevelMatcher(filter: bytes, f: nat, topic: bytes, n: nat)
    requires f <= |filter| && n <= |topic| && FilterOk(Levels(filter, f))
    ensures LoopResult(filter, f, topic, n) == MatchLevels(Levels(filter, f), Levels(topic, n))
    decreases |filter| - f
  {
    hide Levels, MatchLevels, FilterOk;
    if f == |filter| || n == |topic| {
      EndStep(filter, f, topic, n);
    } else if filter[f] == SEPARATOR {
      SeparatorStep(filter, f, topic, n);
      LoopIsLevelMatcher(filter, f + 1, topic, n + 1);
    } else if filter[f] == PLUS {
      PlusStep(filter, f, topic, n);
      LoopIsLevelMatcher(filter, f + 1, topic, LevelEnd(topic, n + 1));
    } else if filter[f] == HASH {
      HashStep(filter, f, topic, n);
    } else if filter[f] == topic[n] {
      LiteralStep(filter, f, topic, n);
      LoopIsLevelMatcher(filter, f + 1, topic, n + 1);
    } else {
      LiteralMismatch(filter, f, topic, n);
    }
  }

  lemma LiteralMismatch(filter: bytes, f: nat, topic: bytes, n: nat)
    requires f < |filter| && n < |topic| && filter[f] != topic[n] && filter[f] != SEPARATOR
    requires filter[f] != PLUS && filter[f] != HASH
    ensures !MatchLevels(Levels(filter, f), Levels(topic, n))
  {
    FirstLevel(filter, f);
    FirstLevel(topic, n);
    hide Levels;
  }

  // ----- the standard -----

  predicate IsWildcard(level: bytes) { level == [PLUS] || level == [HASH] }

  /** Section 4.7.1 of MQTT 3.1.1: "+" matches one level, also an empty one, and "#" the parent level and
      any number of levels below it. */
  predicate StandardMatch(filter: seq<bytes>, topic: seq<bytes>) {
    if filter == [[HASH]] then true
    else if filter == [] || topic == [] then filter == [] && topic == []
    else (filter[0] == [PLUS] || filter[0] == topic[0]) && StandardMatch(filter[1..], topic[1..])
  }

  /** At the position of every wildcard the topic has a level that is not empty. */
  predicate WildcardsFilled(filter: seq<bytes>, topic: seq<bytes>) {
    forall i :: 0 <= i < |filter| && IsWildcard(filter[i]) ==> i < |topic| && topic[i] != []
  }

  lemma FilledTail(filter: seq<bytes>, topic: seq<bytes>)
    requires filter != [] && topic != []
    ensures WildcardsFilled(filter, topic) <==>
            (IsWildcard(filter[0]) ==> topic[0] != []) && WildcardsFilled(filter[1..], topic[1..])
  {
    var f, t := filter[1..], topic[1..];
    if WildcardsFilled(filter, topic) {
      forall i | 0 <= i < |f| && IsWildcard(f[i]) ensures i < |t| && t[i] != [] {
        assert f[i] == filter[i + 1];
      }
    } else {
      var i :| 0 <= i < |filter| && IsWildcard(filter[i]) && !(i < |topic| && topic[i] != []);
      if i > 0 { assert filter[i] == f[i - 1]; }
    }
  }

  lemma {:induction false} LevelsAgainstStandard(filter: seq<bytes>, topic: seq<bytes>)
    requires FilterOk(filter)
    ensures MatchLevels(filter, topic) <==> StandardMatch(filter, topic) && WildcardsFilled(filter, topic)
  {
    hide WildcardsFilled, FilterOk;
    if filter == [[HASH]] {
      if topic == [] {
        NoTopic(filter);
      } else {
        FilledTail(filter, topic);
        assert filter[1..] == [];
        NoFilter(topic[1..]);
      }
    } else if filter == [] {
      NoFilter(topic);
    } else if topic != [] {
      FilterTail(filter);
      FilledTail(filter, topic);
      LevelsAgainstStandard(filter[1..], topic[1..]);
    }
  }

  lemma FilterTail(filter: seq<bytes>)
    requires filter != [] && FilterOk(filter)
    ensures FilterOk(filter[1..]) && (filter[0] == [HASH] ==> filter == [[HASH]])
  {
    assert !IsLiteral([HASH]);
  }

  lemma NoFilter(topic: seq<bytes>)
    ensures WildcardsFilled([], topic)
  {
  }

  lemma NoTopic(filter: seq<bytes>)
    requires filter == [[HASH]]
    ensures !WildcardsFilled(filter, [])
  {
    assert IsWildcard(filter[0]);
  }

  /** Exactly where the loop departs from the standard: it matches what the standard matches, except that
      every wildcard needs a level of its own that is not empty. */
  lemma LoopAgainstStandard(filter: bytes, topic: bytes)
    requires FilterOk(Levels(filter, 0))
    ensures LoopResult(filter, 0, topic, 0) <==>
            StandardMatch(Levels(filter, 0), Levels(topic, 0)) && WildcardsFilled(Levels(filter, 0), Levels(topic, 0))
  {
    LoopIsLevelMatcher(filter, 0, topic, 0);
    LevelsAgainstStandard(Levels(filter, 0), Levels(topic, 0));
  }

  lemma LastLevel(t: bytes, i: nat)
    requires i + 1 == |t| && t[i] != SEPARATOR
    ensures Levels(t, i) == [[t[i]]]
  {
    assert Levels(t, i + 1) == [[]];
    assert [t[i]] + [] == [t[i]];
  }

  /** "a/#" covers "a" in the standard, but not in the loop. */
  lemma ParentLevelIsMissed()
    ensures var filter, topic: bytes := ['a' as int, SEPARATOR, HASH], ['a' as int];
            StandardMatch(Levels(filter, 0), Levels(topic, 0)) && !LoopResult(filter, 0, topic, 0)
  {
    var filter: bytes, topic: bytes := ['a' as int, SEPARATOR, HASH], ['a' as int];
    LastLevel(filter, 2);
    assert Levels(filter, 1) == [[]] + [[HASH]];
    assert ['a' as int] + [] == ['a' as int];
    assert Levels(filter, 0) == [['a' as int], [HASH]];
    LastLevel(topic, 0);
    assert Levels(filter, 0)[1..] == [[HASH]];
  }
}
