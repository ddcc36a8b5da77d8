/**
 Topic names and filters (section 4.7 of MQTT 5.0), as matched by
 crates/mqtt5-protocol/src/topic_matching.rs. Strings are their UTF-8 bytes, so lengths are
 those the source measures; every character it looks for is ASCII.
 */
module TopicMatching {
  import opened Options
  import opened Bytes

  const NUL: byte := 0x00
  const HASH: byte := 0x23
  const DOLLAR: byte := 0x24
  const PLUS: byte := 0x2B
  const SLASH: byte := 0x2F

  type Level = seq<byte>

  // ---- levels ----

  function Split(s: seq<byte>): (levels: seq<Level>)
    ensures |levels| >= 1
  {
    if s == [] then [[]]
    else if s[0] == SLASH then [[]] + Split(s[1..])
    else
      var rest := Split(s[1..]);
      [[s[0]] + rest[0]] + rest[1..]
  }

  function Join(levels: seq<Level>): seq<byte>
    requires levels != []
  {
    if |levels| == 1 then levels[0] else levels[0] + [SLASH] + Join(levels[1..])
  }

  lemma {:induction false} JoinSplit(s: seq<byte>)
    ensures Join(Split(s)) == s
  {
    if s != [] {
      JoinSplit(s[1..]);
      var rest := Split(s[1..]);
      if s[0] == SLASH {
        assert ([[]] + rest)[1..] == rest;
      } else if |rest| > 1 {
        assert ([[s[0]] + rest[0]] + rest[1..])[1..] == rest[1..];
        assert s == [s[0]] + (rest[0] + [SLASH] + Join(rest[1..]));
      }
    }
  }

  predicate NoSlash(levels: seq<Level>) {
    forall k :: 0 <= k < |levels| ==> SLASH !in levels[k]
  }

  lemma {:induction false} SplitNoSlash(s: seq<byte>)
    ensures NoSlash(Split(s))
  {
    if s != [] {
      SplitNoSlash(s[1..]);
    }
  }

  // Splitting "level / rest".
  lemma {:induction false} SplitLevel(level: Level, rest: seq<byte>)
    requires SLASH !in level
    ensures Split(level + [SLASH] + rest) == [level] + Split(rest)
    ensures Split(level) == [level]
  {
    if level == [] {
      assert ([] + [SLASH] + rest)[1..] == rest;
    } else {
      SplitLevel(level[1..], rest);
      assert (level + [SLASH] + rest)[1..] == level[1..] + [SLASH] + rest;
      assert ([level[1..]] + Split(rest))[1..] == Split(rest);
      assert [level[0]] + level[1..] == level;
    }
  }

  lemma {:induction false} SplitJoin(levels: seq<Level>)
    requires levels != [] && NoSlash(levels)
    ensures Split(Join(levels)) == levels
  {
    if |levels| == 1 {
      SplitLevel(levels[0], []);
    } else {
      SplitJoin(levels[1..]);
      SplitLevel(levels[0], Join(levels[1..]));
    }
  }

  // A character other than the separator occurs in the string iff it occurs in some level.
  lemma {:induction false} CharInLevel(s: seq<byte>, c: byte)
    requires c != SLASH
    ensures c in s <==> exists k :: 0 <= k < |Split(s)| && c in Split(s)[k]
  {
    if s != [] {
      CharInLevel(s[1..], c);
      var rest, all := Split(s[1..]), Split(s);
      if s[0] == SLASH {
        assert forall k :: 0 <= k < |rest| ==> all[k + 1] == rest[k];
      } else {
        assert forall k :: 1 <= k < |rest| ==> all[k] == rest[k];
        assert all[0] == [s[0]] + rest[0];
      }
    }
  }

  lemma FirstLevel(s: seq<byte>)
    requires s != []
    ensures s[0] == SLASH ==> Split(s)[0] == []
    ensures s[0] != SLASH ==> Split(s)[0] != [] && Split(s)[0][0] == s[0]
  {
  }

  // ---- validity ----

  predicate IsValidTopic(topic: seq<byte>) {
    NUL !in topic && PLUS !in topic && HASH !in topic && |topic| <= 65535
  }

  // Wildcards stand alone in their level, and # only in the last.
  predicate LevelsOk(levels: seq<Level>) {
    forall k :: 0 <= k < |levels| ==>
                  && (HASH in levels[k] ==> levels[k] == [HASH] && k == |levels| - 1)
                  && (PLUS in levels[k] ==> levels[k] == [PLUS])
  }

  predicate ValidFilter(filter: seq<byte>) {
    filter != [] && NUL !in filter && |filter| <= 65535 && LevelsOk(Split(filter))
  }

  // The loop stops at the first level with a #; the rule it decides is about all levels.
  method IsValidFilter(filter: seq<byte>) returns (r: bool)
    ensures r <==> ValidFilter(filter)
  {
    if filter == [] || NUL in filter || |filter| > 65535 {
      return false;
    }
    var parts := Split(filter);
    var i := 0;
    while i < |parts|
      invariant 0 <= i <= |parts|
      invariant forall k :: 0 <= k < i ==> HASH !in parts[k] && (PLUS in parts[k] ==> parts[k] == [PLUS])
    {
      var part := parts[i];
      if HASH in part {
        return part == [HASH] && i == |parts| - 1;
      }
      if PLUS in part && part != [PLUS] {
        return false;
      }
      i := i + 1;
    }
    return true;
  }

  // ---- matching, as the source does it ----

  function MatchParts(topic: seq<Level>, filter: seq<Level>): bool
    decreases |filter|
  {
    if filter != [] && filter[0] == [HASH] then |filter| == 1
    else if topic == [] && filter == [] then true
    else if topic == [] || filter == [] then false
    else (filter[0] == [PLUS] || filter[0] == topic[0]) && MatchParts(topic[1..], filter[1..])
  }

  predicate Matches(topic: seq<byte>, filter: seq<byte>) {
    if topic == [] then false
    else if !IsValidTopic(topic) || !ValidFilter(filter) then false
    else if topic == filter then true
    else if topic[0] == DOLLAR && (filter[0] == HASH || filter[0] == PLUS) then false
    else if filter == [HASH] then true
    else MatchParts(Split(topic), Split(filter))
  }

  // ---- matching, as section 4.7 states it ----

  predicate LevelMatches(topic: Level, filter: Level) {
    filter == [PLUS] || filter == topic
  }

  // Level by level; a final # stands for its parent and anything below.
  predicate LevelwiseMatch(topic: seq<Level>, filter: seq<Level>)
    requires filter != []
  {
    var n := |filter| - 1;
    if filter[n] == [HASH] then
      n <= |topic| && forall k :: 0 <= k < n ==> LevelMatches(topic[k], filter[k])
    else
      n + 1 == |topic| && forall k :: 0 <= k <= n ==> LevelMatches(topic[k], filter[k])
  }

  // The Server must not match filters that start with a wildcard to topics that start with $.
  predicate StandardMatch(topic: seq<byte>, filter: seq<byte>) {
    && topic != [] && IsValidTopic(topic) && ValidFilter(filter)
    && !(topic[0] == DOLLAR && Split(filter)[0] in {[PLUS], [HASH]})
    && LevelwiseMatch(Split(topic), Split(filter))
  }

  lemma {:induction false} MatchPartsIsLevelwise(topic: seq<Level>, filter: seq<Level>)
    requires filter != [] && LevelsOk(filter)
    ensures MatchParts(topic, filter) <==> LevelwiseMatch(topic, filter)
    decreases |filter|
  {
    if |filter| == 1 {
      if filter[0] != [HASH] && topic != [] {
        assert MatchParts(topic[1..], filter[1..]) <==> topic[1..] == [];
      }
    } else {
      assert HASH !in filter[0];
      assert filter[0] != [HASH] by {
        assert HASH in [HASH];
      }
      if topic != [] {
        var t, f := topic[1..], filter[1..];
        assert LevelsOk(f) by {
          assert forall k :: 0 <= k < |f| ==> f[k] == filter[k + 1];
        }
        MatchPartsIsLevelwise(t, f);
        LevelwiseTail(topic, filter);
      }
    }
  }

  lemma LevelwiseTail(topic: seq<Level>, filter: seq<Level>)
    requires |filter| > 1 && topic != []
    ensures LevelwiseMatch(topic, filter) <==>
            LevelMatches(topic[0], filter[0]) && LevelwiseMatch(topic[1..], filter[1..])
  {
    var t, f := topic[1..], filter[1..];
    assert f[|f| - 1] == filter[|filter| - 1];
    assert forall k :: 0 <= k < |f| ==> f[k] == filter[k + 1];
    assert forall k :: 0 <= k < |t| ==> t[k] == topic[k + 1];
    if LevelMatches(topic[0], filter[0]) && LevelwiseMatch(t, f) {
      forall k | 0 <= k < |filter| && k < |topic| && (filter[|filter| - 1] == [HASH] ==> k < |filter| - 1)
        ensures LevelMatches(topic[k], filter[k])
      {
        if k > 0 {
          assert LevelMatches(t[k - 1], f[k - 1]);
        }
      }
    }
    if LevelwiseMatch(topic, filter) {
      forall k | 0 <= k < |f| && k < |t| && (f[|f| - 1] == [HASH] ==> k < |f| - 1)
        ensures LevelMatches(t[k], f[k])
      {
        assert LevelMatches(topic[k + 1], filter[k + 1]);
      }
    }
  }

  // No level of a valid topic is a wildcard.
  lemma TopicLevels(topic: seq<byte>)
    requires IsValidTopic(topic)
    ensures forall k :: 0 <= k < |Split(topic)| ==> HASH !in Split(topic)[k] && PLUS !in Split(topic)[k]
    ensures LevelsOk(Split(topic))
    ensures forall k :: 0 <= k < |Split(topic)| ==> Split(topic)[k] != [HASH] && Split(topic)[k] != [PLUS]
  {
    CharInLevel(topic, HASH);
    CharInLevel(topic, PLUS);
    assert HASH in [HASH] && PLUS in [PLUS];
  }

  // A valid filter starts with a wildcard character iff its first level is a wildcard.
  lemma RootWildcard(filter: seq<byte>)
    requires ValidFilter(filter)
    ensures (filter[0] == HASH || filter[0] == PLUS) <==> Split(filter)[0] in {[PLUS], [HASH]}
  {
    FirstLevel(filter);
    var first := Split(filter)[0];
    if filter[0] == HASH || filter[0] == PLUS {
      assert first[0] in first;
    }
  }

  // The matcher, with its fast paths and early returns, decides exactly the standard's rule.
  lemma MatchesIsStandard(topic: seq<byte>, filter: seq<byte>)
    ensures Matches(topic, filter) <==> StandardMatch(topic, filter)
  {
    if topic != [] && IsValidTopic(topic) && ValidFilter(filter) {
      RootWildcard(filter);
      TopicLevels(topic);
      MatchPartsIsLevelwise(Split(topic), Split(filter));
      if filter == [HASH] {
        SplitLevel([HASH], []);
      }
    }
  }

  // ---- consequences ----

  predicate WildcardFree(filter: seq<byte>) {
    HASH !in filter && PLUS !in filter
  }

  // A valid filter without wildcards matches itself and nothing else.
  lemma ExactFilter(topic: seq<byte>, filter: seq<byte>)
    requires ValidFilter(filter) && WildcardFree(filter)
    ensures Matches(topic, filter) <==> topic == filter
  {
    if Matches(topic, filter) {
      MatchesIsStandard(topic, filter);
      TopicLevels(filter);
      var t, f := Split(topic), Split(filter);
      assert forall k :: 0 <= k < |f| ==> LevelMatches(t[k], f[k]) && t[k] == f[k];
      assert t == f;
      JoinSplit(topic);
      JoinSplit(filter);
    }
  }

  lemma LevelwisePlus(topic: seq<Level>, filter: seq<Level>, k: nat)
    requires k < |filter| && filter[k] != [HASH] && LevelwiseMatch(topic, filter)
    ensures LevelwiseMatch(topic, filter[k := [PLUS]])
  {
    var wide, n := filter[k := [PLUS]], |filter| - 1;
    assert wide[n] == [HASH] <==> filter[n] == [HASH];
    forall j | 0 <= j < |filter| && j < |topic| && (filter[n] == [HASH] ==> j < n)
      ensures LevelMatches(topic[j], wide[j])
    {
      assert LevelMatches(topic[j], filter[j]);
    }
  }

  // Replacing a level other than # by + never loses a topic, except that a topic starting
  // with $ is lost exactly when the first level is the one replaced.
  lemma PlusWidens(topic: seq<byte>, filter: seq<byte>, k: nat)
    requires Matches(topic, filter) && k < |Split(filter)| && Split(filter)[k] != [HASH]
    requires ValidFilter(Join(Split(filter)[k := [PLUS]]))
    ensures Matches(topic, Join(Split(filter)[k := [PLUS]])) <==> !(k == 0 && topic[0] == DOLLAR)
  {
    hide Matches, ValidFilter, IsValidTopic, LevelwiseMatch, Split, Join;
    var t, f := Split(topic), Split(filter);
    var wide := f[k := [PLUS]];
    SplitNoSlash(filter);
    SplitJoin(wide);
    MatchesIsStandard(topic, filter);
    MatchesIsStandard(topic, Join(wide));
    LevelwisePlus(t, f, k);
    assert wide[0] == if k == 0 then [PLUS] else f[0];
  }

  lemma Prepended(c: byte, a: seq<Level>, b: seq<Level>)
    requires a != []
    ensures [[]] + (a + b) == ([[]] + a) + b
    ensures [[c] + (a + b)[0]] + (a + b)[1..] == ([[c] + a[0]] + a[1..]) + b
  {
    assert (a + b)[1..] == a[1..] + b;
  }

  lemma {:induction false} SplitAppend(s: seq<byte>, rest: seq<byte>)
    ensures Split(s + [SLASH] + rest) == Split(s) + Split(rest)
  {
    if s == [] {
      assert ([] + [SLASH] + rest)[1..] == rest;
    } else {
      SplitAppend(s[1..], rest);
      assert (s + [SLASH] + rest)[1..] == s[1..] + [SLASH] + rest;
      Prepended(s[0], Split(s[1..]), Split(rest));
    }
  }

  lemma OneMoreLevel(topic: seq<byte>, wildcard: byte)
    requires topic != [] && IsValidTopic(topic) && |topic| <= 65533 && wildcard in {PLUS, HASH}
    ensures
      var filter := topic + [SLASH] + [wildcard];
      Split(filter) == Split(topic) + [[wildcard]] && ValidFilter(filter)
  {
    hide Split;
    SplitAppend(topic, [wildcard]);
    SplitLevel([wildcard], []);
    TopicLevels(topic);
    var levels := Split(topic) + [[wildcard]];
    assert forall k :: 0 <= k < |levels| - 1 ==> levels[k] == Split(topic)[k];
  }

  // A # is wider than a +: "topic/#" matches the topic itself, "topic/+" does not.
  lemma HashIsWiderThanPlus(topic: seq<byte>)
    requires topic != [] && IsValidTopic(topic) && |topic| <= 65533
    ensures Matches(topic, topic + [SLASH] + [HASH])
    ensures ValidFilter(topic + [SLASH] + [PLUS]) && !Matches(topic, topic + [SLASH] + [PLUS])
  {
    hide Matches, ValidFilter, Split;
    OneMoreLevel(topic, HASH);
    OneMoreLevel(topic, PLUS);
    TopicLevels(topic);
    MatchesIsStandard(topic, topic + [SLASH] + [HASH]);
    MatchesIsStandard(topic, topic + [SLASH] + [PLUS]);
  }

  // Replacing any non-empty tail of levels by # never loses a topic, with the same exception.
  lemma HashWidens(topic: seq<byte>, filter: seq<byte>, n: nat)
    requires Matches(topic, filter) && n < |Split(filter)|
    requires ValidFilter(Join(Split(filter)[..n] + [[HASH]]))
    ensures Matches(topic, Join(Split(filter)[..n] + [[HASH]])) <==> !(n == 0 && topic[0] == DOLLAR)
  {
    var t, f := Split(topic), Split(filter);
    var wide := f[..n] + [[HASH]];
    SplitNoSlash(filter);
    SplitJoin(wide);
    MatchesIsStandard(topic, filter);
    MatchesIsStandard(topic, Join(wide));
    assert LevelwiseMatch(t, wide) by {
      assert forall j :: 0 <= j < n ==> wide[j] == f[j] && LevelMatches(t[j], f[j]);
    }
    assert n > 0 ==> wide[0] == f[0];
  }

  // ---- shared subscriptions ----

  // "$share/"
  const SHARE_PREFIX: seq<byte> := [DOLLAR, 0x73, 0x68, 0x61, 0x72, 0x65, SLASH]

  // The index of the first separator.
  function FirstSlash(s: seq<byte>): (r: Option<nat>)
    ensures r.Some? ==> r.value < |s| && s[r.value] == SLASH && SLASH !in s[..r.value]
    ensures r.None? ==> SLASH !in s
  {
    if s == [] then None
    else if s[0] == SLASH then Some(0)
    else match FirstSlash(s[1..])
         case None => None
         case Some(k) =>
           assert s[..k + 1] == [s[0]] + s[1..][..k];
           Some(k + 1)
  }

  // The filter that a shared subscription "$share/group/filter" subscribes to
  // (crates/mqtt5-protocol/src/validation/shared_subscription.rs).
  function StripShared(filter: seq<byte>): (r: seq<byte>)
    ensures r == filter || exists group :: SLASH !in group && filter == SHARE_PREFIX + group + [SLASH] + r
  {
    if SHARE_PREFIX <= filter then
      var after := filter[|SHARE_PREFIX|..];
      match FirstSlash(after)
      case Some(k) =>
        assert filter == SHARE_PREFIX + after[..k] + [SLASH] + after[k + 1..];
        after[k + 1..]
      case None => filter
    else filter
  }

  lemma {:induction false} FirstSlashAt(a: seq<byte>, rest: seq<byte>)
    requires SLASH !in a
    ensures FirstSlash(a + [SLASH] + rest) == Some(|a|)
  {
    if a != [] {
      FirstSlashAt(a[1..], rest);
      assert (a + [SLASH] + rest)[1..] == a[1..] + [SLASH] + rest;
    }
  }

  // Stripping removes exactly the prefix and a group name without separators.
  lemma StripShareGroup(group: seq<byte>, filter: seq<byte>)
    requires SLASH !in group
    ensures StripShared(SHARE_PREFIX + group + [SLASH] + filter) == filter
  {
    var s := SHARE_PREFIX + group + [SLASH] + filter;
    assert s[|SHARE_PREFIX|..] == group + [SLASH] + filter;
    FirstSlashAt(group, filter);
  }

  // ---- the characters ----

  lemma SpecialCharacters()
    ensures NUL == 0 && Ascii("#") == [HASH] && Ascii("+") == [PLUS] && Ascii("/") == [SLASH] && Ascii("$") == [DOLLAR]
    ensures Ascii("$share/") == SHARE_PREFIX
  {
  }

  // A topic name is a filter without wildcards: the two validity rules agree on everything else.
  lemma TopicIsPlainFilter(topic: seq<byte>)
    ensures topic != [] && IsValidTopic(topic) <==> ValidFilter(topic) && WildcardFree(topic)
  {
    if topic != [] && IsValidTopic(topic) {
      TopicLevels(topic);
    }
  }

  // For instance, neither may hold a NUL or have 65536 bytes.
  lemma InvalidTopics(topic: seq<byte>)
    ensures 0 in topic ==> !IsValidTopic(topic) && !ValidFilter(topic)
    ensures |topic| > 65535 ==> !IsValidTopic(topic) && !ValidFilter(topic)
    ensures 0x2B in topic || 0x23 in topic ==> !IsValidTopic(topic)
  {
  }
}
