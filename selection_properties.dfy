/**
 * What `generate_random_topics` promises, proved about the specification functions of module
 * RandomLogic: the difficulty mapping, the direction and single round of the fallback, the scope of
 * the collected keys, the length of the selection, the absence of repeated keys, and the rendered
 * output. Every property holds for every permutation the shuffle may pick.
 */
module SelectionProperties {
  import opened Common
  import opened PyStrings
  import opened QuestionCounts
  import opened RandomLogic

  // ---------------------------------------------------------------------------------------
  // Difficulty mapping

  lemma {:induction false} ExtendedLevelsMember(difficulties: seq<string>, level: string)
    requires forall d :: d in difficulties ==> d in BloomsMap
    ensures level in ExtendedLevels(difficulties) <==> exists d :: d in difficulties && level in BloomsMap[d]
  {
    if difficulties != [] {
      var p, last := difficulties[..|difficulties| - 1], difficulties[|difficulties| - 1];
      assert difficulties == p + [last];
      ExtendedLevelsMember(p, level);
      if level in ExtendedLevels(difficulties) && level !in BloomsMap[last] {
        var d :| d in p && level in BloomsMap[d];
        assert d in difficulties;
      }
    }
  }

  /**
   * `map_difficulty_to_blooms` returns each level of the given difficulties exactly once:
   * easy gives Remembering and Understanding, medium Applying and Analyzing, hard Evaluating and Creating.
   */
  lemma DifficultyMapping(difficulties: seq<string>)
    requires forall d :: d in difficulties ==> d in BloomsMap
    ensures forall level :: level in PrimaryBlooms(difficulties) <==>
              exists d :: d in difficulties && level in BloomsMap[d]
    ensures NoDup(PrimaryBlooms(difficulties))
    ensures forall level :: level in PrimaryBlooms(difficulties) ==> level in Hierarchy
  {
    var extended := ExtendedLevels(difficulties);
    forall level ensures level in PrimaryBlooms(difficulties) <==> exists d :: d in difficulties && level in BloomsMap[d] {
      assert level in PrimaryBlooms(difficulties) <==> level in Elems(extended);
      ExtendedLevelsMember(difficulties, level);
    }
    forall level | level in PrimaryBlooms(difficulties) ensures level in Hierarchy {
      var d :| d in difficulties && level in BloomsMap[d];
      assert d == "easy" || d == "medium" || d == "hard";
    }
  }

  // ---------------------------------------------------------------------------------------
  // Fallback levels

  lemma HierarchyDistinct()
    ensures NoDup(Hierarchy)
  {
    forall i, j | 0 <= i < j < |Hierarchy| ensures Hierarchy[i] != Hierarchy[j] {
      if i == 2 && j == 5 {
        assert Hierarchy[i][0] != Hierarchy[j][0];
      } else {
        assert |Hierarchy[i]| != |Hierarchy[j]|;
      }
    }
  }

  lemma HierarchyPlain()
    ensures forall level :: level in Hierarchy ==> '(' !in level && '\n' !in level
  {
    forall i | 0 <= i < |Hierarchy| ensures '(' !in Hierarchy[i] && '\n' !in Hierarchy[i] {
      var level := Hierarchy[i];
      forall k | 0 <= k < |level| ensures level[k] != '(' && level[k] != '\n' {
        assert 'A' <= level[k] <= 'z';
      }
    }
  }

  /** The position of each level of the hierarchy is its rank, Remembering being 0. */
  lemma HierarchyRanks()
    ensures forall i :: 0 <= i < |Hierarchy| ==> LevelIndex(Hierarchy[i]) == i
  {
    HierarchyDistinct();
  }

  /** Every fallback level lies in the hierarchy strictly below every recognised level of `current`. */
  lemma FallbackBelow(current: seq<string>)
    ensures forall level, b :: level in FallbackBlooms(current) && b in current && b in Hierarchy ==>
              level in Hierarchy && LevelIndex(level) < LevelIndex(b)
  {
    HierarchyRanks();
    var fallback := FallbackBlooms(current);
    forall level, b | level in fallback && b in current && b in Hierarchy
      ensures level in Hierarchy && LevelIndex(level) < LevelIndex(b)
    {
      var j :| 0 <= j < |fallback| && fallback[j] == level;
      FallbackLevel(current, j);
    }
  }

  /** Position `j` of the fallback holds the level of rank `j`, below every recognised level of `current`. */
  lemma FallbackLevel(current: seq<string>, j: nat)
    requires j < |FallbackBlooms(current)|
    ensures FallbackBlooms(current)[j] == Hierarchy[j]
    ensures forall b :: b in current && b in Hierarchy ==> j < LevelIndex(b)
  {
    var indices := KnownIndices(current);
    forall b | b in current && b in Hierarchy ensures j < LevelIndex(b) {
      assert LevelIndex(b) in indices;
    }
  }

  /** The fallback stops right at the lowest recognised level: every level below all of them is included. */
  lemma FallbackMaximal(current: seq<string>)
    ensures forall level :: level in Hierarchy && (exists b :: b in current && b in Hierarchy)
              && (forall b :: b in current && b in Hierarchy ==> LevelIndex(level) < LevelIndex(b))
              ==> level in FallbackBlooms(current)
  {
    HierarchyRanks();
    var indices := KnownIndices(current);
    var fallback := FallbackBlooms(current);
    forall level | level in Hierarchy && (exists b :: b in current && b in Hierarchy)
        && (forall b :: b in current && b in Hierarchy ==> LevelIndex(level) < LevelIndex(b))
      ensures level in fallback
    {
      var b0 :| b0 in current && b0 in Hierarchy;
      assert LevelIndex(b0) in indices;
      var m := MinOf(indices);
      var b :| b in current && b in Hierarchy && m == LevelIndex(b);
      assert fallback[LevelIndex(level)] == level;
    }
  }

  /** There is no fallback exactly when `current` holds Remembering or holds no recognised level. */
  lemma FallbackEmpty(current: seq<string>)
    ensures FallbackBlooms(current) == [] <==>
              ("Remembering" in current || forall b :: b in current ==> b !in Hierarchy)
  {
    var indices := KnownIndices(current);
    assert LevelIndex("Remembering") == 0 by { HierarchyRanks(); }
    forall b | b in current && b in Hierarchy ensures LevelIndex(b) in indices { }
    if indices != [] {
      var m := MinOf(indices);
      var b :| b in current && b in Hierarchy && m == LevelIndex(b);
      assert |FallbackBlooms(current)| == m;
      assert m == 0 ==> b == Hierarchy[0];
    }
  }

  /** A request that includes `easy` never falls back. */
  lemma EasyNeverFallsBack(difficulties: seq<string>)
    requires forall d :: d in difficulties ==> d in BloomsMap
    requires "easy" in difficulties
    ensures FallbackBlooms(PrimaryBlooms(difficulties)) == []
  {
    DifficultyMapping(difficulties);
    assert "Remembering" in BloomsMap["easy"];
    FallbackEmpty(PrimaryBlooms(difficulties));
  }

  /** A `hard`-only request falls back to the four levels below Evaluating, the easier ones, never above. */
  lemma HardFallsBackToEasierLevels()
    ensures FallbackBlooms(PrimaryBlooms(["hard"])) == ["Remembering", "Understanding", "Applying", "Analyzing"]
  {
    var levels := ["Evaluating", "Creating"];
    SingleDifficulty("hard");
    HierarchyRanks();
    assert LevelIndex(Hierarchy[4]) == 4 && LevelIndex(Hierarchy[5]) == 5;
    assert KnownIndices(levels[1..]) == [5];
    assert KnownIndices(levels) == [4, 5];
    assert MinOf([4, 5]) == 4;
  }

  /** A single difficulty maps to its own two levels. */
  lemma SingleDifficulty(d: string)
    requires d in BloomsMap
    ensures PrimaryBlooms([d]) == BloomsMap[d]
  {
    var levels := BloomsMap[d];
    assert |levels| == 2 && |levels[0]| != |levels[1]|;
    assert ExtendedLevels([d]) == levels by {
      assert [d][..0] == [];
    }
    assert levels[..1] == [levels[0]];
    assert Dedup(levels[..1]) == levels[..1];
    assert levels[1] !in levels[..1];
  }

  // ---------------------------------------------------------------------------------------
  // Composite keys

  lemma NumberPart(s1: string, r1: string, s2: string, r2: string)
    requires forall i :: 0 <= i < |s1| ==> s1[i] != ' '
    requires forall i :: 0 <= i < |s2| ==> s2[i] != ' '
    requires "Unit " + s1 + " - " + r1 == "Unit " + s2 + " - " + r2
    ensures s1 == s2 && r1 == r2
  {
    var k1, k2 := "Unit " + s1 + " - " + r1, "Unit " + s2 + " - " + r2;
    assert k1[5 + |s1|] == ' ' && forall i :: 5 <= i < 5 + |s1| ==> k1[i] == s1[i - 5];
    assert k2[5 + |s2|] == ' ' && forall i :: 5 <= i < 5 + |s2| ==> k2[i] == s2[i - 5];
    assert s1 == k1[5..5 + |s1|];
    assert s2 == k2[5..5 + |s2|];
    assert r1 == k1[8 + |s1|..];
    assert r2 == k2[8 + |s2|..];
  }

  lemma LevelPart(t1: string, l1: string, t2: string, l2: string)
    requires '(' !in l1 && '(' !in l2
    requires t1 + " (" + l1 + ")" == t2 + " (" + l2 + ")"
    ensures t1 == t2 && l1 == l2
  {
    var r1, r2 := t1 + " (" + l1 + ")", t2 + " (" + l2 + ")";
    assert r1[|t1| + 1] == '(' && forall i :: |t1| + 2 <= i < |t1| + 2 + |l1| ==> r1[i] == l1[i - |t1| - 2];
    assert r2[|t2| + 1] == '(' && forall i :: |t2| + 2 <= i < |t2| + 2 + |l2| ==> r2[i] == l2[i - |t2| - 2];
    assert t1 == r1[..|t1|];
    assert t2 == r2[..|t2|];
    assert l1 == r1[|t1| + 2..|r1| - 1];
    assert l2 == r2[|t2| + 2..|r2| - 1];
  }

  /** Distinct (unit, topic, level) triples give distinct keys, for levels without a parenthesis. */
  lemma KeyInjective(n1: int, t1: string, l1: string, n2: int, t2: string, l2: string)
    requires '(' !in l1 && '(' !in l2
    requires Key(n1, t1, l1) == Key(n2, t2, l2)
    ensures n1 == n2 && t1 == t2 && l1 == l2
  {
    var s1, s2 := IntToString(n1), IntToString(n2);
    var r1, r2 := t1 + " (" + l1 + ")", t2 + " (" + l2 + ")";
    assert Key(n1, t1, l1) == "Unit " + s1 + " - " + r1;
    assert Key(n2, t2, l2) == "Unit " + s2 + " - " + r2;
    NumberPart(s1, r1, s2, r2);
    IntToStringInjective(n1, n2);
    LevelPart(t1, l1, t2, l2);
  }

  /** A key has no whitespace at either end, and no newline unless its topic or level has one. */
  lemma KeyShape(n: int, topic: string, level: string)
    ensures IsStripped(Key(n, topic, level))
    ensures '\n' !in topic && '\n' !in level ==> '\n' !in Key(n, topic, level)
  {
    var k := Key(n, topic, level);
    assert k[0] == 'U' && k[|k| - 1] == ')';
    var s := IntToString(n);
    NoNewlineInNumber(n);
    assert k == "Unit " + s + " - " + topic + " (" + level + ")";
  }

  lemma NoNewlineInNumber(n: int)
    ensures '\n' !in IntToString(n)
  {
    var s := IntToString(n);
    forall i | 0 <= i < |s| ensures s[i] != '\n' {
      assert IsDigit(s[i]) || s[i] == '-';
    }
  }

  lemma NumberedLineNoNewline(n: int, topic: string)
    requires '\n' !in topic
    ensures '\n' !in IntToString(n) + ". " + topic
  {
    NoNewlineInNumber(n);
  }

  // ---------------------------------------------------------------------------------------
  // Collection scope

  /** `key` is the key of some topic listed for a requested unit at one of `levels`. */
  ghost predicate InScope(syllabus: Syllabus, units: seq<int>, levels: seq<string>, key: string) {
    exists i, level, topic :: 0 <= i < |syllabus| && syllabus[i].unitNumber in units && level in levels
      && topic in TopicsAt(syllabus[i], level) && key == Key(syllabus[i].unitNumber, topic, level)
  }

  lemma {:induction false} LevelKeysScope(n: int, topics: seq<string>, level: string, used: set<string>, key: string)
    ensures key in LevelKeys(n, topics, level, used) <==>
              (exists topic :: topic in topics && key == Key(n, topic, level)) && key !in used
  {
    if topics != [] {
      var p, last := topics[..|topics| - 1], topics[|topics| - 1];
      assert topics == p + [last];
      LevelKeysScope(n, p, level, used, key);
      if (exists topic :: topic in topics && key == Key(n, topic, level)) && key !in used {
        var topic :| topic in topics && key == Key(n, topic, level);
        if topic != last { assert topic in p; }
      }
    }
  }

  lemma {:induction false} UnitKeysScope(unit: Unit, levels: seq<string>, used: set<string>, key: string)
    ensures key in UnitKeys(unit, levels, used) <==>
              (exists level, topic :: level in levels && topic in TopicsAt(unit, level)
                 && key == Key(unit.unitNumber, topic, level)) && key !in used
  {
    if levels != [] {
      var p, last := levels[..|levels| - 1], levels[|levels| - 1];
      assert levels == p + [last];
      UnitKeysScope(unit, p, used, key);
      LevelKeysScope(unit.unitNumber, TopicsAt(unit, last), last, used, key);
      if key in UnitKeys(unit, levels, used) && key !in UnitKeys(unit, p, used) {
        var topic :| topic in TopicsAt(unit, last) && key == Key(unit.unitNumber, topic, last);
        assert last in levels;
      }
      if (exists level, topic :: level in levels && topic in TopicsAt(unit, level)
            && key == Key(unit.unitNumber, topic, level)) && key !in used {
        var level, topic :| level in levels && topic in TopicsAt(unit, level) && key == Key(unit.unitNumber, topic, level);
        if level != last { assert level in p; }
      }
    }
  }

  /**
   * `collect_topics(levels)` yields exactly the keys `Unit <n> - <topic> (<level>)` of topics listed
   * for a unit whose number was requested, at one of `levels`, that are not yet used.
   */
  lemma CollectScope(syllabus: Syllabus, units: seq<int>, levels: seq<string>, used: set<string>, key: string)
    ensures key in Collect(syllabus, units, levels, used) <==> InScope(syllabus, units, levels, key) && key !in used
  {
    if key in Collect(syllabus, units, levels, used) {
      CollectSound(syllabus, units, levels, used, key);
    }
    if InScope(syllabus, units, levels, key) && key !in used {
      var i, level, topic :| 0 <= i < |syllabus| && syllabus[i].unitNumber in units && level in levels
        && topic in TopicsAt(syllabus[i], level) && key == Key(syllabus[i].unitNumber, topic, level);
      CollectComplete(syllabus, units, levels, used, i, level, topic);
    }
  }

  lemma {:induction false} CollectSound(syllabus: Syllabus, units: seq<int>, levels: seq<string>, used: set<string>,
                                        key: string)
    requires key in Collect(syllabus, units, levels, used)
    ensures InScope(syllabus, units, levels, key) && key !in used
  {
    var p, unit := syllabus[..|syllabus| - 1], syllabus[|syllabus| - 1];
    if key in Collect(p, units, levels, used) {
      CollectSound(p, units, levels, used, key);
      var i, level, topic :| 0 <= i < |p| && p[i].unitNumber in units && level in levels
        && topic in TopicsAt(p[i], level) && key == Key(p[i].unitNumber, topic, level);
      assert syllabus[i] == p[i];
    } else {
      UnitKeysScope(unit, levels, used, key);
      var level, topic :| level in levels && topic in TopicsAt(unit, level) && key == Key(unit.unitNumber, topic, level);
      assert syllabus[|syllabus| - 1] == unit;
    }
  }

  lemma {:induction false} CollectComplete(syllabus: Syllabus, units: seq<int>, levels: seq<string>, used: set<string>,
                                           i: nat, level: string, topic: string)
    requires i < |syllabus| && syllabus[i].unitNumber in units && level in levels && topic in TopicsAt(syllabus[i], level)
    requires Key(syllabus[i].unitNumber, topic, level) !in used
    ensures Key(syllabus[i].unitNumber, topic, level) in Collect(syllabus, units, levels, used)
  {
    var p, unit := syllabus[..|syllabus| - 1], syllabus[|syllabus| - 1];
    var key := Key(syllabus[i].unitNumber, topic, level);
    if i < |p| {
      assert p[i] == syllabus[i];
      CollectComplete(p, units, levels, used, i, level, topic);
    } else {
      UnitKeysScope(unit, levels, used, key);
    }
  }

  /** Collecting while some keys are used gives the collectable keys minus the used ones. */
  lemma CollectElems(syllabus: Syllabus, units: seq<int>, levels: seq<string>, used: set<string>)
    ensures Elems(Collect(syllabus, units, levels, used)) == Elems(Collect(syllabus, units, levels, {})) - used
  {
    forall key ensures key in Elems(Collect(syllabus, units, levels, used)) <==>
                       key in Elems(Collect(syllabus, units, levels, {})) - used {
      CollectScope(syllabus, units, levels, used, key);
      CollectScope(syllabus, units, levels, {}, key);
    }
  }

  lemma {:induction false} CollectNoLevels(syllabus: Syllabus, units: seq<int>, used: set<string>)
    ensures Collect(syllabus, units, [], used) == []
  {
    if syllabus != [] {
      CollectNoLevels(syllabus[..|syllabus| - 1], units, used);
    }
  }

  // ---------------------------------------------------------------------------------------
  // Keys without repeats

  /** No unit number appears twice and no topic list repeats a topic. */
  ghost predicate UniqueTopics(syllabus: Syllabus) {
    (forall i, j :: 0 <= i < j < |syllabus| ==> syllabus[i].unitNumber != syllabus[j].unitNumber)
    && (forall i, level :: 0 <= i < |syllabus| ==> NoDup(TopicsAt(syllabus[i], level)))
  }

  predicate PlainLevels(levels: seq<string>) {
    forall level :: level in levels ==> '(' !in level
  }

  lemma {:induction false} LevelKeysNoDup(n: int, topics: seq<string>, level: string, used: set<string>)
    requires NoDup(topics) && '(' !in level
    ensures NoDup(LevelKeys(n, topics, level, used))
  {
    if topics != [] {
      var p, last := topics[..|topics| - 1], topics[|topics| - 1];
      LevelKeysNoDup(n, p, level, used);
      var key := Key(n, last, level);
      forall k | k in LevelKeys(n, p, level, used) ensures k != key {
        LevelKeysScope(n, p, level, used, k);
        var topic :| topic in p && k == Key(n, topic, level);
        if k == key {
          KeyInjective(n, topic, level, n, last, level);
        }
      }
      NoDupAppend(LevelKeys(n, p, level, used), if key in used then [] else [key]);
    }
  }

  lemma {:induction false} UnitKeysNoDup(unit: Unit, levels: seq<string>, used: set<string>)
    requires NoDup(levels) && PlainLevels(levels)
    requires forall level :: NoDup(TopicsAt(unit, level))
    ensures NoDup(UnitKeys(unit, levels, used))
  {
    if levels != [] {
      var p, last := levels[..|levels| - 1], levels[|levels| - 1];
      assert last in levels;
      UnitKeysNoDup(unit, p, used);
      var n := unit.unitNumber;
      var added := LevelKeys(n, TopicsAt(unit, last), last, used);
      LevelKeysNoDup(n, TopicsAt(unit, last), last, used);
      forall k | k in UnitKeys(unit, p, used) ensures k !in added {
        UnitKeysScope(unit, p, used, k);
        var level, topic :| level in p && topic in TopicsAt(unit, level) && k == Key(n, topic, level);
        if k in added {
          LevelKeysScope(n, TopicsAt(unit, last), last, used, k);
          var topic' :| topic' in TopicsAt(unit, last) && k == Key(n, topic', last);
          assert level in levels;
          KeyInjective(n, topic, level, n, topic', last);
        }
      }
      NoDupAppend(UnitKeys(unit, p, used), added);
    }
  }

  lemma {:induction false} CollectNoDup(syllabus: Syllabus, units: seq<int>, levels: seq<string>, used: set<string>)
    requires UniqueTopics(syllabus) && NoDup(levels) && PlainLevels(levels)
    ensures NoDup(Collect(syllabus, units, levels, used))
  {
    if syllabus != [] {
      var p, unit := syllabus[..|syllabus| - 1], syllabus[|syllabus| - 1];
      assert UniqueTopics(p) by {
        forall i, level | 0 <= i < |p| ensures NoDup(TopicsAt(p[i], level)) {
          assert p[i] == syllabus[i];
        }
      }
      CollectNoDup(p, units, levels, used);
      var added := if unit.unitNumber in units then UnitKeys(unit, levels, used) else [];
      forall level ensures NoDup(TopicsAt(unit, level)) {
        assert unit == syllabus[|syllabus| - 1];
      }
      UnitKeysNoDup(unit, levels, used);
      forall k | k in Collect(p, units, levels, used) ensures k !in added {
        CollectScope(p, units, levels, used, k);
        var i, level, topic :| 0 <= i < |p| && p[i].unitNumber in units && level in levels
          && topic in TopicsAt(p[i], level) && k == Key(p[i].unitNumber, topic, level);
        if k in added {
          UnitKeysScope(unit, levels, used, k);
          var level', topic' :| level' in levels && topic' in TopicsAt(unit, level')
            && k == Key(unit.unitNumber, topic', level');
          KeyInjective(p[i].unitNumber, topic, level, unit.unitNumber, topic', level');
        }
      }
      NoDupAppend(Collect(p, units, levels, used), added);
    }
  }

  // ---------------------------------------------------------------------------------------
  // The selection

  /** Keys of the primary levels, before any is used. */
  function PrimaryPool(syllabus: Syllabus, units: seq<int>, primary: seq<string>): seq<string> {
    Collect(syllabus, units, primary, {})
  }

  /** Keys of the fallback levels, before any is used (empty when there are no fallback levels). */
  function FallbackPool(syllabus: Syllabus, units: seq<int>, primary: seq<string>): seq<string> {
    Collect(syllabus, units, FallbackBlooms(primary), {})
  }

  /** The fallback loop appends `need` added candidates, or all of them if there are fewer. */
  lemma {:induction false} TakeFreshLength(candidates: seq<string>, used: set<string>, need: nat)
    ensures |TakeFresh(candidates, used, need)| == Min(need, |Elems(candidates) - used|)
  {
    if candidates == [] {
      ElemsNil<string>();
    } else if need > 0 {
      var c, rest := candidates[0], candidates[1..];
      ElemsCons(candidates);
      if c in used {
        TakeFreshLength(rest, used, need);
        SkipUsed(c, Elems(rest), used);
      } else {
        TakeFreshLength(rest, used + {c}, need - 1);
        FreshCount(c, Elems(rest), used);
      }
    }
  }

  lemma SkipUsed(c: string, rest: set<string>, used: set<string>)
    requires c in used
    ensures ({c} + rest) - used == rest - used
  {
  }

  lemma ElemsCons(s: seq<string>)
    requires s != []
    ensures Elems(s) == {s[0]} + Elems(s[1..])
  {
    assert s == [s[0]] + s[1..];
    ElemsAppend([s[0]], s[1..]);
    assert Elems([s[0]]) == {s[0]};
  }

  lemma FreshCount(c: string, rest: set<string>, used: set<string>)
    requires c !in used
    ensures |({c} + rest) - used| == 1 + |rest - (used + {c})|
  {
    assert ({c} + rest) - used == {c} + (rest - (used + {c}));
    assert c !in rest - (used + {c});
  }

  /** Facts about the first, shuffled batch of primary keys. */
  lemma FirstBatch(syllabus: Syllabus, units: seq<int>, primary: seq<string>, shuffle: Shuffle)
    requires IsShuffle(shuffle)
    ensures var first := shuffle(0, Collect(syllabus, units, primary, {}));
            |first| == |PrimaryPool(syllabus, units, primary)|
            && Elems(first) == Elems(PrimaryPool(syllabus, units, primary))
            && (NoDup(PrimaryPool(syllabus, units, primary)) ==> NoDup(first))
  {
    var pool := Collect(syllabus, units, primary, {});
    assert multiset(shuffle(0, pool)) == multiset(pool);
    PermutationFacts(pool, shuffle(0, pool));
  }

  /**
   * The selection is the shuffled primary batch, cut at the requested total, followed by keys
   * none of which is already in that batch and none of which repeats.
   */
  lemma FallbackAdditionsFresh(syllabus: Syllabus, units: seq<int>, primary: seq<string>, total: nat, shuffle: Shuffle)
    ensures var first := shuffle(0, Collect(syllabus, units, primary, {}));
            var initial := first[..Min(total, |first|)];
            var selected := Selection(syllabus, units, primary, total, shuffle);
            |initial| <= |selected| && selected[..|initial|] == initial
            && NoDup(selected[|initial|..])
            && forall k :: k in selected[|initial|..] ==> k !in initial
  {
    var first := shuffle(0, Collect(syllabus, units, primary, {}));
    var initial := first[..Min(total, |first|)];
    var selected := Selection(syllabus, units, primary, total, shuffle);
    if |initial| < total && FallbackBlooms(primary) != [] {
      SelectionWithFallback(syllabus, units, primary, total, shuffle, initial);
      var candidates := shuffle(1, Collect(syllabus, units, FallbackBlooms(primary), Elems(initial)));
      var extra := TakeFresh(candidates, Elems(initial), total - |initial|);
      TakeFreshFacts(candidates, Elems(initial), total - |initial|);
      assert selected[..|initial|] == initial && selected[|initial|..] == extra;
      forall k | k in extra ensures k !in initial {
        assert k !in Elems(initial);
      }
    } else {
      SelectionWithoutFallback(syllabus, units, primary, total, shuffle, initial);
      assert selected[|initial|..] == [];
    }
  }

  /**
   * The selection never exceeds the requested total, and every selected key comes from the primary
   * levels or from the fallback levels.
   */
  lemma SelectionWithinPool(syllabus: Syllabus, units: seq<int>, primary: seq<string>, total: nat, shuffle: Shuffle)
    requires IsShuffle(shuffle)
    ensures |Selection(syllabus, units, primary, total, shuffle)| <= total
    ensures forall k :: k in Selection(syllabus, units, primary, total, shuffle) ==>
              k in PrimaryPool(syllabus, units, primary) || k in FallbackPool(syllabus, units, primary)
  {
    var first := shuffle(0, Collect(syllabus, units, primary, {}));
    var initial := first[..Min(total, |first|)];
    if |initial| < total && FallbackBlooms(primary) != [] {
      WithinPoolWithFallback(syllabus, units, primary, total, shuffle, initial);
    } else {
      InitialInPool(syllabus, units, primary, total, shuffle);
      SelectionWithoutFallback(syllabus, units, primary, total, shuffle, initial);
    }
  }

  lemma WithinPoolWithFallback(syllabus: Syllabus, units: seq<int>, primary: seq<string>, total: nat, shuffle: Shuffle,
                               initial: seq<string>)
    requires IsShuffle(shuffle)
    requires var first := shuffle(0, Collect(syllabus, units, primary, {}));
             initial == first[..Min(total, |first|)]
    requires |initial| < total && FallbackBlooms(primary) != []
    ensures |Selection(syllabus, units, primary, total, shuffle)| <= total
    ensures forall k :: k in Selection(syllabus, units, primary, total, shuffle) ==>
              k in PrimaryPool(syllabus, units, primary) || k in FallbackPool(syllabus, units, primary)
  {
    var candidates := FallbackParts(syllabus, units, primary, total, shuffle, initial);
    var extra := TakeFresh(candidates, Elems(initial), total - |initial|);
    TakeFreshFacts(candidates, Elems(initial), total - |initial|);
    forall k | k in initial + extra
      ensures k in PrimaryPool(syllabus, units, primary) || k in FallbackPool(syllabus, units, primary)
    {
      if k in initial {
        assert k in Elems(PrimaryPool(syllabus, units, primary));
      } else {
        assert k in Elems(candidates);
      }
    }
  }

  /** The first batch is at most `total` keys of the primary pool. */
  lemma InitialInPool(syllabus: Syllabus, units: seq<int>, primary: seq<string>, total: nat, shuffle: Shuffle)
    requires IsShuffle(shuffle)
    ensures var first := shuffle(0, Collect(syllabus, units, primary, {}));
            var initial := first[..Min(total, |first|)];
            |initial| <= total && forall k :: k in initial ==> k in PrimaryPool(syllabus, units, primary)
  {
    var first := shuffle(0, Collect(syllabus, units, primary, {}));
    var initial := first[..Min(total, |first|)];
    FirstBatch(syllabus, units, primary, shuffle);
    forall k | k in initial ensures k in PrimaryPool(syllabus, units, primary) {
      assert k in Elems(first);
    }
  }

  lemma DisjointUnionCard(a: set<string>, b: set<string>)
    ensures |a| + |b - a| == |a + b|
  {
    assert a + b == a + (b - a);
    assert a * (b - a) == {};
  }

  /**
   * Exactly the requested total is selected when the primary keys (counted with repeats) and the
   * fallback keys not among them are at least that many; otherwise all of them are.
   */
  lemma SelectionLength(syllabus: Syllabus, units: seq<int>, primary: seq<string>, total: nat, shuffle: Shuffle)
    requires IsShuffle(shuffle)
    ensures var pool := PrimaryPool(syllabus, units, primary);
            var added := Elems(FallbackPool(syllabus, units, primary)) - Elems(pool);
            |Selection(syllabus, units, primary, total, shuffle)| == Min(total, |pool| + |added|)
  {
    var first := shuffle(0, Collect(syllabus, units, primary, {}));
    var initial := first[..Min(total, |first|)];
    if |initial| < total && FallbackBlooms(primary) != [] {
      LengthWithFallback(syllabus, units, primary, total, shuffle, initial);
    } else {
      LengthWithoutFallback(syllabus, units, primary, total, shuffle, initial);
    }
  }

  lemma LengthWithoutFallback(syllabus: Syllabus, units: seq<int>, primary: seq<string>, total: nat, shuffle: Shuffle,
                              initial: seq<string>)
    requires IsShuffle(shuffle)
    requires var first := shuffle(0, Collect(syllabus, units, primary, {}));
             initial == first[..Min(total, |first|)]
    requires |initial| >= total || FallbackBlooms(primary) == []
    ensures var pool := PrimaryPool(syllabus, units, primary);
            var added := Elems(FallbackPool(syllabus, units, primary)) - Elems(pool);
            |Selection(syllabus, units, primary, total, shuffle)| == Min(total, |pool| + |added|)
  {
    FirstBatch(syllabus, units, primary, shuffle);
    SelectionWithoutFallback(syllabus, units, primary, total, shuffle, initial);
    if |initial| < total {
      CollectNoLevels(syllabus, units, {});
      ElemsNil<string>();
    }
  }

  lemma LengthWithFallback(syllabus: Syllabus, units: seq<int>, primary: seq<string>, total: nat, shuffle: Shuffle,
                           initial: seq<string>)
    requires IsShuffle(shuffle)
    requires var first := shuffle(0, Collect(syllabus, units, primary, {}));
             initial == first[..Min(total, |first|)]
    requires |initial| < total && FallbackBlooms(primary) != []
    ensures var pool := PrimaryPool(syllabus, units, primary);
            var added := Elems(FallbackPool(syllabus, units, primary)) - Elems(pool);
            |Selection(syllabus, units, primary, total, shuffle)| == Min(total, |pool| + |added|)
  {
    var candidates := FallbackParts(syllabus, units, primary, total, shuffle, initial);
    FallbackCount(PrimaryPool(syllabus, units, primary), initial, FallbackPool(syllabus, units, primary), candidates, total);
  }

  /**
   * When the fallback round runs, the first batch is the whole shuffled primary pool and the
   * selection continues with fresh keys taken from the fallback keys not yet selected.
   */
  lemma FallbackParts(syllabus: Syllabus, units: seq<int>, primary: seq<string>, total: nat, shuffle: Shuffle,
                      initial: seq<string>) returns (candidates: seq<string>)
    requires IsShuffle(shuffle)
    requires var first := shuffle(0, Collect(syllabus, units, primary, {}));
             initial == first[..Min(total, |first|)]
    requires |initial| < total && FallbackBlooms(primary) != []
    ensures |initial| == |PrimaryPool(syllabus, units, primary)|
    ensures Elems(initial) == Elems(PrimaryPool(syllabus, units, primary))
    ensures Elems(candidates) == Elems(FallbackPool(syllabus, units, primary)) - Elems(initial)
    ensures Selection(syllabus, units, primary, total, shuffle)
            == initial + TakeFresh(candidates, Elems(initial), total - |initial|)
  {
    FirstBatch(syllabus, units, primary, shuffle);
    assert initial == shuffle(0, Collect(syllabus, units, primary, {}));
    FallbackCandidates(syllabus, units, primary, shuffle, Elems(initial));
    SelectionWithFallback(syllabus, units, primary, total, shuffle, initial);
    candidates := shuffle(1, Collect(syllabus, units, FallbackBlooms(primary), Elems(initial)));
  }

  /** The shuffled fallback candidates are the fallback keys not yet used. */
  lemma FallbackCandidates(syllabus: Syllabus, units: seq<int>, primary: seq<string>, shuffle: Shuffle, used: set<string>)
    requires IsShuffle(shuffle)
    ensures Elems(shuffle(1, Collect(syllabus, units, FallbackBlooms(primary), used)))
            == Elems(FallbackPool(syllabus, units, primary)) - used
  {
    var collected := Collect(syllabus, units, FallbackBlooms(primary), used);
    var candidates := shuffle(1, collected);
    assert multiset(candidates) == multiset(collected);
    PermutationFacts(collected, candidates);
    CollectElems(syllabus, units, FallbackBlooms(primary), used);
  }

  /** The fallback round adds as many keys as are missing, or every fallback key not yet selected. */
  lemma FallbackCount(pool: seq<string>, first: seq<string>, fallbackPool: seq<string>, candidates: seq<string>, total: nat)
    requires |first| == |pool| && Elems(first) == Elems(pool) && |first| < total
    requires Elems(candidates) == Elems(fallbackPool) - Elems(first)
    ensures |first + TakeFresh(candidates, Elems(first), total - |first|)|
            == Min(total, |pool| + |Elems(fallbackPool) - Elems(pool)|)
  {
    TakeFreshLength(candidates, Elems(first), total - |first|);
    assert Elems(candidates) - Elems(first) == Elems(fallbackPool) - Elems(pool);
  }

  /**
   * When no unit number repeats and no topic list repeats a topic, the selection repeats no key.
   * (The primary batch is taken without checking for repeats, so this needs the condition.)
   */
  lemma SelectionNoDuplicates(syllabus: Syllabus, units: seq<int>, primary: seq<string>, total: nat, shuffle: Shuffle)
    requires IsShuffle(shuffle)
    requires UniqueTopics(syllabus) && NoDup(primary) && forall level :: level in primary ==> level in Hierarchy
    ensures NoDup(Selection(syllabus, units, primary, total, shuffle))
  {
    HierarchyPlain();
    HierarchyRanks();
    CollectNoDup(syllabus, units, primary, {});
    FirstBatch(syllabus, units, primary, shuffle);
    var first := shuffle(0, Collect(syllabus, units, primary, {}));
    var initial := first[..Min(total, |first|)];
    assert NoDup(initial);
    var selected := Selection(syllabus, units, primary, total, shuffle);
    if |initial| < total && FallbackBlooms(primary) != [] {
      var extra := selected[|initial|..];
      FallbackAdditionsFresh(syllabus, units, primary, total, shuffle);
      assert selected == initial + extra;
      NoDupAppend(initial, extra);
    }
  }

  /**
   * Under the same condition, exactly `min(total, |pool|)` distinct keys are selected from the pool of
   * primary and fallback keys, and when the pool holds no more than the total, all of it is selected.
   */
  lemma SelectionFillsFromPool(syllabus: Syllabus, units: seq<int>, primary: seq<string>, total: nat, shuffle: Shuffle)
    requires IsShuffle(shuffle)
    requires UniqueTopics(syllabus) && NoDup(primary) && forall level :: level in primary ==> level in Hierarchy
    ensures var pool := Elems(PrimaryPool(syllabus, units, primary)) + Elems(FallbackPool(syllabus, units, primary));
            var selected := Selection(syllabus, units, primary, total, shuffle);
            |selected| == Min(total, |pool|) && (|pool| <= total ==> Elems(selected) == pool)
  {
    var primaryPool := PrimaryPool(syllabus, units, primary);
    var fallbackPool := FallbackPool(syllabus, units, primary);
    var pool := Elems(primaryPool) + Elems(fallbackPool);
    var selected := Selection(syllabus, units, primary, total, shuffle);
    HierarchyPlain();
    HierarchyRanks();
    CollectNoDup(syllabus, units, primary, {});
    ElemsCard(primaryPool);
    DisjointUnionCard(Elems(primaryPool), Elems(fallbackPool));
    SelectionLength(syllabus, units, primary, total, shuffle);
    if |pool| <= total {
      SelectionWithinPool(syllabus, units, primary, total, shuffle);
      SelectionNoDuplicates(syllabus, units, primary, total, shuffle);
      NoDupCovers(selected, pool);
    }
  }

  // ---------------------------------------------------------------------------------------
  // The whole call

  /**
   * The errors raised before any selection, each exactly under its condition, checked in the
   * source's order; they depend on the request only. The mapping helper's own error never surfaces.
   */
  lemma RejectedInputs(questionCounts: string, units: seq<int>, difficulties: seq<string>,
                       syllabus: Syllabus, shuffle: Shuffle)
    ensures var r := RandomTopics(questionCounts, units, difficulties, syllabus, shuffle);
            var parsed := ParseCounts(questionCounts);
            (r == Err(InvalidCountsFormat) <==> parsed.None?)
            && (r == Err(NonPositiveTotal) <==> parsed.Some? && Sum(parsed.value) <= 0)
            && (r == Err(InvalidDifficulties) <==>
                  (parsed.Some? && Sum(parsed.value) > 0
                   && (difficulties == [] || exists d :: d in difficulties && d !in DifficultyLabels)))
            && (r == Err(InvalidUnits) <==>
                  (parsed.Some? && Sum(parsed.value) > 0 && ValidDifficulties(difficulties)
                   && (units == [] || exists u :: u in units && !(1 <= u <= 5))))
            && !(r.Err? && r.error.InvalidDifficultyLevel?)
  {
  }

  /**
   * A valid request fails with "No topics available even after fallback" exactly when neither
   * the primary nor the fallback levels hold any topic of the requested units.
   */
  lemma NoTopicsOnlyWhenPoolEmpty(questionCounts: string, units: seq<int>, difficulties: seq<string>,
                                  syllabus: Syllabus, shuffle: Shuffle)
    requires IsShuffle(shuffle)
    requires ValidateRequest(questionCounts, units, difficulties).Ok?
    ensures var req := ValidateRequest(questionCounts, units, difficulties).value;
            RandomTopics(questionCounts, units, difficulties, syllabus, shuffle) == Err(NoTopicsAvailable)
            <==> PrimaryPool(syllabus, units, req.primary) == [] && FallbackPool(syllabus, units, req.primary) == []
  {
    var req := ValidateRequest(questionCounts, units, difficulties).value;
    assert req.total > 0 && req.units == units;
    SelectionEmpty(syllabus, units, req.primary, req.total, shuffle);
  }

  /** With a positive total, nothing is selected exactly when the primary and fallback levels hold no key. */
  lemma SelectionEmpty(syllabus: Syllabus, units: seq<int>, primary: seq<string>, total: nat, shuffle: Shuffle)
    requires IsShuffle(shuffle) && total > 0
    ensures Selection(syllabus, units, primary, total, shuffle) == [] <==>
              PrimaryPool(syllabus, units, primary) == [] && FallbackPool(syllabus, units, primary) == []
  {
    var pool := PrimaryPool(syllabus, units, primary);
    var fallbackPool := FallbackPool(syllabus, units, primary);
    SelectionLength(syllabus, units, primary, total, shuffle);
    if pool == [] && fallbackPool != [] {
      assert fallbackPool[0] in Elems(fallbackPool) - Elems(pool);
    }
  }

  lemma NumberedLinesPlain(selected: seq<string>)
    requires forall k :: k in selected ==> '\n' !in k
    ensures forall i :: 0 <= i < |selected| ==> '\n' !in NumberedLines(selected)[i]
  {
    forall i | 0 <= i < |selected| ensures '\n' !in NumberedLines(selected)[i] {
      assert selected[i] in selected;
      NumberedLineNoNewline(i + 1, selected[i]);
    }
  }

  /**
   * The output splits into the line `Selected Topics:` followed by one line `i. <key>` per
   * selected key, numbered consecutively from 1 in selection order.
   */
  lemma FormatLines(selected: seq<string>)
    requires forall k :: k in selected ==> '\n' !in k
    ensures Split(Format(selected), '\n') == [Header] + NumberedLines(selected)
  {
    var lines := [Header] + NumberedLines(selected);
    NumberedLinesPlain(selected);
    assert forall i :: 0 <= i < |lines| ==> '\n' !in lines[i] by {
      assert '\n' !in Header;
    }
    SplitJoin(lines, '\n');
  }

  // ---------------------------------------------------------------------------------------
  // Examples

  lemma TwoTopicKeys(n: int, x: string, y: string, level: string)
    ensures LevelKeys(n, [x, y], level, {}) == [Key(n, x, level), Key(n, y, level)]
  {
    assert [x, y][..1] == [x];
    assert [x][..0] == [];
    assert LevelKeys(n, [x], level, {}) == [Key(n, x, level)];
    assert LevelKeys(n, [x, y], level, {}) == LevelKeys(n, [x], level, {}) + [Key(n, y, level)];
  }

  lemma OneUnitPool(unit: Unit, units: seq<int>, first: string, second: string)
    requires unit.unitNumber in units
    ensures Collect([unit], units, [first, second], {})
            == LevelKeys(unit.unitNumber, TopicsAt(unit, first), first, {})
               + LevelKeys(unit.unitNumber, TopicsAt(unit, second), second, {})
  {
    assert [unit][..0] == [];
    assert [first, second][..1] == [first];
    assert [first][..0] == [];
    assert Collect([unit], units, [first, second], {}) == UnitKeys(unit, [first, second], {});
    assert UnitKeys(unit, [first], {}) == LevelKeys(unit.unitNumber, TopicsAt(unit, first), first, {});
  }

  /** One unit, `easy`, three questions, two Remembering topics and one Understanding topic: all three are selected. */
  lemma EasyExampleSelectsAll(a: string, b: string, c: string, shuffle: Shuffle)
    requires IsShuffle(shuffle)
    requires a != b
    ensures var syllabus := [Unit(1, map["Remembering" := [a, b], "Understanding" := [c]])];
            var selected := Selection(syllabus, [1], PrimaryBlooms(["easy"]), 3, shuffle);
            |selected| == 3 && NoDup(selected)
            && Elems(selected) == {Key(1, a, "Remembering"), Key(1, b, "Remembering"), Key(1, c, "Understanding")}
  {
    var syllabus := [Unit(1, map["Remembering" := [a, b], "Understanding" := [c]])];
    var primary := PrimaryBlooms(["easy"]);
    ExamplePool(a, b, c);
    KeyDistinctness(a, b, c);
    ExampleUnique(a, b, c);
    DifficultyMapping(["easy"]);
    SelectionFillsFromPool(syllabus, [1], primary, 3, shuffle);
    SelectionNoDuplicates(syllabus, [1], primary, 3, shuffle);
  }

  lemma ExamplePool(a: string, b: string, c: string)
    ensures var syllabus := [Unit(1, map["Remembering" := [a, b], "Understanding" := [c]])];
            var primary := PrimaryBlooms(["easy"]);
            Elems(PrimaryPool(syllabus, [1], primary)) + Elems(FallbackPool(syllabus, [1], primary))
            == {Key(1, a, "Remembering"), Key(1, b, "Remembering"), Key(1, c, "Understanding")}
  {
    var syllabus := [Unit(1, map["Remembering" := [a, b], "Understanding" := [c]])];
    var k1, k2, k3 := Key(1, a, "Remembering"), Key(1, b, "Remembering"), Key(1, c, "Understanding");
    ExamplePrimaryPool(a, b, c);
    EasyNeverFallsBack(["easy"]);
    CollectNoLevels(syllabus, [1], {});
    ElemsOfThree(k1, k2, k3);
    assert Elems<string>([]) == {};
  }

  lemma ExamplePrimaryPool(a: string, b: string, c: string)
    ensures PrimaryPool([Unit(1, map["Remembering" := [a, b], "Understanding" := [c]])], [1], PrimaryBlooms(["easy"]))
            == [Key(1, a, "Remembering"), Key(1, b, "Remembering"), Key(1, c, "Understanding")]
  {
    var unit := Unit(1, map["Remembering" := [a, b], "Understanding" := [c]]);
    SingleDifficulty("easy");
    assert PrimaryBlooms(["easy"]) == ["Remembering", "Understanding"];
    OneUnitPool(unit, [1], "Remembering", "Understanding");
    assert TopicsAt(unit, "Remembering") == [a, b];
    assert TopicsAt(unit, "Understanding") == [c];
    TwoTopicKeys(1, a, b, "Remembering");
    assert LevelKeys(1, [c], "Understanding", {}) == [Key(1, c, "Understanding")] by { assert [c][..0] == []; }
  }

  lemma ElemsOfThree<T>(x: T, y: T, z: T)
    ensures Elems([x, y, z]) == {x, y, z}
  {
    forall e ensures e in Elems([x, y, z]) <==> e in {x, y, z} {
      assert e in [x, y, z] <==> e == x || e == y || e == z;
    }
  }

  lemma ExampleUnique(a: string, b: string, c: string)
    requires a != b
    ensures UniqueTopics([Unit(1, map["Remembering" := [a, b], "Understanding" := [c]])])
  {
    var unit := Unit(1, map["Remembering" := [a, b], "Understanding" := [c]]);
    forall level ensures NoDup(TopicsAt(unit, level)) {
      var topics := TopicsAt(unit, level);
      assert topics == [a, b] || topics == [c] || topics == [];
    }
    assert [unit][0] == unit;
  }

  lemma KeyDistinctness(a: string, b: string, c: string)
    requires a != b
    ensures |{Key(1, a, "Remembering"), Key(1, b, "Remembering"), Key(1, c, "Understanding")}| == 3
  {
    HierarchyPlain();
    var k1, k2, k3 := Key(1, a, "Remembering"), Key(1, b, "Remembering"), Key(1, c, "Understanding");
    assert "Remembering" in Hierarchy && "Understanding" in Hierarchy;
    assert k1 != k2 by {
      if k1 == k2 { KeyInjective(1, a, "Remembering", 1, b, "Remembering"); }
    }
    assert k1 != k3 && k2 != k3 by {
      if k1 == k3 { KeyInjective(1, a, "Remembering", 1, c, "Understanding"); }
      if k2 == k3 { KeyInjective(1, b, "Remembering", 1, c, "Understanding"); }
    }
  }

  /**
   * One `easy` unit whose only primary topic is listed twice, with a total of 2: that key is selected
   * twice, whatever order the shuffle picks, since the primary batch is not checked for repeats.
   */
  lemma RepeatedTopicIsSelectedTwice(shuffle: Shuffle)
    requires IsShuffle(shuffle)
    ensures var syllabus := [Unit(1, map["Remembering" := ["A", "A"]])];
            var key := Key(1, "A", "Remembering");
            Selection(syllabus, [1], PrimaryBlooms(["easy"]), 2, shuffle) == [key, key]
  {
    var unit := Unit(1, map["Remembering" := ["A", "A"]]);
    var key := Key(1, "A", "Remembering");
    SingleDifficulty("easy");
    OneUnitPool(unit, [1], "Remembering", "Understanding");
    TwoTopicKeys(1, "A", "A", "Remembering");
    assert TopicsAt(unit, "Understanding") == [];
    var pool := Collect([unit], [1], PrimaryBlooms(["easy"]), {});
    assert pool == [key, key];
    var first := shuffle(0, pool);
    assert multiset(first) == multiset{key, key};
    assert |first| == 2;
    assert first[0] in multiset(first) && first[1] in multiset(first);
    assert first == [key, key];
  }
}
