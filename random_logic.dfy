/**
 * The random topic selector, `generate_random_topics`: validation of the request, the
 * difficulty-to-Bloom's-level mapping, collection of composite keys from the syllabus tree,
 * the shuffled selection with its fallback towards easier levels, and the numbered output.
 *
 * `random.shuffle` is replaced by a caller-supplied `Shuffle`, any function that permutes the
 * list it is given; round 0 is the shuffle of the primary keys, round 1 that of the fallback keys.
 * Each method is proved equal to a specification function; the properties of those functions
 * are proved in module SelectionProperties.
 */
module RandomLogic {
  import opened Common
  import opened PyStrings
  import opened QuestionCounts

  /** `get_blooms_hierarchy()`: Bloom's levels from least to most demanding. */
  const Hierarchy: seq<string> :=
    ["Remembering", "Understanding", "Applying", "Analyzing", "Evaluating", "Creating"]

  /** `blooms_map` of `map_difficulty_to_blooms`. */
  const BloomsMap: map<string, seq<string>> := map[
    "easy" := ["Remembering", "Understanding"],
    "medium" := ["Applying", "Analyzing"],
    "hard" := ["Evaluating", "Creating"]]

  /** The difficulty labels the input validation accepts. */
  const DifficultyLabels: seq<string> := ["easy", "medium", "hard"]

  /** First line of the rendered selection. */
  const Header: string := "Selected Topics:"

  /** One entry of `syllabus_json['units']`: its `unit_number` and its level-to-topic-list mapping. */
  datatype Unit = Unit(unitNumber: int, topics: map<string, seq<string>>)

  type Syllabus = seq<Unit>

  /** Stand-in for `random.shuffle`, indexed by the round of the selection. */
  type Shuffle = (nat, seq<string>) -> seq<string>

  /** Every round's result is a rearrangement of the list it is given. */
  ghost predicate IsShuffle(shuffle: Shuffle) {
    forall round, keys :: multiset(shuffle(round, keys)) == multiset(keys)
  }

  /** The ValueErrors `generate_random_topics` raises. */
  datatype SelectError =
    | InvalidCountsFormat
    | NonPositiveTotal
    | InvalidDifficulties
    | InvalidUnits
    | InvalidDifficultyLevel(difficulty: string)
    | NoTopicsAvailable

  // ---------------------------------------------------------------------------------------
  // Composite keys and their collection from the syllabus tree

  /** The composite key `f"Unit {n} - {topic} ({level})"`. */
  function Key(unitNumber: int, topic: string, level: string): string {
    "Unit " + IntToString(unitNumber) + " - " + topic + " (" + level + ")"
  }

  /** `unit['topics'].get(level, [])`. */
  function TopicsAt(unit: Unit, level: string): seq<string> {
    if level in unit.topics then unit.topics[level] else []
  }

  /** The keys of one unit's topic list for one level, skipping used ones (innermost loop of `collect_topics`). */
  function LevelKeys(unitNumber: int, topics: seq<string>, level: string, used: set<string>): seq<string> {
    if topics == [] then []
    else
      var key := Key(unitNumber, topics[|topics| - 1], level);
      LevelKeys(unitNumber, topics[..|topics| - 1], level, used) + (if key in used then [] else [key])
  }

  /** The keys of one unit over the given levels, in level order (middle loop of `collect_topics`). */
  function UnitKeys(unit: Unit, levels: seq<string>, used: set<string>): seq<string> {
    if levels == [] then []
    else
      var level := levels[|levels| - 1];
      UnitKeys(unit, levels[..|levels| - 1], used) + LevelKeys(unit.unitNumber, TopicsAt(unit, level), level, used)
  }

  /** What `collect_topics(levels)` returns while `used_topics` is `used`. */
  function Collect(syllabus: Syllabus, units: seq<int>, levels: seq<string>, used: set<string>): seq<string> {
    if syllabus == [] then []
    else
      var unit := syllabus[|syllabus| - 1];
      Collect(syllabus[..|syllabus| - 1], units, levels, used)
        + (if unit.unitNumber in units then UnitKeys(unit, levels, used) else [])
  }

  /**
   * `collect_topics`: walks the units in syllabus order, the levels in the given order, the topics in
   * list order. The loop nest is split into one method per loop, CollectUnit and CollectLevel
   * holding the inner two.
   */
  method CollectTopics(syllabus: Syllabus, units: seq<int>, levels: seq<string>, used: set<string>)
    returns (found: seq<string>)
    ensures found == Collect(syllabus, units, levels, used)
  {
    found := [];
    var i := 0;
    while i < |syllabus|
      invariant 0 <= i <= |syllabus|
      invariant found == Collect(syllabus[..i], units, levels, used)
    {
      var unit := syllabus[i];
      CollectSnoc(syllabus, units, levels, used, i);
      if unit.unitNumber in units {
        var unitKeys := CollectUnit(unit, levels, used);
        found := found + unitKeys;
      }
      i := i + 1;
    }
    assert syllabus[..i] == syllabus;
  }

  /** The middle loop of `collect_topics`, over the levels of one unit. */
  method CollectUnit(unit: Unit, levels: seq<string>, used: set<string>) returns (found: seq<string>)
    ensures found == UnitKeys(unit, levels, used)
  {
    found := [];
    var j := 0;
    while j < |levels|
      invariant 0 <= j <= |levels|
      invariant found == UnitKeys(unit, levels[..j], used)
    {
      var level := levels[j];
      UnitKeysSnoc(unit, levels, used, j);
      var levelKeys := CollectLevel(unit.unitNumber, TopicsAt(unit, level), level, used);
      found := found + levelKeys;
      j := j + 1;
    }
    assert levels[..j] == levels;
  }

  /** The innermost loop of `collect_topics`, over one unit's topic list for one level. */
  method CollectLevel(unitNumber: int, topics: seq<string>, level: string, used: set<string>)
    returns (found: seq<string>)
    ensures found == LevelKeys(unitNumber, topics, level, used)
  {
    found := [];
    var k := 0;
    while k < |topics|
      invariant 0 <= k <= |topics|
      invariant found == LevelKeys(unitNumber, topics[..k], level, used)
    {
      var key := Key(unitNumber, topics[k], level);
      LevelKeysSnoc(unitNumber, topics, level, used, k);
      if key !in used {
        found := found + [key];
      }
      k := k + 1;
    }
    assert topics[..k] == topics;
  }

  lemma LevelKeysSnoc(unitNumber: int, topics: seq<string>, level: string, used: set<string>, k: nat)
    requires k < |topics|
    ensures var key := Key(unitNumber, topics[k], level);
            LevelKeys(unitNumber, topics[..k + 1], level, used)
            == LevelKeys(unitNumber, topics[..k], level, used) + (if key in used then [] else [key])
  {
    assert topics[..k + 1][..k] == topics[..k];
  }

  lemma UnitKeysSnoc(unit: Unit, levels: seq<string>, used: set<string>, j: nat)
    requires j < |levels|
    ensures UnitKeys(unit, levels[..j + 1], used)
            == UnitKeys(unit, levels[..j], used) + LevelKeys(unit.unitNumber, TopicsAt(unit, levels[j]), levels[j], used)
  {
    assert levels[..j + 1][..j] == levels[..j];
  }

  lemma CollectSnoc(syllabus: Syllabus, units: seq<int>, levels: seq<string>, used: set<string>, i: nat)
    requires i < |syllabus|
    ensures Collect(syllabus[..i + 1], units, levels, used)
            == Collect(syllabus[..i], units, levels, used)
               + (if syllabus[i].unitNumber in units then UnitKeys(syllabus[i], levels, used) else [])
  {
    assert syllabus[..i + 1][..i] == syllabus[..i];
  }

  // ---------------------------------------------------------------------------------------
  // Difficulty mapping and the fallback levels

  /** `blooms_levels` once every (valid) difficulty's levels have been appended. */
  function ExtendedLevels(difficulties: seq<string>): seq<string>
    requires forall d :: d in difficulties ==> d in BloomsMap
  {
    if difficulties == [] then []
    else ExtendedLevels(difficulties[..|difficulties| - 1]) + BloomsMap[difficulties[|difficulties| - 1]]
  }

  /**
   * The result of `map_difficulty_to_blooms` on valid difficulties, `list(set(blooms_levels))`.
   * Python leaves the order of that list unspecified; this model keeps first occurrences.
   */
  function PrimaryBlooms(difficulties: seq<string>): seq<string>
    requires forall d :: d in difficulties ==> d in BloomsMap
  {
    Dedup(ExtendedLevels(difficulties))
  }

  /** `map_difficulty_to_blooms`: fails on the first unknown difficulty, else the de-duplicated levels. */
  method MapDifficultyToBlooms(difficulties: seq<string>) returns (r: Result<seq<string>, SelectError>)
    ensures r.Ok? <==> forall d :: d in difficulties ==> d in BloomsMap
    ensures r.Ok? ==> r.value == PrimaryBlooms(difficulties)
    ensures r.Err? ==> exists i :: 0 <= i < |difficulties| && difficulties[i] !in BloomsMap
                          && r.error == InvalidDifficultyLevel(difficulties[i])
                          && forall j :: 0 <= j < i ==> difficulties[j] in BloomsMap
  {
    var levels: seq<string> := [];
    for i := 0 to |difficulties|
      invariant forall d :: d in difficulties[..i] ==> d in BloomsMap
      invariant levels == ExtendedLevels(difficulties[..i])
    {
      var d := difficulties[i];
      if d !in BloomsMap {
        assert forall j :: 0 <= j < i ==> difficulties[j] in difficulties[..i];
        return Err(InvalidDifficultyLevel(d));
      }
      assert difficulties[..i + 1][..i] == difficulties[..i];
      levels := levels + BloomsMap[d];
    }
    assert difficulties[..|difficulties|] == difficulties;
    return Ok(Dedup(levels));
  }

  /** `full_hierarchy.index(level)`. */
  function LevelIndex(level: string): (i: nat)
    requires level in Hierarchy
    ensures i < |Hierarchy| && Hierarchy[i] == level
  {
    IndexOf(Hierarchy, level)
  }

  /** `[full_hierarchy.index(b) for b in current if b in full_hierarchy]`. */
  function KnownIndices(current: seq<string>): (r: seq<nat>)
    ensures forall x :: x in r <==> exists b :: b in current && b in Hierarchy && x == LevelIndex(b)
  {
    if current == [] then []
    else (if current[0] in Hierarchy then [LevelIndex(current[0])] else []) + KnownIndices(current[1..])
  }

  /** `min(xs)` of a non-empty list. */
  function MinOf(xs: seq<nat>): (m: nat)
    requires xs != []
    ensures m in xs && forall x :: x in xs ==> m <= x
  {
    if |xs| == 1 then xs[0]
    else
      var m := MinOf(xs[1..]);
      assert xs == [xs[0]] + xs[1..];
      if xs[0] <= m then xs[0] else m
  }

  /** `fallback_blooms(current)`: the hierarchy up to, not including, the lowest recognised level of `current`. */
  function FallbackBlooms(current: seq<string>): seq<string> {
    var indices := KnownIndices(current);
    var minIndex := if indices != [] then MinOf(indices) else 0;
    Hierarchy[..minIndex]
  }

  /** A non-empty fallback starts at Remembering, so falling back from it yields nothing: at most one fallback round. */
  lemma FallbackOnce(current: seq<string>)
    requires FallbackBlooms(current) != []
    ensures FallbackBlooms(FallbackBlooms(current)) == []
  {
    var fallback := FallbackBlooms(current);
    assert fallback[0] == "Remembering";
    assert LevelIndex("Remembering") == 0;
    assert 0 in KnownIndices(fallback);
  }

  // ---------------------------------------------------------------------------------------
  // Selection

  /**
   * The fallback loop over shuffled `candidates`: stops once `need` keys were appended and appends
   * each candidate not yet used, marking it used.
   */
  function TakeFresh(candidates: seq<string>, used: set<string>, need: nat): seq<string> {
    if need == 0 || candidates == [] then []
    else if candidates[0] in used then TakeFresh(candidates[1..], used, need)
    else [candidates[0]] + TakeFresh(candidates[1..], used + {candidates[0]}, need - 1)
  }

  /** The fallback loop appends at most `need` keys, each a candidate not used before, none twice. */
  lemma {:induction false} TakeFreshFacts(candidates: seq<string>, used: set<string>, need: nat)
    ensures var r := TakeFresh(candidates, used, need);
            |r| <= need && NoDup(r) && forall k :: k in r ==> k in candidates && k !in used
  {
    if need > 0 && candidates != [] {
      var c, rest := candidates[0], candidates[1..];
      if c in used {
        TakeFreshFacts(rest, used, need);
      } else {
        TakeFreshFacts(rest, used + {c}, need - 1);
        var tail := TakeFresh(rest, used + {c}, need - 1);
        assert TakeFresh(candidates, used, need) == [c] + tail;
        assert c !in tail;
      }
    }
  }

  /**
   * `selected_topics` at the end of the selection for `total` questions: the first `total` shuffled
   * primary keys and, if they fall short and there are levels below the primary ones, the fresh
   * keys of one fallback round.
   */
  function Selection(syllabus: Syllabus, units: seq<int>, primary: seq<string>, total: nat, shuffle: Shuffle)
    : seq<string>
  {
    var first := shuffle(0, Collect(syllabus, units, primary, {}));
    var initial := first[..Min(total, |first|)];
    if |initial| >= total then initial
    else
      var fallback := FallbackBlooms(primary);
      if fallback == [] then initial
      else
        var candidates := shuffle(1, Collect(syllabus, units, fallback, Elems(initial)));
        initial + TakeFresh(candidates, Elems(initial), total - |initial|)
  }

  /** The lines `f"{i}. {topic}"`, numbered from 1. */
  function NumberedLines(selected: seq<string>): seq<string> {
    seq(|selected|, i requires 0 <= i < |selected| => IntToString(i + 1) + ". " + selected[i])
  }

  /** The returned text: the header line, then the numbered keys, joined by newlines. */
  function Format(selected: seq<string>): string {
    Join([Header] + NumberedLines(selected), "\n")
  }

  // ---------------------------------------------------------------------------------------
  // The whole call

  /** A request that passed validation: the total count, the unit filter and the primary levels. */
  datatype Request = Request(total: nat, units: seq<int>, primary: seq<string>)

  predicate ValidDifficulties(difficulties: seq<string>) {
    difficulties != [] && forall d :: d in difficulties ==> d in DifficultyLabels
  }

  predicate ValidUnits(units: seq<int>) {
    units != [] && forall u :: u in units ==> 1 <= u <= 5
  }

  /** The checks at the top of `generate_random_topics`, in the source's order; the total on success. */
  function CheckedTotal(questionCounts: string, units: seq<int>, difficulties: seq<string>): Result<nat, SelectError> {
    match ParseCounts(questionCounts)
    case None => Err(InvalidCountsFormat)
    case Some(parts) =>
      var total := Sum(parts);
      if total <= 0 then Err(NonPositiveTotal)
      else if !ValidDifficulties(difficulties) then Err(InvalidDifficulties)
      else if !ValidUnits(units) then Err(InvalidUnits)
      else Ok(total)
  }

  /** The validated request. */
  function ValidateRequest(questionCounts: string, units: seq<int>, difficulties: seq<string>)
    : Result<Request, SelectError>
  {
    match CheckedTotal(questionCounts, units, difficulties)
    case Err(e) => Err(e)
    case Ok(total) => Ok(Request(total, units, PrimaryBlooms(difficulties)))
  }

  /** What `generate_random_topics` returns, or the error it raises. */
  function RandomTopics(questionCounts: string, units: seq<int>, difficulties: seq<string>,
                        syllabus: Syllabus, shuffle: Shuffle): Result<string, SelectError>
  {
    match ValidateRequest(questionCounts, units, difficulties)
    case Err(e) => Err(e)
    case Ok(req) =>
      var selected := Selection(syllabus, req.units, req.primary, req.total, shuffle);
      if selected == [] then Err(NoTopicsAvailable) else Ok(Format(selected))
  }

  /** `generate_random_topics`, step by step as the source does it. */
  method GenerateRandomTopics(questionCounts: string, units: seq<int>, difficulties: seq<string>,
                              syllabus: Syllabus, shuffle: Shuffle) returns (r: Result<string, SelectError>)
    requires IsShuffle(shuffle)
    ensures r == RandomTopics(questionCounts, units, difficulties, syllabus, shuffle)
  {
    var checked := CheckInputs(questionCounts, units, difficulties);
    if checked.Err? {
      return Err(checked.error);
    }
    var total := checked.value;
    LabelsAreMapped(difficulties);
    var mapped := MapDifficultyToBlooms(difficulties);
    var selected := SelectTopics(syllabus, units, mapped.value, total, shuffle);
    if selected == [] {
      return Err(NoTopicsAvailable);
    }
    var output := Render(selected[..Min(total, |selected|)]);
    assert selected[..Min(total, |selected|)] == selected;
    return Ok(output);
  }

  /**
   * The parsing of the counts and the input validation at the top of `generate_random_topics`:
   * each error exactly under its condition, in the source's order, and otherwise the summed total.
   */
  method CheckInputs(questionCounts: string, units: seq<int>, difficulties: seq<string>) returns (r: Result<nat, SelectError>)
    ensures var parsed := ParseCounts(questionCounts);
            (r == Err(InvalidCountsFormat) <==> parsed.None?)
            && (r == Err(NonPositiveTotal) <==> parsed.Some? && Sum(parsed.value) <= 0)
            && (r == Err(InvalidDifficulties) <==>
                  parsed.Some? && Sum(parsed.value) > 0
                  && (difficulties == [] || exists d :: d in difficulties && d !in DifficultyLabels))
            && (r == Err(InvalidUnits) <==>
                  parsed.Some? && Sum(parsed.value) > 0 && ValidDifficulties(difficulties)
                  && (units == [] || exists u :: u in units && !(1 <= u <= 5)))
            && (r.Ok? ==> parsed.Some? && r.value == Sum(parsed.value))
    ensures r == CheckedTotal(questionCounts, units, difficulties)
  {
    var parts := ParseCounts(questionCounts);
    if parts.None? {
      return Err(InvalidCountsFormat);
    }
    var total := Sum(parts.value);
    if total <= 0 {
      return Err(NonPositiveTotal);
    }
    if !ValidDifficulties(difficulties) {
      return Err(InvalidDifficulties);
    }
    if !ValidUnits(units) {
      return Err(InvalidUnits);
    }
    return Ok(total);
  }

  /**
   * The selection part of `generate_random_topics`: the shuffled primary batch, then the
   * `while len(selected_topics) < num_questions` loop of fallback rounds.
   */
  method SelectTopics(syllabus: Syllabus, units: seq<int>, primaryBlooms: seq<string>, total: nat, shuffle: Shuffle)
    returns (selected: seq<string>)
    ensures selected == Selection(syllabus, units, primaryBlooms, total, shuffle)
    ensures |selected| <= total
  {
    var primary := primaryBlooms;
    var used: set<string> := {};
    selected := [];

    var topics := CollectTopics(syllabus, units, primary, used);
    topics := shuffle(0, topics);
    selected := selected + topics[..Min(total, |topics|)];
    used := used + Elems(selected);
    ghost var initial := selected;

    var round := 1;
    while |selected| < total
      invariant round == 1 || round == 2
      invariant used == Elems(selected) && |selected| <= total
      invariant round == 1 ==> primary == primaryBlooms && selected == initial
      invariant round == 2 ==> primary == FallbackBlooms(primaryBlooms) && FallbackBlooms(primary) == []
      invariant round == 2 ==> selected == Selection(syllabus, units, primaryBlooms, total, shuffle)
      decreases |FallbackBlooms(primary)|
    {
      var fallbackLevels := FallbackBlooms(primary);
      if fallbackLevels == [] {
        break;
      }
      topics := CollectTopics(syllabus, units, fallbackLevels, used);
      topics := shuffle(round, topics);
      selected, used := AppendFresh(selected, used, topics, total);
      SelectionWithFallback(syllabus, units, primaryBlooms, total, shuffle, initial);
      FallbackOnce(primary);
      primary := fallbackLevels;
      round := round + 1;
    }
    if round == 1 {
      SelectionWithoutFallback(syllabus, units, primaryBlooms, total, shuffle, initial);
    }
  }

  lemma LabelsAreMapped(difficulties: seq<string>)
    requires ValidDifficulties(difficulties)
    ensures forall d :: d in difficulties ==> d in BloomsMap
  {
    forall d | d in difficulties ensures d in BloomsMap {
      assert d in DifficultyLabels;
      assert d == "easy" || d == "medium" || d == "hard";
    }
  }

  /** Selection when the shuffled primary keys fall short and there are fallback levels. */
  lemma SelectionWithFallback(syllabus: Syllabus, units: seq<int>, primary: seq<string>, total: nat,
                              shuffle: Shuffle, initial: seq<string>)
    requires var first := shuffle(0, Collect(syllabus, units, primary, {}));
             initial == first[..Min(total, |first|)]
    requires |initial| < total && FallbackBlooms(primary) != []
    ensures Selection(syllabus, units, primary, total, shuffle)
            == initial + TakeFresh(shuffle(1, Collect(syllabus, units, FallbackBlooms(primary), Elems(initial))),
                                   Elems(initial), total - |initial|)
  {
  }

  /** Selection when the shuffled primary keys suffice or there is nothing to fall back to. */
  lemma SelectionWithoutFallback(syllabus: Syllabus, units: seq<int>, primary: seq<string>, total: nat,
                                 shuffle: Shuffle, initial: seq<string>)
    requires var first := shuffle(0, Collect(syllabus, units, primary, {}));
             initial == first[..Min(total, |first|)]
    requires |initial| >= total || FallbackBlooms(primary) == []
    ensures Selection(syllabus, units, primary, total, shuffle) == initial
  {
  }

  /** The `for t in topics` loop of a fallback round. */
  method AppendFresh(selected: seq<string>, used: set<string>, topics: seq<string>, total: nat)
    returns (selected': seq<string>, used': set<string>)
    requires used == Elems(selected) && |selected| <= total
    ensures selected' == selected + TakeFresh(topics, used, total - |selected|)
    ensures used' == Elems(selected') && |selected'| <= total
  {
    selected', used' := selected, used;
    var k := 0;
    assert topics[k..] == topics;
    while k < |topics|
      invariant 0 <= k <= |topics|
      invariant used' == Elems(selected') && |selected'| <= total
      invariant selected' + TakeFresh(topics[k..], used', total - |selected'|)
                == selected + TakeFresh(topics, used, total - |selected|)
    {
      if |selected'| >= total {
        break;
      }
      var t := topics[k];
      assert topics[k..][1..] == topics[k + 1..];
      if t !in used' {
        ElemsAppend(selected', [t]);
        selected' := selected' + [t];
        used' := used' + {t};
      }
      k := k + 1;
    }
  }

  /** The output lines built by the `enumerate` loop, joined by newlines. */
  method Render(selected: seq<string>) returns (output: string)
    ensures output == Format(selected)
  {
    var lines := [Header];
    for i := 0 to |selected|
      invariant lines == [Header] + NumberedLines(selected[..i])
    {
      assert NumberedLines(selected[..i + 1]) == NumberedLines(selected[..i]) + [IntToString(i + 1) + ". " + selected[i]];
      lines := lines + [IntToString(i + 1) + ". " + selected[i]];
    }
    assert selected[..|selected|] == selected;
    output := Join(lines, "\n");
  }
}
