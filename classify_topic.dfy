/**
 * The deterministic string handling of `classify_topics_to_question_types`: parsing the count string,
 * naming the question types, building the type-to-count dictionary, extracting topics from the
 * numbered list the selector renders, and stripping Markdown code fences off the model's reply.
 * The language-model call and the JSON decoding between them are not part of this model.
 */
module ClassifyTopic {
  import opened Common
  import opened PyStrings
  import opened QuestionCounts

  /** The ValueError message for a count string that does not parse. */
  const InvalidCountsMessage: string := "Invalid question counts format. Use comma-separated integers (e.g., '10,6,4')"

  // ---------------------------------------------------------------------------------------
  // Question types and the count dictionary

  /** `f"{marks} Marks"`. */
  function MarksName(marks: int): string {
    IntToString(marks) + " Marks"
  }

  /** Three counts name the three formats; any other number of counts names each by its marks. */
  function QuestionTypes(counts: seq<int>): (types: seq<string>)
    ensures |types| == |counts|
  {
    if |counts| == 3 then ["MCQs", "Short Answer", "Long Answer"]
    else MarkNames(counts)
  }

  /** `zip(a, b)`: pairs up to the shorter length. */
  function Zip<A, B>(a: seq<A>, b: seq<B>): (pairs: seq<(A, B)>)
    ensures |pairs| == Min(|a|, |b|)
  {
    seq(Min(|a|, |b|), i requires 0 <= i < Min(|a|, |b|) => (a[i], b[i]))
  }

  /** A Python dict from string to int, as its entries in insertion order. */
  type Dict = seq<(string, int)>

  function Keys<V>(entries: seq<(string, V)>): (keys: seq<string>)
    ensures |keys| == |entries|
  {
    seq(|entries|, i requires 0 <= i < |entries| => entries[i].0)
  }

  /** `d.get(key)`. */
  function Lookup(d: Dict, key: string): Option<int> {
    if d == [] then None
    else if d[0].0 == key then Some(d[0].1)
    else Lookup(d[1..], key)
  }

  /** `d[key] = value`: an existing key keeps its position and takes the new value, a new key goes last. */
  function Insert(d: Dict, key: string, value: int): (r: Dict)
    ensures Keys(r) == if key in Keys(d) then Keys(d) else Keys(d) + [key]
    ensures key !in Keys(d) ==> r == d + [(key, value)]
    ensures forall k :: Lookup(r, k) == if k == key then Some(value) else Lookup(d, k)
  {
    if d == [] then [(key, value)]
    else if d[0].0 == key then
      assert Keys(d) == [key] + Keys(d[1..]);
      [(key, value)] + d[1..]
    else
      var rest := Insert(d[1..], key, value);
      assert Keys(d) == [d[0].0] + Keys(d[1..]);
      assert Keys([d[0]] + rest) == [d[0].0] + Keys(rest);
      [d[0]] + rest
  }

  /** `{k: v for k, v in pairs}`: the pairs inserted in order. */
  function DictOf(pairs: seq<(string, int)>): Dict {
    if pairs == [] then []
    else Insert(DictOf(pairs[..|pairs| - 1]), pairs[|pairs| - 1].0, pairs[|pairs| - 1].1)
  }

  /** The dictionary lists each key once, in the order of its first occurrence. */
  lemma {:induction false} DictKeys(pairs: seq<(string, int)>)
    ensures Keys(DictOf(pairs)) == Dedup(Keys(pairs))
  {
    if pairs != [] {
      var p := pairs[..|pairs| - 1];
      DictKeys(p);
      assert Keys(p) == Keys(pairs)[..|pairs| - 1];
      assert Elems(Dedup(Keys(p))) == Elems(Keys(p));
    }
  }

  /** A key maps to the value of its last pair: later pairs overwrite earlier ones. */
  lemma {:induction false} DictLastWins(pairs: seq<(string, int)>, i: nat)
    requires i < |pairs|
    requires forall j :: i < j < |pairs| ==> pairs[j].0 != pairs[i].0
    ensures Lookup(DictOf(pairs), pairs[i].0) == Some(pairs[i].1)
  {
    if i < |pairs| - 1 {
      DictLastWins(pairs[..|pairs| - 1], i);
    }
  }

  /** A key that no pair carries is absent. */
  lemma {:induction false} DictMissing(pairs: seq<(string, int)>, key: string)
    requires key !in Keys(pairs)
    ensures Lookup(DictOf(pairs), key) == None
  {
    if pairs != [] {
      var p := pairs[..|pairs| - 1];
      assert Keys(p) == Keys(pairs)[..|pairs| - 1];
      assert Keys(pairs)[|pairs| - 1] == pairs[|pairs| - 1].0;
      DictMissing(p, key);
    }
  }

  /** `question_counts_dict`. */
  function CountsDict(counts: seq<int>): Dict {
    DictOf(Zip(QuestionTypes(counts), counts))
  }

  /** Three counts give the dictionary MCQs, Short Answer, Long Answer with the counts in order. */
  lemma ThreeCountsDict(counts: seq<int>)
    requires |counts| == 3
    ensures CountsDict(counts) == [("MCQs", counts[0]), ("Short Answer", counts[1]), ("Long Answer", counts[2])]
  {
    var pairs := Zip(QuestionTypes(counts), counts);
    var d1 := [("MCQs", counts[0])];
    var d2 := d1 + [("Short Answer", counts[1])];
    assert pairs[..1][..0] == [];
    assert pairs[..1] == d1;
    assert DictOf(pairs[..1]) == d1;
    assert pairs[..2][..1] == pairs[..1];
    assert Keys(d1) == ["MCQs"];
    assert DictOf(pairs[..2]) == Insert(d1, "Short Answer", counts[1]);
    assert Keys(d2) == ["MCQs", "Short Answer"];
    assert DictOf(pairs) == Insert(d2, "Long Answer", counts[2]);
  }

  /** `[f"{marks} Marks" for marks in counts]`. */
  function MarkNames(counts: seq<int>): (names: seq<string>)
    ensures |names| == |counts|
  {
    seq(|counts|, i requires 0 <= i < |counts| => MarksName(counts[i]))
  }

  /** With any number of counts other than three, every count is found under its own mark name. */
  lemma MarkCountsLookup(counts: seq<int>, i: nat)
    requires |counts| != 3 && i < |counts|
    ensures Lookup(CountsDict(counts), MarksName(counts[i])) == Some(counts[i])
  {
    var pairs := Zip(QuestionTypes(counts), counts);
    var j := LastWith(counts, i);
    forall k | j < k < |pairs| ensures pairs[k].0 != pairs[j].0 {
      if pairs[k].0 == pairs[j].0 { MarksNameInjective(counts[k], counts[j]); }
    }
    DictLastWins(pairs, j);
  }

  /**
   * With any number of counts other than three, the dictionary holds the mark name of each distinct
   * count once, in first-occurrence order: repeated counts collapse into one entry.
   */
  lemma MarkCountsKeys(counts: seq<int>)
    requires |counts| != 3
    ensures Keys(CountsDict(counts)) == MarkNames(Dedup(counts))
  {
    var pairs := Zip(QuestionTypes(counts), counts);
    assert Keys(pairs) == MarkNames(counts);
    DictKeys(pairs);
    DedupMarkNames(counts);
  }

  lemma {:induction false} DedupMarkNames(counts: seq<int>)
    ensures Dedup(MarkNames(counts)) == MarkNames(Dedup(counts))
  {
    if counts != [] {
      var p, c := counts[..|counts| - 1], counts[|counts| - 1];
      assert counts == p + [c];
      DedupMarkNames(p);
      MarkNamesSnoc(p, c);
      DedupSnoc(MarkNames(p), MarksName(c));
      DedupSnoc(p, c);
      MarkNamesMember(Dedup(p), c);
      MarkNamesSnoc(Dedup(p), c);
    }
  }

  lemma MarkNamesSnoc(counts: seq<int>, c: int)
    ensures MarkNames(counts + [c]) == MarkNames(counts) + [MarksName(c)]
  {
  }

  lemma MarkNamesMember(counts: seq<int>, c: int)
    ensures MarksName(c) in MarkNames(counts) <==> c in counts
  {
    if MarksName(c) in MarkNames(counts) {
      var k :| 0 <= k < |counts| && MarkNames(counts)[k] == MarksName(c);
      MarksNameInjective(counts[k], c);
    }
    if c in counts {
      var k :| 0 <= k < |counts| && counts[k] == c;
      assert MarkNames(counts)[k] == MarksName(c);
    }
  }

  /** The last position holding the same count as position `i`. */
  function LastWith(counts: seq<int>, i: nat): (j: nat)
    requires i < |counts|
    ensures i <= j < |counts| && counts[j] == counts[i]
    ensures forall k :: j < k < |counts| ==> counts[k] != counts[i]
    decreases |counts| - i
  {
    if exists k :: i < k < |counts| && counts[k] == counts[i] then
      var k :| i < k < |counts| && counts[k] == counts[i];
      LastWith(counts, k)
    else i
  }

  /** A mark name tells its count: the text before " Marks" is `str` of the count. */
  lemma MarksNameInjective(m: int, n: int)
    requires MarksName(m) == MarksName(n)
    ensures m == n
  {
    var s, t := IntToString(m), IntToString(n);
    assert s == MarksName(m)[..|s|];
    assert t == MarksName(n)[..|t|];
    IntToStringInjective(m, n);
  }

  /** "5,5" gives the single entry `{"5 Marks": 5}`. */
  lemma RepeatedMarksCollapse()
    ensures CountsDict([5, 5]) == [("5 Marks", 5)]
  {
    assert DigitChar(5) == '5';
    assert IntToString(5) == "5";
    var name := MarksName(5);
    assert name == "5 Marks";
    var pairs: seq<(string, int)> := Zip(QuestionTypes([5, 5]), [5, 5]);
    assert pairs == [(name, 5), (name, 5)];
    assert pairs[..1][..0] == [];
    assert pairs[..1] == [(name, 5)];
    assert DictOf(pairs[..1]) == [(name, 5)];
    assert DictOf(pairs) == Insert([(name, 5)], name, 5);
  }

  // ---------------------------------------------------------------------------------------
  // Topic extraction

  /** Lines starting with this are the list's header. */
  const HeaderPrefix: string := "Selected Topics:"

  /**
   * The topic a line of the list contributes: none for a blank line or the header, otherwise the
   * stripped text after the first `.`, or the stripped line when it has no `.`.
   */
  function TopicOfLine(line: string): (topic: Option<string>)
    ensures topic.Some? ==> IsStripped(topic.value)
  {
    if Strip(line) == [] || StartsWith(line, HeaderPrefix) then None
    else if '.' in line then Some(Strip(line[IndexOf(line, '.') + 1..]))
    else Some(Strip(line))
  }

  /** The topics of a sequence of lines, in line order. */
  function TopicsOfLines(lines: seq<string>): (topics: seq<string>)
    ensures |topics| <= |lines|
    ensures forall t :: t in topics ==> IsStripped(t)
  {
    if lines == [] then []
    else
      var rest := TopicsOfLines(lines[..|lines| - 1]);
      match TopicOfLine(lines[|lines| - 1])
      case None => rest
      case Some(t) => rest + [t]
  }

  function ExtractedTopics(topicList: string): seq<string> {
    TopicsOfLines(Split(topicList, '\n'))
  }

  /** The `for line in topic_list.split('\n')` loop. */
  method ExtractTopics(topicList: string) returns (topics: seq<string>)
    ensures topics == ExtractedTopics(topicList)
  {
    var lines := Split(topicList, '\n');
    topics := [];
    for i := 0 to |lines|
      invariant topics == TopicsOfLines(lines[..i])
    {
      assert lines[..i + 1][..i] == lines[..i];
      var line := lines[i];
      if Strip(line) != [] && !StartsWith(line, HeaderPrefix) {
        var topic;
        if '.' in line {
          var dot := IndexOf(line, '.');
          topic := Strip(line[dot + 1..]);
        } else {
          topic := Strip(line);
        }
        topics := topics + [topic];
      }
    }
    assert lines[..|lines|] == lines;
  }

  /** A line `<n>. <topic>` yields exactly its topic when the topic has no surrounding whitespace. */
  lemma NumberedLineTopic(n: int, topic: string)
    requires IsStripped(topic)
    ensures TopicOfLine(IntToString(n) + ". " + topic) == Some(topic)
  {
    var num := IntToString(n);
    var line := num + ". " + topic;
    NumberedLineKept(n, ". " + topic);
    assert line == num + (". " + topic);
    NumberedLineDot(n, topic);
    assert TopicOfLine(line) == Some(Strip(line[|num| + 1..]));
    StripLeadingSpace(topic);
  }

  lemma StripLeadingSpace(topic: string)
    requires IsStripped(topic)
    ensures Strip(" " + topic) == topic
  {
    LStripSpacePrefix(" ", topic);
    StripFixedPoints(topic);
  }

  /** A numbered line is neither blank nor the header. */
  lemma NumberedLineKept(n: int, rest: string)
    ensures var line := IntToString(n) + rest;
            Strip(line) != [] && !StartsWith(line, HeaderPrefix)
  {
    var num := IntToString(n);
    var line := num + rest;
    assert line[0] == num[0];
    assert IsDigit(num[0]) || num[0] == '-';
    StripNonBlank(line);
    assert HeaderPrefix[0] == 'S';
  }

  /** The first `.` of a numbered line is the one right after the number. */
  lemma NumberedLineDot(n: int, topic: string)
    ensures var num := IntToString(n);
            var line := num + ". " + topic;
            '.' in line && IndexOf(line, '.') == |num| && line[|num| + 1..] == " " + topic
  {
    var num := IntToString(n);
    var line := num + ". " + topic;
    assert '.' !in num by {
      forall i | 0 <= i < |num| ensures num[i] != '.' {
        assert IsDigit(num[i]) || num[i] == '-';
      }
    }
    assert line == num + ['.'] + (" " + topic);
    IndexOfAfter(num, '.', " " + topic);
  }

  /** Blank lines contribute nothing. */
  lemma BlankLinesSkipped(lines: seq<string>, blank: string)
    requires forall i :: 0 <= i < |blank| ==> IsSpace(blank[i])
    ensures TopicsOfLines(lines + [blank]) == TopicsOfLines(lines)
  {
    StripBlank(blank);
    assert TopicOfLine(blank) == None;
    assert (lines + [blank])[..|lines|] == lines;
  }

  // ---------------------------------------------------------------------------------------
  // Code fences

  const JsonFence: string := "```json"
  const Fence: string := "```"

  /** The reply trimmed, without a leading "```json" if present and a trailing "```" if present. */
  function CleanOutput(content: string): (cleaned: string)
    ensures IsStripped(cleaned)
    ensures |cleaned| <= |content|
  {
    var trimmed := Strip(content);
    var body := if StartsWith(trimmed, JsonFence) then Strip(trimmed[|JsonFence|..]) else trimmed;
    if EndsWith(body, Fence) then Strip(body[..|body| - |Fence|]) else body
  }

  /** A reply with neither marker comes back trimmed and otherwise unchanged. */
  lemma CleanUnfenced(content: string)
    requires !StartsWith(Strip(content), JsonFence) && !EndsWith(Strip(content), Fence)
    ensures CleanOutput(content) == Strip(content)
  {
  }

  /** Behind the opening fence, `strip` drops the newline and the body's leading whitespace. */
  lemma StripFenceBody(x: string)
    ensures var l := LStrip(x);
            Strip("\n" + x + "\n" + Fence) == if l == [] then Fence else l + "\n" + Fence
  {
    var l := LStrip(x);
    LStripDropsSpaces(x);
    var w := x[..|x| - |l|];
    assert x == w + l;
    if l == [] {
      StripFenceBlank(w);
    } else {
      StripFenceText(w, l);
    }
  }

  lemma StripFenceBlank(w: string)
    requires forall i :: 0 <= i < |w| ==> IsSpace(w[i])
    ensures Strip("\n" + (w + []) + "\n" + Fence) == Fence
  {
    var v := "\n" + w + "\n";
    assert "\n" + (w + []) + "\n" + Fence == v + Fence;
    assert forall i :: 0 <= i < |v| ==> IsSpace(v[i]) by {
      assert forall i :: 1 <= i < |v| - 1 ==> v[i] == w[i - 1];
    }
    LStripSpacePrefix(v, Fence);
  }

  lemma StripFenceText(w: string, l: string)
    requires forall i :: 0 <= i < |w| ==> IsSpace(w[i])
    requires l != [] && !IsSpace(l[0])
    ensures Strip("\n" + (w + l) + "\n" + Fence) == l + "\n" + Fence
  {
    var v := "\n" + w;
    var y := l + "\n" + Fence;
    assert "\n" + (w + l) + "\n" + Fence == v + y;
    assert forall i :: 0 <= i < |v| ==> IsSpace(v[i]) by {
      assert forall i :: 1 <= i < |v| ==> v[i] == w[i - 1];
    }
    LStripSpacePrefix(v, y);
    assert y[0] == l[0];
    assert y[|y| - 1] == '`';
  }

  /** A newline after a string that starts with no whitespace goes, and the string's end is stripped. */
  lemma StripNewlineAfter(l: string)
    requires l == [] || !IsSpace(l[0])
    ensures Strip(l + "\n") == RStrip(l)
  {
    if l == [] {
      assert l + "\n" == "\n";
      StripBlank("\n");
    } else {
      assert (l + "\n")[0] == l[0];
      StripNonBlank(l + "\n");
      RStripSpaceSuffix(l, "\n");
    }
  }

  /** The steps `CleanOutput` takes on a trimmed reply that opens with "```json" and whose rest, trimmed, closes with "```". */
  lemma CleanOpenedAndClosed(content: string, rest: string)
    requires IsStripped(content) && StartsWith(content, JsonFence)
    requires Strip(content[|JsonFence|..]) == rest && EndsWith(rest, Fence)
    ensures CleanOutput(content) == Strip(rest[..|rest| - |Fence|])
  {
    StripFixedPoints(content);
  }

  /** A fenced JSON block loses both fences, and its body comes back stripped. */
  lemma CleanFencedBlock(x: string)
    ensures CleanOutput(JsonFence + "\n" + x + "\n" + Fence) == Strip(x)
  {
    var content := JsonFence + "\n" + x + "\n" + Fence;
    assert content[0] == '`' && content[|content| - 1] == '`';
    assert content[..|JsonFence|] == JsonFence;
    assert content[|JsonFence|..] == "\n" + x + "\n" + Fence;
    StripFenceBody(x);
    var l := LStrip(x);
    var rest := if l == [] then Fence else l + "\n" + Fence;
    assert rest[|rest| - 3..] == Fence;
    CleanOpenedAndClosed(content, rest);
    if l == [] {
      assert rest[..0] == [];
    } else {
      assert rest[..|rest| - 3] == l + "\n";
      StripNewlineAfter(l);
    }
  }

  // ---------------------------------------------------------------------------------------
  // Inputs to the classification request

  /** What the function derives from its arguments before it calls the language model. */
  datatype Classification = Classification(
    counts: seq<int>, total: int, questionTypes: seq<string>, countsDict: Dict, topics: seq<string>, topicText: string)

  /** The derivation, or the ValueError raised for a count string that does not parse. */
  function Prepare(questionCounts: string, topicList: string): Result<Classification, string> {
    match ParseCounts(questionCounts)
    case None => Err(InvalidCountsMessage)
    case Some(counts) =>
      var topics := ExtractedTopics(topicList);
      Ok(Classification(counts, Sum(counts), QuestionTypes(counts), CountsDict(counts), topics, Join(topics, "\n")))
  }

  /** `classify_topics_to_question_types` up to the language-model call, step by step. */
  method PrepareClassification(questionCounts: string, topicList: string) returns (r: Result<Classification, string>)
    ensures r == Prepare(questionCounts, topicList)
  {
    var parsed := ParseCounts(questionCounts);
    if parsed.None? {
      return Err(InvalidCountsMessage);
    }
    var counts := parsed.value;
    var total := Sum(counts);
    var questionTypes := QuestionTypes(counts);
    var countsDict := CountsDict(counts);
    var topics := ExtractTopics(topicList);
    r := Ok(Classification(counts, total, questionTypes, countsDict, topics, Join(topics, "\n")));
  }

  /** The call fails before the model is reached exactly when some comma-separated field is not an integer. */
  lemma PrepareRejects(questionCounts: string, topicList: string)
    ensures Prepare(questionCounts, topicList) == Err(InvalidCountsMessage) <==>
              exists i :: 0 <= i < |Split(questionCounts, ',')| && ParseInt(Split(questionCounts, ',')[i]).None?
  {
    var fields := Split(questionCounts, ',');
    ParseFieldsSpec(fields);
    assert Prepare(questionCounts, topicList) == Err(InvalidCountsMessage) <==> ParseFields(fields).None?;
    if ParseFields(fields).None? {
      var i :| 0 <= i < |fields| && !ParseInt(fields[i]).Some?;
      assert ParseInt(Split(questionCounts, ',')[i]).None?;
      assert Prepare(questionCounts, topicList) == Err(InvalidCountsMessage);
    } else {
      assert forall i :: 0 <= i < |fields| ==> !ParseInt(fields[i]).None?;
    }
  }

  /** The count string built from a non-empty list of counts yields those counts and their sum. */
  lemma PrepareCounts(counts: seq<int>, topicList: string)
    requires |counts| >= 1
    ensures Prepare(FormatCounts(counts), topicList).Ok?
    ensures Prepare(FormatCounts(counts), topicList).value.counts == counts
    ensures Prepare(FormatCounts(counts), topicList).value.total == Sum(counts)
  {
    CountsRoundTrip(counts);
  }

  /** A topic taken from a line without newlines has none either. */
  lemma TopicOfLineNoNewline(line: string)
    requires '\n' !in line
    ensures TopicOfLine(line).Some? ==> '\n' !in TopicOfLine(line).value
  {
    var x := if '.' in line then line[IndexOf(line, '.') + 1..] else line;
    assert '\n' !in x;
    StripKeepsOut(x, '\n');
  }

  lemma {:induction false} TopicsNoNewline(lines: seq<string>)
    requires forall i :: 0 <= i < |lines| ==> '\n' !in lines[i]
    ensures forall t :: t in TopicsOfLines(lines) ==> '\n' !in t
  {
    if lines != [] {
      TopicsNoNewline(lines[..|lines| - 1]);
      TopicOfLineNoNewline(lines[|lines| - 1]);
    }
  }

  /** The topic text sent to the model has one extracted topic per line. */
  lemma TopicTextLines(questionCounts: string, topicList: string)
    requires Prepare(questionCounts, topicList).Ok?
    requires Prepare(questionCounts, topicList).value.topics != []
    ensures Split(Prepare(questionCounts, topicList).value.topicText, '\n') == Prepare(questionCounts, topicList).value.topics
  {
    var topics := ExtractedTopics(topicList);
    TopicsNoNewline(Split(topicList, '\n'));
    SplitJoin(topics, '\n');
  }
}
