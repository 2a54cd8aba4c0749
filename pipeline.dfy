/**
 * The two core files in sequence, as the application runs them: the numbered list that
 * `generate_random_topics` renders is the topic list `classify_topics_to_question_types` reads,
 * under the same count string.
 */
module Pipeline {
  import opened Common
  import opened PyStrings
  import opened QuestionCounts
  import opened RandomLogic
  import opened SelectionProperties
  import opened ClassifyTopic

  /** No topic listed in the syllabus spans more than one line. */
  ghost predicate SingleLineTopics(syllabus: Syllabus) {
    forall i, level, topic :: 0 <= i < |syllabus| && topic in TopicsAt(syllabus[i], level) ==> '\n' !in topic
  }

  lemma TopicsOfLastLine(lines: seq<string>, topic: string)
    requires lines != [] && TopicOfLine(lines[|lines| - 1]) == Some(topic)
    ensures TopicsOfLines(lines) == TopicsOfLines(lines[..|lines| - 1]) + [topic]
  {
  }

  /** Lines that each yield one topic yield those topics, in order. */
  lemma {:induction false} TopicsOfYieldingLines(lines: seq<string>, topics: seq<string>)
    requires |lines| == |topics|
    requires forall i :: 0 <= i < |lines| ==> TopicOfLine(lines[i]) == Some(topics[i])
    ensures TopicsOfLines(lines) == topics
  {
    if lines != [] {
      var n := |lines| - 1;
      var init, before := lines[..n], topics[..n];
      forall i | 0 <= i < n ensures TopicOfLine(init[i]) == Some(before[i]) {
        assert init[i] == lines[i] && before[i] == topics[i];
      }
      TopicsOfYieldingLines(init, before);
      TopicsOfLastLine(lines, topics[n]);
      assert before + [topics[n]] == topics;
    }
  }

  /** A first line that yields nothing does not change the topics of the lines after it. */
  lemma {:induction false} SkippedHead(head: string, lines: seq<string>)
    requires TopicOfLine(head) == None
    ensures TopicsOfLines([head] + lines) == TopicsOfLines(lines)
  {
    if lines == [] {
      assert [head] + lines == [head];
      assert [head][..0] == [];
    } else {
      var n := |lines| - 1;
      SkippedHead(head, lines[..n]);
      assert ([head] + lines)[..n + 1] == [head] + lines[..n];
    }
  }

  /** Each numbered line of a selection yields its key. */
  lemma NumberedLinesYield(selected: seq<string>)
    requires forall k :: k in selected ==> IsStripped(k)
    ensures forall i :: 0 <= i < |selected| ==> TopicOfLine(NumberedLines(selected)[i]) == Some(selected[i])
  {
    forall i | 0 <= i < |selected| ensures TopicOfLine(NumberedLines(selected)[i]) == Some(selected[i]) {
      var line := IntToString(i + 1) + ". " + selected[i];
      assert NumberedLines(selected)[i] == line;
      assert selected[i] in selected;
      NumberedLineTopic(i + 1, selected[i]);
    }
  }

  /** Reading back a rendered selection gives the selected keys, in order. */
  lemma RenderedListRoundTrip(selected: seq<string>)
    requires forall k :: k in selected ==> IsStripped(k) && '\n' !in k
    ensures ExtractedTopics(Format(selected)) == selected
  {
    FormatLines(selected);
    HeaderAndLinesYield(selected);
  }

  /** The header line yields nothing and each numbered line yields its key. */
  lemma HeaderAndLinesYield(selected: seq<string>)
    requires forall k :: k in selected ==> IsStripped(k)
    ensures TopicsOfLines([Header] + NumberedLines(selected)) == selected
  {
    var lines := NumberedLines(selected);
    NumberedLinesYield(selected);
    TopicsOfYieldingLines(lines, selected);
    assert StartsWith(Header, HeaderPrefix);
    SkippedHead(Header, lines);
  }

  /** A collected key is trimmed, and a single line when its topic is. */
  lemma CollectedKeyShape(syllabus: Syllabus, units: seq<int>, levels: seq<string>, key: string)
    requires SingleLineTopics(syllabus)
    requires forall level :: level in levels ==> level in Hierarchy
    requires key in Collect(syllabus, units, levels, {})
    ensures IsStripped(key) && '\n' !in key
  {
    HierarchyPlain();
    CollectScope(syllabus, units, levels, {}, key);
    var i, level, topic :| 0 <= i < |syllabus| && syllabus[i].unitNumber in units && level in levels
      && topic in TopicsAt(syllabus[i], level) && key == Key(syllabus[i].unitNumber, topic, level);
    KeyShape(syllabus[i].unitNumber, topic, level);
  }

  lemma FallbackInHierarchy(current: seq<string>)
    ensures forall level :: level in FallbackBlooms(current) ==> level in Hierarchy
  {
    var fallback := FallbackBlooms(current);
    forall level | level in fallback ensures level in Hierarchy {
      var j :| 0 <= j < |fallback| && fallback[j] == level;
      assert Hierarchy[j] == level;
    }
  }

  /** Every selected key is trimmed and, when the syllabus topics are single lines, a single line. */
  lemma SelectedKeysShape(syllabus: Syllabus, units: seq<int>, primary: seq<string>, total: nat, shuffle: Shuffle)
    requires IsShuffle(shuffle) && SingleLineTopics(syllabus)
    requires forall level :: level in primary ==> level in Hierarchy
    ensures forall k :: k in Selection(syllabus, units, primary, total, shuffle) ==> IsStripped(k) && '\n' !in k
  {
    SelectionWithinPool(syllabus, units, primary, total, shuffle);
    FallbackInHierarchy(primary);
    forall k | k in Selection(syllabus, units, primary, total, shuffle) ensures IsStripped(k) && '\n' !in k {
      if k in PrimaryPool(syllabus, units, primary) {
        CollectedKeyShape(syllabus, units, primary, k);
      } else {
        CollectedKeyShape(syllabus, units, FallbackBlooms(primary), k);
      }
    }
  }

  /**
   * Under the same count string, the classifier accepts what the selector produced, reads the
   * same total, and extracts exactly the selected keys, in order.
   */
  lemma SelectionFeedsClassifier(questionCounts: string, units: seq<int>, difficulties: seq<string>,
                                 syllabus: Syllabus, shuffle: Shuffle)
    requires IsShuffle(shuffle) && SingleLineTopics(syllabus)
    requires RandomTopics(questionCounts, units, difficulties, syllabus, shuffle).Ok?
    ensures var req := ValidateRequest(questionCounts, units, difficulties).value;
            var prepared := Prepare(questionCounts, RandomTopics(questionCounts, units, difficulties, syllabus, shuffle).value);
            prepared.Ok? && prepared.value.total == req.total
            && prepared.value.topics == Selection(syllabus, units, req.primary, req.total, shuffle)
  {
    var req := ValidateRequest(questionCounts, units, difficulties).value;
    var selected := Selection(syllabus, units, req.primary, req.total, shuffle);
    assert RandomTopics(questionCounts, units, difficulties, syllabus, shuffle).value == Format(selected);
    DifficultyMapping(difficulties);
    SelectedKeysShape(syllabus, units, req.primary, req.total, shuffle);
    RenderedListRoundTrip(selected);
  }
}
