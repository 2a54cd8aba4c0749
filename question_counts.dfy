/**
 * Parsing of the comma-separated question-count string (for example "10,6,4" or "5,5"),
 * written identically at the top of `generate_random_topics` and of
 * `classify_topics_to_question_types`: `[int(x) for x in question_counts.split(',')]`.
 */
module QuestionCounts {
  import opened Common
  import opened PyStrings

  /** `[int(x) for x in fields]`; `None` when some field is not an integer (Python raises ValueError). */
  function ParseFields(fields: seq<string>): (r: Option<seq<int>>)
    ensures r.Some? ==> |r.value| == |fields|
  {
    if fields == [] then Some([])
    else match (ParseInt(fields[0]), ParseFields(fields[1..]))
      case (Some(x), Some(xs)) => Some([x] + xs)
      case _ => None
  }

  /** The list comprehension succeeds exactly when every field parses, and then holds each field's value. */
  lemma {:induction false} ParseFieldsSpec(fields: seq<string>)
    ensures ParseFields(fields).Some? <==> forall i :: 0 <= i < |fields| ==> ParseInt(fields[i]).Some?
    ensures ParseFields(fields).Some? ==>
              forall i :: 0 <= i < |fields| ==> ParseFields(fields).value[i] == ParseInt(fields[i]).value
  {
    if fields != [] {
      ParseFieldsSpec(fields[1..]);
      assert forall i :: 1 <= i < |fields| ==> fields[i] == fields[1..][i - 1];
    }
  }

  /**
   * The counts in a question-count string. Splitting never yields an empty list, so a parsed
   * list has at least one count and the source's "cannot be empty" check never fires.
   */
  function ParseCounts(questionCounts: string): (r: Option<seq<int>>)
    ensures r.Some? ==> |r.value| >= 1
  {
    ParseFields(Split(questionCounts, ','))
  }

  /** The count string the interface builds from its per-part inputs, `f"{a},{b},{c}"`. */
  function FormatCounts(counts: seq<int>): string {
    Join(seq(|counts|, i requires 0 <= i < |counts| => IntToString(counts[i])), ",")
  }

  /** Parsing the string built from a non-empty list of counts gives the counts back. */
  lemma CountsRoundTrip(counts: seq<int>)
    requires |counts| >= 1
    ensures ParseCounts(FormatCounts(counts)) == Some(counts)
  {
    var fields := seq(|counts|, i requires 0 <= i < |counts| => IntToString(counts[i]));
    forall i | 0 <= i < |fields| ensures ',' !in fields[i] && ParseInt(fields[i]) == Some(counts[i]) {
      ParseIntToString(counts[i]);
      NoCommaInNumber(counts[i]);
    }
    SplitJoin(fields, ',');
    assert Split(FormatCounts(counts), ',') == fields;
    ParseFieldsSpec(fields);
    var r := ParseFields(fields);
    assert r.Some?;
    assert r.value == counts;
  }

  lemma NoCommaInNumber(n: int)
    ensures ',' !in IntToString(n)
  {
    var s := IntToString(n);
    forall k | 0 <= k < |s| ensures s[k] != ',' {
      assert IsDigit(s[k]) || s[k] == '-';
    }
  }

  /** An empty count string, or one with an empty field, is rejected. */
  lemma EmptyFieldRejected(questionCounts: string)
    requires exists i :: 0 <= i < |Split(questionCounts, ',')| && Split(questionCounts, ',')[i] == ""
    ensures ParseCounts(questionCounts) == None
  {
    var i :| 0 <= i < |Split(questionCounts, ',')| && Split(questionCounts, ',')[i] == "";
    assert Strip("") == "";
    ParseFieldsSpec(Split(questionCounts, ','));
  }
}
