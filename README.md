# Exam topic selection and topic-list parsing, in Dafny

This project models the deterministic core of an exam-paper generator.

**The random topic selector** (`generate_random_topics`) does the following:
- parses a comma-separated question-count string such as `"10,6,4"`;
- validates the requested units (1 to 5) and difficulty labels (`easy`, `medium`, `hard`);
- maps each difficulty to two Bloom's-taxonomy levels;
- collects composite keys `Unit <n> - <topic> (<level>)` from a syllabus tree of units, each mapping level names to topic lists;
- takes up to the requested number of keys after a shuffle;
- when short, runs a fallback round over the levels strictly below the lowest active level;
- renders the selection as a list headed `Selected Topics:` with lines numbered from 1.

**The deterministic string handling of the topic classifier** (`classify_topics_to_question_types`) does the following:
- parses the same count string;
- names the question types (`MCQs`, `Short Answer`, `Long Answer` for three counts, `"<c> Marks"` otherwise);
- builds the type-to-count dictionary;
- extracts the topics back out of the selector's numbered list;
- strips a leading ```` ```json ```` and a trailing ```` ``` ```` fence from the model's reply.

`random.shuffle` is replaced by a caller-supplied `Shuffle`: a function of the round (0 for the primary keys, 1 for the fallback keys) and the list. Its only requirement, `IsShuffle`, is that each result is a permutation of its argument. Every property below therefore holds for every order the shuffle may pick.

## Modules

- `common.dfy`, module `Common`:
  - `Option` and `Result`;
  - `Min`, `Sum` and `IndexOf`;
  - `Elems`, `NoDup` and `Dedup` (first occurrences kept), with their lemmas.
- `py_strings.dfy`, module `PyStrings`: the Python built-ins the code relies on, over strings of characters:
  - `str.isspace` and `strip`;
  - `split` with a one-character separator and `join`;
  - `startswith` and `endswith`;
  - `str(int)`;
  - `int(str)`: whitespace, an optional sign, decimal digits and single underscores. The whitespace `int()` skips is narrower than `strip()`'s: U+001C..U+001F count as whitespace for `isspace()` and `strip()`, but `int()` rejects them.
- `question_counts.dfy`, module `QuestionCounts`: the shared `[int(x) for x in question_counts.split(',')]`.
- `random_logic.dfy`, module `RandomLogic`: the selector.
  - Specification functions: `Collect`, `PrimaryBlooms`, `FallbackBlooms`, `TakeFresh`, `Selection`, `Format` and `RandomTopics`.
  - The source's loops as methods, each proved equal to its function: `CollectTopics`, `MapDifficultyToBlooms`, `SelectTopics`, `AppendFresh` and `Render`.
  - `GenerateRandomTopics`: the whole call, built from these methods and proved equal to `RandomTopics`.
  - `CheckInputs`: the parsing and validation checks at the top of the call, stated error by error.
- `selection_properties.dfy`, module `SelectionProperties`: what the selector promises, proved about those functions.
- `classify_topic.py`'s counterpart, `classify_topic.dfy`, module `ClassifyTopic`:
  - question types and the count dictionary, an insertion-ordered association list;
  - topic extraction, the function `TopicsOfLines` and the method `ExtractTopics`;
  - fence stripping, `CleanOutput`;
  - `Prepare` / `PrepareClassification`: everything derived before the language-model call.
- `pipeline.dfy`, module `Pipeline`: the cross-file round trip. Parsing the selector's output gives back exactly the selected keys.

## Model

| member | source | states |
|---|---|---|
| QuestionCounts.ParseFieldsSpec | src/random_logic.py:22 | the comprehension `[int(x) for x in fields]` succeeds exactly when every field parses, and then holds each field's value at its position |
| QuestionCounts.ParseCounts | src/random_logic.py:22-24 | a parsed count list is never empty, since `split` always yields at least one field; the "cannot be empty" branch is unreachable |
| QuestionCounts.CountsRoundTrip | src/random_logic.py:22 | the string `"a,b,c"` built from a non-empty list of integers parses back to that list |
| QuestionCounts.EmptyFieldRejected | src/random_logic.py:22-27 | a count string with an empty field (including `""`, `"5,"` and `"5,,6"`) is rejected as not a list of integers |
| PyStrings.ParseIntToString | src/random_logic.py:22 | `int(str(n)) == n` for every integer, negative ones included |
| PyStrings.IntStrip | src/random_logic.py:22 | what `int()` reads of a field has no `int()` whitespace at either end |
| PyStrings.IntStripAgrees | src/random_logic.py:22 | without U+001C..U+001F in a field, `int()` trims exactly what `strip()` trims |
| PyStrings.ParseIntRejectsSeparatorControls | src/random_logic.py:22-27 | `int()` rejects `"\x1c5"` and `"5\x1f"`, though `strip()` would reduce both to `"5"` |
| PyStrings.ParseIntSkipsSpaces | src/random_logic.py:22 | `int(" 5\t")` is 5: ordinary whitespace around a number is skipped |
| PyStrings.IntToStringInjective | src/random_logic.py:71 | `str` of an integer determines the integer |
| PyStrings.JoinSplit | src/classify_topic.py:42 | joining the fields of `s.split(c)` with `c` gives `s` back |
| PyStrings.SplitJoin | src/random_logic.py:102 | for a non-empty list of parts, none containing `c`, splitting `c.join(parts)` on `c` gives `parts` back |
| PyStrings.Split | src/classify_topic.py:42 | `s.split(c)` has at least one field and no field contains the separator |
| PyStrings.Strip | src/classify_topic.py:43 | `s.strip()` has no whitespace at either end and is no longer than `s.lstrip()` |
| PyStrings.StripSlice | src/classify_topic.py:103 | `s.strip()` is the contiguous slice of `s` that starts where `lstrip` stops |
| PyStrings.LStripDropsSpaces | src/classify_topic.py:103 | `lstrip` keeps a suffix and every character it drops is whitespace |
| PyStrings.RStripDropsSpaces | src/classify_topic.py:103 | `rstrip` keeps a prefix and every character it drops is whitespace |
| PyStrings.StripFixedPoints | src/classify_topic.py:105 | stripping leaves a string unchanged exactly when it has no whitespace at either end |
| PyStrings.StripBlank | src/classify_topic.py:43 | an all-whitespace line strips to the empty string |
| PyStrings.StripKeepsOut | src/classify_topic.py:44 | stripping adds no character that was not there |
| RandomLogic.CheckInputs | src/random_logic.py:21-35 | each ValueError exactly under its condition, in the source's order: a non-integer field; a total ≤ 0; empty or unknown difficulties; empty or out-of-range units. Otherwise the result is the sum of the counts |
| SelectionProperties.RejectedInputs | src/random_logic.py:21-35 | each ValueError is raised exactly under its condition, checked in the source's order: a non-integer field, a total ≤ 0, empty or unknown difficulties, empty or out-of-range units; the mapping helper's own error never surfaces |
| RandomLogic.MapDifficultyToBlooms | src/random_logic.py:41-52 | fails exactly when some difficulty is unknown, naming the first unknown one; otherwise returns the de-duplicated concatenation of the mapped levels |
| SelectionProperties.ExtendedLevelsMember | src/random_logic.py:47-51 | a level is appended exactly when some difficulty maps to it |
| SelectionProperties.DifficultyMapping | src/random_logic.py:41-52 | the primary levels are exactly the union of the mapped levels, repeat-free, and all within the hierarchy |
| SelectionProperties.SingleDifficulty | src/random_logic.py:41-52 | a single difficulty yields exactly its two levels |
| SelectionProperties.HierarchyDistinct | src/random_logic.py:38-39 | the six levels of the hierarchy are distinct |
| SelectionProperties.HierarchyPlain | src/random_logic.py:38-39 | no level name contains `(` or a newline |
| RandomLogic.LevelIndex | src/random_logic.py:56 | `full_hierarchy.index(level)` is a position holding that level |
| SelectionProperties.HierarchyRanks | src/random_logic.py:56 | the index of the level at position i is i, from Remembering = 0 to Creating = 5 |
| RandomLogic.KnownIndices | src/random_logic.py:56 | the list of indices holds exactly the indices of the recognised levels of the argument |
| RandomLogic.MinOf | src/random_logic.py:57 | `min` of a non-empty list is an element no greater than any other |
| SelectionProperties.FallbackBelow | src/random_logic.py:54-58 | every fallback level lies in the hierarchy strictly below every recognised current level |
| SelectionProperties.FallbackLevel | src/random_logic.py:54-58 | the fallback list is a prefix of the hierarchy, each position below every recognised current level |
| SelectionProperties.FallbackMaximal | src/random_logic.py:54-58 | every hierarchy level below all recognised current levels is in the fallback, when one is recognised |
| SelectionProperties.FallbackEmpty | src/random_logic.py:54-58 | the fallback is empty exactly when Remembering is current or no current level is recognised |
| SelectionProperties.EasyNeverFallsBack | src/random_logic.py:54-58 | a request including `easy` has no fallback levels |
| SelectionProperties.HardFallsBackToEasierLevels | src/random_logic.py:54-58 | `hard` alone falls back to Remembering, Understanding, Applying, Analyzing: toward easier levels, never harder |
| RandomLogic.FallbackOnce | src/random_logic.py:81-93 | falling back from a non-empty fallback yields nothing, so the loop runs at most one effective round |
| RandomLogic.CollectTopics | src/random_logic.py:65-74 | the triple loop over units, levels and topics yields exactly `Collect`'s keys, in that order |
| RandomLogic.CollectUnit | src/random_logic.py:69-73 | the loop over one unit's levels yields that unit's keys in level order |
| RandomLogic.CollectLevel | src/random_logic.py:70-73 | the loop over one topic list yields its unused keys in list order |
| SelectionProperties.KeyShape | src/random_logic.py:71 | a composite key has no surrounding whitespace, and no newline when its topic and level have none |
| SelectionProperties.KeyInjective | src/random_logic.py:71 | the key determines its unit number, topic and level when level names contain no `(` |
| SelectionProperties.LevelKeysScope | src/random_logic.py:70-73 | a key comes from one topic list exactly when it is the key of one of its topics and unused |
| SelectionProperties.UnitKeysScope | src/random_logic.py:69-73 | a key comes from a unit exactly when it is the key of one of its topics at a requested level and unused |
| SelectionProperties.CollectScope | src/random_logic.py:65-74 | a key is collected exactly when it belongs to a requested unit, a requested level and a listed topic, and is not used |
| SelectionProperties.CollectSound | src/random_logic.py:65-74 | every collected key has that form and is not used |
| SelectionProperties.CollectComplete | src/random_logic.py:65-74 | every unused key of a requested unit, level and listed topic is collected |
| SelectionProperties.CollectElems | src/random_logic.py:72 | skipping used keys removes exactly the used keys from the collected set |
| SelectionProperties.LevelKeysNoDup | src/random_logic.py:70-73 | a repeat-free topic list yields repeat-free keys |
| SelectionProperties.UnitKeysNoDup | src/random_logic.py:69-73 | repeat-free levels and topic lists yield repeat-free keys for a unit |
| SelectionProperties.CollectNoDup | src/random_logic.py:65-74 | with unique unit numbers and repeat-free topic lists, the collected keys repeat nothing |
| RandomLogic.TakeFreshFacts | src/random_logic.py:87-92 | a fallback round appends at most the missing number of keys, each a candidate not used before, none twice |
| SelectionProperties.TakeFreshLength | src/random_logic.py:87-92 | a fallback round appends exactly the smaller of the missing number and the number of distinct unused candidates |
| RandomLogic.AppendFresh | src/random_logic.py:87-92 | the `for t in topics` loop with its early `break` appends exactly the fallback round's keys and keeps `used_topics` equal to the selected set |
| RandomLogic.SelectTopics | src/random_logic.py:60-93 | the selection with its `while` loop, `break`s and reassigned levels equals `Selection` and never exceeds the total |
| SelectionProperties.FirstBatch | src/random_logic.py:76-77 | the shuffled primary keys are the primary pool, rearranged |
| SelectionProperties.FallbackAdditionsFresh | src/random_logic.py:78-92 | the selection starts with the first batch, and the fallback additions repeat nothing and are not in the first batch |
| SelectionProperties.SelectionWithinPool | src/random_logic.py:76-93 | at most the requested number of keys is selected, each from the primary or the fallback levels |
| SelectionProperties.SelectionLength | src/random_logic.py:76-93 | exactly min(total, primary keys + distinct fallback keys not among them) are selected |
| SelectionProperties.SelectionNoDuplicates | src/random_logic.py:76-92 | with unique unit numbers and repeat-free topic lists, no key is selected twice |
| SelectionProperties.SelectionFillsFromPool | src/random_logic.py:76-93 | under the same condition, exactly min(total, distinct eligible keys) are selected, and all of them when they do not exceed the total |
| SelectionProperties.SelectionEmpty | src/random_logic.py:76-93 | with a positive total, nothing is selected exactly when the primary and fallback levels hold no key |
| SelectionProperties.NoTopicsOnlyWhenPoolEmpty | src/random_logic.py:95-96 | a valid request fails with "No topics available even after fallback" exactly when no eligible key exists |
| SelectionProperties.RepeatedTopicIsSelectedTwice | src/random_logic.py:76-79 | one `easy` unit whose only primary topic is listed twice, with a total of 2: that key is selected twice, whatever the shuffle |
| SelectionProperties.EasyExampleSelectsAll | src/random_logic.py:60-96 | one unit, `easy`, three questions, two Remembering topics and one Understanding topic: all three distinct keys are selected |
| RandomLogic.Render | src/random_logic.py:98-102 | the `enumerate` loop builds the header and numbered lines, joined by newlines |
| SelectionProperties.FormatLines | src/random_logic.py:98-102 | the output splits into `Selected Topics:` followed by `i. <key>` for each key, numbered from 1 in selection order |
| RandomLogic.GenerateRandomTopics | src/random_logic.py:4-102 | the whole call equals `RandomTopics`: the rendered selection, or the error that applies |
| ClassifyTopic.ThreeCountsDict | src/classify_topic.py:32-38 | three counts give `{"MCQs": a, "Short Answer": b, "Long Answer": c}` in that order |
| ClassifyTopic.MarkCountsLookup | src/classify_topic.py:35-38 | with any other number of counts, each count is found under `"<c> Marks"` |
| ClassifyTopic.MarkCountsKeys | src/classify_topic.py:35-38 | the dictionary holds each distinct count's mark name once, in first-occurrence order |
| ClassifyTopic.RepeatedMarksCollapse | src/classify_topic.py:38 | `"5,5"` gives the single entry `{"5 Marks": 5}` |
| ClassifyTopic.MarksNameInjective | src/classify_topic.py:35 | different counts get different mark names |
| ClassifyTopic.Insert | src/classify_topic.py:38 | `d[k] = v` keeps an existing key's position and appends a new key; `k` then maps to `v` and every other key is unchanged |
| ClassifyTopic.DictKeys | src/classify_topic.py:38 | a dict comprehension lists each key once, in first-occurrence order |
| ClassifyTopic.DictLastWins | src/classify_topic.py:38 | a key maps to the value of its last pair |
| ClassifyTopic.DictMissing | src/classify_topic.py:38 | a key no pair carries is absent |
| ClassifyTopic.Zip | src/classify_topic.py:38 | `zip` pairs up to the shorter length |
| ClassifyTopic.QuestionTypes | src/classify_topic.py:32-35 | one question type per count |
| ClassifyTopic.PrepareRejects | src/classify_topic.py:22-29 | the ValueError is raised exactly when some comma-separated field is not an integer |
| ClassifyTopic.PrepareCounts | src/classify_topic.py:22-27 | a count string built from a non-empty list yields those counts and their sum |
| ClassifyTopic.PrepareClassification | src/classify_topic.py:22-45 | the step-by-step derivation equals `Prepare`, error included |
| ClassifyTopic.TopicOfLine | src/classify_topic.py:43-44 | a line's topic has no surrounding whitespace |
| ClassifyTopic.ExtractTopics | src/classify_topic.py:41-45 | the `for line in topic_list.split('\n')` loop yields exactly `ExtractedTopics`, one topic per kept line, in line order |
| ClassifyTopic.NumberedLineTopic | src/classify_topic.py:43-44 | a line `<n>. <topic>` yields exactly its topic when the topic has no surrounding whitespace |
| ClassifyTopic.BlankLinesSkipped | src/classify_topic.py:43 | whitespace-only lines contribute no topic |
| ClassifyTopic.TopicTextLines | src/classify_topic.py:98 | when at least one topic was extracted, the topic text sent to the model splits back into the extracted topics |
| ClassifyTopic.CleanOutput | src/classify_topic.py:103-107 | the cleaned reply has no surrounding whitespace and is no longer than the reply |
| ClassifyTopic.CleanUnfenced | src/classify_topic.py:103-107 | a reply with neither marker is returned trimmed and otherwise unchanged |
| ClassifyTopic.CleanFencedBlock | src/classify_topic.py:103-107 | a reply that is a fenced JSON block comes back as its body, stripped: both fences, the newlines next to them and the body's own surrounding whitespace go |
| Pipeline.SkippedHead | src/classify_topic.py:43 | a leading line that yields nothing, such as the header, leaves the topics unchanged |
| Pipeline.TopicsOfYieldingLines | src/classify_topic.py:41-45 | lines that each yield a topic give those topics in order |
| Pipeline.RenderedListRoundTrip | src/random_logic.py:98-102 | extracting topics from the rendered list gives back exactly the selected keys, in order |
| Pipeline.SelectedKeysShape | src/random_logic.py:71 | every selected key is trimmed, and a single line when the syllabus topics are |
| Pipeline.SelectionFeedsClassifier | src/classify_topic.py:22-45 | given the same count string, the classifier accepts the selector's output, reads the same total and extracts exactly the selected keys |

## Behaviour worth knowing

- **A key can be selected twice.** One might expect no composite key to appear twice in the selection. The first batch is taken without a duplicate check, so a repeated key in the primary pool can be selected twice. The pool holds a repeated key when a topic is listed twice for one unit and level, or when two units share a unit number and list the same topic at the same level. Both copies are selected only when the requested total reaches them. `RepeatedTopicIsSelectedTwice` exhibits this with a total of 2 on a two-key pool. `SelectionNoDuplicates` proves that no key repeats under the condition `UniqueTopics` (unique unit numbers and repeat-free topic lists).
- **A short result is returned without an error.** One might expect a selection shorter than requested to be reported as an error. The code returns the shorter list and raises only when nothing at all was selected (`SelectionLength`, `NoTopicsOnlyWhenPoolEmpty`).
- **The fallback runs at most one round.** One might expect a cascade of several fallback rounds. After one round the active levels start at Remembering, so the loop stops (`FallbackOnce`).
- **The "cannot be empty" check is dead code.** The count list can never be empty (`ParseCounts`).
- **The mapping helper's error is unreachable.** The check for unknown difficulties in `map_difficulty_to_blooms` cannot fire after validation (`RejectedInputs`).

## Left out

- The language-model calls, prompt templates, `json.loads`, the regular-expression fallback and `json.dumps` in `src/classify_topic.py`: their results come from an external service or library. The model stops at what is derived before the call (`Prepare`) and at the fence stripping of a reply passed in as a string.
- The texts of the selector's ValueErrors: each error is a constructor of `SelectError`, one per distinct `raise`; the message strings are not modelled.
- `random.shuffle`: replaced by the `Shuffle` parameter constrained only to permute.
- `PrimaryBlooms`: `list(set(...))` has no specified order in Python; the model keeps first occurrences. Only the shuffle's input order depends on it, and every property holds for every permutation.
- `ParseInt`: non-ASCII decimal digits and the interpreter's 4300-digit limit on `int()` are not modelled.
- `Unit`: the syllabus is typed as units with an integer `unit_number` and a level-to-topic-list map. A malformed `syllabus_json` raising `KeyError`/`TypeError` is not modelled.
- `Insert`: the dictionary is an association list with string keys and integer values; hashing is not modelled.
- `GenerateRandomTopics`: the mutable `used_topics` set and `selected_topics` list are local variables of `SelectTopics` and `AppendFresh`, not objects shared with the caller.
- Other files of the repository (document extraction, topic classification prompts, vector search, question generation, the Streamlit interface) are not part of this model.
