# Flashcards session engine in Dafny

A model of the session engine of `flashcards.py`, a terminal flashcard
program for Chinese characters.  The model covers the keyboard decoding
and the typed "quit" protocol, the spaced-repetition scheduler of a quiz
session, the navigator of a practice session, the word selection, the
practice-time markers written to the results file and read back by the
history view, and the counting behind the statistics screen.

The program is interactive and the model is pure.  Each keyboard read is
a `Keys.Press`: the key that `get_key` returned (or `None`) and its
arrival time in milliseconds.  A session is a function of the whole
sequence of presses.  When the presses run out before the session ends,
the session stops with `Blocked` or `Stuck`, which is where the program
would wait at the keyboard.  Random draws come from an oracle that is
indexed by the scheduler position; `QuizRun.RandInt` reduces each raw
draw into the range `randint` would use.  The shuffle of the quiz deck is
an input that is required to be a permutation of the deck.

Modules, in dependency order:

- `Wrappers` holds `Option`.
- `Text` holds digit strings, ASCII lowercasing, `split` and `join`.
- `Seqs` holds filtering, de-duplication and a key-ordered sort.
- `Keys` models `get_key` and `QuitPhrase` models `check_for_quit`.
- `Prompt` is the key loop shared by every question and answer step.
- `Deck` holds words, result rows, groups and the deck selection.
- `Registry` is the `repeat_words` dictionary.
- `Quiz` holds the scheduler state and the single-step judgments.
- `QuizRun` runs a whole quiz session.
- `Practice` runs a practice session.
- `Markers` encodes and decodes the practice-time markers.
- `Stats` holds the statistics counters and `format_duration`.

The repeat registry is a sequence of entries with a map view,
`Registry.AsMap`.  A Python dict keeps insertion order, and an
overwrite keeps the old slot.  That order decides where due cards are
re-inserted and in which order the drain rounds show them.

## Model

| member | source | states |
|---|---|---|
| Keys.ClassifyChar | flashcards.py:76-105 | a key comes back exactly for space and the 34 command characters, unchanged; ESC and every other control character give None |
| Keys.CommandCharsPrintable | flashcards.py:89-101 | no command character is below code 32, so the control-character filter never swallows a command |
| Keys.GetKey | flashcards.py:72-105 | one read returns the character it read or None; after ESC or a control character the pending input is discarded; any other rejected character is dropped alone |
| Keys.DecodeAll | flashcards.py:64-105 | repeated reads yield at most one key per character, and the first is the classification of the first character |
| Keys.DecodeAllPrintable | flashcards.py:98-105 | input without ESC or control characters yields exactly one classified key per character |
| Keys.EscapeSwallowsSequence | flashcards.py:76-85 | an escape sequence, whatever follows the ESC, yields a single None and nothing else |
| QuitPhrase.BufferStep | flashcards.py:135-144 | appending a letter completes "quit" iff it is the last missing letter, and keeps a prefix iff it is the next letter |
| QuitPhrase.ScanFrom | flashcards.py:131-148 | the scan never reads more presses than there are, and ends without reading only once the deadline has passed, with false |
| QuitPhrase.CheckForQuit | flashcards.py:116-121 | a None or non-q key is rejected without reading; a confirmed quit has read at least one further key |
| QuitPhrase.ScanQuitsExactly | flashcards.py:131-144 | the scan confirms after exactly c presses iff they spell the rest of the phrase, the c-th carries a key, and every earlier one arrived before the deadline |
| QuitPhrase.ScanBreaks | flashcards.py:141-144 | the first key that leaves the prefix ends the scan with false and counts as read |
| QuitPhrase.QuitExactly | flashcards.py:116-148 | check_for_quit confirms after c further presses iff the key was q or Q and the presses spell "uit" in either case, all but the last arriving within 1000 ms of the q |
| QuitPhrase.QuitExamples | flashcards.py:116-148 | scenarios: a fast quit, an upper-case quit with an ignored key, an early break on "qux", a pause after "qu", a late final "t" that still counts, and a non-q key |
| Prompt.Await | flashcards.py:1215-1249 | a step ends on an accepted key, leaving the presses after it unread, or on a confirmed quit; a mark or a back only where the step allows it |
| Prompt.AwaitAccepted | flashcards.py:1215-1220 | an accepted first key ends the step at once, with the presses after it unread |
| Prompt.AwaitDrops | flashcards.py:1215-1223 | a key that is neither accepted nor a q is dropped and the step reads on |
| Prompt.AwaitSkipsNone | flashcards.py:1216-1218 | a None from get_key is skipped and the step reads on |
| Prompt.AwaitResumes | flashcards.py:1221-1223 | after a q whose quit check fails, the step resumes right after the last press the check read |
| Prompt.AwaitStarved | flashcards.py:1221-1223 | a quit check that runs out of presses leaves the step waiting for input |
| Prompt.AwaitQuits | flashcards.py:1221-1223 | q, u, i, t with the u and i inside one second end any step with a quit at the time of the t |
| Prompt.AwaitQuitCase | flashcards.py:1221-1223 | when check_for_quit confirms, the step quits at the arrival time of the last key it read |
| Prompt.QuitTypedFast | flashcards.py:116-148 | q, u, i, t typed fast is confirmed after three further presses |
| Deck.GetGroups | flashcards.py:172-174 | the groups are exactly those of the words, strictly ascending and so without duplicates |
| Deck.StrictlySorted | flashcards.py:174 | sorting a duplicate-free list of groups yields a strictly ascending one |
| Deck.Cutoff | flashcards.py:201-210 | "day" reaches back one day, "week" seven days, "month" thirty days; "all time" has no cutoff |
| Deck.MistakeWindowsNest | flashcards.py:201-219 | a word reviewed for a day is reviewed for a week, one for a week for thirty days, one for thirty days for all time |
| Deck.GetMistakeWords | flashcards.py:199-219 | the words keep file order and multiplicity, and a word is picked iff its character was missed within the period |
| Deck.SelectDeck | flashcards.py:1161-1177 | mistake mode with results picks exactly the mistake words when there are any and reports no mistakes otherwise; "no words" comes iff mistake mode is off or has no results and no word lies in the selection; group 0 picks every word, else exactly the words of the selected groups, in file order and with every duplicate row kept; a chosen deck is never empty |
| Deck.FirstIndex | flashcards.py:1061 | the index of the first occurrence of a word in the word list, and only a present word has one |
| Deck.PracticeOrder | flashcards.py:1061 | the practice deck is a permutation of the selection, ordered by group and within a group by first position in the word list |
| Registry.Register | flashcards.py:1238 | after an assignment the new entry is present, every other entry was already there, and a new pinyin goes to the end |
| Registry.RegisterAsMap | flashcards.py:1245 | the dict view after an assignment is the old view with the pinyin overwritten |
| Registry.RegisterInPlace | flashcards.py:1283-1288 | an overwrite keeps the entry's slot and appends only a new pinyin; pinyins stay unique |
| Registry.AsMapAt | flashcards.py:1201-1204 | with unique pinyins every entry is what the dict holds under its pinyin |
| Registry.Kept | flashcards.py:1201-1204 | exactly the entries not yet due stay, in registry order, and pinyins stay unique |
| Registry.Due | flashcards.py:1200-1204 | the due entries in registry order, each as its word and streak, and nothing else |
| Registry.KeptAsMap | flashcards.py:1201-1204 | the dict view loses exactly the due pinyins |
| Registry.Pendings | flashcards.py:1255-1256 | the drain snapshot lists each entry's word and streak in registry order |
| Quiz.CountCorrectAppend | flashcards.py:1232-1233 | appending an answer adds one to the correct count iff it is correct |
| Quiz.Start | flashcards.py:1180-1193 | the queue holds the deck in the shuffled order, each card needing no further answers; counters, registry and answers start empty |
| Quiz.InsertAtPermutes | flashcards.py:1208 | an insertion adds the card and loses nothing |
| Quiz.InsertDue | flashcards.py:1206-1208 | the queue after the insertions holds exactly the old queue and the due cards, as a multiset |
| Quiz.InsertDuePermutes | flashcards.py:1206-1208 | inserting the due cards loses nothing and adds nothing else |
| Quiz.InsertDueAppend | flashcards.py:1206-1208 | when every slot lies in the head of the queue, the rest of the queue follows the insertions unchanged |
| Quiz.InsertDueKeepsTail | flashcards.py:1206-1208 | the queue beyond its first three places keeps its order behind the inserted cards |
| Quiz.Dequeue | flashcards.py:1196-1208 | the card shown is the old front, popped before the due cards are inserted; the queue gains exactly the due cards; the registry keeps exactly those not due |
| Quiz.NextStreak | flashcards.py:1236-1245 | a repeat after a miss needs two answers; after a hit it needs one fewer than before |
| Quiz.RetiresAfter | flashcards.py:1234-1245 | a card needing at most two retires on a hit iff it needs one, else on the next hit; a miss never retires it and leaves two hits to go |
| Quiz.Rejudge | flashcards.py:1236-1245 | a retiring card leaves the registry alone; otherwise the dict view gains or overwrites the card's pinyin with its next streak and insert position; nothing else enters; pinyins stay unique |
| Quiz.Record | flashcards.py:1279-1288 | a drain judgment saves one answer, raises exactly the matching counter, and unless the card retires overwrites its pinyin in the dict view; pinyins stay unique |
| Quiz.Judge | flashcards.py:1228-1251 | a main-loop judgment saves one answer, raises one counter, and retires the card or registers it with streak needed-1 (correct) or 2 (incorrect), due 5 to 10 positions on; other pinyins are untouched |
| Quiz.StartScheduled | flashcards.py:1188-1193 | the scheduling invariant and the counter tally hold at the start |
| Quiz.DequeueStreaks | flashcards.py:1196-1208 | after the due cards move into the queue every card needs at most two answers |
| Quiz.MainStepScheduled | flashcards.py:1195-1251 | a main-loop turn keeps the invariant: streaks 1 or 2, repeats due within 9 positions and not overdue, unique pinyins |
| Quiz.RecordStreaks | flashcards.py:1279-1288 | a drain judgment keeps every streak at 1 or 2 |
| Quiz.RecordTally | flashcards.py:1279-1288 | the counters keep adding up to the saved answers, correct ones to the correct counter |
| Quiz.AllCorrectRoundLeavesOnes | flashcards.py:1279-1283 | an all-correct drain round leaves only streak-1 repeats |
| Quiz.AllCorrectOnesRetire | flashcards.py:1279-1283 | an all-correct round over streak-1 cards registers nothing |
| Quiz.TwoCorrectRoundsEmpty | flashcards.py:1254-1292 | two all-correct drain rounds empty the registry |
| Quiz.RoundRegistry | flashcards.py:1255-1291 | a round's registry holds what was there plus repeats of the round's words with insert position 0, pinyins still unique |
| Quiz.IncorrectKeepsPending | flashcards.py:1285-1288 | a round never shrinks the registry, and one incorrect answer leaves a repeat pending |
| QuizRun.RandInt | flashcards.py:1207 | a draw lies within the inclusive bounds |
| QuizRun.RandIntCovers | flashcards.py:1237 | every value within the bounds can be drawn |
| QuizRun.SlotDraw | flashcards.py:1207 | an insertion index is at most three and at most the current queue length |
| QuizRun.DrawSlots | flashcards.py:1206-1207 | one index per due card, each valid for the queue as it grows |
| QuizRun.JudgeCard | flashcards.py:1228-1249 | the verdict is correct iff the accepted key was space and incorrect iff it was x or X; otherwise the session quits or blocks |
| QuizRun.HeardJudged | flashcards.py:1230-1246 | a mark means incorrect and a space means correct |
| QuizRun.ShowCard | flashcards.py:1213-1249 | a judged card has read at least two presses, and the verdict comes from the key that ended the answer step |
| QuizRun.JudgedBySuffix | flashcards.py:1215-1249 | presses skipped by the question step do not change the verdict of the answer step |
| QuizRun.MainTurn | flashcards.py:1195-1251 | a completed turn advances the position, saves exactly one answer for the old front card, raises exactly one counter, the correct one iff the answer is correct; a quit saves nothing more |
| QuizRun.JudgeFront | flashcards.py:1196-1251 | judging the popped card appends its answer to the saved list and raises the counter of the verdict |
| QuizRun.MainTurnKeeps | flashcards.py:1195-1251 | a main-loop turn keeps the scheduling invariant and the tally, also when it ends the session |
| QuizRun.DrainTurn | flashcards.py:1258-1291 | a drained card is judged like the main loop with insert position 0; a quit leaves the state untouched |
| QuizRun.RunRound | flashcards.py:1257-1291 | a round reads two presses per card, saves one answer per pending card after the earlier answers, and leaves the queue and position alone |
| QuizRun.RoundSavesPending | flashcards.py:1257-1291 | the answers a completed round saves are for the pending words, one each, in registry order |
| QuizRun.RunDrain | flashcards.py:1254-1292 | the drain finishes only with an empty registry and never rewrites earlier answers |
| QuizRun.RunMain | flashcards.py:1195-1292 | a finished session has an empty queue and an empty registry |
| QuizRun.RunQuiz | flashcards.py:1179-1295 | the final counters agree with the saved answers whatever the keys and draws; a finished session leaves nothing pending |
| QuizRun.RoundKeeps | flashcards.py:1254-1292 | a drain round keeps streaks at 1 or 2 and keeps the tally |
| QuizRun.RunDrainKeeps | flashcards.py:1254-1292 | the whole drain keeps streaks at 1 or 2 and keeps the tally |
| QuizRun.RunMainKeeps | flashcards.py:1195-1292 | the whole session keeps streaks at 1 or 2 and keeps the tally |
| QuizRun.RoundFollowsAnswers | flashcards.py:1255-1291 | the registry after a round is the one the saved answers dictate, card by card |
| QuizRun.MainTurnNoneDue | flashcards.py:1195-1251 | with nothing due the turn is exactly: pop the front and judge it with the drawn delay |
| QuizRun.QuizScenario | flashcards.py:1179-1295 | scenario: three cards answered correct, wrong, correct, then the repeat twice correct: finished with 4 correct, 1 incorrect and the five answers in order |
| Practice.BackFromAnswer | flashcards.py:1115-1121 | scenario: going back after advancing lands on the earlier card's question, not on its answer |
| Practice.NavigateProgress | flashcards.py:1083-1121 | inside the deck, space moves exactly one half-step towards the end and b lands on a question at least one whole card back; the cursor stays in the deck |
| Practice.RunPractice | flashcards.py:1063-1137 | a complete session has viewed every card; a record is written iff the session completed or quit |
| Practice.SpacesComplete | flashcards.py:1070-1137 | pressing space twice per remaining card completes the session, ending at the last space |
| Practice.PairsThenBack | flashcards.py:1070-1121 | n question-answer pairs and then b end one card before where the pairs led |
| Practice.BackScenario | flashcards.py:1070-1121 | scenario: on five cards, b, four pairs and b leave the cursor at the fourth card |
| Markers.IntToString | flashcards.py:259 | str of a group number: its decimal digits, or a minus sign followed by the digits of its absolute value |
| Markers.SortedStrings | flashcards.py:259 | the pieces are the selected groups sorted ascending, a permutation of them, each rendered by str |
| Markers.EncodeGroups | flashcards.py:247-262 | code 0 iff no groups or group 0 are selected; a single group is its own code; several groups give code -1 with the sorted groups joined by commas inside both marker pinyins |
| Markers.GroupRun | flashcards.py:1334 | the longest leading run of digits and commas |
| Markers.GroupsAtMatches | flashcards.py:1334 | the pattern matches at a position with group text g iff a marker prefix, then g, a non-empty run of digits and commas, then "_" start there |
| Markers.SearchGroups | flashcards.py:1334 | the search returns the match at the first position where the pattern matches, and finds nothing only when it matches nowhere |
| Markers.ParseGroups | flashcards.py:1337 | parsing succeeds iff every piece is a number, and then gives exactly the set of the pieces' values |
| Markers.ReadGroups | flashcards.py:1336-1337 | a captured list reads as a bad number iff some piece is not a number, and otherwise as exactly the pieces' values |
| Markers.DecodeGroups | flashcards.py:1331-1341 | code 0 reads as all groups, a plain code as itself; code -1 finds no groups iff the pattern matches nowhere, and with a match reads exactly the pieces of the captured list |
| Markers.SelectedSet | flashcards.py:247-262 | the groups a selection stands for: {0} for all groups, otherwise exactly the selected ones |
| Markers.MatchesOwnPinyin | flashcards.py:1334 | the history pattern finds exactly the group text inside a marker's own pinyin |
| Markers.ParseRendered | flashcards.py:1337 | parsing rendered numbers gives back the set of their values |
| Markers.SortedRenderings | flashcards.py:259 | the rendered pieces are the sorted groups, the same set as selected |
| Markers.DecodeRendered | flashcards.py:1331-1337 | a marker pinyin built from rendered groups decodes to those groups |
| Markers.EncodeDecodeSeveral | flashcards.py:247-262 | several positive groups survive a round trip through either marker pinyin |
| Markers.EncodeDecodeSingle | flashcards.py:247-262 | all groups, or a single group other than -1, survive a round trip |
| Markers.SingleMinusOneUnreadable | flashcards.py:252-256 | a lone group -1 is written with code -1 and plain pinyins, which the history view cannot read groups from |
| Markers.PracticeRows | flashcards.py:264-285 | a practice session writes a start and an end marker row of its session, with the group code and pinyins; the clock is read for each row, so with a clock that does not go back the end lies at least the duration after the start |
| Markers.ViewRow | flashcards.py:1328-1344 | a word row adds its group; a marker row makes the session a practice one and replaces the groups; only an unreadable number fails |
| Markers.ViewSession | flashcards.py:1324-1344 | the session view fails iff some marker row of the session is unreadable; rows of other sessions leave it alone; it is a practice session iff it was one or one of its rows is a marker |
| Markers.PracticeSessionGroups | flashcards.py:240-285 | the history view reads back, from a practice session's two rows, exactly the groups that were selected |
| Stats.AddRow | flashcards.py:622-672 | a word row inside the window adds one test and one correct or incorrect, and its character; any row inside the window adds its session; nothing else changes |
| Stats.CountBucket | flashcards.py:622-687 | tested is correct plus incorrect and never exceeds the rows |
| Stats.CountBucketCounts | flashcards.py:644-672 | tested counts exactly the word rows in the window, and correct exactly the correct ones among them |
| Stats.CountBucketSets | flashcards.py:622-672 | unique characters come from word rows only; sessions come from marker and word rows alike |
| Stats.NarrowerWindow | flashcards.py:636-672 | a later cutoff never counts more, in any counter or set |
| Stats.CalculateStats | flashcards.py:588-690 | the total, week and today counters are the same count over all rows, over rows since one week ago, and over rows since midnight; today is within the week, within the total; a new character is in the word list and was never tested |
| Stats.FormatDuration | flashcards.py:713-724 | under a minute the seconds with "s"; under an hour "Nm Ns" with the whole minutes and the remaining seconds; beyond, "Nh Nm" with the whole hours and the remaining whole minutes |
| Stats.SecondsRoundTrip | flashcards.py:715-716 | reading a text under a minute gives the seconds back |
| Stats.MinutesRoundTrip | flashcards.py:717-720 | reading an "Nm Ns" text gives the seconds back |
| Stats.HoursRoundTrip | flashcards.py:721-724 | reading an "Nh Nm" text gives the seconds less the dropped seconds |
| Stats.FormatDurationRoundTrip | flashcards.py:713-724 | the text states the duration exactly below an hour, and to the whole minute beyond |
| Seqs.Filter | flashcards.py:219 | a comprehension keeps the order, and exactly the kept elements with their multiplicity |
| Seqs.Dedup | flashcards.py:174 | a set of the elements, without duplicates |
| Seqs.SortBy | flashcards.py:1061 | the sort is a permutation and is ordered by the key |
| Text.Lower | flashcards.py:120 | ASCII upper case moves to lower case and every other character is unchanged |
| Text.ParseNatToString | flashcards.py:1337 | int reads back the decimal text of a number |
| Text.SplitJoin | flashcards.py:1337 | splitting a joined list of pieces without the separator gives the pieces back |

## Left out

- The Windows `msvcrt` branch of `get_key` (lines 107-112) is left out.  The model follows the Unix terminal path.
- Keys.GetKey drains all pending input after ESC or a control character.  The program drains only what arrives within its read timeouts; the arrival timing of the bytes is not modelled.
- Screen output is left out: `display_card`, the menus, `show_final_score`, the history and statistics rendering, the plots, `debug_log` and `flush_stdin`.
- Reading and writing the CSV files (`load_words`, `load_results`, and the file side of `save_result` and `save_practice_time`) is left out.  Rows are values; `save_result` is the answer appended to the session's saved list.
- Wall-clock time becomes the arrival time of each key press, in milliseconds.  A practice duration is measured from the start to the last key read, not to the moment of writing.
- Practice.RunPractice: requires a non-empty deck, because `run_practice` returns before the session starts when no word was selected (lines 1056-1058); that branch is `Deck.SelectDeck` giving no words.
- Practice.RunPractice: the duration is a whole number of milliseconds, not the floating-point seconds of `total_seconds()`.
- Stats.FormatDuration is modelled on whole seconds, not on floating-point seconds truncated by `int()`.
- `calculate_stats` is modelled for its counters, windows, unique characters, sessions and new characters.  `by_character`, `by_date`, the per-session time spans, `calc_time` and its 5-second padding are left out.
- The calendar computation of midnight and of one week ago is left out; the two cutoffs are inputs to `Stats.CalculateStats`.
- The `random` module is an oracle of raw draws indexed by position, and `random.shuffle` is an input permutation.
- QuizRun.RunQuiz does not promise that a session finishes.  With too few key presses it ends `Blocked`.  With endless wrong answers the drain never ends in the program; the model runs out of presses instead.
- Text.Lower lowercases ASCII letters only.  Python's `str.lower` also maps non-ASCII letters, but none of them can come out of `get_key`.
- The quit window follows the code, not the description "quit within one second".  The loop tests the clock before each read, so a key read just before the deadline can arrive after it and still complete the phrase (see `QuitPhrase.QuitExamples`).
- The main menu, group selection prompts and the plotting options are left out.
