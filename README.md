# Bilingual flashcards: a verified model of the card parser, the speech text and the quiz

The flashcard app reads English–Arabic flashcards from a Word document and shows them as cards with spoken audio. It also offers a multiple-choice quiz and a bulk audio download. Each non-blank paragraph of the document of the form
`Teacher: Hello : [مرحبا] : marhaban` becomes one card. The card has three fields:

- the term, with its speaker label removed;
- the translation, taken from inside the first brackets;
- the transliteration.

Before any text is sent to the speech engine, the app:

1. deletes a fixed class of "emoji" code points;
2. collapses the whitespace;
3. puts a per-language placeholder in place of text that ends up empty.

The quiz is a small state machine kept in the page's session state. It draws the questions, asks each one in a direction, offers four shuffled options, moves on with "Next" or "Skip", and ends with a review of the answered questions.

The project models these parts in Dafny and proves what they guarantee.

| file | module | what it holds |
|---|---|---|
| `wrappers.dfy` | `Wrappers` | `Option` |
| `text.dfy` | `Text` | Python's `str.isspace` class, `strip`, `split(sep)`, `split()`, `join`; the split/join round trip and segment count; the whitespace-collapse properties |
| `speech.dfy` | `Speech` | `remove_emojis` as a per-character filter; the cleaned text and its fallback |
| `cards.dfy` | `Cards` | the card record, the role-label removal, the lazy bracket search, one-line parsing and the `load_flashcards` loop |
| `quiz.dfy` | `Quiz` | question selection and presentation; the answer options, with `random.shuffle` as its swaps; the `QuizSession` class; whole-session runs |
| `playback.dfy` | `Playback` | the `audio_playing` / `stop_requested` flags as a `Player` class |
| `export.dfy` | `Export` | the numbered file names of the bulk download and the loop that collects them |

Both app files contain the same parser and the same speech-text step (`bilingual_flashcards_from_docx.py` and `bilingual_flashcards_from_docx.withsound.py`). One model covers both, and the table below cites both.

Randomness enters as parameters, each with a precondition saying which values the random module can produce:

- `random.sample` is a list of distinct positions;
- `random.choice([True, False])` is a `bool`;
- `random.shuffle` is the list of positions it draws for its swaps.

Behaviour of the code that the model follows (it may surprise a reader):

- A "Mixed" quiz draws its direction again on every redraw of the page, because `random.choice` runs each time the question is drawn. The model therefore takes the coin as a parameter of every presentation, not once per question.
- `quiz_feedback` is only ever reset to `{}` and never written. So the review always uses its default direction, English to Arabic, even for questions asked from Arabic. `QuizSession.Valid` records `feedback == map[]`.
- An empty radio value is falsy in Python, so it records nothing (`SubmitAnswer`).
- "Start New Quiz" does not clear the old answers; the next "Start Quiz" does. So the model's invariant that answers lie at or before the current index holds only while a quiz is started.
- The emoji class as written is four singletons plus everything from U+24C2 upward (`EmojiClassAsWritten`). That includes CJK and Hangul characters, the Arabic presentation forms and all supplementary planes, as well as Latin Extended-C, -D and -E and the fullwidth Latin letters, which all lie above U+24C2. Everything below U+200D is kept: Basic Latin through Latin Extended Additional and the main Arabic block.

## Model

| member | source | states |
|---|---|---|
| Text.IsSpace | bilingual_flashcards_from_docx.py:41 | the whitespace of `str.strip()`, `str.split()` and `\s`: U+0009–000D, U+001C–0020, U+0085, U+00A0, U+1680, U+2000–200A, U+2028, U+2029, U+202F, U+205F, U+3000 |
| Text.SpaceEdgeCases | bilingual_flashcards_from_docx.py:41 | U+001C, U+001F and U+0085 are whitespace; U+200B and U+180E are not |
| Text.Strip | bilingual_flashcards_from_docx.py:41 | `str.strip()`: the result is the input minus a whitespace prefix and suffix, has no whitespace at either end, and is empty exactly when the input is all whitespace |
| Text.LStrip | bilingual_flashcards_from_docx.py:51 | the `\s*` after a role label: the longest whitespace prefix is removed and nothing else, so the result is empty or starts with a non-whitespace character |
| Text.StripIdempotent | bilingual_flashcards_from_docx.py:41 | stripping twice equals stripping once |
| Text.FindFrom | bilingual_flashcards_from_docx.py:46 | the leftmost occurrence of the separator at or after a position, or none |
| Text.Split | bilingual_flashcards_from_docx.py:46 | `str.split(sep)`: at least one segment, and no segment contains the separator |
| Text.SplitFirstSegment | bilingual_flashcards_from_docx.py:46 | the first segment is the text before the leftmost occurrence: no occurrence starts inside it, one starts right after it, and it is the whole string exactly when there is no occurrence |
| Text.SplitAtFirst | bilingual_flashcards_from_docx.py:46 | with the leftmost occurrence at i, the split is the text before i followed by the split of what follows the occurrence, so occurrences that overlap a cut are never cuts |
| Text.SplitWhole | bilingual_flashcards_from_docx.py:46 | a string without the separator is its own single segment |
| Text.SplitJoin | bilingual_flashcards_from_docx.withsound.py:22 | joining the segments with the separator gives back the line |
| Text.SplitCount | bilingual_flashcards_from_docx.withsound.py:22 | there is one more segment than the number of leftmost non-overlapping occurrences of the separator (counted by an independent left-to-right scan) |
| Text.Join | bilingual_flashcards_from_docx.py:101 | `sep.join(parts)`; its inverses are stated by SplitJoin and WordsOfJoin |
| Text.Words | bilingual_flashcards_from_docx.py:101 | `str.split()`: the words are non-empty and contain no whitespace; WordsOfWord, WordsSplitAtSpace and WordsKeepNonSpace pin them down as the maximal non-whitespace runs |
| Text.WordsOfWord | bilingual_flashcards_from_docx.py:101 | a non-empty run without whitespace is a single word |
| Text.WordsSplitAtSpace | bilingual_flashcards_from_docx.py:101 | every whitespace character separates words: the words around it are the words of the two sides, so the words of any string are fixed |
| Text.WordsOfJoin | bilingual_flashcards_from_docx.py:101 | splitting words joined with single spaces gives back exactly those words |
| Text.WordsKeepNonSpace | bilingual_flashcards_from_docx.py:101 | the words laid end to end are the non-whitespace characters of the string, in order |
| Text.Collapse | bilingual_flashcards_from_docx.withsound.py:77 | `' '.join(s.split())` has no leading, trailing or doubled whitespace, and only plain spaces |
| Text.CollapsedFixpoint | bilingual_flashcards_from_docx.withsound.py:77 | collapsed text is left unchanged by collapsing |
| Text.CollapseIdempotent | bilingual_flashcards_from_docx.withsound.py:77 | collapsing twice equals collapsing once |
| Text.CollapseKeepsText | bilingual_flashcards_from_docx.py:101 | collapsing keeps every non-whitespace character, in order |
| Text.CollapseKeepsWords | bilingual_flashcards_from_docx.py:101 | collapsing keeps the words of the text, each whole and apart from its neighbours: whitespace between words becomes exactly one space and never disappears |
| Speech.IsEmoji | bilingual_flashcards_from_docx.py:69-90 | the character class of `remove_emojis`, the 17 ranges and singletons as listed; EmojiClassAsWritten states what they amount to |
| Speech.EmojiClassAsWritten | bilingual_flashcards_from_docx.py:69-87 | the listed ranges and singletons amount to {U+200D, U+231A, U+23CF, U+23E9} plus everything from U+24C2 up |
| Speech.RemoveEmojis | bilingual_flashcards_from_docx.py:66-91 | no class character survives, and the result is no longer than the input |
| Speech.RemoveEmojisCounts | bilingual_flashcards_from_docx.withsound.py:42-67 | each class character occurs zero times in the result, and every other character as often as in the input |
| Speech.RemoveEmojisAppend | bilingual_flashcards_from_docx.withsound.py:67 | the removal distributes over concatenation, so kept characters keep their order |
| Speech.RemoveEmojisNoop | bilingual_flashcards_from_docx.withsound.py:67 | text without class characters comes back unchanged |
| Speech.KeepsBelowZeroWidthJoiner | bilingual_flashcards_from_docx.withsound.py:45-66 | text made only of characters below U+200D (Basic Latin through Latin Extended Additional, the main Arabic block) is kept whole |
| Speech.RemoveEmojisIdempotent | bilingual_flashcards_from_docx.withsound.py:67 | removing twice equals removing once |
| Speech.CleanText | bilingual_flashcards_from_docx.py:98-101 | the cleaned text is collapsed and emoji-free, its words are exactly the words of the text left by the emoji removal, and it has exactly the non-whitespace characters that survive the removal |
| Speech.SpeechText | bilingual_flashcards_from_docx.py:98-108 | the text sent to speech is never empty: the cleaned text if non-empty, otherwise "No text available" for `lang == "en"` and "لا يوجد نص" for any other `lang` |
| Speech.PlaceholderDependsOnlyOnEnglish | bilingual_flashcards_from_docx.withsound.py:80-84 | only whether `lang` equals "en" affects the result |
| Speech.SpeechTextCollapsed | bilingual_flashcards_from_docx.withsound.py:77-84 | the spoken text, placeholder included, is always collapsed |
| Speech.HelloWaveExample | bilingual_flashcards_from_docx.py:722 | the app's own example: "Hello 👋" is spoken as "Hello" |
| Speech.OnlyEmojiExample | bilingual_flashcards_from_docx.py:104-108 | text made only of an emoji is spoken as the placeholder of its language |
| Cards.StripRolePrefix | bilingual_flashcards_from_docx.py:51 | a term without a leading `Student:`/`Teacher:` is unchanged; with one, the label and the whitespace run after it are removed and the result starts with non-whitespace |
| Cards.StripLabel | bilingual_flashcards_from_docx.withsound.py:27 | a label followed by any text leaves that text with its leading whitespace stripped |
| Cards.OnlyOneRoleRemoved | bilingual_flashcards_from_docx.withsound.py:27 | "Teacher: Student: hi" gives "Student: hi": at most one label is removed |
| Cards.NoSpaceNeededAfterRole | bilingual_flashcards_from_docx.withsound.py:27 | "Teacher:Hello" gives "Hello" |
| Cards.RoleIsCaseSensitiveAndAnchored | bilingual_flashcards_from_docx.py:51 | a lower-case label, or a label not at position 0, is not removed |
| Cards.CloseFrom | bilingual_flashcards_from_docx.py:55 | the first `]` from a position with no line break before it, or none when there is no such `]` |
| Cards.SearchBracket | bilingual_flashcards_from_docx.py:55 | the leftmost `[`…`]` match of the lazy pattern, and no match starts earlier |
| Cards.Translation | bilingual_flashcards_from_docx.py:54-56 | no match gives the whole segment; otherwise the result is the inside of the leftmost match, which contains no `]` and no line break |
| Cards.NoBracketFallback | bilingual_flashcards_from_docx.withsound.py:30-32 | a segment without `[` or without `]` is its own translation |
| Cards.ParseLine | bilingual_flashcards_from_docx.py:41-61 | the treatment of one paragraph: a card exactly when the stripped text splits into at least three segments, so the blank-line test never changes the outcome |
| Cards.ParseLineSpec | bilingual_flashcards_from_docx.py:41-61 | a paragraph gives a card exactly when its stripped text splits into at least 3 segments; the card is built from the first three segments and the rest are ignored |
| Cards.SplitLastSegment | bilingual_flashcards_from_docx.py:46 | a segment with no space directly followed by a colon is split off whole |
| Cards.SplitFirstSegmentOff | bilingual_flashcards_from_docx.py:46 | such a segment, not ending in a space, is cut off at the separator that follows it |
| Cards.BracketedTranslation | bilingual_flashcards_from_docx.py:54-56 | a bracketed segment with no `]` or line break inside translates to its inside |
| Cards.SampleLine | bilingual_flashcards_from_docx.py:41-61 | `Teacher: Hello : [مرحبا] : marhaban` gives the card (Hello, مرحبا, marhaban) |
| Cards.OverlapLineSplit | bilingual_flashcards_from_docx.py:46 | `a : : b : c` splits into `a`, `: b`, `c`: the overlapping second separator is not a cut |
| Cards.OverlapLineCard | bilingual_flashcards_from_docx.py:46-59 | the card of `a : : b : c` has the term `a` and the translation `: b` |
| Cards.FourSegmentsLine | bilingual_flashcards_from_docx.py:46-59 | `a : b : c : d` gives the card (a, b, c): segments after the third are ignored |
| Cards.OneSegmentLine | bilingual_flashcards_from_docx.py:46-48 | a paragraph without a separator gives no card |
| Cards.SampleDocument | bilingual_flashcards_from_docx.py:40-63 | the document of a blank paragraph, a one-segment paragraph and `a : b : c : d` gives the single card (a, b, c) |
| Cards.ParseCardsAppend | bilingual_flashcards_from_docx.py:40-63 | the cards of two stretches of paragraphs are the cards of the first followed by the cards of the second |
| Cards.DroppedLineIsHarmless | bilingual_flashcards_from_docx.withsound.py:16-24 | a skipped paragraph contributes nothing, and the paragraphs after it are still parsed |
| Cards.KeptLineAddsItsCard | bilingual_flashcards_from_docx.withsound.py:24-37 | a kept paragraph contributes exactly its card, in its place |
| Cards.ParseCards | bilingual_flashcards_from_docx.py:37-63 | the cards `load_flashcards` returns: those of the paragraphs that give a card, in paragraph order, never more cards than paragraphs |
| Cards.LoadFlashcards | bilingual_flashcards_from_docx.py:37-63 | the loop returns the cards of the paragraphs, in paragraph order |
| Quiz.SelectQuestions | bilingual_flashcards_from_docx.py:387-391 | the whole deck in order when it has at most `count` cards, otherwise `count` cards from the sampled distinct positions |
| Quiz.SelectionFromDeck | bilingual_flashcards_from_docx.py:387-391 | the quiz has min(deck size, count) questions, each a card of the deck |
| Quiz.SelectionKeepsDistinct | bilingual_flashcards_from_docx.py:391 | a deck with no repeated card gives a quiz with no repeated question |
| Quiz.DirectionFor | bilingual_flashcards_from_docx.py:420-459 | the direction of a question: fixed by the two fixed quiz types, the coin for the mixed one; FixedTypesIgnoreCoin states it |
| Quiz.AnswerField | bilingual_flashcards_from_docx.py:420-459 | the side of a card that answers a question: the Arabic for an English prompt, the English otherwise; Present and PromptAndAnswerAreTheTwoSides state it |
| Quiz.Present | bilingual_flashcards_from_docx.py:420-459 | the question's direction follows the quiz type (and the coin for Mixed); an English prompt expects the Arabic side and an Arabic prompt the English side |
| Quiz.FixedTypesIgnoreCoin | bilingual_flashcards_from_docx.py:420-440 | the two fixed quiz types ask in their own direction whatever the coin; Mixed asks in a different direction for each coin value |
| Quiz.PromptAndAnswerAreTheTwoSides | bilingual_flashcards_from_docx.py:420-459 | prompt and correct answer are always the card's term and translation |
| Quiz.Others | bilingual_flashcards_from_docx.py:496 | the other cards are cards of the deck that differ from the question's card |
| Quiz.OthersCounts | bilingual_flashcards_from_docx.py:496 | every copy of the question's card is left out, and every other card stays as often as it occurs |
| Quiz.Fallback | bilingual_flashcards_from_docx.py:506-509 | the three fixed wrong answers, in the answer language, used when fewer than three other cards exist; Distractors states when |
| Quiz.Distractors | bilingual_flashcards_from_docx.py:498-508 | three wrong answers: the answer field of the three sampled other cards when there are at least three, otherwise the whole fixed fallback list of the answer language |
| Quiz.DistractorsFromOtherCards | bilingual_flashcards_from_docx.py:498-504 | a wrong answer taken from the deck is the answer field of a deck card that differs from the question's card |
| Quiz.Shuffle | bilingual_flashcards_from_docx.py:511 | `random.shuffle` reorders the options: same length, same multiset |
| Quiz.BuildOptions | bilingual_flashcards_from_docx.py:495-511 | exactly 4 options that include the correct answer and form, as a multiset, the correct answer plus the three wrong answers |
| Quiz.CorrectOfferedOnce | bilingual_flashcards_from_docx.py:495-511 | unless a wrong answer spells the correct one, the correct answer is offered exactly once |
| Quiz.QuizSession.Valid | bilingual_flashcards_from_docx.py:400-413 | the session invariant: the index is within the questions (or 0 for an empty quiz), answers are only for questions of the quiz and, while a quiz is started, only for questions up to the current one, the direction store stays empty and a completed quiz was started |
| Quiz.QuizSession.constructor | bilingual_flashcards_from_docx.py:21-34 | the first-run session: not started, not completed, index 0, no answers, no questions, English-to-Arabic type |
| Quiz.QuizSession.Start | bilingual_flashcards_from_docx.py:380-395 | started, not completed, index 0, answers and feedback empty, the selected questions and the chosen type |
| Quiz.QuizSession.Current | bilingual_flashcards_from_docx.py:413-459 | the question on screen takes its direction from the quiz type and coin; an English prompt shows the term and expects the translation, an Arabic prompt the reverse |
| Quiz.QuizSession.SubmitAnswer | bilingual_flashcards_from_docx.py:529-531 | a non-empty selection is recorded at the current index; no selection changes nothing |
| Quiz.QuizSession.Advance | bilingual_flashcards_from_docx.py:482-485 | the shared step of Next and Skip: the index moves on when another question follows, otherwise the quiz completes at the last question |
| Quiz.QuizSession.Next | bilingual_flashcards_from_docx.py:481-486 | the index moves on when another question follows; otherwise the quiz is completed and the index stays at the last question |
| Quiz.QuizSession.Skip | bilingual_flashcards_from_docx.py:549-557 | offered only for an unanswered question: "SKIPPED" is recorded at the current index, then the quiz moves on or completes as with Next |
| Quiz.QuizSession.SkipToResults | bilingual_flashcards_from_docx.py:489-491 | the quiz completes and nothing else changes |
| Quiz.QuizSession.FinishIfExhausted | bilingual_flashcards_from_docx.py:559-562 | an index past the last question, which only an empty quiz allows, completes the quiz |
| Quiz.StoredDirection | bilingual_flashcards_from_docx.py:579-581 | the direction stored for a question, or English to Arabic when none is stored |
| Quiz.ReviewOf | bilingual_flashcards_from_docx.py:574-581 | the review over the first n questions: an entry for each answered question, in question order, never more than n entries |
| Quiz.ReviewOfIndices | bilingual_flashcards_from_docx.py:574-575 | the review over the first n questions lists exactly the question numbers below n that have a recorded answer |
| Quiz.ReviewOfAscending | bilingual_flashcards_from_docx.py:574 | the review lists its questions in increasing question order |
| Quiz.ReviewOfEntries | bilingual_flashcards_from_docx.py:574-581 | each entry shows the card of the question it names, with the direction stored for it or English to Arabic when none is stored |
| Quiz.AscendingCount | bilingual_flashcards_from_docx.py:574 | a review in increasing order has exactly as many entries as question numbers |
| Quiz.QuizSession.Review | bilingual_flashcards_from_docx.py:574-594 | the results page is the review of all questions: one entry per recorded answer, as many entries as answers, in strictly ascending question order; each shows its question's card, always in the default English-to-Arabic direction since no direction is ever stored |
| Quiz.QuizSession.Retry | bilingual_flashcards_from_docx.py:600-607 | the same questions and type again from index 0, with no answers |
| Quiz.QuizSession.NewQuiz | bilingual_flashcards_from_docx.py:609-614 | back to the settings at index 0, not started and not completed |
| Quiz.AnswerEveryQuestion | bilingual_flashcards_from_docx.py:529-546 | answering every question and pressing Next each time completes the quiz at the last index, with exactly the indices 0 … n-1 answered |
| Quiz.StopAfterFirst | bilingual_flashcards_from_docx.py:489-491 | answering question 1 and skipping to the results gives a review of exactly that question |
| Playback.Player.constructor | bilingual_flashcards_from_docx.py:17-20 | nothing plays and no stop is pending |
| Playback.Player.Valid | bilingual_flashcards_from_docx.py:140-184 | the player invariant: after a stop nothing plays, and a playing clip has its audio stored |
| Playback.Player.IsPlaying | bilingual_flashcards_from_docx.py:172 | `is_playing`: the clip is the one `audio_playing` names |
| Playback.Player.Loops | bilingual_flashcards_from_docx.py:202 | the hidden looping player is emitted for a clip: it is playing, no stop is pending and its audio is stored |
| Playback.Player.LoopsIffPlaying | bilingual_flashcards_from_docx.py:202 | in a valid state the looping player is emitted exactly for the clip that is playing |
| Playback.Player.OneClipLoops | bilingual_flashcards_from_docx.py:172-204 | at most one clip has its looping player emitted at a time |
| Playback.Player.Play | bilingual_flashcards_from_docx.py:176-184 | when audio was generated the clip is stored and playing and the stop flag is cleared; otherwise nothing changes |
| Playback.Player.Stop | bilingual_flashcards_from_docx.py:140-144 | a stop is recorded and nothing plays |
| Playback.PlayTwo | bilingual_flashcards_from_docx.py:176-202 | playing a second clip leaves only that clip looping |
| Playback.PlayThenStop | bilingual_flashcards_from_docx.py:140-144 | after a stop the clip no longer plays or loops |
| Export.Suffix | bilingual_flashcards_from_docx.py:656-686 | the suffix of each download type: an underscore first and `.mp3` last |
| Export.SuffixesDistinct | bilingual_flashcards_from_docx.py:656-686 | the four download types have four different suffixes |
| Export.Decimal | bilingual_flashcards_from_docx.py:656 | `str(n)`: at least one digit, no leading zero from 10 on, one digit exactly below 10 |
| Export.ValueOfDecimal | bilingual_flashcards_from_docx.py:656 | the digits of `n` read back as `n` |
| Export.Pad2 | bilingual_flashcards_from_docx.py:656 | `f"{n:02d}"`: at least two digits, exactly two below 100, no leading zero from 100 on |
| Export.NumberedName | bilingual_flashcards_from_docx.py:656-686 | the name of card i: exactly two digits between prefix and suffix for the first 99 cards |
| Export.NumberedNameShape | bilingual_flashcards_from_docx.py:656-686 | a numbered name is `flashcard_`, then only digits, then the suffix of its download type |
| Export.ValueOfPad2 | bilingual_flashcards_from_docx.py:656 | the zero-padded number `f"{n:02d}"` reads back as `n` |
| Export.NameReadsBack | bilingual_flashcards_from_docx.py:656-686 | the card number can be read back from its numbered file name |
| Export.NumberedNamesDistinct | bilingual_flashcards_from_docx.py:656-686 | two cards never get the same numbered file name |
| Export.PackageNames | bilingual_flashcards_from_docx.py:646-689 | the archive holds an entry for exactly the cards whose audio was produced, and no name occurs twice |

## Left out

- Rendering is left out as UI: markdown and HTML, columns, buttons, sliders, radio widgets and the redraw loop of the page framework. Each button is a method whose precondition is the situation in which the page shows that button.
- The speech engine call (gTTS), `BytesIO`, the concatenation of two audio results and the try/except around them are a foreign network library. Whether audio was produced enters `Playback.Player.Play` and `Export.PackageNames` as a boolean.
- Reading the Word document and its error handlers are file I/O. The paragraphs are the input sequence of `Cards.LoadFlashcards`.
- Base64 encoding, `zipfile`, `tempfile` and the time-stamped archive name are library I/O; only the numbered entry names are modelled.
- The "With text" file-name format is left out. It relies on `re.sub(r'[^\w\s-]', '', …)[:30]`, whose Unicode `\w` class (all letters and digits in every script) is not modelled. Such names can repeat when two cards clean to the same text.
- The one-card download names `flashcard_{i+1}_english_arabic.mp3` (bilingual_flashcards_from_docx.py:196) and `flashcard_{i+1}_arabic_english.mp3` (bilingual_flashcards_from_docx.py:292) belong to rendered download links, not to the archive. The second names audio that `generate_combined_audio(english, arabic)` (bilingual_flashcards_from_docx.py:290) makes English first.
- The progress percentage is floating point and display only.
- The pseudo-random generator is not modelled; its results are parameters.
- The "Reset Application State" button, which deletes every session key, is generic dictionary plumbing.
- The session keys `correct_answer_<i>`, `question_direction_<i>` and `translit_<i>` are written but never read back.
- The question-count slider's bounds (3 to min(20, deck size)) are UI; `count` is any natural number.
- The quiz page is reached only when at least one card was loaded (bilingual_flashcards_from_docx.py:708-714 shows the tabs only then). The empty-deck case of `Quiz.SelectQuestions` (an empty quiz) and of `Quiz.Others` (no other cards) is therefore never reached by the page; the model and its lemmas still cover it.
- Quiz.QuizSession.SubmitAnswer: requires the current question to be unanswered, because the radio button is drawn only in that branch.
- Quiz.QuizSession.Skip: requires the current question to be unanswered, because the "Skip Question" button is drawn only in that branch.
- Quiz.QuizSession.Review: the answer given is not part of an entry, because the review fetches it but never shows it.
- Quiz.Shuffle: stated as a reordering with the same multiset; it is not shown that every order can occur.
- Strings are sequences of Unicode scalar values. Python strings may also hold lone surrogates, which the model cannot represent.
