/** The quiz page of the flashcard app (`show_quiz`): choosing the questions,
    presenting each one in a direction, building the four answer options,
    and the session state that moves from question to question. The random
    draws the page makes are parameters of the operations that use them. */
module Quiz {
  import opened Wrappers
  import opened Cards

  /** The three choices of the "Select quiz type" box. */
  datatype QuizType = EnglishToArabicQuiz | ArabicToEnglishQuiz | MixedQuiz

  /** The direction of one question. */
  datatype Direction = EnglishToArabic | ArabicToEnglish

  /** What one question shows and expects: the prompt text and the answer
      counted as correct. */
  datatype Question = Question(direction: Direction, prompt: string, correct: string)

  /** `sample` is what `random.sample(range(n), k)` can return: `k` distinct
      positions below `n`. */
  predicate IsSample(sample: seq<nat>, n: nat, k: nat) {
    && |sample| == k && Distinct(sample)
    && forall i :: 0 <= i < |sample| ==> sample[i] < n
  }

  // ---------------------------------------------------------------------
  // choosing the questions

  /** The questions of a new quiz: the whole deck, in order, when it has at
      most `count` cards, and otherwise the `count` cards at the sampled
      positions. */
  function SelectQuestions(deck: seq<Card>, count: nat, sample: seq<nat>): (qs: seq<Card>)
    requires |deck| > count ==> IsSample(sample, |deck|, count)
    ensures |deck| <= count ==> qs == deck
    ensures |deck| > count ==> |qs| == count && forall k :: 0 <= k < count ==> qs[k] == deck[sample[k]]
  {
    if |deck| <= count then deck
    else seq(count, k requires 0 <= k < count => deck[sample[k]])
  }

  /** A quiz has as many questions as the deck allows, each one a card of
      the deck. */
  lemma SelectionFromDeck(deck: seq<Card>, count: nat, sample: seq<nat>)
    requires |deck| > count ==> IsSample(sample, |deck|, count)
    ensures |SelectQuestions(deck, count, sample)| == if |deck| <= count then |deck| else count
    ensures forall c :: c in SelectQuestions(deck, count, sample) ==> c in deck
  {
    var qs := SelectQuestions(deck, count, sample);
    forall c | c in qs
      ensures c in deck
    {
      var k :| 0 <= k < |qs| && qs[k] == c;
      if |deck| > count {
        assert deck[sample[k]] == c;
      }
    }
  }

  /** Distinct positions give distinct questions: a deck without repeated
      cards gives a quiz without repeated questions. */
  lemma SelectionKeepsDistinct(deck: seq<Card>, count: nat, sample: seq<nat>)
    requires |deck| > count ==> IsSample(sample, |deck|, count)
    requires Distinct(deck)
    ensures Distinct(SelectQuestions(deck, count, sample))
  {
    var qs := SelectQuestions(deck, count, sample);
    if |deck| > count {
      forall i, j | 0 <= i < j < |qs|
        ensures qs[i] != qs[j]
      {
        assert sample[i] != sample[j];
        assert qs[i] == deck[sample[i]] && qs[j] == deck[sample[j]];
      }
    }
  }

  // ---------------------------------------------------------------------
  // presenting a question

  /** The direction a question is asked in. `coin` is the result of
      `random.choice([True, False])`, which only the mixed quiz consults. */
  function DirectionFor(qt: QuizType, coin: bool): Direction {
    match qt
    case EnglishToArabicQuiz => EnglishToArabic
    case ArabicToEnglishQuiz => ArabicToEnglish
    case MixedQuiz => if coin then EnglishToArabic else ArabicToEnglish
  }

  /** The field of a card that answers a question in direction `d`: the
      Arabic side for an English prompt, the English side otherwise. */
  function AnswerField(d: Direction, c: Card): string {
    if d == EnglishToArabic then c.translation else c.term
  }

  /** The question shown for `card`: one side of the card is the prompt and
      the other side the correct answer. */
  function Present(qt: QuizType, card: Card, coin: bool): (q: Question)
    ensures q.direction == DirectionFor(qt, coin)
    ensures q.correct == AnswerField(q.direction, card)
    ensures q.direction == EnglishToArabic ==> q.prompt == card.term && q.correct == card.translation
    ensures q.direction == ArabicToEnglish ==> q.prompt == card.translation && q.correct == card.term
  {
    if DirectionFor(qt, coin) == EnglishToArabic then Question(EnglishToArabic, card.term, card.translation)
    else Question(ArabicToEnglish, card.translation, card.term)
  }

  /** The two fixed quiz types ask in their own direction whatever the coin
      says; only the mixed quiz can ask in both directions. */
  lemma FixedTypesIgnoreCoin(qt: QuizType, card: Card)
    ensures qt == EnglishToArabicQuiz ==> Present(qt, card, true) == Present(qt, card, false) && Present(qt, card, true).direction == EnglishToArabic
    ensures qt == ArabicToEnglishQuiz ==> Present(qt, card, true) == Present(qt, card, false) && Present(qt, card, true).direction == ArabicToEnglish
    ensures qt == MixedQuiz ==> Present(qt, card, true).direction != Present(qt, card, false).direction
  {
  }

  /** Whatever the direction, prompt and correct answer are the card's two
      sides. */
  lemma PromptAndAnswerAreTheTwoSides(qt: QuizType, card: Card, coin: bool)
    ensures multiset{Present(qt, card, coin).prompt, Present(qt, card, coin).correct} == multiset{card.term, card.translation}
  {
  }

  // ---------------------------------------------------------------------
  // building the answer options

  /** `[f for f in flashcards if f != card]`: the cards of the whole deck
      other than the one asked about, in deck order. */
  function Others(deck: seq<Card>, card: Card): (r: seq<Card>)
    ensures |r| <= |deck|
    ensures forall k :: 0 <= k < |r| ==> r[k] in deck && r[k] != card
  {
    if deck == [] then []
    else (if deck[0] == card then [] else [deck[0]]) + Others(deck[1..], card)
  }

  /** Every copy of the question's card leaves the deck, every other card
      stays as often as it occurs. */
  lemma {:induction false} OthersCounts(deck: seq<Card>, card: Card, c: Card)
    ensures multiset(Others(deck, card))[c] == if c == card then 0 else multiset(deck)[c]
    decreases |deck|
  {
    if deck != [] {
      var x, rest := deck[0], deck[1..];
      assert deck == [x] + rest;
      OthersCounts(rest, card, c);
      var head := if x == card then [] else [x];
      assert Others(deck, card) == head + Others(rest, card);
      assert multiset(Others(deck, card)) == multiset(head) + multiset(Others(rest, card));
      assert multiset(deck) == multiset{x} + multiset(rest);
    }
  }

  /** The three fixed wrong answers used when the deck has too few other
      cards. */
  function Fallback(d: Direction): seq<string> {
    if d == EnglishToArabic then ["نَعَم", "لا", "شُكْرًا"] else ["Yes", "No", "Thank you"]
  }

  /** The three wrong answers offered: the answer field of three cards drawn
      from distinct positions of the other cards, when there are at least
      three of them, and the fixed fallback words of the answer language
      otherwise. `pick` is the result of `random.sample` on those cards. */
  function Distractors(deck: seq<Card>, card: Card, d: Direction, pick: seq<nat>): (ds: seq<string>)
    requires |Others(deck, card)| >= 3 ==> IsSample(pick, |Others(deck, card)|, 3)
    ensures |ds| == 3
    ensures |Others(deck, card)| < 3 ==> ds == Fallback(d)
    ensures |Others(deck, card)| >= 3 ==>
      forall k :: 0 <= k < 3 ==> ds[k] == AnswerField(d, Others(deck, card)[pick[k]])
  {
    var others := Others(deck, card);
    if |others| >= 3 then
      [AnswerField(d, others[pick[0]]), AnswerField(d, others[pick[1]]), AnswerField(d, others[pick[2]])]
    else Fallback(d)
  }

  /** A wrong answer drawn from the deck is the answer field of a card of the
      deck that differs from the question's card (it may still spell the
      same word when two cards share a side). */
  lemma DistractorsFromOtherCards(deck: seq<Card>, card: Card, d: Direction, pick: seq<nat>, k: nat)
    requires |Others(deck, card)| >= 3 ==> IsSample(pick, |Others(deck, card)|, 3)
    requires |Others(deck, card)| >= 3 && k < 3
    ensures exists c :: c in deck && c != card && Distractors(deck, card, d, pick)[k] == AnswerField(d, c)
  {
    var c := Others(deck, card)[pick[k]];
    assert c in deck && c != card;
  }

  /** `random.shuffle` on a list of length `n` swaps position `i` with a
      drawn position `j <= i`, for `i` from `n - 1` down to 1; `draws[k]` is
      the position drawn for `i = n - 1 - k`. */
  predicate ShuffleDraws(n: nat, draws: seq<nat>) {
    && |draws| == (if n == 0 then 0 else n - 1)
    && forall k :: 0 <= k < |draws| ==> draws[k] <= n - 1 - k
  }

  function Swap(xs: seq<string>, i: nat, j: nat): (r: seq<string>)
    requires i < |xs| && j < |xs|
    ensures |r| == |xs| && multiset(r) == multiset(xs)
    ensures r[i] == xs[j] && r[j] == xs[i]
    ensures forall k :: 0 <= k < |xs| && k != i && k != j ==> r[k] == xs[k]
  {
    xs[i := xs[j]][j := xs[i]]
  }

  /** The swaps of `random.shuffle` from the `k`-th on. */
  function ShuffleFrom(xs: seq<string>, draws: seq<nat>, k: nat): (r: seq<string>)
    requires ShuffleDraws(|xs|, draws) && k <= |draws|
    ensures |r| == |xs| && multiset(r) == multiset(xs)
    decreases |draws| - k
  {
    if k == |draws| then xs
    else ShuffleFrom(Swap(xs, |xs| - 1 - k, draws[k]), draws, k + 1)
  }

  /** `random.shuffle(xs)`: a reordering of `xs`. */
  function Shuffle(xs: seq<string>, draws: seq<nat>): (r: seq<string>)
    requires ShuffleDraws(|xs|, draws)
    ensures |r| == |xs| && multiset(r) == multiset(xs)
  {
    ShuffleFrom(xs, draws, 0)
  }

  /** The options of the radio button for `card` asked in direction `d`:
      the correct answer, extended by the three wrong answers, shuffled. */
  method BuildOptions(deck: seq<Card>, card: Card, d: Direction, pick: seq<nat>, draws: seq<nat>)
    returns (options: seq<string>)
    requires |Others(deck, card)| >= 3 ==> IsSample(pick, |Others(deck, card)|, 3)
    requires ShuffleDraws(4, draws)
    ensures |options| == 4
    ensures AnswerField(d, card) in options
    ensures multiset(options) == multiset([AnswerField(d, card)] + Distractors(deck, card, d, pick))
    ensures options == Shuffle([AnswerField(d, card)] + Distractors(deck, card, d, pick), draws)
  {
    options := [AnswerField(d, card)];
    var others := Others(deck, card);
    if |others| >= 3 {
      options := options + [AnswerField(d, others[pick[0]]), AnswerField(d, others[pick[1]]), AnswerField(d, others[pick[2]])];
    } else {
      options := options + Fallback(d);
    }
    var unshuffled := options;
    options := Shuffle(options, draws);
    assert unshuffled[0] in multiset(options);
  }

  /** Unless a wrong answer happens to spell the correct one, the correct
      answer is offered exactly once. */
  lemma CorrectOfferedOnce(deck: seq<Card>, card: Card, d: Direction, pick: seq<nat>, options: seq<string>)
    requires |Others(deck, card)| >= 3 ==> IsSample(pick, |Others(deck, card)|, 3)
    requires multiset(options) == multiset([AnswerField(d, card)] + Distractors(deck, card, d, pick))
    requires AnswerField(d, card) !in Distractors(deck, card, d, pick)
    ensures multiset(options)[AnswerField(d, card)] == 1
  {
    var ds := Distractors(deck, card, d, pick);
    assert multiset([AnswerField(d, card)] + ds) == multiset{AnswerField(d, card)} + multiset(ds);
  }

  // ---------------------------------------------------------------------
  // the session

  /** One line of the answer review: the question's number, its card and
      the direction it is reviewed in. */
  datatype ReviewEntry = ReviewEntry(index: int, card: Card, direction: Direction)

  /** The direction recorded for question `i`, English to Arabic when none
      is recorded. */
  function StoredDirection(feedback: map<int, Direction>, i: int): (d: Direction)
    ensures i !in feedback ==> d == EnglishToArabic
    ensures i in feedback ==> d == feedback[i]
  {
    if i in feedback then feedback[i] else EnglishToArabic
  }

  /** The question numbers a review lists. */
  function IndexSet(es: seq<ReviewEntry>): set<int> {
    if es == [] then {} else IndexSet(es[..|es| - 1]) + {es[|es| - 1].index}
  }

  lemma IndexSetSnoc(es: seq<ReviewEntry>, e: ReviewEntry)
    ensures IndexSet(es + [e]) == IndexSet(es) + {e.index}
  {
    assert (es + [e])[..|es|] == es;
  }

  lemma {:induction false} IndexSetHas(es: seq<ReviewEntry>, k: nat)
    requires k < |es|
    ensures es[k].index in IndexSet(es)
    decreases |es|
  {
    if k < |es| - 1 {
      IndexSetHas(es[..|es| - 1], k);
    }
  }

  /** Entries whose numbers stay below `b` list only numbers below `b`. */
  lemma {:induction false} IndexSetBelow(es: seq<ReviewEntry>, b: int)
    requires forall k :: 0 <= k < |es| ==> es[k].index < b
    ensures forall y :: y in IndexSet(es) ==> y < b
    decreases |es|
  {
    if es != [] {
      IndexSetBelow(es[..|es| - 1], b);
    }
  }

  /** An entry shows question `e.index` of `qs`, English to Arabic. */
  predicate ReviewsQuestion(e: ReviewEntry, qs: seq<Card>) {
    0 <= e.index < |qs| && e.card == qs[e.index] && e.direction == EnglishToArabic
  }

  predicate Ascending(es: seq<ReviewEntry>) {
    forall k, l :: 0 <= k < l < |es| ==> es[k].index < es[l].index
  }

  /** An ascending review has one entry per question number it lists. */
  lemma {:induction false} AscendingCount(es: seq<ReviewEntry>)
    requires Ascending(es)
    ensures |IndexSet(es)| == |es|
    decreases |es|
  {
    if es != [] {
      var init, last := es[..|es| - 1], es[|es| - 1];
      assert Ascending(init);
      AscendingCount(init);
      IndexSetBelow(init, last.index);
      assert last.index !in IndexSet(init);
    }
  }

  /** The results page over questions `0 .. n - 1` of `qs`: one entry per
      question with a recorded answer, in question order, its direction
      taken from `fb` when present (specification of `Review`). */
  function ReviewOf(qs: seq<Card>, marked: map<int, string>, fb: map<int, Direction>, n: nat): (r: seq<ReviewEntry>)
    requires n <= |qs|
    ensures |r| <= n
  {
    if n == 0 then []
    else
      ReviewOf(qs, marked, fb, n - 1)
      + if n - 1 in marked then [ReviewEntry(n - 1, qs[n - 1], StoredDirection(fb, n - 1))] else []
  }

  lemma ReviewOfSnoc(qs: seq<Card>, marked: map<int, string>, fb: map<int, Direction>, n: nat)
    requires 0 < n <= |qs|
    ensures n - 1 in marked ==>
      ReviewOf(qs, marked, fb, n) == ReviewOf(qs, marked, fb, n - 1) + [ReviewEntry(n - 1, qs[n - 1], StoredDirection(fb, n - 1))]
    ensures n - 1 !in marked ==> ReviewOf(qs, marked, fb, n) == ReviewOf(qs, marked, fb, n - 1)
  {
  }

  /** Every entry of the review is the question it names, below `n`. */
  lemma {:induction false} ReviewOfEntries(qs: seq<Card>, marked: map<int, string>, fb: map<int, Direction>, n: nat)
    requires n <= |qs|
    ensures var r := ReviewOf(qs, marked, fb, n);
      forall k :: 0 <= k < |r| ==>
        && 0 <= r[k].index < n && r[k].index in marked
        && r[k].card == qs[r[k].index] && r[k].direction == StoredDirection(fb, r[k].index)
  {
    if n > 0 {
      ReviewOfEntries(qs, marked, fb, n - 1);
      ReviewOfSnoc(qs, marked, fb, n);
    }
  }

  /** The review lists its questions in increasing order. */
  lemma {:induction false} ReviewOfAscending(qs: seq<Card>, marked: map<int, string>, fb: map<int, Direction>, n: nat)
    requires n <= |qs|
    ensures Ascending(ReviewOf(qs, marked, fb, n))
  {
    if n > 0 {
      ReviewOfAscending(qs, marked, fb, n - 1);
      ReviewOfEntries(qs, marked, fb, n - 1);
      ReviewOfSnoc(qs, marked, fb, n);
    }
  }

  /** The review lists exactly the answered questions below `n`. */
  lemma {:induction false} ReviewOfIndices(qs: seq<Card>, marked: map<int, string>, fb: map<int, Direction>, n: nat)
    requires n <= |qs|
    ensures forall j :: j in IndexSet(ReviewOf(qs, marked, fb, n)) <==> j in marked && 0 <= j < n
  {
    if n > 0 {
      ReviewOfIndices(qs, marked, fb, n - 1);
      var init := ReviewOf(qs, marked, fb, n - 1);
      if n - 1 in marked {
        IndexSetSnoc(init, ReviewEntry(n - 1, qs[n - 1], StoredDirection(fb, n - 1)));
      } else {
        assert ReviewOf(qs, marked, fb, n) == init;
      }
    }
  }

  /** The quiz keys of the session state. `feedback` stands for
      `quiz_feedback`, which is only ever reset to the empty dictionary. */
  class QuizSession {
    var started: bool
    var completed: bool
    var currentIndex: int
    var answers: map<int, string>
    var feedback: map<int, Direction>
    var questions: seq<Card>
    var quizType: QuizType

    /** The index is a question's position (or 0 for an empty quiz), answers
        are recorded only for questions of the quiz, and, while a quiz runs,
        only for questions already reached. */
    predicate Valid()
      reads this
    {
      && 0 <= currentIndex
      && (currentIndex < |questions| || currentIndex == 0)
      && (forall k :: k in answers ==> 0 <= k < |questions|)
      && (started ==> forall k :: k in answers ==> k <= currentIndex)
      && feedback == map[]
      && (completed ==> started)
    }

    /** The first-run defaults of the session state. */
    constructor()
      ensures Valid()
      ensures !started && !completed && currentIndex == 0
      ensures answers == map[] && feedback == map[] && questions == [] && quizType == EnglishToArabicQuiz
    {
      started := false;
      completed := false;
      currentIndex := 0;
      answers := map[];
      feedback := map[];
      questions := [];
      quizType := EnglishToArabicQuiz;
    }

    /** "Start Quiz": a fresh quiz over the selected questions. */
    method Start(deck: seq<Card>, qt: QuizType, count: nat, sample: seq<nat>)
      requires Valid() && !started
      requires |deck| > count ==> IsSample(sample, |deck|, count)
      modifies this
      ensures Valid()
      ensures started && !completed && currentIndex == 0
      ensures answers == map[] && feedback == map[]
      ensures questions == SelectQuestions(deck, count, sample) && quizType == qt
    {
      started := true;
      completed := false;
      answers := map[];
      feedback := map[];
      currentIndex := 0;
      questions := SelectQuestions(deck, count, sample);
      quizType := qt;
    }

    /** The question on screen; `coin` is this redraw's `random.choice`. */
    function Current(coin: bool): (q: Question)
      reads this
      requires Valid() && started && !completed && currentIndex < |questions|
      ensures q.direction == DirectionFor(quizType, coin)
      ensures q.correct == AnswerField(q.direction, questions[currentIndex])
      ensures q.direction == EnglishToArabic ==> q.prompt == questions[currentIndex].term
      ensures q.direction == ArabicToEnglish ==> q.prompt == questions[currentIndex].translation
    {
      Present(quizType, questions[currentIndex], coin)
    }

    /** The radio button's value is recorded as the answer to the current,
        unanswered question when something is selected; no selection (and
        an empty string, which is falsy) records nothing. */
    method SubmitAnswer(selected: Option<string>)
      requires Valid() && started && !completed && currentIndex < |questions|
      requires currentIndex !in answers
      modifies this`answers
      ensures Valid()
      ensures selected.Some? && selected.value != [] ==> answers == old(answers)[currentIndex := selected.value]
      ensures selected.None? || selected.value == [] ==> answers == old(answers)
    {
      if selected.Some? && selected.value != [] {
        answers := answers[currentIndex := selected.value];
      }
    }

    /** The step shared by "Next Question" and "Skip Question": on to the
        next question, or the quiz is over after the last one. */
    method Advance()
      requires Valid() && started && !completed && currentIndex < |questions|
      requires currentIndex in answers
      modifies this`currentIndex, this`completed
      ensures Valid()
      ensures old(currentIndex) + 1 < |questions| ==> currentIndex == old(currentIndex) + 1 && !completed
      ensures old(currentIndex) + 1 >= |questions| ==> currentIndex == old(currentIndex) && completed
    {
      if currentIndex + 1 < |questions| {
        currentIndex := currentIndex + 1;
      } else {
        completed := true;
      }
    }

    /** "Next Question", shown once the current question has an answer. */
    method Next()
      requires Valid() && started && !completed && currentIndex < |questions|
      requires currentIndex in answers
      modifies this`currentIndex, this`completed
      ensures Valid()
      ensures old(currentIndex) + 1 < |questions| ==> currentIndex == old(currentIndex) + 1 && !completed
      ensures old(currentIndex) + 1 >= |questions| ==> currentIndex == old(currentIndex) && completed
    {
      Advance();
    }

    /** "Skip Question": the current question is marked as skipped, then the
        quiz moves on as with "Next Question". */
    method Skip()
      requires Valid() && started && !completed && currentIndex < |questions|
      requires currentIndex !in answers
      modifies this`answers, this`currentIndex, this`completed
      ensures Valid()
      ensures answers == old(answers)[old(currentIndex) := "SKIPPED"]
      ensures old(currentIndex) + 1 < |questions| ==> currentIndex == old(currentIndex) + 1 && !completed
      ensures old(currentIndex) + 1 >= |questions| ==> currentIndex == old(currentIndex) && completed
    {
      answers := answers[currentIndex := "SKIPPED"];
      Advance();
    }

    /** "Skip to Results", shown with an answered question: the quiz ends
        where it stands. */
    method SkipToResults()
      requires Valid() && started && !completed && currentIndex < |questions|
      requires currentIndex in answers
      modifies this`completed
      ensures Valid() && completed
    {
      completed := true;
    }

    /** The quiz ends by itself when its index is past the last question,
        which only an empty quiz allows. */
    method FinishIfExhausted()
      requires Valid() && started && !completed && currentIndex >= |questions|
      modifies this`completed
      ensures Valid() && completed
      ensures questions == [] && currentIndex == 0
    {
      completed := true;
    }

    /** "Review Your Answers": one entry per answered question, in question
        order, each reviewed as an English-to-Arabic question because no
        per-question direction is ever stored. */
    method Review() returns (entries: seq<ReviewEntry>)
      requires Valid() && completed
      ensures entries == ReviewOf(questions, answers, feedback, |questions|)
      ensures IndexSet(entries) == answers.Keys
      ensures Ascending(entries) && |entries| == |answers|
      ensures forall k :: 0 <= k < |entries| ==> ReviewsQuestion(entries[k], questions)
    {
      var qs, marked, fb := questions, answers, feedback;
      entries := [];
      for i := 0 to |qs|
        invariant entries == ReviewOf(qs, marked, fb, i)
      {
        if i in marked {
          entries := entries + [ReviewEntry(i, qs[i], StoredDirection(fb, i))];
        }
      }
      ReviewOfEntries(qs, marked, fb, |qs|);
      ReviewOfAscending(qs, marked, fb, |qs|);
      ReviewOfIndices(qs, marked, fb, |qs|);
      AscendingCount(entries);
      forall j
        ensures j in IndexSet(entries) <==> j in marked.Keys
      {
        if j in marked {
          assert 0 <= j < |qs|;
        }
      }
    }

    /** "Retry Same Quiz": the same questions from the start. */
    method Retry()
      requires Valid() && completed
      modifies this
      ensures Valid()
      ensures started && !completed && currentIndex == 0 && answers == map[] && feedback == map[]
      ensures questions == old(questions) && quizType == old(quizType)
    {
      started := true;
      completed := false;
      answers := map[];
      feedback := map[];
      currentIndex := 0;
    }

    /** "Start New Quiz": back to the quiz settings; the old answers stay in
        the session until the next start clears them. */
    method NewQuiz()
      requires Valid() && completed
      modifies this`started, this`completed, this`currentIndex
      ensures Valid()
      ensures !started && !completed && currentIndex == 0
    {
      started := false;
      completed := false;
      currentIndex := 0;
    }
  }

  // ---------------------------------------------------------------------
  // whole sessions

  /** Answering every question and pressing "Next Question" each time ends
      the quiz at its last question with every question answered. */
  method AnswerEveryQuestion(deck: seq<Card>, count: nat, sample: seq<nat>, reply: string)
    returns (s: QuizSession)
    requires |deck| > count ==> IsSample(sample, |deck|, count)
    requires SelectQuestions(deck, count, sample) != [] && reply != []
    ensures s.Valid() && s.completed
    ensures s.questions == SelectQuestions(deck, count, sample)
    ensures s.currentIndex == |s.questions| - 1
    ensures forall k :: k in s.answers <==> 0 <= k < |s.questions|
  {
    s := new QuizSession();
    s.Start(deck, EnglishToArabicQuiz, count, sample);
    var n := |s.questions|;
    for i := 0 to n
      invariant s.Valid() && s.started && s.questions == SelectQuestions(deck, count, sample)
      invariant i < n ==> !s.completed && s.currentIndex == i
      invariant i == n ==> s.completed && s.currentIndex == n - 1
      invariant forall k :: k in s.answers <==> 0 <= k < i
    {
      s.SubmitAnswer(Some(reply));
      s.Next();
    }
  }

  /** Answering the first question and going straight to the results
      reviews that question alone. */
  method StopAfterFirst(deck: seq<Card>, count: nat, sample: seq<nat>, reply: string)
    returns (entries: seq<ReviewEntry>)
    requires |deck| > count ==> IsSample(sample, |deck|, count)
    requires SelectQuestions(deck, count, sample) != [] && reply != []
    ensures |entries| == 1 && entries[0].index == 0
    ensures entries[0].card == SelectQuestions(deck, count, sample)[0]
  {
    var s := new QuizSession();
    s.Start(deck, MixedQuiz, count, sample);
    s.SubmitAnswer(Some(reply));
    s.SkipToResults();
    entries := s.Review();
    assert s.answers.Keys == {0};
    IndexSetHas(entries, 0);
  }
}
