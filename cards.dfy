/** `load_flashcards`: every paragraph of the document that splits into at
    least three " : "-separated segments becomes one card, in document
    order; every other paragraph is dropped without error. */
module Cards {
  import opened Wrappers
  import opened Text

  /** One flashcard: the English term, its Arabic translation and the
      Latin-script transliteration (the source's `(english, arabic, translit)`
      tuple). */
  datatype Card = Card(term: string, translation: string, transliteration: string)

  const Separator: string := " : "

  predicate HasPrefix(s: string, p: string) {
    |p| <= |s| && s[..|p|] == p
  }

  /** `s` begins with one of the role labels; the match is case-sensitive.
      Both labels are eight characters long. */
  predicate HasRole(s: string) {
    HasPrefix(s, "Student:") || HasPrefix(s, "Teacher:")
  }

  // ---------------------------------------------------------------------
  // term

  /** `re.sub(r'^(Student|Teacher):\s*', '', s)`: the anchor allows one match
      only, at position 0; it removes the label and the whole run of
      whitespace after it. */
  function StripRolePrefix(s: string): (r: string)
    ensures !HasRole(s) ==> r == s
    ensures HasRole(s) ==>
      && |r| <= |s| - 8 && r == s[|s| - |r|..]
      && (forall k :: 8 <= k < |s| - |r| ==> IsSpace(s[k]))
      && (r == [] || !IsSpace(r[0]))
  {
    if HasRole(s) then LStrip(s[8..]) else s
  }

  /** A label followed by any text: the label and the whitespace after it go. */
  lemma StripLabel(role: string, rest: string)
    requires role == "Student:" || role == "Teacher:"
    ensures StripRolePrefix(role + rest) == LStrip(rest)
  {
    assert (role + rest)[..8] == role;
    assert (role + rest)[8..] == rest;
  }

  lemma LStripOneSpace(t: string)
    requires t != [] && !IsSpace(t[0])
    ensures LStrip(" " + t) == t
  {
    assert (" " + t)[1..] == t;
  }

  /** Only one label is removed: a second label after the first is kept. */
  lemma OnlyOneRoleRemoved()
    ensures StripRolePrefix("Teacher: Student: hi") == "Student: hi"
  {
    assert "Teacher: Student: hi" == "Teacher:" + (" " + "Student: hi");
    StripLabel("Teacher:", " " + "Student: hi");
    LStripOneSpace("Student: hi");
  }

  /** The label needs no whitespace after it. */
  lemma NoSpaceNeededAfterRole()
    ensures StripRolePrefix("Teacher:Hello") == "Hello"
  {
    assert "Teacher:Hello" == "Teacher:" + "Hello";
    StripLabel("Teacher:", "Hello");
  }

  /** The match is case-sensitive and anchored at the start: a lower-case
      label, or a label later in the text, is kept. */
  lemma RoleIsCaseSensitiveAndAnchored()
    ensures StripRolePrefix("teacher: Hello") == "teacher: Hello"
    ensures StripRolePrefix("Hi Student: x") == "Hi Student: x"
  {
    assert "teacher: Hello"[0] != "Teacher:"[0] && "teacher: Hello"[0] != "Student:"[0];
    assert "Hi Student: x"[0] != "Teacher:"[0] && "Hi Student: x"[0] != "Student:"[0];
  }

  // ---------------------------------------------------------------------
  // translation

  /** Position `j` holds the `]` that ends a lazy `(.*?)` match begun at `k`:
      it is the first `]` from `k` on, and no line break comes before it
      (the regex `.` does not match '\n'). */
  predicate ClosesAt(s: string, k: int, j: int) {
    && 0 <= k <= j < |s| && s[j] == ']'
    && forall m :: k <= m < j ==> s[m] != ']' && s[m] != '\n'
  }

  /** `\[(.*?)\]` matches with its `[` at `i` and its `]` at `j`. */
  predicate BracketAt(s: string, i: int, j: int) {
    0 <= i < |s| && s[i] == '[' && ClosesAt(s, i + 1, j)
  }

  ghost predicate HasBracket(s: string) {
    exists i, j :: BracketAt(s, i, j)
  }

  /** The match `re.search` reports: the one with the leftmost `[`. */
  ghost predicate FirstBracket(s: string, i: int, j: int) {
    BracketAt(s, i, j) && forall i', j' :: i' < i ==> !BracketAt(s, i', j')
  }

  /** The `]` that closes a lazy match begun at `k`, if there is one. */
  function CloseFrom(s: string, k: nat): (r: Option<nat>)
    decreases |s| - k
    ensures r.Some? ==> ClosesAt(s, k, r.value)
    ensures r.None? ==> forall j :: !ClosesAt(s, k, j)
  {
    if k >= |s| then None
    else if s[k] == '\n' then
      assert forall j :: ClosesAt(s, k, j) ==> j == k;
      None
    else if s[k] == ']' then Some(k)
    else
      assert forall j :: ClosesAt(s, k, j) ==> ClosesAt(s, k + 1, j);
      CloseFrom(s, k + 1)
  }

  /** `re.search(r'\[(.*?)\]', s)` scanning from `from`: the positions of
      the `[` and `]` of the leftmost match. */
  function SearchBracket(s: string, from: nat): (r: Option<(nat, nat)>)
    decreases |s| - from
    ensures r.Some? ==> from <= r.value.0 && BracketAt(s, r.value.0, r.value.1)
    ensures forall i, j :: from <= i && (r.None? || i < r.value.0) ==> !BracketAt(s, i, j)
  {
    if from >= |s| then None
    else if s[from] == '[' && CloseFrom(s, from + 1).Some? then
      Some((from, CloseFrom(s, from + 1).value))
    else SearchBracket(s, from + 1)
  }

  /** `m.group(1) if m else s` with `m = re.search(r'\[(.*?)\]', s)`: the
      inside of the first bracketed part, which holds no `]` and no line
      break; the whole segment when nothing matches. */
  function Translation(s: string): (r: string)
    ensures !HasBracket(s) ==> r == s
    ensures forall i, j :: FirstBracket(s, i, j) ==> r == s[i + 1..j]
    ensures HasBracket(s) ==> forall k :: 0 <= k < |r| ==> r[k] != ']' && r[k] != '\n'
  {
    match SearchBracket(s, 0)
    case None => s
    case Some((i, j)) =>
      assert FirstBracket(s, i, j);
      s[i + 1..j]
  }

  /** With no `[` or no `]` at all, the segment is the translation itself. */
  lemma NoBracketFallback(s: string)
    requires '[' !in s || ']' !in s
    ensures Translation(s) == s
  {
  }

  // ---------------------------------------------------------------------
  // one line, all lines

  /** `load_flashcards`' treatment of one paragraph: its card, or `None` for
      a paragraph it skips. */
  function ParseLine(para: string): (r: Option<Card>)
    ensures r.Some? <==> |Split(Strip(para), Separator)| >= 3
  {
    var text := Strip(para);
    if text == [] then
      assert FindFrom([], Separator, 0).None?;
      assert Split([], Separator) == [[]];
      None
    else
      var parts := Split(text, Separator);
      if |parts| >= 3 then
        Some(Card(StripRolePrefix(Strip(parts[0])), Translation(Strip(parts[1])), Strip(parts[2])))
      else None
  }

  /** A paragraph yields a card exactly when its trimmed text splits into at
      least three segments; the card is built from the first three and any
      further segments are ignored. A blank paragraph splits into one
      segment, so the separate test for blank lines never changes the
      outcome. */
  lemma ParseLineSpec(para: string)
    ensures ParseLine(para).Some? <==> |Split(Strip(para), Separator)| >= 3
    ensures ParseLine(para).Some? ==>
      var parts := Split(Strip(para), Separator);
      ParseLine(para).value == Card(StripRolePrefix(Strip(parts[0])), Translation(Strip(parts[1])), Strip(parts[2]))
  {
  }

  /** `s` has no space directly followed by a colon, so no separator can
      start inside it. */
  predicate NoSpaceColon(s: string) {
    forall k :: 0 <= k < |s| - 1 ==> !(s[k] == ' ' && s[k + 1] == ':')
  }

  /** A segment holding no space-colon pair is split off whole. */
  lemma SplitLastSegment(a: string)
    requires NoSpaceColon(a)
    ensures Split(a, Separator) == [a]
  {
    forall k | 0 <= k <= |a|
      ensures !OccursAt(a, Separator, k)
    {
      if k + 3 <= |a| {
        if a[k] != ' ' {
          NotOccursAt(a, Separator, k, 0);
        } else {
          NotOccursAt(a, Separator, k, 1);
        }
      }
    }
    SplitWhole(a, Separator);
  }

  /** A segment holding no space-colon pair and not ending in a space is cut
      off at the separator that follows it. */
  lemma SplitFirstSegmentOff(a: string, b: string)
    requires NoSpaceColon(a) && (a == [] || a[|a| - 1] != ' ')
    ensures Split(a + Separator + b, Separator) == [a] + Split(b, Separator)
  {
    var s := a + Separator + b;
    forall k | 0 <= k < |a|
      ensures !OccursAt(s, Separator, k)
    {
      assert s[k] == a[k];
      if a[k] != ' ' {
        NotOccursAt(s, Separator, k, 0);
      } else {
        assert k + 1 < |a| && s[k + 1] == a[k + 1];
        NotOccursAt(s, Separator, k, 1);
      }
    }
    assert s[|a|..|a| + 3] == Separator;
    SplitAtFirst(s, Separator, |a|);
    assert s[..|a|] == a && s[|a| + 3..] == b;
  }

  /** A bracketed segment without `]` or a line break inside translates to
      its inside. */
  lemma BracketedTranslation(w: string)
    requires forall k :: 0 <= k < |w| ==> w[k] != ']' && w[k] != '\n'
    ensures Translation("[" + w + "]") == w
  {
    var s := "[" + w + "]";
    forall m | 1 <= m < |w| + 1
      ensures s[m] != ']' && s[m] != '\n'
    {
      assert s[m] == w[m - 1];
    }
    assert BracketAt(s, 0, |w| + 1);
    assert FirstBracket(s, 0, |w| + 1);
    assert s[1..|w| + 1] == w;
  }

  /** A sample paragraph, `Teacher: Hello : [مرحبا] : marhaban`, and its
      segments. */
  const SampleTerm: string := "Teacher: Hello"
  const SampleArabic: string := "[مرحبا]"
  const SampleTransliteration: string := "marhaban"
  const SampleParagraph: string := SampleTerm + Separator + (SampleArabic + Separator + SampleTransliteration)

  lemma SampleParagraphText()
    ensures SampleParagraph == "Teacher: Hello : [مرحبا] : marhaban"
  {
  }

  lemma SampleLineTrimmed()
    ensures Strip(SampleParagraph) == SampleParagraph
    ensures Strip(SampleTerm) == SampleTerm
    ensures Strip(SampleArabic) == SampleArabic
    ensures Strip(SampleTransliteration) == SampleTransliteration
  {
    StripTrimmed(SampleParagraph);
    StripTrimmed(SampleTerm);
    StripTrimmed(SampleArabic);
    StripTrimmed(SampleTransliteration);
  }

  lemma SampleSegmentsHoldNoSeparator()
    ensures NoSpaceColon("Teacher: Hello") && NoSpaceColon("[مرحبا]") && NoSpaceColon("marhaban")
  {
  }

  /** The sample paragraph splits into its three segments. */
  lemma SampleLineSegments()
    ensures Split(SampleParagraph, Separator) == [SampleTerm, SampleArabic, SampleTransliteration]
  {
    var tail := SampleArabic + Separator + SampleTransliteration;
    SampleSegmentsHoldNoSeparator();
    SplitLastSegment(SampleTransliteration);
    SplitFirstSegmentOff(SampleArabic, SampleTransliteration);
    SplitFirstSegmentOff(SampleTerm, tail);
  }

  /** The label of the sample term goes, with the space after it. */
  lemma SampleTermLabel()
    ensures StripRolePrefix(SampleTerm) == "Hello"
  {
    assert "Teacher: Hello" == "Teacher:" + (" " + "Hello");
    StripLabel("Teacher:", " " + "Hello");
    LStripOneSpace("Hello");
  }

  /** The Arabic of the sample is the inside of its brackets. */
  lemma SampleTranslation()
    ensures Translation(SampleArabic) == "مرحبا"
  {
    assert "[مرحبا]" == "[" + "مرحبا" + "]";
    BracketedTranslation("مرحبا");
  }

  /** The card of the sample line: the label goes, the Arabic is
      taken from inside the brackets. */
  lemma SampleLine()
    ensures ParseLine(SampleParagraph) == Some(Card("Hello", "مرحبا", "marhaban"))
  {
    SampleLineTrimmed();
    SampleLineSegments();
    SampleTermLabel();
    SampleTranslation();
  }

  /** Overlapping separators, `a : : b : c`: the first cut is at the first
      ` : `, and the scan resumes after it, so the overlapping ` : ` that
      shares its space is not a cut. */
  const OverlapLine: string := "a" + Separator + (": b" + Separator + "c")

  lemma OverlapLineText()
    ensures OverlapLine == "a : : b : c"
  {
  }

  lemma OverlapLineSplit()
    ensures Split(OverlapLine, Separator) == ["a", ": b", "c"]
  {
    assert NoSpaceColon("a") && NoSpaceColon(": b") && NoSpaceColon("c");
    SplitLastSegment("c");
    SplitFirstSegmentOff(": b", "c");
    SplitFirstSegmentOff("a", ": b" + Separator + "c");
  }

  lemma OverlapLineFields()
    ensures Strip(OverlapLine) == OverlapLine
    ensures Strip("a") == "a" && Strip(": b") == ": b" && Strip("c") == "c"
    ensures StripRolePrefix("a") == "a" && Translation(": b") == ": b"
  {
    StripTrimmed(OverlapLine);
    StripTrimmed("a");
    StripTrimmed(": b");
    StripTrimmed("c");
    NoBracketFallback(": b");
  }

  /** The card of `a : : b : c` has the term `a`. */
  lemma OverlapLineCard()
    ensures ParseLine(OverlapLine) == Some(Card("a", ": b", "c"))
  {
    OverlapLineSplit();
    OverlapLineFields();
  }

  /** A paragraph with four segments: the card takes the first three. */
  const FourSegments: string := "a" + Separator + ("b" + Separator + ("c" + Separator + "d"))

  lemma FourSegmentsSplit()
    ensures Split(FourSegments, Separator) == ["a", "b", "c", "d"]
  {
    var tail2 := "c" + Separator + "d";
    var tail1 := "b" + Separator + tail2;
    assert NoSpaceColon("a") && NoSpaceColon("b") && NoSpaceColon("c") && NoSpaceColon("d");
    SplitLastSegment("d");
    SplitFirstSegmentOff("c", "d");
    SplitFirstSegmentOff("b", tail2);
    SplitFirstSegmentOff("a", tail1);
  }

  lemma FourSegmentsTrimmed()
    ensures Strip(FourSegments) == FourSegments
    ensures Strip("a") == "a" && Strip("b") == "b" && Strip("c") == "c"
  {
    StripTrimmed(FourSegments);
    StripTrimmed("a");
    StripTrimmed("b");
    StripTrimmed("c");
  }

  lemma FourSegmentsFields()
    ensures StripRolePrefix("a") == "a" && Translation("b") == "b"
  {
    NoBracketFallback("b");
  }

  lemma FourSegmentsLine()
    ensures ParseLine(FourSegments) == Some(Card("a", "b", "c"))
  {
    FourSegmentsSplit();
    FourSegmentsTrimmed();
    FourSegmentsFields();
  }

  /** One segment only: no card. */
  lemma OneSegmentLine()
    ensures ParseLine("only one part") == None
  {
    StripTrimmed("only one part");
    assert NoSpaceColon("only one part");
    SplitLastSegment("only one part");
  }

  /** A sample document: a blank paragraph and a one-segment
      paragraph are skipped, and the four-segment paragraph gives the card
      of its first three segments. */
  lemma SampleDocument()
    ensures ParseCards(["", "only one part", FourSegments]) == [Card("a", "b", "c")]
  {
    var doc := ["", "only one part", FourSegments];
    assert doc == [""] + ["only one part"] + [FourSegments];
    assert ParseLine("") == None by {
      assert Strip("") == [];
    }
    OneSegmentLine();
    FourSegmentsLine();
    ParseCardsAppend([""] + ["only one part"], [FourSegments]);
    ParseCardsAppend([""], ["only one part"]);
    ParseCardsOne("");
    ParseCardsOne("only one part");
    ParseCardsOne(FourSegments);
  }

  /** The values of `f` over `xs` that are present, in the order of `xs`. */
  function FilterMap<A, B>(f: A -> Option<B>, xs: seq<A>): (ys: seq<B>)
    ensures |ys| <= |xs|
  {
    if xs == [] then []
    else
      FilterMap(f, xs[..|xs| - 1])
      + match f(xs[|xs| - 1]) case Some(y) => [y] case None => []
  }

  lemma {:induction false} FilterMapAppend<A, B>(f: A -> Option<B>, a: seq<A>, b: seq<A>)
    ensures FilterMap(f, a + b) == FilterMap(f, a) + FilterMap(f, b)
    decreases |b|
  {
    if b == [] {
      assert a + b == a;
    } else {
      var ab := a + b;
      assert ab[..|ab| - 1] == a + b[..|b| - 1];
      assert ab[|ab| - 1] == b[|b| - 1];
      FilterMapAppend(f, a, b[..|b| - 1]);
    }
  }

  /** The cards of a document, in order (specification of `LoadFlashcards`). */
  function ParseCards(paras: seq<string>): (cards: seq<Card>)
    ensures |cards| <= |paras|
  {
    FilterMap(ParseLine, paras)
  }

  /** Parsing works paragraph by paragraph: the cards of two parts of a
      document are the cards of the first followed by those of the second. */
  lemma ParseCardsAppend(a: seq<string>, b: seq<string>)
    ensures ParseCards(a + b) == ParseCards(a) + ParseCards(b)
  {
    FilterMapAppend(ParseLine, a, b);
  }

  /** The cards of a single paragraph. */
  lemma ParseCardsOne(para: string)
    ensures ParseCards([para]) == match ParseLine(para) case Some(c) => [c] case None => []
  {
    assert [para][..0] == [];
  }

  /** A paragraph that yields no card changes nothing around it: the
      paragraphs after it are still parsed. */
  lemma DroppedLineIsHarmless(a: seq<string>, para: string, b: seq<string>)
    requires ParseLine(para).None?
    ensures ParseCards(a + [para] + b) == ParseCards(a) + ParseCards(b)
  {
    ParseCardsAppend(a + [para], b);
    ParseCardsAppend(a, [para]);
    ParseCardsOne(para);
  }

  /** A paragraph that yields a card adds exactly that card, in its place. */
  lemma KeptLineAddsItsCard(a: seq<string>, para: string, b: seq<string>)
    requires ParseLine(para).Some?
    ensures ParseCards(a + [para] + b) == ParseCards(a) + [ParseLine(para).value] + ParseCards(b)
  {
    ParseCardsAppend(a + [para], b);
    ParseCardsAppend(a, [para]);
    ParseCardsOne(para);
  }

  /** The document loop of `load_flashcards`. */
  method LoadFlashcards(paragraphs: seq<string>) returns (flashcards: seq<Card>)
    ensures flashcards == ParseCards(paragraphs)
  {
    flashcards := [];
    for i := 0 to |paragraphs|
      invariant flashcards == ParseCards(paragraphs[..i])
    {
      assert paragraphs[..i + 1][..i] == paragraphs[..i];
      var text := Strip(paragraphs[i]);
      if text == [] {
        continue;
      }
      var parts := Split(text, Separator);
      if |parts| >= 3 {
        var english := StripRolePrefix(Strip(parts[0]));
        var arabic := Translation(Strip(parts[1]));
        var translit := Strip(parts[2]);
        flashcards := flashcards + [Card(english, arabic, translit)];
      }
    }
    assert paragraphs[..|paragraphs|] == paragraphs;
  }
}
