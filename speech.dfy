/** The pure part of `text_to_speech`: the text handed to the speech engine
    is the input with the emoji class removed, its whitespace collapsed, and
    a fixed placeholder in its place when nothing is left. */
module Speech {
  import opened Text

  /** The character class of `remove_emojis`, range by range and singleton by
      singleton in the order the pattern lists them. */
  predicate IsEmoji(c: char) {
    var n := c as int;
    || (0x1F600 <= n <= 0x1F64F) || (0x1F300 <= n <= 0x1F5FF)
    || (0x1F680 <= n <= 0x1F6FF) || (0x1F1E0 <= n <= 0x1F1FF)
    || (0x2500 <= n <= 0x2BEF) || (0x2702 <= n <= 0x27B0)
    || (0x24C2 <= n <= 0x1F251) || (0x1F926 <= n <= 0x1F937)
    || (0x10000 <= n <= 0x10FFFF) || (0x2640 <= n <= 0x2642)
    || (0x2600 <= n <= 0x2B55)
    || n == 0x200D || n == 0x23CF || n == 0x23E9 || n == 0x231A
    || n == 0xFE0F || n == 0x3030
  }

  /** The listed ranges overlap so much that the class is four singletons and
      everything from U+24C2 upwards (this includes CJK ideographs, Hangul and
      the Arabic presentation forms). */
  lemma EmojiClassAsWritten(c: char)
    ensures IsEmoji(c) <==> (c as int in {0x200D, 0x231A, 0x23CF, 0x23E9} || c as int >= 0x24C2)
  {
  }

  /** `remove_emojis(text)`: substituting `''` for every run of class
      characters deletes each class character and keeps every other one. */
  function RemoveEmojis(s: string): (r: string)
    ensures |r| <= |s|
    ensures forall i :: 0 <= i < |r| ==> !IsEmoji(r[i])
  {
    if s == [] then []
    else (if IsEmoji(s[0]) then [] else [s[0]]) + RemoveEmojis(s[1..])
  }

  /** Each class character occurs no more in the result, every other
      character as often as in the input. */
  lemma {:induction false} RemoveEmojisCounts(s: string, c: char)
    ensures multiset(RemoveEmojis(s))[c] == if IsEmoji(c) then 0 else multiset(s)[c]
    decreases |s|
  {
    if s != [] {
      RemoveEmojisCounts(s[1..], c);
      assert s == [s[0]] + s[1..];
    }
  }

  /** The removal works character by character, so it distributes over
      concatenation: what is kept keeps its order. */
  lemma {:induction false} RemoveEmojisAppend(a: string, b: string)
    ensures RemoveEmojis(a + b) == RemoveEmojis(a) + RemoveEmojis(b)
    decreases |a|
  {
    if a == [] {
      assert a + b == b;
    } else {
      assert (a + b)[0] == a[0];
      assert (a + b)[1..] == a[1..] + b;
      RemoveEmojisAppend(a[1..], b);
    }
  }

  /** Text without class characters comes back unchanged. */
  lemma {:induction false} RemoveEmojisNoop(s: string)
    requires forall i :: 0 <= i < |s| ==> !IsEmoji(s[i])
    ensures RemoveEmojis(s) == s
    decreases |s|
  {
    if s != [] {
      RemoveEmojisNoop(s[1..]);
    }
  }

  /** Every character below U+200D (Basic Latin through Latin Extended
      Additional, the main Arabic block) is kept. */
  lemma KeepsBelowZeroWidthJoiner(s: string)
    requires forall i :: 0 <= i < |s| ==> s[i] as int < 0x200D
    ensures RemoveEmojis(s) == s
  {
    RemoveEmojisNoop(s);
  }

  /** Removing twice removes nothing more. */
  lemma RemoveEmojisIdempotent(s: string)
    ensures RemoveEmojis(RemoveEmojis(s)) == RemoveEmojis(s)
  {
    RemoveEmojisNoop(RemoveEmojis(s));
  }

  /** `' '.join(remove_emojis(text).split())`: collapsed, free of the emoji
      class, made of exactly the words of the text that survives the removal
      (each kept whole and apart from its neighbours), and so holding exactly
      its non-whitespace characters, in order. */
  function CleanText(text: string): (r: string)
    ensures Collapsed(r)
    ensures Words(r) == Words(RemoveEmojis(text))
    ensures forall i :: 0 <= i < |r| ==> !IsEmoji(r[i])
    ensures NonSpaceChars(r) == NonSpaceChars(RemoveEmojis(text))
  {
    var kept := RemoveEmojis(text);
    var r := Collapse(kept);
    CollapseKeepsText(kept);
    CollapseKeepsWords(kept);
    forall i | 0 <= i < |r|
      ensures !IsEmoji(r[i])
    {
      if !IsSpace(r[i]) {
        NonSpaceCharsHas(r, i);
        NonSpaceCharsFrom(kept);
      }
    }
    r
  }

  const EnglishPlaceholder: string := "No text available"
  const ArabicPlaceholder: string := "لا يوجد نص"

  /** The text `text_to_speech(text, lang)` passes to the speech engine. */
  function SpeechText(text: string, lang: string): (r: string)
    ensures r != []
    ensures CleanText(text) != [] ==> r == CleanText(text)
    ensures CleanText(text) == [] ==> r == (if lang == "en" then EnglishPlaceholder else ArabicPlaceholder)
  {
    var clean := CleanText(text);
    if Strip(clean) == [] then
      (if lang == "en" then EnglishPlaceholder else ArabicPlaceholder)
    else clean
  }

  /** Only whether `lang` is exactly "en" matters for the result. */
  lemma PlaceholderDependsOnlyOnEnglish(text: string, lang1: string, lang2: string)
    requires (lang1 == "en") == (lang2 == "en")
    ensures SpeechText(text, lang1) == SpeechText(text, lang2)
  {
    if CleanText(text) == [] {
      if lang1 == "en" {
        assert SpeechText(text, lang1) == EnglishPlaceholder;
      } else {
        assert SpeechText(text, lang1) == ArabicPlaceholder;
      }
    }
  }

  lemma EnglishPlaceholderJoined()
    ensures Join(["No", "text", "available"], " ") == EnglishPlaceholder
  {
    var ws := ["No", "text", "available"];
    assert Join(ws[2..], " ") == "available";
    assert Join(ws[1..], " ") == "text available";
  }

  lemma EnglishPlaceholderCollapsed()
    ensures Collapsed(EnglishPlaceholder)
  {
    var ws := ["No", "text", "available"];
    EnglishPlaceholderJoined();
    LettersNoSpace(ws[0]);
    LettersNoSpace(ws[1]);
    LettersNoSpace(ws[2]);
    JoinWordsCollapsed(ws);
  }

  lemma ArabicPlaceholderCollapsed()
    ensures Collapsed(ArabicPlaceholder)
  {
    var ws := ["لا", "يوجد", "نص"];
    assert Join(ws, " ") == ArabicPlaceholder by {
      assert Join(ws[2..], " ") == "نص";
      assert Join(ws[1..], " ") == "يوجد نص";
    }
    JoinWordsCollapsed(ws);
  }

  lemma PlaceholdersCollapsed()
    ensures Collapsed(EnglishPlaceholder) && Collapsed(ArabicPlaceholder)
  {
    EnglishPlaceholderCollapsed();
    ArabicPlaceholderCollapsed();
  }

  /** The speech text never has surrounding or doubled whitespace. */
  lemma SpeechTextCollapsed(text: string, lang: string)
    ensures Collapsed(SpeechText(text, lang))
  {
    PlaceholdersCollapsed();
    var c := CleanText(text);
    if c != [] {
      assert SpeechText(text, lang) == c;
    } else if lang == "en" {
      assert SpeechText(text, lang) == EnglishPlaceholder;
    } else {
      assert SpeechText(text, lang) == ArabicPlaceholder;
    }
  }

  lemma RemoveWave()
    ensures RemoveEmojis("Hello 👋") == "Hello "
  {
    assert "Hello 👋" == "Hello " + "👋";
    RemoveEmojisAppend("Hello ", "👋");
    RemoveEmojisNoop("Hello ");
    assert RemoveEmojis("👋") == [];
  }

  lemma CollapseTrailingSpace()
    ensures Collapse("Hello ") == "Hello"
  {
    var t := "Hello ";
    WordsCons(t);
    assert WordLength(t) == 5;
    assert t[5..] == " ";
    assert Words(" ") == [];
    assert t[..5] == "Hello";
    assert Words(t) == ["Hello"];
  }

  /** The settings page's own example: "Hello 👋" is spoken as "Hello". */
  lemma HelloWaveExample()
    ensures SpeechText("Hello 👋", "en") == "Hello"
  {
    RemoveWave();
    CollapseTrailingSpace();
    assert CleanText("Hello 👋") == "Hello";
  }

  /** Text made only of emoji is replaced by the placeholder of its language. */
  lemma OnlyEmojiExample()
    ensures SpeechText("👋", "ar") == ArabicPlaceholder
    ensures SpeechText("👋", "en") == EnglishPlaceholder
  {
    assert RemoveEmojis("👋") == [];
    assert Words([]) == [];
    assert CleanText("👋") == [];
  }
}
