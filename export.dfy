/** The numbered file names of the bulk audio download: card `i` (counted
    from 0) becomes `flashcard_<i+1, zero-padded to two digits><suffix>`, the
    suffix naming the download type. */
module Export {
  import opened Wrappers

  /** The four choices of the "Select download type" box. */
  datatype DownloadType = EnglishOnly | ArabicOnly | EnglishThenArabic | ArabicThenEnglish

  /** The ending of a numbered name: an underscore, the side or sides
      spoken, and the `.mp3` extension. */
  function Suffix(t: DownloadType): (r: string)
    ensures |r| > 4 && r[0] == '_' && r[|r| - 4..] == ".mp3"
  {
    match t
    case EnglishOnly => "_english.mp3"
    case ArabicOnly => "_arabic.mp3"
    case EnglishThenArabic => "_english_arabic.mp3"
    case ArabicThenEnglish => "_arabic_english.mp3"
  }

  const Prefix: string := "flashcard_"

  /** Each download type names its files with its own suffix. */
  lemma SuffixesDistinct(t: DownloadType, u: DownloadType)
    requires t != u
    ensures Suffix(t) != Suffix(u)
  {
    assert Suffix(EnglishOnly)[1] == 'e' && Suffix(ArabicOnly)[1] == 'a';
    assert |Suffix(EnglishOnly)| == 12 && |Suffix(EnglishThenArabic)| == 19;
    assert |Suffix(ArabicOnly)| == 11 && |Suffix(ArabicThenEnglish)| == 19;
    assert Suffix(EnglishThenArabic)[1] == 'e' && Suffix(ArabicThenEnglish)[1] == 'a';
  }

  predicate IsDigit(c: char) {
    '0' <= c <= '9'
  }

  predicate AllDigits(s: string) {
    forall k :: 0 <= k < |s| ==> IsDigit(s[k])
  }

  function Digit(d: nat): (c: char)
    requires d < 10
    ensures IsDigit(c) && (c as int) - ('0' as int) == d
  {
    (('0' as int) + d) as char
  }

  /** `str(n)`: the decimal digits of `n`, without leading zeros. */
  function Decimal(n: nat): (r: string)
    ensures |r| >= 1 && AllDigits(r)
    ensures n >= 10 ==> r[0] != '0'
    ensures n < 10 <==> |r| == 1
    ensures n < 100 ==> |r| <= 2
  {
    if n < 10 then [Digit(n)] else Decimal(n / 10) + [Digit(n % 10)]
  }

  /** `f"{n:02d}"`: the decimal digits of `n`, with a leading zero when
      there is only one. */
  function Pad2(n: nat): (r: string)
    ensures |r| >= 2 && AllDigits(r)
    ensures n < 100 ==> |r| == 2
    ensures n >= 100 ==> |r| > 2 && r[0] != '0'
  {
    if n < 10 then "0" + Decimal(n) else Decimal(n)
  }

  /** The number a string of digits denotes; leading zeros add nothing. */
  function Value(s: string): nat
    requires AllDigits(s)
  {
    if s == [] then 0 else 10 * Value(s[..|s| - 1]) + ((s[|s| - 1] as int) - ('0' as int))
  }

  lemma {:induction false} ValueOfDecimal(n: nat)
    ensures Value(Decimal(n)) == n
  {
    if n >= 10 {
      var r := Decimal(n);
      assert r[..|r| - 1] == Decimal(n / 10);
      ValueOfDecimal(n / 10);
    }
  }

  lemma {:induction false} LeadingZero(s: string)
    requires AllDigits(s)
    ensures Value("0" + s) == Value(s)
    decreases |s|
  {
    if s != [] {
      var z := "0" + s;
      assert z[..|z| - 1] == "0" + s[..|s| - 1];
      LeadingZero(s[..|s| - 1]);
    }
  }

  /** The padded number reads back as the number. */
  lemma ValueOfPad2(n: nat)
    ensures Value(Pad2(n)) == n
  {
    ValueOfDecimal(n);
    if n < 10 {
      LeadingZero(Decimal(n));
    }
  }

  /** The archive entry for card `i` under download type `t`. */
  function NumberedName(i: nat, t: DownloadType): (name: string)
    ensures |Prefix| + 2 + |Suffix(t)| <= |name|
    ensures i < 99 ==> |name| == |Prefix| + 2 + |Suffix(t)|
  {
    Prefix + Pad2(i + 1) + Suffix(t)
  }

  /** A numbered name is the prefix, then only digits, then the suffix of
      its download type. */
  lemma NumberedNameShape(i: nat, t: DownloadType)
    ensures var name := NumberedName(i, t);
      && name[..|Prefix|] == Prefix && name[|name| - |Suffix(t)|..] == Suffix(t)
      && AllDigits(name[|Prefix|..|name| - |Suffix(t)|])
  {
    var name := NumberedName(i, t);
    assert name[|Prefix|..|name| - |Suffix(t)|] == Pad2(i + 1);
  }

  /** The number inside a numbered name. */
  function NumberOf(name: string, t: DownloadType): string
    requires |Prefix| + |Suffix(t)| <= |name|
  {
    name[|Prefix|..|name| - |Suffix(t)|]
  }

  /** The card index can be read back from its file name. */
  lemma NameReadsBack(i: nat, t: DownloadType)
    ensures |Prefix| + |Suffix(t)| <= |NumberedName(i, t)|
    ensures AllDigits(NumberOf(NumberedName(i, t), t))
    ensures Value(NumberOf(NumberedName(i, t), t)) == i + 1
  {
    var name := NumberedName(i, t);
    assert NumberOf(name, t) == Pad2(i + 1);
    ValueOfPad2(i + 1);
  }

  /** Two cards never share an archive entry. */
  lemma NumberedNamesDistinct(i: nat, j: nat, t: DownloadType)
    requires i != j
    ensures NumberedName(i, t) != NumberedName(j, t)
  {
    NameReadsBack(i, t);
    NameReadsBack(j, t);
  }

  /** `name` is the entry of a card that has audio. */
  ghost predicate IsProducedName(name: string, t: DownloadType, produced: seq<bool>) {
    exists i: nat :: i < |produced| && produced[i] && name == NumberedName(i, t)
  }

  /** The names written to the archive, card by card; `produced[i]` says
      whether the speech engine returned audio for card `i` (a card without
      audio gets no entry). */
  method PackageNames(t: DownloadType, produced: seq<bool>) returns (names: seq<string>)
    ensures forall i :: 0 <= i < |produced| ==> (NumberedName(i, t) in names <==> produced[i])
    ensures forall k :: 0 <= k < |names| ==> IsProducedName(names[k], t, produced)
    ensures Distinct(names)
  {
    names := [];
    ghost var cards: seq<nat> := [];
    for i := 0 to |produced|
      invariant |cards| == |names|
      invariant forall k :: 0 <= k < |names| ==> cards[k] < i && produced[cards[k]] && names[k] == NumberedName(cards[k], t)
      invariant forall k, l :: 0 <= k < l < |cards| ==> cards[k] < cards[l]
      invariant forall j :: 0 <= j < i ==> (NumberedName(j, t) in names <==> produced[j])
      invariant forall j :: i <= j < |produced| ==> NumberedName(j, t) !in names
      invariant Distinct(names)
    {
      forall j | 0 <= j < |produced| && j != i
        ensures NumberedName(j, t) != NumberedName(i, t)
      {
        NumberedNamesDistinct(j, i, t);
      }
      if produced[i] {
        names := names + [NumberedName(i, t)];
        cards := cards + [i];
      }
    }
    forall k | 0 <= k < |names|
      ensures IsProducedName(names[k], t, produced)
    {
      var j := cards[k];
      assert 0 <= j < |produced| && produced[j] && names[k] == NumberedName(j, t);
    }
  }
}
