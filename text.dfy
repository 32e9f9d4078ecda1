/** The built-in Python string operations that the card loader and the
    speech-text cleanup rely on: `str.isspace`, `str.strip()`,
    `str.split(sep)`, `str.split()` and `str.join`, over `seq<char>`. */
module Text {
  import opened Wrappers

  /** `c.isspace()` (CPython's Py_UNICODE_ISSPACE). The regular-expression
      class `\s` on `str` patterns matches the same characters. */
  predicate IsSpace(c: char) {
    var n := c as int;
    (0x09 <= n <= 0x0D) || (0x1C <= n <= 0x20) || n == 0x85 || n == 0xA0
    || n == 0x1680 || (0x2000 <= n <= 0x200A) || n == 0x2028 || n == 0x2029
    || n == 0x202F || n == 0x205F || n == 0x3000
  }

  /** The information separators U+001C to U+001F and the next-line
      character U+0085 are whitespace; the zero-width space U+200B and the
      Mongolian vowel separator U+180E are not. */
  lemma SpaceEdgeCases()
    ensures IsSpace('\U{1C}') && IsSpace('\U{1F}') && IsSpace('\U{85}')
    ensures !IsSpace('\U{200B}') && !IsSpace('\U{180E}')
  {
  }

  predicate NoSpace(s: string) {
    forall i :: 0 <= i < |s| ==> !IsSpace(s[i])
  }

  /** Latin letters are not whitespace. */
  lemma LettersNoSpace(w: string)
    requires forall i :: 0 <= i < |w| ==> 'A' <= w[i] <= 'z'
    ensures NoSpace(w)
  {
  }

  /** Neither the first nor the last character is whitespace. */
  predicate Trimmed(s: string) {
    s == [] || (!IsSpace(s[0]) && !IsSpace(s[|s| - 1]))
  }

  // ---------------------------------------------------------------------
  // strip

  /** `s.lstrip()`: the longest whitespace prefix removed. */
  function LStrip(s: string): (r: string)
    ensures |r| <= |s| && r == s[|s| - |r|..]
    ensures forall i :: 0 <= i < |s| - |r| ==> IsSpace(s[i])
    ensures r == [] || !IsSpace(r[0])
  {
    if s != [] && IsSpace(s[0]) then LStrip(s[1..]) else s
  }

  /** The first position from `i` on that holds no whitespace, or `|s|`. */
  function SkipSpaces(s: string, i: nat): (j: nat)
    requires i <= |s|
    ensures i <= j <= |s|
    ensures forall k :: i <= k < j ==> IsSpace(s[k])
    ensures j == |s| || !IsSpace(s[j])
    decreases |s| - i
  {
    if i < |s| && IsSpace(s[i]) then SkipSpaces(s, i + 1) else i
  }

  /** Moving the end `j` back over whitespace, but not below `i`. */
  function BackOverSpaces(s: string, i: nat, j: nat): (e: nat)
    requires i <= j <= |s|
    ensures i <= e <= j
    ensures forall k :: e <= k < j ==> IsSpace(s[k])
    ensures e == i || !IsSpace(s[e - 1])
    decreases j
  {
    if j > i && IsSpace(s[j - 1]) then BackOverSpaces(s, i, j - 1) else j
  }

  /** `s.strip()`: the part of `s` between its leading and its trailing
      whitespace, found as CPython does, by moving a start index forward and
      an end index back. */
  function Strip(s: string): (r: string)
    ensures Trimmed(r)
    ensures r == [] <==> forall k :: 0 <= k < |s| ==> IsSpace(s[k])
    ensures var i := SkipSpaces(s, 0);
      && i + |r| <= |s| && r == s[i..i + |r|]
      && (forall k :: i + |r| <= k < |s| ==> IsSpace(s[k]))
  {
    var i := SkipSpaces(s, 0);
    var j := BackOverSpaces(s, i, |s|);
    s[i..j]
  }

  /** Stripping a string that has no surrounding whitespace changes nothing;
      in particular `strip` is idempotent. */
  lemma StripTrimmed(s: string)
    requires Trimmed(s)
    ensures Strip(s) == s
  {
  }

  lemma StripIdempotent(s: string)
    ensures Strip(Strip(s)) == Strip(s)
  {
    StripTrimmed(Strip(s));
  }

  // ---------------------------------------------------------------------
  // split(sep) and join

  /** `sep` occurs in `s` starting at position `i`. */
  predicate OccursAt(s: string, sep: string, i: int) {
    0 <= i && i + |sep| <= |s| && s[i..i + |sep|] == sep
  }

  predicate NoOccurrence(s: string, sep: string) {
    forall k :: 0 <= k <= |s| ==> !OccursAt(s, sep, k)
  }

  /** `s.find(sep, from)`: the leftmost occurrence of `sep` at or after `from`. */
  function FindFrom(s: string, sep: string, from: nat): (r: Option<nat>)
    requires |sep| > 0
    decreases |s| - from
    ensures r.Some? ==> from <= r.value && OccursAt(s, sep, r.value)
    ensures forall k :: from <= k && (r.None? || k < r.value) ==> !OccursAt(s, sep, k)
  {
    if from + |sep| > |s| then None
    else if s[from..from + |sep|] == sep then Some(from)
    else FindFrom(s, sep, from + 1)
  }

  /** A prefix of `s` that ends before `i` holds no occurrence when `s` has
      none starting before `i`. */
  lemma NoOccurrenceInPrefix(s: string, sep: string, i: nat)
    requires |sep| > 0 && i <= |s|
    requires forall k :: 0 <= k < i ==> !OccursAt(s, sep, k)
    ensures NoOccurrence(s[..i], sep)
  {
    forall k | OccursAt(s[..i], sep, k)
      ensures false
    {
      assert s[..i][k..k + |sep|] == s[k..k + |sep|];
      assert OccursAt(s, sep, k);
    }
  }

  /** `s.split(sep)` for a non-empty separator: `s` is cut at the leftmost
      occurrence of `sep` and the scan resumes after it, so occurrences
      never overlap. */
  function Split(s: string, sep: string): (parts: seq<string>)
    requires |sep| > 0
    decreases |s|
    ensures |parts| >= 1
    ensures forall k :: 0 <= k < |parts| ==> NoOccurrence(parts[k], sep)
  {
    match FindFrom(s, sep, 0)
    case None =>
      NoOccurrenceInPrefix(s, sep, |s|);
      assert s[..|s|] == s;
      [s]
    case Some(i) =>
      NoOccurrenceInPrefix(s, sep, i);
      [s[..i]] + Split(s[i + |sep|..], sep)
  }

  /** The first segment is what precedes the leftmost occurrence: no
      occurrence starts inside it, and one starts right after it unless it is
      the whole string, which happens exactly when there is no occurrence. */
  lemma SplitFirstSegment(s: string, sep: string)
    requires |sep| > 0
    ensures var parts := Split(s, sep);
      && |parts[0]| <= |s| && parts[0] == s[..|parts[0]|]
      && (forall k :: 0 <= k < |parts[0]| ==> !OccursAt(s, sep, k))
      && (|parts| == 1 <==> NoOccurrence(s, sep))
      && (|parts| == 1 ==> parts[0] == s)
      && (|parts| > 1 ==> OccursAt(s, sep, |parts[0]|))
  {
    match FindFrom(s, sep, 0)
    case None =>
      assert Split(s, sep) == [s];
    case Some(i) =>
      assert Split(s, sep) == [s[..i]] + Split(s[i + |sep|..], sep);
  }

  /** The leftmost rule, stated without the search: a string with no
      occurrence is one segment, and otherwise the first cut is at the
      leftmost occurrence and splitting resumes right after it. */
  lemma SplitAtFirst(s: string, sep: string, i: nat)
    requires |sep| > 0 && OccursAt(s, sep, i)
    requires forall k :: 0 <= k < i ==> !OccursAt(s, sep, k)
    ensures Split(s, sep) == [s[..i]] + Split(s[i + |sep|..], sep)
  {
    var r := FindFrom(s, sep, 0);
    assert r.Some? && r.value <= i;
    assert r.value == i;
  }

  lemma SplitWhole(s: string, sep: string)
    requires |sep| > 0 && NoOccurrence(s, sep)
    ensures Split(s, sep) == [s]
  {
    assert FindFrom(s, sep, 0).None?;
  }

  /** No occurrence starts at `k` when a character after `k` differs from
      the separator's character at the same offset. */
  lemma NotOccursAt(s: string, sep: string, k: nat, m: nat)
    requires m < |sep| && k + m < |s| && s[k + m] != sep[m]
    ensures !OccursAt(s, sep, k)
  {
  }

  /** `sep.join(parts)`. */
  function Join(parts: seq<string>, sep: string): string {
    if parts == [] then []
    else if |parts| == 1 then parts[0]
    else parts[0] + sep + Join(parts[1..], sep)
  }

  /** Joining the pieces of a split with the same separator gives back the
      original string. */
  lemma {:induction false} SplitJoin(s: string, sep: string)
    requires |sep| > 0
    ensures Join(Split(s, sep), sep) == s
    decreases |s|
  {
    match FindFrom(s, sep, 0)
    case None =>
      assert Split(s, sep) == [s];
    case Some(i) =>
      var rest := s[i + |sep|..];
      var tail := Split(rest, sep);
      SplitJoin(rest, sep);
      assert Split(s, sep) == [s[..i]] + tail;
      JoinCons(s[..i], tail, sep);
      assert s[i..i + |sep|] == sep;
      assert s == s[..i] + s[i..i + |sep|] + rest;
  }

  lemma JoinCons(w: string, ws: seq<string>, sep: string)
    requires ws != []
    ensures Join([w] + ws, sep) == w + sep + Join(ws, sep)
  {
    assert ([w] + ws)[1..] == ws;
  }

  /** The number of occurrences of `sep` that a left-to-right scan finds when
      it resumes after each occurrence it finds (an independent definition
      against which the split is checked). */
  function CountOccurrences(s: string, sep: string): nat
    requires |sep| > 0
    decreases |s|
  {
    if |s| < |sep| then 0
    else if s[..|sep|] == sep then 1 + CountOccurrences(s[|sep|..], sep)
    else CountOccurrences(s[1..], sep)
  }

  /** Dropping a prefix in which no occurrence starts leaves the count alone. */
  lemma {:induction false} CountSkip(s: string, sep: string, i: nat)
    requires |sep| > 0 && i <= |s|
    requires forall k :: 0 <= k < i ==> !OccursAt(s, sep, k)
    ensures CountOccurrences(s, sep) == CountOccurrences(s[i..], sep)
    decreases i
  {
    if i > 0 {
      assert !OccursAt(s, sep, 0);
      if |s| < |sep| {
        assert CountOccurrences(s[i..], sep) == 0;
      } else {
        assert s[..|sep|] == s[0..|sep|];
        forall k | 0 <= k < i - 1
          ensures !OccursAt(s[1..], sep, k)
        {
          if OccursAt(s[1..], sep, k) {
            assert s[1..][k..k + |sep|] == s[k + 1..k + 1 + |sep|];
            assert OccursAt(s, sep, k + 1);
          }
        }
        CountSkip(s[1..], sep, i - 1);
        assert s[1..][i - 1..] == s[i..];
      }
    }
  }

  /** A split produces exactly one more piece than there are occurrences of
      the separator. */
  lemma {:induction false} SplitCount(s: string, sep: string)
    requires |sep| > 0
    ensures |Split(s, sep)| == 1 + CountOccurrences(s, sep)
    decreases |s|
  {
    match FindFrom(s, sep, 0)
    case None =>
      CountSkip(s, sep, |s|);
      assert CountOccurrences(s[|s|..], sep) == 0;
    case Some(i) =>
      CountSkip(s, sep, i);
      var t := s[i..];
      assert t[..|sep|] == sep;
      assert t[|sep|..] == s[i + |sep|..];
      SplitCount(s[i + |sep|..], sep);
  }

  // ---------------------------------------------------------------------
  // split() and " ".join

  /** Length of the run of non-whitespace characters that starts `s`. */
  function WordLength(s: string): (n: nat)
    ensures n <= |s| && NoSpace(s[..n]) && (n == |s| || IsSpace(s[n]))
  {
    if s == [] || IsSpace(s[0]) then 0 else 1 + WordLength(s[1..])
  }

  /** `s.split()` with no argument: the maximal runs of non-whitespace
      characters, in order, without empty strings. */
  function Words(s: string): (ws: seq<string>)
    decreases |s|
    ensures forall k :: 0 <= k < |ws| ==> ws[k] != [] && NoSpace(ws[k])
  {
    if s == [] then []
    else if IsSpace(s[0]) then Words(s[1..])
    else
      var n := WordLength(s);
      [s[..n]] + Words(s[n..])
  }

  /** A word followed by whitespace (or by nothing) is read whole. */
  lemma {:induction false} WordLengthOfWord(w: string, rest: string)
    requires NoSpace(w) && (rest == [] || IsSpace(rest[0]))
    ensures WordLength(w + rest) == |w|
    decreases |w|
  {
    if w == [] {
      assert w + rest == rest;
    } else {
      assert (w + rest)[0] == w[0];
      assert (w + rest)[1..] == w[1..] + rest;
      WordLengthOfWord(w[1..], rest);
    }
  }

  /** The first word of `x` ends inside `x`, so what follows `x` does not
      change it. */
  lemma {:induction false} WordLengthAppend(x: string, y: string)
    requires WordLength(x) < |x|
    ensures WordLength(x + y) == WordLength(x)
    decreases |x|
  {
    assert (x + y)[0] == x[0];
    if !IsSpace(x[0]) {
      assert (x + y)[1..] == x[1..] + y;
      WordLengthAppend(x[1..], y);
    }
  }

  /** A single word is its own split. */
  lemma WordsOfWord(w: string)
    requires w != [] && NoSpace(w)
    ensures Words(w) == [w]
  {
    WordLengthOfWord(w, []);
    assert w + [] == w;
    assert w[|w|..] == [];
  }

  /** `split()` cuts at every whitespace character: the words on either side
      of one are the words of the two sides. */
  lemma {:induction false} WordsSplitAtSpace(a: string, c: char, b: string)
    requires IsSpace(c)
    ensures Words(a + [c] + b) == Words(a) + Words(b)
    decreases |a|
  {
    var t := a + [c] + b;
    if a == [] {
      assert t[1..] == b;
    } else if IsSpace(a[0]) {
      assert t[1..] == a[1..] + [c] + b;
      WordsSplitAtSpace(a[1..], c, b);
    } else {
      var n := WordLength(a);
      if n == |a| {
        assert a[..n] == a;
        WordLengthOfWord(a, [c] + b);
        assert t == a + ([c] + b);
        assert t[..n] == a;
        assert t[n..][1..] == b;
        WordsOfWord(a);
      } else {
        WordLengthAppend(a, [c] + b);
        assert t == a + ([c] + b);
        assert t[..n] == a[..n];
        assert t[n..] == a[n..] + [c] + b;
        WordsSplitAtSpace(a[n..], c, b);
      }
    }
  }

  /** `split()` undoes `" ".join` of words: the words come back exactly, so
      joined words stay separate. */
  lemma {:induction false} WordsOfJoin(ws: seq<string>)
    requires forall k :: 0 <= k < |ws| ==> ws[k] != [] && NoSpace(ws[k])
    ensures Words(Join(ws, " ")) == ws
  {
    if |ws| == 1 {
      WordsOfWord(ws[0]);
    } else if |ws| >= 2 {
      WordsOfJoin(ws[1..]);
      var j := Join(ws[1..], " ");
      assert Join(ws, " ") == ws[0] + [' '] + j;
      WordsSplitAtSpace(ws[0], ' ', j);
      WordsOfWord(ws[0]);
      assert ws == [ws[0]] + ws[1..];
    }
  }

  /** No surrounding whitespace, every whitespace character is a plain space,
      and no two whitespace characters are adjacent. */
  predicate Collapsed(t: string) {
    && Trimmed(t)
    && (forall i :: 0 <= i < |t| && IsSpace(t[i]) ==> t[i] == ' ')
    && (forall i :: 0 <= i < |t| - 1 ==> !IsSpace(t[i]) || !IsSpace(t[i + 1]))
  }

  /** Words joined with single spaces are collapsed. */
  lemma {:induction false} JoinWordsCollapsed(ws: seq<string>)
    requires forall k :: 0 <= k < |ws| ==> ws[k] != [] && NoSpace(ws[k])
    ensures Collapsed(Join(ws, " "))
    ensures ws != [] ==> |Join(ws, " ")| >= |ws[0]| && Join(ws, " ")[0] == ws[0][0]
  {
    if |ws| >= 2 {
      var w, j := ws[0], Join(ws[1..], " ");
      JoinWordsCollapsed(ws[1..]);
      var t := w + " " + j;
      assert Join(ws, " ") == t;
      forall i | 0 <= i < |t| && IsSpace(t[i])
        ensures t[i] == ' '
      {
        if i > |w| {
          assert t[i] == j[i - |w| - 1];
        }
      }
      forall i | 0 <= i < |t| - 1
        ensures !IsSpace(t[i]) || !IsSpace(t[i + 1])
      {
        if i < |w| {
          assert t[i] == w[i];
        } else if i == |w| {
          assert t[i + 1] == j[0];
        } else {
          assert t[i] == j[i - |w| - 1] && t[i + 1] == j[i - |w|];
        }
      }
      assert t[|t| - 1] == j[|j| - 1];
    }
  }

  /** `" ".join(s.split())`: runs of whitespace become one space and the ends
      are trimmed. */
  function Collapse(s: string): (r: string)
    ensures Collapsed(r)
  {
    var ws := Words(s);
    JoinWordsCollapsed(ws);
    Join(ws, " ")
  }

  /** Collapsing keeps the words of `s`, each one whole: the whitespace
      between two words becomes exactly one space and never disappears. */
  lemma CollapseKeepsWords(s: string)
    ensures Words(Collapse(s)) == Words(s)
  {
    WordsOfJoin(Words(s));
  }

  /** `s.split()` on a string that starts with a word: that word, then the
      words of what follows it. */
  lemma WordsCons(t: string)
    requires t != [] && !IsSpace(t[0])
    ensures WordLength(t) > 0
    ensures Words(t) == [t[..WordLength(t)]] + Words(t[WordLength(t)..])
  {
  }

  /** What follows the first space of a collapsed string is collapsed. */
  lemma CollapsedTail(t: string, n: nat)
    requires Collapsed(t) && n < |t| && IsSpace(t[n])
    ensures n + 1 < |t| && !IsSpace(t[n + 1]) && t[n] == ' '
    ensures Collapsed(t[n + 1..])
  {
    var rest := t[n + 1..];
    forall i | 0 <= i < |rest| && IsSpace(rest[i])
      ensures rest[i] == ' '
    {
      assert rest[i] == t[n + 1 + i];
    }
    forall i | 0 <= i < |rest| - 1
      ensures !IsSpace(rest[i]) || !IsSpace(rest[i + 1])
    {
      assert rest[i] == t[n + 1 + i] && rest[i + 1] == t[n + 2 + i];
    }
  }

  lemma SplitAround(t: string, n: nat)
    requires n < |t| && t[n] == ' '
    ensures t == t[..n] + " " + t[n + 1..]
  {
    assert t[n..] == [t[n]] + t[n + 1..];
    assert t == t[..n] + t[n..];
  }

  /** A collapsed string is left unchanged by collapsing. */
  lemma {:induction false} CollapsedFixpoint(t: string)
    requires Collapsed(t)
    ensures Collapse(t) == t
    decreases |t|
  {
    if t != [] {
      WordsCons(t);
      var n := WordLength(t);
      if n == |t| {
        assert t[n..] == [];
        assert t[..n] == t;
      } else {
        CollapsedTail(t, n);
        var rest := t[n + 1..];
        assert t[n..][1..] == rest;
        assert Words(t[n..]) == Words(rest);
        CollapsedFixpoint(rest);
        WordsCons(rest);
        JoinCons(t[..n], Words(rest), " ");
        SplitAround(t, n);
      }
    }
  }

  /** Collapsing twice changes nothing. */
  lemma CollapseIdempotent(s: string)
    ensures Collapse(Collapse(s)) == Collapse(s)
  {
    CollapsedFixpoint(Collapse(s));
  }

  // ---------------------------------------------------------------------
  // what collapsing keeps

  /** The non-whitespace characters of `s`, in order. */
  function NonSpaceChars(s: string): string {
    if s == [] then []
    else if IsSpace(s[0]) then NonSpaceChars(s[1..])
    else [s[0]] + NonSpaceChars(s[1..])
  }

  /** The non-whitespace characters of `s` are characters of `s` and none is
      whitespace. */
  lemma {:induction false} NonSpaceCharsFrom(s: string)
    ensures forall i :: 0 <= i < |NonSpaceChars(s)| ==> !IsSpace(NonSpaceChars(s)[i]) && NonSpaceChars(s)[i] in s
    decreases |s|
  {
    if s != [] {
      NonSpaceCharsFrom(s[1..]);
    }
  }

  lemma NonSpaceCharsCons(c: char, s: string)
    ensures NonSpaceChars([c] + s) == (if IsSpace(c) then [] else [c]) + NonSpaceChars(s)
  {
    assert ([c] + s)[0] == c;
    assert ([c] + s)[1..] == s;
  }

  lemma {:induction false} NonSpaceCharsAppend(a: string, b: string)
    ensures NonSpaceChars(a + b) == NonSpaceChars(a) + NonSpaceChars(b)
    decreases |a|
  {
    if a != [] {
      var c, a' := a[0], a[1..];
      assert a == [c] + a';
      assert a + b == [c] + (a' + b);
      NonSpaceCharsCons(c, a');
      NonSpaceCharsCons(c, a' + b);
      NonSpaceCharsAppend(a', b);
    } else {
      assert a + b == b;
    }
  }

  lemma {:induction false} NonSpaceCharsOfNoSpace(s: string)
    requires NoSpace(s)
    ensures NonSpaceChars(s) == s
    decreases |s|
  {
    if s != [] {
      NonSpaceCharsOfNoSpace(s[1..]);
    }
  }

  /** Every non-whitespace character of `s` is among its non-whitespace
      characters. */
  lemma {:induction false} NonSpaceCharsHas(s: string, i: nat)
    requires i < |s| && !IsSpace(s[i])
    ensures s[i] in NonSpaceChars(s)
    decreases |s|
  {
    if i > 0 {
      NonSpaceCharsHas(s[1..], i - 1);
    }
  }

  /** The words laid end to end. */
  function Concat(ws: seq<string>): string {
    if ws == [] then [] else ws[0] + Concat(ws[1..])
  }

  lemma {:induction false} WordsKeepNonSpace(s: string)
    ensures Concat(Words(s)) == NonSpaceChars(s)
    decreases |s|
  {
    if s != [] {
      if IsSpace(s[0]) {
        WordsKeepNonSpace(s[1..]);
      } else {
        WordsCons(s);
        var n := WordLength(s);
        WordsKeepNonSpace(s[n..]);
        assert ([s[..n]] + Words(s[n..]))[1..] == Words(s[n..]);
        assert s == s[..n] + s[n..];
        NonSpaceCharsAppend(s[..n], s[n..]);
        NonSpaceCharsOfNoSpace(s[..n]);
      }
    }
  }

  lemma {:induction false} JoinKeepsNonSpace(ws: seq<string>)
    requires forall k :: 0 <= k < |ws| ==> NoSpace(ws[k])
    ensures NonSpaceChars(Join(ws, " ")) == Concat(ws)
  {
    if ws != [] {
      NonSpaceCharsOfNoSpace(ws[0]);
      if |ws| == 1 {
        assert Concat(ws[1..]) == [];
      } else {
        JoinKeepsNonSpace(ws[1..]);
        var j := Join(ws[1..], " ");
        NonSpaceCharsAppend(ws[0], " " + j);
        NonSpaceCharsAppend(" ", j);
        assert ws[0] + " " + j == ws[0] + (" " + j);
      }
    }
  }

  /** Collapsing keeps every non-whitespace character, in order, and adds
      none. */
  lemma CollapseKeepsText(s: string)
    ensures NonSpaceChars(Collapse(s)) == NonSpaceChars(s)
  {
    WordsKeepNonSpace(s);
    JoinKeepsNonSpace(Words(s));
  }
}
