/** The inline flags of a regex: which letter case the source itself asks for, and
    that flags change nothing else. */
module InlineFlags {
  import opened Options
  import opened RegexSyntax
  import opened PercentEncoding
  import opened Expansion

  /** The text begins with a group of flags. */
  predicate FlagGroup(text: string, letters: string) {
    && letters != "" && (forall k :: 0 <= k < |letters| ==> IsAsciiLetter(letters[k]))
    && "(?" + letters + ")" <= text
  }

  /** The text asks for matching without letter case: its leading flags hold `i`. */
  ghost predicate IgnoresCase(text: string) {
    exists letters :: FlagGroup(text, letters) && 'i' in letters
  }

  lemma {:induction false} RunOfLetters(s: string, i: nat, e: nat)
    requires i <= e <= |s| && (forall k :: i <= k < e ==> IsAsciiLetter(s[k])) && (e < |s| ==> !IsAsciiLetter(s[e]))
    ensures LetterRun(s, i) == e
    decreases e - i
  {
    if i < e { RunOfLetters(s, i + 1, e); }
  }

  lemma {:induction false} RunIsLetters(s: string, i: nat)
    requires i <= |s|
    ensures forall k :: i <= k < LetterRun(s, i) ==> IsAsciiLetter(s[k])
    decreases |s| - i
  {
    if i < |s| && IsAsciiLetter(s[i]) { RunIsLetters(s, i + 1); }
  }

  /** The letters split off are those of the leading group. */
  lemma LettersExactly(text: string, letters: string)
    ensures FlagGroup(text, letters) <==> letters != "" && FlagLetters(text) == letters
  {
    var group := "(?" + letters + ")";
    if FlagGroup(text, letters) {
      var e := |letters| + 2;
      forall k | 0 <= k < |group| ensures text[k] == group[k] {}
      forall k | 2 <= k < e ensures IsAsciiLetter(text[k]) { assert text[k] == group[k] == letters[k - 2]; }
      assert text[e] == group[e] == ')';
      RunOfLetters(text, 2, e);
      assert text[2..e] == letters;
    }
    if letters != "" && FlagLetters(text) == letters {
      var n := FlagsLength(text);
      RunIsLetters(text, 2);
      forall k | 0 <= k < |letters| ensures IsAsciiLetter(letters[k]) { assert letters[k] == text[k + 2]; }
      PrintOfFlags(text);
      assert text[..n] == group;
    }
  }

  /** On every accepted text the case flag is what its leading flags ask for, and
      these hold nothing but `i` and `s`. */
  lemma FlagIsTheTexts(alnum: char -> bool, text: string)
    requires Translate(alnum, text).Some?
    ensures Translate(alnum, text).value.caseInsensitive <==> IgnoresCase(text)
    ensures forall letters :: FlagGroup(text, letters) ==> forall c :: c in letters ==> c == 'i' || c == 's'
  {
    var read := FlagLetters(text);
    assert ReadSource(text).flags == read by { EdgesKeepFlags(read, text[FlagsLength(text)..]); }
    forall letters ensures FlagGroup(text, letters) <==> letters != "" && read == letters { LettersExactly(text, letters); }
    hide FlagGroup, FlagLetters, ReadSource, FlagsLength;
    if 'i' in read { assert FlagGroup(text, read); }
  }

  /** Flags before a text that has none: it is accepted or refused as without them,
      and all that changes is the case flag. */
  lemma FlagsChangeCaseOnly(alnum: char -> bool, letters: string, text: string)
    requires letters != "" && forall c :: c in letters ==> c == 'i' || c == 's'
    requires forall own :: !FlagGroup(text, own)
    requires |Utf8("(?" + letters + ")" + text)| <= MAX_REGEX_LENGTH && |Utf8(text)| <= MAX_REGEX_LENGTH
    ensures var plain, flagged := Translate(alnum, text), Translate(alnum, "(?" + letters + ")" + text);
            if plain.None? then flagged.None?
            else !plain.value.caseInsensitive && flagged == Some(plain.value.(caseInsensitive := 'i' in letters))
  {
    var group, whole := "(?" + letters + ")", "(?" + letters + ")" + text;
    forall k | 0 <= k < |letters| ensures IsAsciiLetter(letters[k]) { assert letters[k] in letters; }
    assert FlagGroup(whole, letters);
    LettersExactly(whole, letters);
    LettersExactly(text, FlagLetters(text));
    assert FlagLetters(text) == "";
    FlagsHere(text);
    FlagsHere(whole);
    assert whole[|group|..] == text && text[0..] == text;
    EdgesKeepFlags("", text);
    EdgesKeepFlags(letters, text);
    EdgesApart(letters, text);
    forall k | 0 <= k < |letters| ensures letters[k] == 'i' || letters[k] == 's' { assert letters[k] in letters; }
    hide FlagsLength, FlagLetters, FlagGroup, ReadEdges, ParseBody, Expand, Emit, Lossy, Narrowed, Utf8;
  }

  lemma FlagsHere(text: string)
    ensures FlagsLength(text) == if FlagLetters(text) == "" then 0 else |FlagLetters(text)| + 3
  {}

  lemma EdgesApart(letters: string, text: string)
    ensures ReadEdges(letters, text) == ReadEdges("", text).(flags := letters)
  {}
}
