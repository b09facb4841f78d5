/** The stateless text utilities of src/data_processing.py: stopword
    removal, normalization, special-character deletion and tokenization. */
module TextProcessing {

  import opened Strings

  const Stopwords: set<string> := {"a", "an", "the", "is", "in", "on", "and", "or", "with", "of"}

  /** A token is dropped when its lower-case form is one of the stopwords. */
  predicate IsStopword(word: string)
  {
    ToLower(word) in Stopwords
  }

  predicate Survives(word: string)
  {
    !IsStopword(word)
  }

  /** `remove_stopwords`: the output's tokens are the input's non-stopword
      tokens, in their order and original case, joined by single spaces. */
  function RemoveStopwords(text: string): (r: string)
    ensures SingleSpaced(r)
    ensures forall k :: 0 <= k < |Split(r)| ==> !IsStopword(Split(r)[k])
    ensures |Split(r)| == Count(Split(text), Survives)
  {
    var kept := Filter(Split(text), Survives);
    FilterSpec(Split(text), Survives);
    SplitJoin(kept);
    JoinWordsSingleSpaced(kept);
    Join(" ", kept)
  }

  /** `normalize_text`: lower-cased, single-spaced, and with the same tokens
      as the lower-cased input. */
  function NormalizeText(text: string): (r: string)
    ensures SingleSpaced(r)
    ensures NoUpper(r)
    ensures Split(r) == Split(ToLower(text))
  {
    var words := Split(ToLower(text));
    SplitJoin(words);
    JoinWordsSingleSpaced(words);
    ToLowerNoUpper(text);
    SplitNoUpper(ToLower(text));
    JoinNoUpper(" ", words);
    Join(" ", words)
  }

  /** The characters `re.sub(r'[^a-zA-Z0-9\s]', '', text)` leaves in place. */
  predicate Retained(c: char)
  {
    ('a' <= c <= 'z') || ('A' <= c <= 'Z') || ('0' <= c <= '9') || IsSpace(c)
  }

  /** `remove_special_characters`: deletes (never replaces) every character
      outside the retained class and keeps all the others, in order. */
  function RemoveSpecialCharacters(text: string): (r: string)
    ensures forall i :: 0 <= i < |r| ==> Retained(r[i])
    ensures |r| == Count(text, Retained)
  {
    FilterSpec(text, Retained);
    Filter(text, Retained)
  }

  /** `tokenize_text`: non-empty whitespace-free tokens, none at all exactly
      when the input is empty or all whitespace. */
  function Tokenize(text: string): (tokens: seq<string>)
    ensures forall k :: 0 <= k < |tokens| ==> |tokens[k]| > 0 && NoSpace(tokens[k])
    ensures tokens == [] <==> AllSpace(text)
  {
    SplitEmpty(text);
    Split(text)
  }

  // ---------------------------------------------------------------------
  // Properties relating several calls

  /** The tokens left by stopword removal are the input tokens with the
      stopwords deleted and the rest kept in order (by `FilterUnique`, the
      only such selection with the count the contract above states). */
  lemma RemoveStopwordsTokens(text: string)
    ensures IsSubsequence(Split(RemoveStopwords(text)), Split(text))
    ensures Split(RemoveStopwords(text)) == Filter(Split(text), Survives)
  {
    FilterSpec(Split(text), Survives);
    SplitJoin(Filter(Split(text), Survives));
  }

  /** Special characters are deleted, never replaced: the output is a
      subsequence of the input. */
  lemma RemoveSpecialCharactersDeletesOnly(text: string)
    ensures IsSubsequence(RemoveSpecialCharacters(text), text)
  {
    FilterSpec(text, Retained);
  }

  /** Stopword removal is idempotent. */
  lemma RemoveStopwordsIdempotent(text: string)
    ensures RemoveStopwords(RemoveStopwords(text)) == RemoveStopwords(text)
  {
    var once := RemoveStopwords(text);
    RemoveStopwordsTokens(text);
    FilterIdentity(Split(once), Survives);
    JoinSplitSingleSpaced(once);
  }

  /** Normalizing twice is normalizing once. */
  lemma NormalizeIdempotent(text: string)
    ensures NormalizeText(NormalizeText(text)) == NormalizeText(text)
  {
    var once := NormalizeText(text);
    ToLowerIdentity(once);
    JoinSplitSingleSpaced(once);
  }

  /** The strings normalization leaves unchanged are exactly the
      single-spaced ones without upper-case letters. */
  lemma NormalizeFixedPoints(s: string)
    ensures NormalizeText(s) == s <==> SingleSpaced(s) && NoUpper(s)
  {
    if SingleSpaced(s) && NoUpper(s) {
      ToLowerIdentity(s);
      JoinSplitSingleSpaced(s);
    }
  }

  /** Deleting special characters twice deletes nothing more. */
  lemma RemoveSpecialCharactersIdempotent(text: string)
    ensures RemoveSpecialCharacters(RemoveSpecialCharacters(text)) == RemoveSpecialCharacters(text)
  {
    FilterIdentity(RemoveSpecialCharacters(text), Retained);
  }

  /** Any deletion-only edit of `text` that keeps exactly the retained
      characters is the one the function makes. */
  lemma RemoveSpecialCharactersUnique(text: string, r: string)
    requires IsSubsequence(r, text)
    requires forall i :: 0 <= i < |r| ==> Retained(r[i])
    requires |r| == Count(text, Retained)
    ensures r == RemoveSpecialCharacters(text)
  {
    FilterUnique(r, text, Retained);
  }

  // ---------------------------------------------------------------------
  // The examples of test/test_data_processing.py

  lemma NormalizeExample()
    ensures NormalizeText("   This    is   A Test.   ") == "this is a test."
  {
    NormalizeExampleLowered();
    NormalizeExampleTokens();
    NormalizeExampleJoined();
  }

  lemma NormalizeExampleLowered()
    ensures ToLower("   This    is   A Test.   ") == "   this    is   a test.   "
  {
  }

  lemma NormalizeExampleTokens()
    ensures Split("   this    is   a test.   ") == ["this", "is", "a", "test."]
  {
    NormalizeExampleWoven();
    SplitWeave(["   ", "    ", "   ", " ", "   "], ["this", "is", "a", "test."]);
  }

  lemma NormalizeExampleWoven()
    ensures Weave(["   ", "    ", "   ", " ", "   "], ["this", "is", "a", "test."]) == "   this    is   a test.   "
  {
    NormalizeExampleWovenTail();
    var gaps := ["   ", "    ", "   ", " ", "   "];
    var words := ["this", "is", "a", "test."];
    assert gaps[1..][1..] == ["   ", " ", "   "] && words[1..][1..] == ["a", "test."];
    assert Weave(gaps[1..], words[1..]) == "    is" + "   a test.   ";
  }

  lemma NormalizeExampleWovenTail()
    ensures Weave(["   ", " ", "   "], ["a", "test."]) == "   a test.   "
  {
    assert Weave(["   "], []) == "   ";
    assert Weave([" ", "   "], ["test."]) == " test.   ";
  }

  lemma NormalizeExampleJoined()
    ensures Join(" ", ["this", "is", "a", "test."]) == "this is a test."
  {
  }

  lemma TokenizeExample()
    ensures Tokenize("Hello world") == ["Hello", "world"]
  {
    var words := ["Hello", "world"];
    assert Join(" ", words) == "Hello world";
    SplitJoin(words);
  }

  // ---------------------------------------------------------------------
  // The stopword test of test/test_data_processing.py

  const StopwordSentence: string := "This is a sample sentence with stopwords."

  const StopwordSentenceWords: seq<string> := ["This", "is", "a", "sample", "sentence", "with", "stopwords."]

  const StopwordSentenceKeptWords: seq<string> := ["This", "sample", "sentence", "stopwords."]

  lemma StopwordSentenceJoin()
    ensures Join(" ", StopwordSentenceWords) == StopwordSentence
  {
  }

  lemma StopwordSentenceWordsAreWords()
    ensures forall i :: 0 <= i < |StopwordSentenceWords| ==> IsWord(StopwordSentenceWords[i])
  {
    assert IsWord("This") && IsWord("is") && IsWord("a") && IsWord("sample");
    assert IsWord("sentence") && IsWord("with") && IsWord("stopwords.");
  }

  lemma StopwordSentenceTokens()
    ensures Split(StopwordSentence) == StopwordSentenceWords
  {
    StopwordSentenceWordsAreWords();
    StopwordSentenceJoin();
    SplitJoin(StopwordSentenceWords);
  }

  lemma StopwordSentenceFiltered()
    ensures Filter(StopwordSentenceWords, Survives) == StopwordSentenceKeptWords
  {
    var ws := StopwordSentenceWords;
    assert ToLower("This") == "this";
    assert ToLower("stopwords.") == "stopwords.";
    assert ToLower("sentence") == "sentence";
    assert ToLower("sample") == "sample";
    assert ToLower("with") == "with";
    assert ToLower("is") == "is";
    assert ToLower("a") == "a";
    assert Filter(ws[6..], Survives) == ["stopwords."];
    assert Filter(ws[5..], Survives) == ["stopwords."];
    assert Filter(ws[4..], Survives) == ["sentence", "stopwords."];
    assert Filter(ws[3..], Survives) == ["sample", "sentence", "stopwords."];
    assert Filter(ws[2..], Survives) == ["sample", "sentence", "stopwords."];
    assert Filter(ws[1..], Survives) == ["sample", "sentence", "stopwords."];
  }

  lemma StopwordSentenceJoined()
    ensures Join(" ", StopwordSentenceKeptWords) == "This sample sentence stopwords."
  {
  }

  lemma StopwordSentenceRemoved()
    ensures RemoveStopwords(StopwordSentence) == "This sample sentence stopwords."
  {
    StopwordSentenceTokens();
    StopwordSentenceFiltered();
    StopwordSentenceJoined();
  }

  lemma StopwordOutputSubstrings()
    ensures Contains(ToLower("This sample sentence stopwords."), "is")
    ensures Contains(ToLower("This sample sentence stopwords."), "a")
  {
    var output := "This sample sentence stopwords.";
    var lowered := ToLower(output);
    assert lowered[2] == 'i' && lowered[3] == 's' && lowered[6] == 'a';
    assert lowered[2..4] == "is";
    assert OccursAt(lowered, "is", 2);
    assert lowered[6..7] == "a";
    assert OccursAt(lowered, "a", 6);
  }

  /** As written, the test looks for the stopwords as substrings of the
      lower-cased output, and finds "is" and "a" inside the kept words
      "This" and "sample". */
  lemma StopwordTestAsWritten()
    ensures Contains(ToLower(RemoveStopwords(StopwordSentence)), "is")
    ensures Contains(ToLower(RemoveStopwords(StopwordSentence)), "a")
  {
    StopwordSentenceRemoved();
    StopwordOutputSubstrings();
  }

  /** What the test means: no token of the output is one of the stopwords
      it names, in any letter case, whatever the input. */
  lemma StopwordTestIntended(text: string)
    ensures forall k :: 0 <= k < |Split(RemoveStopwords(text))| ==>
      ToLower(Split(RemoveStopwords(text))[k]) !in {"is", "a", "with"}
  {
  }
}
