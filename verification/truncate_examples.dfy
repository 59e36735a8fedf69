/** Worked cases of `truncate`, derived from the general lemmas. */
module TruncationExamples {
  import opened Wrappers
  import opened Patterns
  import opened Truncation
  import opened TruncationProofs

  const Sentences: string := "Hello world. This is a test."

  /** The sample text starts with a letter, so trimming keeps it whole. */
  lemma {:induction false} SentencesNormalized()
    ensures Normalized(Sentences, false) == Sentences
  {
    assert Sentences[0] == 'H';
  }

  lemma {:induction false} SingleText(data: string)
    ensures TextContent([Text(data)]) == data
  {
    assert Events([Text(data)]) == [Chars(data)] + Events([]);
    assert TextOf([Chars(data)]) == data + TextOf([]);
  }

  /** The first sentence boundary at or after index 5 is the full stop at index 11. */
  lemma {:induction false} FirstSentenceEnd()
    ensures BoundaryAt(Sentences, 11, true)
    ensures forall j :: 5 <= j < 11 ==> !BoundaryAt(Sentences, j, true)
    ensures Sentences[..12] == "Hello world."
  {
    assert Sentences[11] == '.' && Sentences[12] == ' ';
    assert Sentences[5] == ' ' && Sentences[6] == 'w' && Sentences[7] == 'o';
    assert Sentences[8] == 'r' && Sentences[9] == 'l' && Sentences[10] == 'd';
  }

  /** Sentence-safe and not word-safe: the cut keeps the full stop of the first sentence. */
  lemma {:induction false} SentenceSafeKeepsPunctuation()
    ensures TruncateSpec([Text(Sentences)], 5, Settings(false, true, false)).text == "Hello world."
  {
    var settings := Settings(false, true, false);
    SingleText(Sentences);
    SentencesNormalized();
    FirstSentenceEnd();
    TruncateAtBoundary([Text(Sentences)], 5, settings);
    CutAtBoundaryMeaning(Sentences, 5, settings);
  }

  /** Word-safe: the cut falls on the first whitespace at or after `minLength`, which is dropped. */
  lemma {:induction false} WordSafeDropsDelimiter()
    ensures TruncateSpec([Text(Sentences)], 5, Settings(true, false, false)).text == "Hello"
  {
    var settings := Settings(true, false, false);
    SingleText(Sentences);
    SentencesNormalized();
    TruncateAtBoundary([Text(Sentences)], 5, settings);
    CutAtBoundaryMeaning(Sentences, 5, settings);
    FirstSpace();
  }

  /** The first whitespace of the sample text is at index 5, right after `"Hello"`. */
  lemma {:induction false} FirstSpace()
    ensures BoundaryAt(Sentences, 5, false) && Sentences[..5] == "Hello"
  {
    assert Sentences[5] == ' ';
  }

  const WordOnly := Settings(true, false, false)

  /** The first chunk is long enough but has no whitespace after index 1. */
  lemma {:induction false} FirstChunk(n: Option<Node>)
    ensures AppendChars(WalkState([], true, n), "ab", 1, WordOnly) == WalkState("ab", true, n)
  {
    assert TrimStart("ab") == "ab" by { assert "ab"[0] == 'a'; }
    assert FirstBoundary("b", false).None?;
  }

  /** Still no whitespace after index 1. */
  lemma {:induction false} SecondChunk(n: Option<Node>)
    ensures AppendChars(WalkState("ab", true, n), "c", 1, WordOnly) == WalkState("abc", true, n)
  {
    assert "ab" + "c" == "abc";
    assert FirstBoundary("bc", false).None?;
  }

  /** The space of the third chunk is the first boundary; the cut drops it. */
  lemma {:induction false} ThirdChunk(n: Option<Node>)
    ensures AppendChars(WalkState("abc", true, n), " d", 1, WordOnly) == WalkState("abc", false, n)
  {
    assert "abc" + " d" == "abc d";
    assert FirstBoundary("bc d", false) == Some(2);
    assert "abc d"[..3] == "abc";
  }

  /** The reported node is the last structural node entered before the walk stopped:
      here `<b>`, although the cut falls in the text node that follows it. */
  lemma {:induction false} LastEnteredNode()
    ensures
      var b := Structural("b", [Text("c")]);
      var p := Structural("p", [Text("ab"), b, Text(" d")]);
      TruncateSpec([p], 1, WordOnly) == Truncated("abc", Some(b))
  {
    var b := Structural("b", [Text("c")]);
    var p := Structural("p", [Text("ab"), b, Text(" d")]);
    var evs := [Enter(p), Chars("ab"), Enter(b), Chars("c"), Chars(" d")];
    var kids := [Text("ab"), b, Text(" d")];
    assert Events(kids[2..]) == [Chars(" d")];
    assert Events(kids[1..]) == NodeEvents(b) + Events(kids[2..]);
    assert NodeEvents(b) == [Enter(b), Chars("c")];
    assert Events(kids) == [Chars("ab")] + Events(kids[1..]);
    assert Events([p]) == NodeEvents(p) + Events([]);
    assert Events([p]) == evs;
    FirstChunk(Some(p));
    SecondChunk(Some(b));
    ThirdChunk(Some(b));
    var s2 := WalkState("ab", true, Some(p));
    assert Run(evs, Start, 1, WordOnly) == Run(evs[2..], s2, 1, WordOnly);
    var s4 := WalkState("abc", true, Some(b));
    assert Run(evs[2..], s2, 1, WordOnly) == Run(evs[4..], s4, 1, WordOnly);
  }
}
