/** The merge worked through in tests/src/tokens_tests.cpp, derived from
    the model. */
module TokensExamples {
  import opened Tokens

  /** The words of a line that is its words joined by single spaces. */
  lemma SpacedWords(line: string, ws: seq<string>)
    requires forall k :: 0 <= k < |ws| ==> IsWord(ws[k])
    requires JoinWith(ws, " ") == line
    ensures Words(line) == ws
  {
    WordsJoinWith(ws);
  }

  /** Plain words, none of them a date or a time, tokenize to Text. */
  lemma PlainTokens(line: string, ws: seq<string>)
    requires forall k :: 0 <= k < |ws| ==> IsWord(ws[k]) && |ws[k]| < 10
    requires JoinWith(ws, " ") == line
    ensures Tokenized(line) == seq(|ws|, k requires 0 <= k < |ws| => Token(ws[k], Text))
  {
    SpacedWords(line, ws);
  }

  lemma GoodLine()
    ensures JoinWith(["This", "is", "a", "good", "test"], " ") == "This is a good test"
  {
    JoinWithSnoc(["This"], "is", " ");
    assert ["This"] + ["is"] == ["This", "is"];
    JoinWithSnoc(["This", "is"], "a", " ");
    assert ["This", "is"] + ["a"] == ["This", "is", "a"];
    JoinWithSnoc(["This", "is", "a"], "good", " ");
    assert ["This", "is", "a"] + ["good"] == ["This", "is", "a", "good"];
    JoinWithSnoc(["This", "is", "a", "good"], "test", " ");
    assert ["This", "is", "a", "good"] + ["test"] == ["This", "is", "a", "good", "test"];
  }

  lemma BadLine()
    ensures JoinWith(["This", "is", "a", "bad", "test"], " ") == "This is a bad test"
  {
    JoinWithSnoc(["This"], "is", " ");
    assert ["This"] + ["is"] == ["This", "is"];
    JoinWithSnoc(["This", "is"], "a", " ");
    assert ["This", "is"] + ["a"] == ["This", "is", "a"];
    JoinWithSnoc(["This", "is", "a"], "bad", " ");
    assert ["This", "is", "a"] + ["bad"] == ["This", "is", "a", "bad"];
    JoinWithSnoc(["This", "is", "a", "bad"], "test", " ");
    assert ["This", "is", "a", "bad"] + ["test"] == ["This", "is", "a", "bad", "test"];
  }

  lemma WordLine()
    ensures JoinWith(["This", "is", "a", "WORD", "test"], " ") == "This is a WORD test"
  {
    JoinWithSnoc(["This"], "is", " ");
    assert ["This"] + ["is"] == ["This", "is"];
    JoinWithSnoc(["This", "is"], "a", " ");
    assert ["This", "is"] + ["a"] == ["This", "is", "a"];
    JoinWithSnoc(["This", "is", "a"], "WORD", " ");
    assert ["This", "is", "a"] + ["WORD"] == ["This", "is", "a", "WORD"];
    JoinWithSnoc(["This", "is", "a", "WORD"], "test", " ");
    assert ["This", "is", "a", "WORD"] + ["test"] == ["This", "is", "a", "WORD", "test"];
  }

  /** The words of the test's lines are words, none as long as a date. */
  lemma PlainTestWords(w: string)
    requires w in ["This", "is", "a", "good", "bad", "test", "WORD"]
    ensures IsWord(w) && |w| < 10
  {
  }

  /** The left line of the test tokenizes to its words, all Text. */
  lemma GoodTokens(l: string)
    requires l == "This is a good test"
    ensures Tokenized(l) == [Token("This", Text), Token("is", Text), Token("a", Text), Token("good", Text), Token("test", Text)]
  {
    var ws := ["This", "is", "a", "good", "test"];
    forall k | 0 <= k < |ws|
      ensures IsWord(ws[k]) && |ws[k]| < 10
    {
      PlainTestWords(ws[k]);
    }
    GoodLine();
    PlainTokens(l, ws);
  }

  /** The right line of the test tokenizes to its words, all Text. */
  lemma BadTokens(r: string)
    requires r == "This is a bad test"
    ensures Tokenized(r) == [Token("This", Text), Token("is", Text), Token("a", Text), Token("bad", Text), Token("test", Text)]
  {
    var ws := ["This", "is", "a", "bad", "test"];
    forall k | 0 <= k < |ws|
      ensures IsWord(ws[k]) && |ws[k]| < 10
    {
      PlainTestWords(ws[k]);
    }
    BadLine();
    PlainTokens(r, ws);
  }

  /** Position by position, only "good" against "bad" differs, and it
      merges to Word. */
  lemma GoodBadMerged(lt: seq<Token>, rt: seq<Token>)
    requires lt == [Token("This", Text), Token("is", Text), Token("a", Text), Token("good", Text), Token("test", Text)]
    requires rt == [Token("This", Text), Token("is", Text), Token("a", Text), Token("bad", Text), Token("test", Text)]
    ensures Payloads(Merged(lt, rt)) == ["This", "is", "a", "WORD", "test"]
  {
    var m := Merged(lt, rt);
    assert |m| == 5;
    assert m[0] == MergeToken(lt[0], rt[0]) == Token("This", Text);
    assert m[1] == MergeToken(lt[1], rt[1]) == Token("is", Text);
    assert m[2] == MergeToken(lt[2], rt[2]) == Token("a", Text);
    assert m[3] == MergeToken(lt[3], rt[3]) == WORD;
    assert m[4] == MergeToken(lt[4], rt[4]) == Token("test", Text);
  }

  /** "This is a good test" merged with "This is a bad test" renders as
      "This is a WORD test". */
  lemma GoodBadTest(l: string, r: string)
    requires l == "This is a good test" && r == "This is a bad test"
    ensures JoinWith(Payloads(Merged(Tokenized(l), Tokenized(r))), " ") == "This is a WORD test"
  {
    GoodTokens(l);
    BadTokens(r);
    GoodBadMerged(Tokenized(l), Tokenized(r));
    WordLine();
  }

  lemma PrefixLine()
    ensures JoinWith(["This", "is", "a"], " ") == "This is a"
  {
    JoinWithSnoc(["This"], "is", " ");
    assert ["This"] + ["is"] == ["This", "is"];
    JoinWithSnoc(["This", "is"], "a", " ");
    assert ["This", "is"] + ["a"] == ["This", "is", "a"];
  }

  /** The rows the third token test of tests/src/align_tests.cpp merges:
      the common prefix of "This is a good test" and "This is a really bad
      test", the same shape as `AlignmentExamples.CommonPrefix`. Merged and
      untokenized with " ", they read "This is a". */
  lemma PrefixMerged(lt: seq<Token>, rt: seq<Token>)
    requires lt == [Token("This", Text), Token("is", Text), Token("a", Text)] && rt == lt
    ensures JoinWith(Payloads(Merged(lt, rt)), " ") == "This is a"
  {
    var m := Merged(lt, rt);
    assert m[0] == MergeToken(lt[0], lt[0]) == lt[0];
    assert m[1] == MergeToken(lt[1], lt[1]) == lt[1];
    assert m[2] == MergeToken(lt[2], lt[2]) == lt[2];
    assert Payloads(m) == ["This", "is", "a"];
    PrefixLine();
  }
}
