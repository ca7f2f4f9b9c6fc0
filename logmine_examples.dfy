/** The distance and the clustering worked through in
    tests/src/logmine_tests.cpp, derived from the model. */
module LogmineExamples {
  import opened Tokens
  import opened Logmine

  /** The test's line "2020-09-06T16:00:00 Disconnected from broker <b>". */
  function DisconnectedText(b: string): string
  {
    "2020-09-06T16:00:00 Disconnected from broker " + b
  }

  /** The test's line "2020-09-06T16:00:00 Connected as user: <u> database: users1". */
  function ConnectedText(u: string): string
  {
    "2020-09-06T16:00:00 Connected as user: " + u + " database: users1"
  }

  /** The tokens of "2020-09-06T16:00:00 Disconnected from broker <b>". */
  function Disconnected(b: string): seq<Token>
  {
    [DATE_TIME, Token("Disconnected", Text), Token("from", Text), Token("broker", Text), Token(b, Text)]
  }

  /** The tokens of "2020-09-06T16:00:00 Connected as user: <u> database: users1". */
  function Connected(u: string): seq<Token>
  {
    [DATE_TIME, Token("Connected", Text), Token("as", Text), Token("user:", Text),
     Token(u, Text), Token("database:", Text), Token("users1", Text)]
  }

  /** Two "Disconnected" lines agree on their first four positions and
      differ on the fifth exactly when the broker names differ. */
  lemma DisconnectedMatches(b1: string, b2: string)
    ensures Matches(Disconnected(b1), Disconnected(b2)) == if b1 == b2 then 5 else 4
  {
    var a, b := Disconnected(b1), Disconnected(b2);
    assert MatchesUpTo(a, b, 1) == 1;
    assert MatchesUpTo(a, b, 2) == 2;
    assert MatchesUpTo(a, b, 3) == 3;
    assert MatchesUpTo(a, b, 4) == 4;
  }

  /** Two "Connected" lines agree on all positions but the user name. */
  lemma ConnectedMatches(u1: string, u2: string)
    ensures Matches(Connected(u1), Connected(u2)) == if u1 == u2 then 7 else 6
  {
    var a, b := Connected(u1), Connected(u2);
    assert MatchesUpTo(a, b, 1) == 1;
    assert MatchesUpTo(a, b, 2) == 2;
    assert MatchesUpTo(a, b, 3) == 3;
    assert MatchesUpTo(a, b, 4) == 4;
    assert MatchesUpTo(a, b, 5) == if u1 == u2 then 5 else 4;
    assert MatchesUpTo(a, b, 6) == if u1 == u2 then 6 else 5;
  }

  /** A "Disconnected" line and a "Connected" line share the timestamp and
      at most the broker/user position, two of the seven positions of the
      longer, so neither is close to the other. */
  lemma Apart(b: string, u: string)
    ensures Matches(Disconnected(b), Connected(u)) <= 2
    ensures !Close(Disconnected(b), Connected(u))
    ensures !Close(Connected(u), Disconnected(b))
  {
    var d, c := Disconnected(b), Connected(u);
    assert MatchesUpTo(d, c, 1) == 1 && MatchesUpTo(c, d, 1) == 1;
    assert MatchesUpTo(d, c, 2) == 1 && MatchesUpTo(c, d, 2) == 1;
    assert MatchesUpTo(d, c, 3) == 1 && MatchesUpTo(c, d, 3) == 1;
    assert MatchesUpTo(d, c, 4) == 1 && MatchesUpTo(c, d, 4) == 1;
  }

  /** Two "Disconnected" lines that differ in the broker name are at
      distance 0.2, and either is close to the other. */
  lemma DisconnectedDistance(b1: string, b2: string)
    requires b1 != b2
    ensures DistanceOf(Disconnected(b1), Disconnected(b2)) == 0.2
    ensures Close(Disconnected(b1), Disconnected(b2))
  {
    DisconnectedMatches(b1, b2);
  }

  /** Any two "Disconnected" lines are close, and so are any two
      "Connected" lines. */
  lemma SameKindClose(b1: string, b2: string, u1: string, u2: string)
    ensures Close(Disconnected(b1), Disconnected(b2))
    ensures Close(Connected(u1), Connected(u2))
  {
    DisconnectedMatches(b1, b2);
    ConnectedMatches(u1, u2);
  }

  /** Routing a line that joins a cluster, seen from the lines routed
      before it. */
  lemma RoutedJoins(logs: seq<seq<Token>>, log: seq<Token>, reps: seq<seq<Token>>, sizes: seq<int>, i: nat)
    requires Routed(logs) == Clusters(reps, sizes) && i < |reps|
    requires Close(reps[i], log)
    requires forall k :: i < k < |reps| ==> !Close(reps[k], log)
    ensures Routed(logs + [log]) == Clusters(reps, sizes[i := sizes[i] + 1])
  {
    var s := Routed(logs);
    assert s.reps == reps && s.sizes == sizes;
    AddedGrows(s, log, i);
    var t := Added(s, log);
    assert t == Clusters(reps, sizes[i := sizes[i] + 1]);
    RoutedSnoc(logs, log);
  }

  /** The first two lines are apart, so each opens a cluster. */
  lemma InterleavedTwo(b1: string, u1: string)
    ensures Routed([Disconnected(b1), Connected(u1)]) == Clusters([Disconnected(b1), Connected(u1)], [1, 1])
  {
    var d1, c1 := Disconnected(b1), Connected(u1);
    var empty: seq<seq<Token>> := [];
    RoutedSnoc(empty, d1);
    assert empty + [d1] == [d1];
    AddedOpens(Clusters([], []), d1);
    assert Routed([d1]) == Clusters([d1], [1]);
    RoutedSnoc([d1], c1);
    Apart(b1, u1);
    AddedOpens(Clusters([d1], [1]), c1);
  }

  /** The first four lines: each kind opens a cluster, then each joins its
      own. */
  lemma InterleavedFour(b1: string, u1: string, b2: string, u2: string)
    ensures Routed([Disconnected(b1), Connected(u1), Disconnected(b2), Connected(u2)])
      == Clusters([Disconnected(b1), Connected(u1)], [2, 2])
  {
    var d1, c1, d2, c2 := Disconnected(b1), Connected(u1), Disconnected(b2), Connected(u2);
    var reps := [d1, c1];
    InterleavedTwo(b1, u1);

    SameKindClose(b1, b2, u1, u1);
    Apart(b2, u1);
    RoutedJoins(reps, d2, reps, [1, 1], 0);
    assert [1, 1][0 := 2] == [2, 1];

    SameKindClose(b1, b1, u1, u2);
    RoutedJoins(reps + [d2], c2, reps, [2, 1], 1);
    assert [2, 1][1 := 2] == [2, 2];
    assert reps + [d2] + [c2] == [d1, c1, d2, c2];
  }

  /** The next two lines join their own kind's cluster. */
  lemma InterleavedSix(b1: string, u1: string, b2: string, u2: string, b3: string, u3: string)
    ensures Routed([Disconnected(b1), Connected(u1), Disconnected(b2), Connected(u2),
                    Disconnected(b3), Connected(u3)])
      == Clusters([Disconnected(b1), Connected(u1)], [3, 3])
  {
    var d1, c1, d2, c2 := Disconnected(b1), Connected(u1), Disconnected(b2), Connected(u2);
    var d3, c3 := Disconnected(b3), Connected(u3);
    var reps := [d1, c1];
    var four := [d1, c1, d2, c2];
    InterleavedFour(b1, u1, b2, u2);

    SameKindClose(b1, b3, u1, u1);
    Apart(b3, u1);
    RoutedJoins(four, d3, reps, [2, 2], 0);
    assert [2, 2][0 := 3] == [3, 2];

    SameKindClose(b1, b1, u1, u3);
    RoutedJoins(four + [d3], c3, reps, [3, 2], 1);
    assert [3, 2][1 := 3] == [3, 3];
    assert four + [d3] + [c3] == [d1, c1, d2, c2, d3, c3];
  }

  /** Four "Disconnected" lines interleaved with three "Connected" lines
      make two clusters: the first line of each kind represents it, the
      first holds four lines and the second three. */
  lemma Interleaved(b1: string, u1: string, b2: string, u2: string, b3: string, u3: string, b4: string)
    ensures Routed([Disconnected(b1), Connected(u1), Disconnected(b2), Connected(u2),
                    Disconnected(b3), Connected(u3), Disconnected(b4)])
      == Clusters([Disconnected(b1), Connected(u1)], [4, 3])
  {
    var reps := [Disconnected(b1), Connected(u1)];
    var six := [Disconnected(b1), Connected(u1), Disconnected(b2), Connected(u2), Disconnected(b3), Connected(u3)];
    InterleavedSix(b1, u1, b2, u2, b3, u3);
    SameKindClose(b1, b4, u1, u1);
    Apart(b4, u1);
    RoutedJoins(six, Disconnected(b4), reps, [3, 3], 0);
    assert [3, 3][0 := 4] == [4, 3];
    assert six + [Disconnected(b4)] == [Disconnected(b1), Connected(u1), Disconnected(b2), Connected(u2),
                                        Disconnected(b3), Connected(u3), Disconnected(b4)];
  }

  /** A line that is its words joined by single spaces tokenizes to the
      classification of each word. */
  lemma SpacedTokens(line: string, ws: seq<string>, ts: seq<Token>)
    requires forall k :: 0 <= k < |ws| ==> IsWord(ws[k])
    requires JoinWith(ws, " ") == line
    requires |ts| == |ws| && forall k :: 0 <= k < |ws| ==> Classify(ws[k]) == ts[k]
    ensures Tokenized(line) == ts
  {
    WordsJoinWith(ws);
  }

  /** The words of the test's lines hold no space. */
  lemma LogTestWords()
    ensures IsWord("2020-09-06T16:00:00") && IsWord("Disconnected") && IsWord("from")
    ensures IsWord("broker") && IsWord("Connected") && IsWord("as")
    ensures IsWord("user:") && IsWord("database:") && IsWord("users1")
  {
  }

  /** The timestamp of the test's lines is a datetime. */
  lemma Timestamp()
    ensures Classify("2020-09-06T16:00:00") == DATE_TIME
  {
    var w := "2020-09-06T16:00:00";
    assert |w| == 19;
    assert w[0] == '2' && w[1] == '0' && w[2] == '2' && w[3] == '0' && w[4] == '-';
    assert w[5] == '0' && w[6] == '9' && w[7] == '-' && w[8] == '0' && w[9] == '6';
    assert w[10] == 'T' && w[11] == '1' && w[12] == '6' && w[13] == ':' && w[14] == '0';
    assert w[15] == '0' && w[16] == ':' && w[17] == '0' && w[18] == '0';
    assert IsDateTime(w);
  }

  lemma DisconnectedJoin(b: string)
    ensures JoinWith(["2020-09-06T16:00:00", "Disconnected", "from", "broker", b], " ")
      == "2020-09-06T16:00:00 Disconnected from broker " + b
  {
    var ws := ["2020-09-06T16:00:00", "Disconnected", "from", "broker", b];
    JoinWithSnoc(["2020-09-06T16:00:00"], "Disconnected", " ");
    assert ["2020-09-06T16:00:00"] + ["Disconnected"] == ws[..2];
    JoinWithSnoc(ws[..2], "from", " ");
    assert ws[..2] + ["from"] == ws[..3];
    JoinWithSnoc(ws[..3], "broker", " ");
    assert ws[..3] + ["broker"] == ws[..4];
    JoinWithSnoc(ws[..4], b, " ");
    assert ws[..4] + [b] == ws;
  }

  /** "2020-09-06T16:00:00 Disconnected from broker <b>", for a plain word
      b, tokenizes to `Disconnected(b)`. */
  lemma DisconnectedLine(b: string)
    requires IsWord(b) && |b| < 10
    ensures Tokenized(DisconnectedText(b)) == Disconnected(b)
  {
    var l := DisconnectedText(b);
    var ws := ["2020-09-06T16:00:00", "Disconnected", "from", "broker", b];
    var ts := Disconnected(b);
    DisconnectedJoin(b);
    LogTestWords();
    Timestamp();
    assert "Disconnected"[2] == 's';
    forall k | 0 <= k < |ws|
      ensures IsWord(ws[k]) && Classify(ws[k]) == ts[k]
    {
      assert k == 0 || k == 1 || k == 2 || k == 3 || k == 4;
    }
    SpacedTokens(l, ws, ts);
  }

  lemma ConnectedJoinHead(u: string)
    ensures JoinWith(["2020-09-06T16:00:00", "Connected", "as", "user:", u], " ")
      == "2020-09-06T16:00:00 Connected as user: " + u
  {
    var ws := ["2020-09-06T16:00:00", "Connected", "as", "user:", u];
    JoinWithSnoc(["2020-09-06T16:00:00"], "Connected", " ");
    assert ["2020-09-06T16:00:00"] + ["Connected"] == ws[..2];
    JoinWithSnoc(ws[..2], "as", " ");
    assert ws[..2] + ["as"] == ws[..3];
    JoinWithSnoc(ws[..3], "user:", " ");
    assert ws[..3] + ["user:"] == ws[..4];
    JoinWithSnoc(ws[..4], u, " ");
    assert ws[..4] + [u] == ws;
  }

  lemma ConnectedJoin(u: string)
    ensures JoinWith(["2020-09-06T16:00:00", "Connected", "as", "user:", u, "database:", "users1"], " ")
      == "2020-09-06T16:00:00 Connected as user: " + u + " database: users1"
  {
    var head := ["2020-09-06T16:00:00", "Connected", "as", "user:", u];
    ConnectedJoinHead(u);
    JoinWithSnoc(head, "database:", " ");
    JoinWithSnoc(head + ["database:"], "users1", " ");
    assert head + ["database:"] + ["users1"] == ["2020-09-06T16:00:00", "Connected", "as", "user:", u, "database:", "users1"];
  }

  /** "2020-09-06T16:00:00 Connected as user: <u> database: users1", for a
      plain word u, tokenizes to `Connected(u)`. */
  lemma ConnectedLine(u: string)
    requires IsWord(u) && |u| < 10
    ensures Tokenized(ConnectedText(u)) == Connected(u)
  {
    var l := ConnectedText(u);
    var ws := ["2020-09-06T16:00:00", "Connected", "as", "user:", u, "database:", "users1"];
    var ts := Connected(u);
    ConnectedJoin(u);
    LogTestWords();
    Timestamp();
    forall k | 0 <= k < |ws|
      ensures IsWord(ws[k]) && Classify(ws[k]) == ts[k]
    {
      assert k == 0 || k == 1 || k == 2 || k == 3 || k == 4 || k == 5 || k == 6;
    }
    SpacedTokens(l, ws, ts);
  }

  /** The distance between the test's first and third lines is 0.2. */
  lemma DistanceTest()
    ensures DistanceOf(Tokenized(DisconnectedText("broker1")), Tokenized(DisconnectedText("broker2"))) == 0.2
  {
    TestNames();
    DisconnectedLine("broker1");
    DisconnectedLine("broker2");
    DisconnectedDistance("broker1", "broker2");
  }

  /** The broker and user names of the test's lines are plain words. */
  lemma TestNames()
    ensures IsWord("broker1") && IsWord("broker2") && IsWord("broker3") && IsWord("broker4")
    ensures IsWord("cching,") && IsWord("blah,") && IsWord("blahblah,")
  {
  }

  /** The seven lines of the clustering test, added in order to a new
      `Logmine`, make two clusters: the first "Disconnected" line holding
      four lines and the first "Connected" line holding three. The
      representatives are the lines as tokenized, timestamp included; no
      "WORD" appears in them, since adding a line never changes a
      representative. */
  lemma ClusteringTest()
    ensures Routed([
      Tokenized(DisconnectedText("broker1")), Tokenized(ConnectedText("cching,")),
      Tokenized(DisconnectedText("broker2")), Tokenized(ConnectedText("blah,")),
      Tokenized(DisconnectedText("broker3")), Tokenized(ConnectedText("blahblah,")),
      Tokenized(DisconnectedText("broker4"))])
      == Clusters([Tokenized(DisconnectedText("broker1")), Tokenized(ConnectedText("cching,"))], [4, 3])
  {
    TestNames();
    DisconnectedLine("broker1");
    ConnectedLine("cching,");
    DisconnectedLine("broker2");
    ConnectedLine("blah,");
    DisconnectedLine("broker3");
    ConnectedLine("blahblah,");
    DisconnectedLine("broker4");
    Interleaved("broker1", "cching,", "broker2", "blah,", "broker3", "blahblah,", "broker4");
  }

  /** The tokens of "<timestamp> Connected as user: WORD database: users1". */
  function ConnectedPattern(): seq<Token>
  {
    [DATE_TIME, Token("Connected", Text), Token("as", Text), Token("user:", Text),
     WORD, Token("database:", Text), Token("users1", Text)]
  }

  /** Two "Connected" lines that differ in the user name merge to the
      pattern: equal tokens merge to themselves, the two names to WORD. */
  lemma ConnectedMergedTokens(u1: string, u2: string)
    requires u1 != u2
    ensures Merged(Connected(u1), Connected(u2)) == ConnectedPattern()
  {
    var l, r, p := Connected(u1), Connected(u2), ConnectedPattern();
    var m := Merged(l, r);
    MergeTextPair("Connected", "Connected");
    MergeTextPair("as", "as");
    MergeTextPair("user:", "user:");
    MergeTextPair(u1, u2);
    MergeTextPair("database:", "database:");
    MergeTextPair("users1", "users1");
    assert m == [MergeToken(DATE_TIME, DATE_TIME)] + m[1..];
    assert m[1..] == p[1..];
  }

  /** Merging two "Connected" lines that differ in the user name keeps the
      canonical "DateTime" payload, not the timestamp, and puts "WORD" in
      place of the name. */
  lemma ConnectedMerged(u1: string, u2: string)
    requires u1 != u2
    ensures Payloads(Merged(Connected(u1), Connected(u2)))
      == ["DateTime", "Connected", "as", "user:", "WORD", "database:", "users1"]
  {
    ConnectedMergedTokens(u1, u2);
    var p := Payloads(ConnectedPattern());
    assert p[0] == "DateTime" && p[4] == "WORD";
  }

  /** The merge test's two lines, tokenized and merged position by
      position: the payloads read "DateTime" where the lines have their
      timestamp, and "WORD" in place of the user name. */
  lemma MergeTest()
    ensures Payloads(Merged(Tokenized(ConnectedText("cching,")), Tokenized(ConnectedText("blah,"))))
      == ["DateTime", "Connected", "as", "user:", "WORD", "database:", "users1"]
  {
    TestNames();
    ConnectedLine("cching,");
    ConnectedLine("blah,");
    ConnectedMerged("cching,", "blah,");
  }
}
