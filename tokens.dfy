/** Tokens, the whitespace tokenizer, `join`/`untokenize` and the pointwise
    `merge` of two aligned token sequences (include/tokens.h). */
module Tokens {

  /** The kinds of token (include/tokens.h:10). */
  datatype Kind = Text | Gap | Word | Date | Time | DateTime

  /** The printed name of a kind (`token_to_str`). The switch covers every
      kind, so its "Unknown" fallback is never returned. */
  function KindName(k: Kind): (s: string)
    ensures s != "Unknown"
  {
    match k
    case Text => "Text"
    case Gap => "Gap"
    case Word => "Word"
    case Date => "Date"
    case Time => "Time"
    case DateTime => "DateTime"
  }

  /** Different kinds print differently. */
  lemma KindNameInjective(a: Kind, b: Kind)
    ensures KindName(a) == KindName(b) <==> a == b
  {
  }

  /** A token: its string and its kind. */
  datatype Token = Token(str: string, kind: Kind)

  /** `Token::operator==`: both the string and the kind agree. */
  function Equal(a: Token, b: Token): (r: bool)
    ensures r <==> a == b
  {
    a.str == b.str && a.kind == b.kind
  }

  // The tokens the default constructors of `Word`, `DateToken`, `TimeToken`
  // and `DateTimeToken` build.
  const WORD: Token := Token("WORD", Word)
  const DATE: Token := Token("Date", Date)
  const TIME: Token := Token("Time", Time)
  const DATE_TIME: Token := Token("DateTime", DateTime)

  function Min(a: nat, b: nat): nat { if a <= b then a else b }

  // ---------------------------------------------------------------------
  // Recognizers. Each regular expression is matched against the whole
  // word and has a fixed length, so each is written position by position.
  // ---------------------------------------------------------------------

  predicate IsDigit(c: char) { '0' <= c <= '9' }

  /** `\d{4}-\d{2}-\d{2}` (include/tokens.h:75-80), matched against the
      whole word: ten characters, none of them whitespace. */
  predicate IsDate(s: string)
    ensures IsDate(s) ==> |s| == 10 && IsWord(s)
  {
    && |s| == 10
    && IsDigit(s[0]) && IsDigit(s[1]) && IsDigit(s[2]) && IsDigit(s[3])
    && s[4] == '-'
    && IsDigit(s[5]) && IsDigit(s[6])
    && s[7] == '-'
    && IsDigit(s[8]) && IsDigit(s[9])
  }

  /** `\d{2}:\d{2}:\d{2},\d{3}` (include/tokens.h:87-92), matched against
      the whole word: twelve characters, none of them whitespace. */
  predicate IsTime(s: string)
    ensures IsTime(s) ==> |s| == 12 && IsWord(s)
  {
    && |s| == 12
    && IsDigit(s[0]) && IsDigit(s[1])
    && s[2] == ':'
    && IsDigit(s[3]) && IsDigit(s[4])
    && s[5] == ':'
    && IsDigit(s[6]) && IsDigit(s[7])
    && s[8] == ','
    && IsDigit(s[9]) && IsDigit(s[10]) && IsDigit(s[11])
  }

  /** `20\d{2}-(0[1-9]|1[0-2])-[0-3]\dT([0-1][0-9]|2[0-3]):[0-5]\d:[0-5]\d`
      (include/tokens.h:100-105), matched against the whole word: nineteen
      characters, none of them whitespace. */
  predicate IsDateTime(s: string)
    ensures IsDateTime(s) ==> |s| == 19 && IsWord(s)
  {
    && |s| == 19
    && s[0] == '2' && s[1] == '0' && IsDigit(s[2]) && IsDigit(s[3])
    && s[4] == '-'
    && ((s[5] == '0' && '1' <= s[6] <= '9') || (s[5] == '1' && '0' <= s[6] <= '2'))
    && s[7] == '-'
    && '0' <= s[8] <= '3' && IsDigit(s[9])
    && s[10] == 'T'
    && (('0' <= s[11] <= '1' && IsDigit(s[12])) || (s[11] == '2' && '0' <= s[12] <= '3'))
    && s[13] == ':'
    && '0' <= s[14] <= '5' && IsDigit(s[15])
    && s[16] == ':'
    && '0' <= s[17] <= '5' && IsDigit(s[18])
  }

  /** The two digits of `s` at `at` and `at + 1` form a number in [lo, hi]. */
  predicate FieldIn(s: string, at: nat, lo: nat, hi: nat)
  {
    && at + 1 < |s|
    && IsDigit(s[at]) && IsDigit(s[at + 1])
    && lo <= 10 * (s[at] as int - '0' as int) + (s[at + 1] as int - '0' as int) <= hi
  }

  /** What the datetime pattern accepts, read as numbers: a year 2000-2099,
      a month 1-12, a day 0-39 (the pattern does not check the calendar),
      an hour 0-23 and minutes and seconds 0-59. */
  lemma DateTimeFields(s: string)
    ensures IsDateTime(s) <==>
      && |s| == 19 && s[..2] == "20" && FieldIn(s, 2, 0, 99)
      && s[4] == '-' && FieldIn(s, 5, 1, 12)
      && s[7] == '-' && FieldIn(s, 8, 0, 39)
      && s[10] == 'T' && FieldIn(s, 11, 0, 23)
      && s[13] == ':' && FieldIn(s, 14, 0, 59)
      && s[16] == ':' && FieldIn(s, 17, 0, 59)
  {
    if |s| == 19 && s[..2] == "20" {
      assert s[0] == s[..2][0] && s[1] == s[..2][1];
    }
    if IsDateTime(s) {
      assert s[..2] == "20";
    }
  }

  /** The three patterns have different lengths, so at most one accepts a
      word and the order `tokenize` tries them in never matters. */
  lemma RecognizersExclusive(s: string)
    ensures !(IsDate(s) && IsTime(s))
    ensures !(IsDate(s) && IsDateTime(s))
    ensures !(IsTime(s) && IsDateTime(s))
  {
  }

  // ---------------------------------------------------------------------
  // Words and the tokenizer
  // ---------------------------------------------------------------------

  /** The characters `isspace` accepts in the "C" locale: the space and
      the control characters tab through carriage return. */
  predicate IsSpace(c: char)
    ensures IsSpace(c) <==> c == ' ' || '\t' <= c <= '\r'
  {
    c == ' ' || c == '\t' || c == '\n' || c == '\U{B}' || c == '\U{C}' || c == '\r'
  }

  /** A word: a nonempty run of non-space characters. */
  predicate IsWord(w: string)
  {
    |w| > 0 && forall k :: 0 <= k < |w| ==> !IsSpace(w[k])
  }

  /** The length of the run of non-space characters `s` starts with. */
  function WordLength(s: string): (n: nat)
    ensures n <= |s|
    ensures forall k :: 0 <= k < n ==> !IsSpace(s[k])
    ensures n < |s| ==> IsSpace(s[n])
  {
    if s == [] || IsSpace(s[0]) then 0 else 1 + WordLength(s[1..])
  }

  /** The whitespace-separated words of `s`, in order: what repeated
      `istream >> std::string` extracts. */
  function Words(s: string): (ws: seq<string>)
    ensures forall k :: 0 <= k < |ws| ==> IsWord(ws[k])
    decreases |s|
  {
    if s == [] then []
    else if IsSpace(s[0]) then Words(s[1..])
    else [s[..WordLength(s)]] + Words(s[WordLength(s)..])
  }

  /** A string has no words exactly when it is all whitespace (the empty
      string included). */
  lemma {:induction false} WordsBlank(s: string)
    ensures Words(s) == [] <==> forall k :: 0 <= k < |s| ==> IsSpace(s[k])
    decreases |s|
  {
    if s != [] && IsSpace(s[0]) {
      WordsBlank(s[1..]);
      assert forall k :: 1 <= k < |s| ==> s[k] == s[1..][k - 1];
    }
  }

  /** Leading whitespace does not change the words. */
  lemma {:induction false} WordsSkipSpaces(s: string, n: nat)
    requires n <= |s|
    requires forall k :: 0 <= k < n ==> IsSpace(s[k])
    ensures Words(s) == Words(s[n..])
    decreases n
  {
    if n > 0 {
      WordsSkipSpaces(s[1..], n - 1);
      assert s[1..][n - 1..] == s[n..];
    }
  }

  /** A string that starts with the word `s[..n]` has that word first. */
  lemma WordsFirst(s: string, n: nat)
    requires 0 < n <= |s|
    requires forall k :: 0 <= k < n ==> !IsSpace(s[k])
    requires n < |s| ==> IsSpace(s[n])
    ensures Words(s) == [s[..n]] + Words(s[n..])
  {
    WordLengthIs(s, n);
  }

  /** The run length is the only `n` with its postcondition. */
  lemma {:induction false} WordLengthIs(s: string, n: nat)
    requires n <= |s|
    requires forall k :: 0 <= k < n ==> !IsSpace(s[k])
    requires n < |s| ==> IsSpace(s[n])
    ensures WordLength(s) == n
    decreases n
  {
    if n > 0 {
      WordLengthIs(s[1..], n - 1);
    }
  }

  /** `tokenize`'s classification of one word, the recognizers tried in the
      order date, time, datetime (include/tokens.h:114-122). */
  function Classify(w: string): (t: Token)
    ensures t.kind != Gap && t.kind != Word
    ensures t.kind == Date <==> IsDate(w)
    ensures t.kind == Time <==> IsTime(w)
    ensures t.kind == DateTime <==> IsDateTime(w)
    ensures t.kind == Text ==> t.str == w
    ensures t.kind != Text ==> t.str == KindName(t.kind)
  {
    if IsDate(w) then DATE
    else if IsTime(w) then TIME
    else if IsDateTime(w) then DATE_TIME
    else Token(w, Text)
  }

  /** The tokens of a line: one per word, in order; a Text token keeps its
      word, and any other token replaces it by the kind's name. */
  function Tokenized(line: string): (ts: seq<Token>)
    ensures |ts| == |Words(line)|
    ensures forall k :: 0 <= k < |ts| ==> ts[k].str == if ts[k].kind == Text then Words(line)[k] else KindName(ts[k].kind)
  {
    var ws := Words(line);
    seq(|ws|, k requires 0 <= k < |ws| => Classify(ws[k]))
  }

  /** What `tokenize` can produce: Text tokens that carry a word, and the
      canonical Date, Time and DateTime tokens. */
  predicate WellFormed(t: Token)
  {
    match t.kind
    case Text => IsWord(t.str)
    case Date => t == DATE
    case Time => t == TIME
    case DateTime => t == DATE_TIME
    case _ => false
  }

  /** Every token of the line is one `tokenize` can produce; in particular
      none is a Gap. */
  predicate WellFormedLine(log: seq<Token>)
  {
    forall n :: 0 <= n < |log| ==> WellFormed(log[n])
  }

  /** `tokenize` never yields a Gap or a Word token, and a line with no
      words yields no tokens. */
  lemma TokenizedWellFormed(line: string)
    ensures forall k :: 0 <= k < |Tokenized(line)| ==> WellFormed(Tokenized(line)[k])
    ensures Tokenized(line) == [] <==> forall k :: 0 <= k < |line| ==> IsSpace(line[k])
  {
    WordsBlank(line);
  }

  /** Skipping the whitespace run [from, start) and then reading the word
      [start, end) takes the first word of `line[from..]`. */
  lemma ExtractedWord(line: string, from: nat, start: nat, end: nat)
    requires from <= start <= end <= |line|
    requires forall k :: from <= k < start ==> IsSpace(line[k])
    requires start < |line| ==> !IsSpace(line[start])
    requires forall k :: start <= k < end ==> !IsSpace(line[k])
    requires end < |line| ==> IsSpace(line[end])
    ensures start == |line| ==> Words(line[from..]) == []
    ensures start < |line| ==> Words(line[from..]) == [line[start..end]] + Words(line[end..])
  {
    WordsSkipSpaces(line[from..], start - from);
    assert line[from..][start - from..] == line[start..];
    if start < |line| {
      WordsFirst(line[start..], end - start);
      assert line[start..][..end - start] == line[start..end];
      assert line[start..][end - start..] == line[end..];
    } else {
      assert line[start..] == [];
    }
  }

  /** One `istream >> std::string` from position `from`: skip whitespace,
      then read up to the next whitespace. `start == |line|` means the
      extraction failed (nothing but whitespace was left). */
  method ReadWord(line: string, from: nat) returns (start: nat, end: nat)
    requires from <= |line|
    ensures from <= start <= end <= |line|
    ensures start == |line| <==> start == end
    ensures start == |line| ==> Words(line[from..]) == []
    ensures start < |line| ==> Words(line[from..]) == [line[start..end]] + Words(line[end..])
  {
    start := from;
    while start < |line| && IsSpace(line[start])
      invariant from <= start <= |line|
      invariant forall k :: from <= k < start ==> IsSpace(line[k])
    {
      start := start + 1;
    }
    end := start;
    while end < |line| && !IsSpace(line[end])
      invariant start <= end <= |line|
      invariant forall k :: start <= k < end ==> !IsSpace(line[k])
    {
      end := end + 1;
    }
    ExtractedWord(line, from, start, end);
  }

  /** A line whose first word is `w` tokenizes to the classification of
      `w` followed by the tokens of the rest. */
  lemma TokenizedCons(s: string, w: string, rest: string)
    requires Words(s) == [w] + Words(rest)
    ensures Tokenized(s) == [Classify(w)] + Tokenized(rest)
  {
  }

  /** `tokenize` (include/tokens.h:107-126): one token per word, in order. */
  method Tokenize(line: string) returns (tokens: seq<Token>)
    ensures tokens == Tokenized(line)
  {
    tokens := [];
    var i := 0;
    assert line[0..] == line;
    while true
      invariant i <= |line|
      invariant tokens + Tokenized(line[i..]) == Tokenized(line)
      decreases |line| - i
    {
      var start, end := ReadWord(line, i);
      if start == |line| {
        assert Tokenized(line[i..]) == [];
        break;
      }
      var word := line[start..end];
      var t: Token;
      if IsDate(word) {
        t := DATE;
      } else if IsTime(word) {
        t := TIME;
      } else if IsDateTime(word) {
        t := DATE_TIME;
      } else {
        t := Token(word, Text);
      }
      assert t == Classify(word);
      TokenizedCons(line[i..], word, line[end..]);
      assert tokens + [t] + Tokenized(line[end..]) == tokens + ([t] + Tokenized(line[end..]));
      tokens := tokens + [t];
      i := end;
    }
  }

  // ---------------------------------------------------------------------
  // join and untokenize
  // ---------------------------------------------------------------------

  /** The number of characters in the strings of `v`. */
  function TotalLength(v: seq<string>): nat
  {
    if v == [] then 0 else TotalLength(v[..|v| - 1]) + |v[|v| - 1]|
  }

  /** The strings of `v` with `delim` between consecutive ones (and nowhere
      else); the empty sequence joins to "". */
  function JoinWith(v: seq<string>, delim: string): (s: string)
    ensures |v| > 0 ==> v[0] <= s
  {
    if |v| == 0 then ""
    else if |v| == 1 then v[0]
    else JoinWith(v[..|v| - 1], delim) + delim + v[|v| - 1]
  }

  /** A join holds every character of the strings and one delimiter
      between each two consecutive ones. */
  lemma {:induction false} JoinWithLength(v: seq<string>, delim: string)
    requires |v| > 0
    ensures |JoinWith(v, delim)| == TotalLength(v) + (|v| - 1) * |delim|
    decreases |v|
  {
    if |v| > 1 {
      JoinWithLength(v[..|v| - 1], delim);
      assert (|v| - 1) * |delim| == (|v| - 2) * |delim| + |delim|;
    }
  }

  /** Appending one string to a nonempty sequence appends the delimiter
      and the string to its join. */
  lemma JoinWithSnoc(v: seq<string>, w: string, delim: string)
    requires |v| > 0
    ensures JoinWith(v + [w], delim) == JoinWith(v, delim) + delim + w
  {
    assert (v + [w])[..|v|] == v;
  }

  /** Joining, read from the front: the first string, the delimiter, and
      the join of the rest. */
  lemma {:induction false} JoinWithCons(w: string, v: seq<string>, delim: string)
    requires |v| > 0
    ensures JoinWith([w] + v, delim) == w + delim + JoinWith(v, delim)
    decreases |v|
  {
    var wv := [w] + v;
    if |v| == 1 {
      assert wv[..1] == [w];
    } else {
      assert wv[..|wv| - 1] == [w] + v[..|v| - 1];
      JoinWithCons(w, v[..|v| - 1], delim);
    }
  }

  /** Splitting undoes joining with a space: words joined by " " split back
      into the same words. */
  lemma {:induction false} WordsJoinWith(ws: seq<string>)
    requires forall k :: 0 <= k < |ws| ==> IsWord(ws[k])
    ensures Words(JoinWith(ws, " ")) == ws
    decreases |ws|
  {
    if |ws| == 1 {
      WordsFirst(ws[0], |ws[0]|);
      assert ws[0][|ws[0]|..] == [];
      assert ws[0][..|ws[0]|] == ws[0];
    } else if |ws| > 1 {
      var w, rest := ws[0], ws[1..];
      assert ws == [w] + rest;
      JoinWithCons(w, rest, " ");
      var s := w + " " + JoinWith(rest, " ");
      assert forall k :: 0 <= k < |w| ==> s[k] == w[k];
      assert s[|w|] == ' ';
      WordsFirst(s, |w|);
      assert s[..|w|] == w;
      assert s[|w|..] == " " + JoinWith(rest, " ");
      assert s[|w|..][1..] == JoinWith(rest, " ");
      WordsJoinWith(rest);
    }
  }

  /** `join` (include/tokens.h:128-138): the delimiter goes before every
      element but the first. */
  method Join(v: seq<string>, delim: string) returns (s: string)
    ensures s == JoinWith(v, delim)
  {
    s := "";
    for k := 0 to |v|
      invariant s == JoinWith(v[..k], delim)
    {
      if k != 0 {
        s := s + delim;
      }
      s := s + v[k];
      assert v[..k + 1][..k] == v[..k];
    }
    assert v[..|v|] == v;
  }

  /** The strings the tokens carry. */
  function Payloads(ts: seq<Token>): (ss: seq<string>)
    ensures |ss| == |ts|
  {
    seq(|ts|, k requires 0 <= k < |ts| => ts[k].str)
  }

  /** `untokenize` (include/tokens.h:140-146): the tokens' strings joined
      with `delim`, which is empty unless the caller gives one. */
  method Untokenize(tokens: seq<Token>, delim: string := "") returns (s: string)
    ensures s == JoinWith(Payloads(tokens), delim)
  {
    var strs: seq<string> := [];
    for k := 0 to |tokens|
      invariant |strs| == k
      invariant forall i :: 0 <= i < k ==> strs[i] == tokens[i].str
    {
      strs := strs + [tokens[k].str];
    }
    assert strs == Payloads(tokens);
    s := Join(strs, delim);
  }

  /** Untokenizing a line's tokens with " " and splitting again gives one
      word per token, each the token's string: the original words, except
      that dates and times read "Date", "Time" and "DateTime". */
  lemma UntokenizeWords(line: string)
    ensures Words(JoinWith(Payloads(Tokenized(line)), " ")) == Payloads(Tokenized(line))
  {
    var ts := Tokenized(line);
    TokenizedWellFormed(line);
    forall k | 0 <= k < |ts|
      ensures IsWord(Payloads(ts)[k])
    {
      assert WellFormed(ts[k]);
    }
    WordsJoinWith(Payloads(ts));
  }

  // ---------------------------------------------------------------------
  // merge
  // ---------------------------------------------------------------------

  /** The rule `merge` applies to one aligned pair, the first that fits
      winning (include/tokens.h:158-190). */
  function MergeToken(l: Token, r: Token): (t: Token)
    ensures t.kind != Gap
    ensures t.kind == Word <==>
      || (l.kind == Text && r.kind == Text && l.str != r.str)
      || (l.kind == Word && r.kind == Text)
      || (l.kind == Text && r.kind == Word)
    ensures t.kind == Word ==> t == WORD
    ensures t.kind != Word && t.kind != Text ==> t.kind == l.kind == r.kind && t.str == KindName(t.kind)
    ensures l.kind == r.kind && (l.kind == Date || l.kind == Time || l.kind == DateTime) ==>
      t == Token(KindName(l.kind), l.kind)
    ensures t.kind == Text ==> t.str == r.str
  {
    if l.kind == Text && r.kind == Text && l.str != r.str then WORD
    else if l.kind == Word && r.kind == Text then WORD
    else if r.kind == Word && l.kind == Text then WORD
    else if r.kind == Date && l.kind == Date then DATE
    else if r.kind == Time && l.kind == Time then TIME
    else if r.kind == DateTime && l.kind == DateTime then DATE_TIME
    else Token(r.str, Text)
  }

  /** The merge of two aligned sequences, position by position, as long as
      the shorter one. */
  function Merged(l: seq<Token>, r: seq<Token>): (m: seq<Token>)
    ensures |m| == Min(|l|, |r|)
    ensures forall k :: 0 <= k < |m| ==> m[k] == MergeToken(l[k], r[k])
  {
    if l == [] || r == [] then [] else [MergeToken(l[0], r[0])] + Merged(l[1..], r[1..])
  }

  /** `merge` (include/tokens.h:148-194). */
  method Merge(l: seq<Token>, r: seq<Token>) returns (merged: seq<Token>)
    ensures merged == Merged(l, r)
  {
    merged := [];
    var k := 0;
    while k < |l| && k < |r|
      invariant k <= |l| && k <= |r|
      invariant |merged| == k
      invariant forall i :: 0 <= i < k ==> merged[i] == MergeToken(l[i], r[i])
    {
      var lt, rt := l[k], r[k];
      if lt.kind == Text && rt.kind == Text && lt.str != rt.str {
        merged := merged + [WORD];
      } else if lt.kind == Word && rt.kind == Text {
        merged := merged + [WORD];
      } else if rt.kind == Word && lt.kind == Text {
        merged := merged + [WORD];
      } else if rt.kind == Date && lt.kind == Date {
        merged := merged + [DATE];
      } else if rt.kind == Time && lt.kind == Time {
        merged := merged + [TIME];
      } else if rt.kind == DateTime && lt.kind == DateTime {
        merged := merged + [DATE_TIME];
      } else {
        merged := merged + [Token(rt.str, Text)];
      }
      k := k + 1;
    }
  }

  /** The kind of a merged token does not depend on which side is left;
      only the fallback's string does (it is the right-hand one). */
  lemma MergeKindSymmetric(l: Token, r: Token)
    ensures MergeToken(l, r).kind == MergeToken(r, l).kind
    ensures MergeToken(l, r).kind != Text ==> MergeToken(l, r) == MergeToken(r, l)
    ensures MergeToken(l, r).kind == Text ==> MergeToken(l, r).str == r.str && MergeToken(r, l).str == l.str
  {
  }

  /** Two Text tokens merge to the right-hand one when their strings agree,
      and to WORD when they differ. */
  lemma MergeTextPair(a: string, b: string)
    ensures MergeToken(Token(a, Text), Token(b, Text)) == if a == b then Token(b, Text) else WORD
  {
  }

  /** Merging a token `tokenize` produced with itself gives it back. */
  lemma MergeTokenIdempotent(t: Token)
    requires WellFormed(t)
    ensures MergeToken(t, t) == t
  {
  }

  /** Merging a tokenized line with itself gives it back. */
  lemma MergedIdempotent(line: string)
    ensures Merged(Tokenized(line), Tokenized(line)) == Tokenized(line)
  {
    var ts := Tokenized(line);
    TokenizedWellFormed(line);
    forall k | 0 <= k < |ts|
      ensures Merged(ts, ts)[k] == ts[k]
    {
      MergeTokenIdempotent(ts[k]);
    }
  }

  /** Two Word tokens do not merge to a Word: the fallback turns them into
      Text "WORD", and merging a Gap gives Text holding the right string. */
  lemma MergeFallbacks(s: string)
    ensures MergeToken(WORD, WORD) == Token("WORD", Text)
    ensures MergeToken(Token(s, Gap), Token(s, Gap)) == Token(s, Text)
  {
  }
}
