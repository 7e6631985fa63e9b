/**
 * helpers.py, `PartOfSpeech` and `GraphAnalyzer.parse_text`: question
 * detection (`is_question`, with the trained classifier and the word
 * tokenizer as parameters), the sentence split `parse_text` makes, the row
 * it records, and the header lines `GraphAnalyzer.__init__` recognises.
 */
module Helpers {
  import opened Wrappers
  import opened PyStrings
  import Compact

  // ---------------------------------------------------------------------
  // Question detection

  const QuestionTypes: seq<string> := ["whQuestion", "ynQuestion"]
  const HelpingVerbs: seq<string> := ["is", "am", "can", "are", "do", "does"]
  const QuestionPatterns: seq<string> := [
    "do i", "do you", "what", "who", "is it", "why", "would you", "how", "is there",
    "are there", "is it so", "is this true", "to know", "is that true", "are we", "am i",
    "question is", "tell me more", "can i", "can we", "tell me", "can you explain",
    "question", "answer", "questions", "answers", "ask"]

  /**
   * The determiner: `classify` stands for the trained Naive Bayes
   * classifier applied to a string's features, `firstToken` for
   * `word_tokenize(s)[0]`.
   */
  datatype PartOfSpeech = PartOfSpeech(classify: string -> string, firstToken: string -> string)

  /** Every character of `s` is already lower case. */
  predicate IsLower(s: string) {
    forall i :: 0 <= i < |s| ==> LowerChar(s[i]) == s[i]
  }

  lemma LowerIsLower(q: string)
    ensures IsLower(Lower(q))
  {
    forall i | 0 <= i < |q| ensures LowerChar(Lower(q)[i]) == Lower(q)[i] {
      assert Lower(q)[i] == LowerChar(q[i]);
    }
  }

  lemma StripKeepsLower(s: string)
    requires IsLower(s)
    ensures IsLower(Strip(s))
  {
    var r := Strip(s);
    var a := |s| - |StripLeft(s)|;
    StripSlice(s);
    forall i | 0 <= i < |r| ensures LowerChar(r[i]) == r[i] {
      assert r[i] == s[a + i];
    }
  }

  /** `question.lower().strip()` */
  function Normalize(q: string): (r: string)
    ensures |r| <= |q| && IsLower(r)
    ensures r == [] || (!IsSpace(r[0]) && !IsSpace(r[|r| - 1]))
  {
    LowerIsLower(q);
    StripKeepsLower(Lower(q));
    Strip(Lower(q))
  }

  lemma {:induction false} LowerFixed(s: string)
    requires IsLower(s)
    ensures Lower(s) == s
  {
    assert forall i :: 0 <= i < |s| ==> Lower(s)[i] == s[i];
  }

  lemma NormalizeIdempotent(q: string)
    ensures Normalize(Normalize(q)) == Normalize(q)
  {
    var n := Normalize(q);
    LowerFixed(n);
    StripTrimmed(n);
  }

  /** `is_ques_using_nltk` on the normalised string. */
  predicate Classified(pos: PartOfSpeech, n: string) {
    pos.classify(n) in QuestionTypes
  }

  /** Some pattern occurs in `n` as a substring. */
  predicate PatternHit(n: string, patterns: seq<string>) {
    exists k :: 0 <= k < |patterns| && Contains(n, patterns[k])
  }

  /** The pattern loop, which stops at the first pattern found. */
  function AnyPattern(n: string, patterns: seq<string>): (r: bool)
    ensures r == PatternHit(n, patterns)
    decreases |patterns|
  {
    if patterns == [] then false
    else
      var rest := AnyPattern(n, patterns[1..]);
      assert forall k :: 1 <= k < |patterns| ==> patterns[k] == patterns[1..][k - 1];
      Contains(n, patterns[0]) || rest
  }

  /** The test applied to one `.`-clause of the normalised string. */
  predicate ClauseSignals(pos: PartOfSpeech, clause: string) {
    Strip(clause) != "" && (EndsWith(clause, '?') || pos.firstToken(clause) in HelpingVerbs)
  }

  /** Some clause signals a question. */
  predicate ClauseHit(pos: PartOfSpeech, clauses: seq<string>) {
    exists k :: 0 <= k < |clauses| && ClauseSignals(pos, clauses[k])
  }

  /** The clause loop, which stops at the first signalling clause. */
  function AnyClause(pos: PartOfSpeech, clauses: seq<string>): (r: bool)
    ensures r == ClauseHit(pos, clauses)
    decreases |clauses|
  {
    if clauses == [] then false
    else
      var rest := AnyClause(pos, clauses[1..]);
      assert forall k :: 1 <= k < |clauses| ==> clauses[k] == clauses[1..][k - 1];
      ClauseSignals(pos, clauses[0]) || rest
  }

  /**
   * `PartOfSpeech.is_question`: the classifier's verdict on the normalised
   * string, else a pattern substring, else some non-blank `.`-clause that
   * ends in `?` or starts with a helping verb.
   */
  function IsQuestion(pos: PartOfSpeech, q: string): (r: bool)
    ensures r <==> Classified(pos, Normalize(q)) || PatternHit(Normalize(q), QuestionPatterns)
                   || ClauseHit(pos, SplitOn(Normalize(q), {'.'}))
  {
    var n := Normalize(q);
    Classified(pos, n) || AnyPattern(n, QuestionPatterns) || AnyClause(pos, SplitOn(n, {'.'}))
  }

  /** `is_question` looks only at the lower-cased, stripped string. */
  lemma IsQuestionNormalized(pos: PartOfSpeech, q: string)
    ensures IsQuestion(pos, Normalize(q)) == IsQuestion(pos, q)
  {
    NormalizeIdempotent(q);
  }

  /** A pattern occurring anywhere in the normalised string makes it a question. */
  lemma PatternMakesQuestion(pos: PartOfSpeech, q: string, k: nat)
    requires k < |QuestionPatterns| && Contains(Normalize(q), QuestionPatterns[k])
    ensures IsQuestion(pos, q)
  {
    assert PatternHit(Normalize(q), QuestionPatterns);
  }

  lemma WhoIsAPattern()
    ensures |QuestionPatterns| == 27 && QuestionPatterns[3] == "who"
  {
  }

  lemma NormalizeWhole()
    ensures Normalize("Whole") == "whole"
  {
    assert Lower("Whole") == "whole";
    StripTrimmed("whole");
  }

  /** Patterns are matched as substrings, not words: "Whole" is a question because it contains "who". */
  lemma SubstringNotWord(pos: PartOfSpeech)
    ensures IsQuestion(pos, "Whole")
  {
    WhoIsAPattern();
    assert Contains("whole", "who");
    NormalizeWhole();
    PatternMakesQuestion(pos, "Whole", 3);
  }

  /**
   * On a piece that contains neither `.` nor `?` (every piece `parse_text`
   * passes in), the `?` test can never fire: only the classifier, a pattern
   * or a leading helping verb can make it a question.
   */
  lemma PieceQuestion(pos: PartOfSpeech, p: string)
    requires forall i :: 0 <= i < |p| ==> p[i] != '.' && p[i] != '?'
    ensures var n := Normalize(p);
      IsQuestion(pos, p) <==> (Classified(pos, n) || PatternHit(n, QuestionPatterns)
                               || (n != "" && pos.firstToken(n) in HelpingVerbs))
  {
    NormalizeKeepsOut(p);
    PieceClauses(pos, Normalize(p));
  }

  /** A trimmed string without `.` or `?` is one clause, which signals only through its first token. */
  lemma PieceClauses(pos: PartOfSpeech, n: string)
    requires forall i :: 0 <= i < |n| ==> n[i] != '.' && n[i] != '?'
    requires n == [] || (!IsSpace(n[0]) && !IsSpace(n[|n| - 1]))
    ensures ClauseHit(pos, SplitOn(n, {'.'})) <==> (n != "" && pos.firstToken(n) in HelpingVerbs)
  {
    SplitOnNone(n, {'.'});
    StripTrimmed(n);
    assert !EndsWith(n, '?');
    if ClauseHit(pos, [n]) {
      var k :| 0 <= k < 1 && ClauseSignals(pos, [n][k]);
      assert k == 0;
    } else {
      assert !ClauseSignals(pos, [n][0]);
    }
  }

  /** Lower-casing and stripping bring in no `.` or `?`. */
  lemma NormalizeKeepsOut(p: string)
    requires forall i :: 0 <= i < |p| ==> p[i] != '.' && p[i] != '?'
    ensures forall i :: 0 <= i < |Normalize(p)| ==> Normalize(p)[i] != '.' && Normalize(p)[i] != '?'
  {
    var l := Lower(p);
    var n := Strip(l);
    var a := |l| - |StripLeft(l)|;
    StripSlice(l);
    forall i | 0 <= i < |n| ensures n[i] != '.' && n[i] != '?' {
      assert n[i] == l[a + i] == LowerChar(p[a + i]);
    }
  }

  // ---------------------------------------------------------------------
  // parse_text

  /** `re.split('\.|\?|\!', curr)` */
  function Sentences(curr: string): (r: seq<string>)
    ensures |r| >= 1
    ensures forall k, c :: 0 <= k < |r| && c in r[k] ==> c != '.' && c != '?' && c != '!'
  {
    SplitOn(curr, {'.', '?', '!'})
  }

  /** A piece that is not blank and, stripped, is a question. */
  predicate Candidate(pos: PartOfSpeech, piece: string) {
    Strip(piece) != "" && IsQuestion(pos, Strip(piece))
  }

  /** Index of the first piece that passes `test`, as the loop with `break` finds it. */
  function FirstWhere(test: string -> bool, pieces: seq<string>): (r: Option<nat>)
    ensures r.Some? ==> r.value < |pieces| && test(pieces[r.value])
    ensures r.Some? ==> forall j :: 0 <= j < r.value ==> !test(pieces[j])
    ensures r.None? ==> forall j :: 0 <= j < |pieces| ==> !test(pieces[j])
    decreases |pieces|
  {
    if pieces == [] then None
    else if test(pieces[0]) then Some(0)
    else
      var rest := FirstWhere(test, pieces[1..]);
      assert forall j :: 1 <= j < |pieces| ==> pieces[j] == pieces[1..][j - 1];
      if rest.None? then None else Some(rest.value + 1)
  }

  /** A first index is the only one `FirstWhere` can return. */
  lemma FirstWhereUnique(test: string -> bool, pieces: seq<string>, i: nat)
    requires i < |pieces| && test(pieces[i])
    requires forall j :: 0 <= j < i ==> !test(pieces[j])
    ensures FirstWhere(test, pieces) == Some(i)
  {
  }

  /** Scanning one more piece: the search either stops there or goes on finding nothing. */
  lemma FirstWhereExtend(test: string -> bool, pieces: seq<string>, i: nat)
    requires i < |pieces| && FirstWhere(test, pieces[..i]) == None
    ensures FirstWhere(test, pieces[..i + 1]) == if test(pieces[i]) then Some(i) else None
  {
    var p := pieces[..i + 1];
    forall j | 0 <= j < i ensures !test(p[j]) {
      assert p[j] == pieces[..i][j];
    }
    if test(pieces[i]) {
      FirstWhereUnique(test, p, i);
    }
  }

  /** The first piece that passes `test` in a prefix is the first one overall. */
  lemma FirstWhereFound(test: string -> bool, pieces: seq<string>, i: nat)
    requires i < |pieces| && FirstWhere(test, pieces[..i]) == None && test(pieces[i])
    ensures FirstWhere(test, pieces) == Some(i)
  {
    forall j | 0 <= j < i ensures !test(pieces[j]) {
      assert pieces[j] == pieces[..i][j];
    }
    FirstWhereUnique(test, pieces, i);
  }

  /** The test `parse_text` applies to each piece. */
  function Candidates(pos: PartOfSpeech): string -> bool {
    piece => Candidate(pos, piece)
  }

  /** One row of `q_n_a`: `[prevSpeaker, currSpeaker, question]`. */
  datatype QnA = QnA(asker: string, askee: string, question: seq<string>)

  /**
   * The row `parse_text` appends, if any: the first piece that is a
   * question, stripped and in its original case.
   */
  function ParseEntry(pos: PartOfSpeech, curr: string, prevSpeaker: string, currSpeaker: string): Option<QnA> {
    var pieces := Sentences(curr);
    match FirstWhere(Candidates(pos), pieces)
    case None => None
    case Some(i) => Some(QnA(prevSpeaker, currSpeaker, [Strip(pieces[i])]))
  }

  /**
   * `parse_text` records a row exactly when some piece is a question; the
   * row holds one question, which is a non-blank, stripped piece without
   * sentence delimiters that `is_question` accepts.
   */
  lemma ParseEntryMeaning(pos: PartOfSpeech, curr: string, prevSpeaker: string, currSpeaker: string)
    ensures var r := ParseEntry(pos, curr, prevSpeaker, currSpeaker);
      && (r.None? <==> forall j :: 0 <= j < |Sentences(curr)| ==> !Candidate(pos, Sentences(curr)[j]))
      && (r.Some? ==> r.value.asker == prevSpeaker && r.value.askee == currSpeaker && |r.value.question| == 1)
      && (r.Some? ==> var q := r.value.question[0];
            q != "" && Strip(q) == q && IsQuestion(pos, q)
            && forall c :: c in q ==> c != '.' && c != '?' && c != '!')
  {
    var pieces := Sentences(curr);
    var f := FirstWhere(Candidates(pos), pieces);
    if f.Some? {
      var i := f.value;
      assert Candidates(pos)(pieces[i]);
      StripIdempotent(pieces[i]);
      StripSlice(pieces[i]);
      var q := Strip(pieces[i]);
      assert forall c :: c in q ==> c in pieces[i];
    } else {
      forall j | 0 <= j < |pieces| ensures !Candidate(pos, pieces[j]) {
        assert !Candidates(pos)(pieces[j]);
      }
    }
  }

  /** The row is the one for the first candidate piece. */
  lemma ParseEntryAt(pos: PartOfSpeech, curr: string, prevSpeaker: string, currSpeaker: string, i: nat)
    requires FirstWhere(Candidates(pos), Sentences(curr)) == Some(i)
    ensures ParseEntry(pos, curr, prevSpeaker, currSpeaker) == Some(QnA(prevSpeaker, currSpeaker, [Strip(Sentences(curr)[i])]))
  {
  }

  // ---------------------------------------------------------------------
  // Header lines

  /** Number of ASCII digits at the start of `s`. */
  function LeadingDigits(s: string): (n: nat)
    ensures n <= |s|
    ensures n < |s| ==> !IsDigit(s[n])
    decreases |s|
  {
    if s != [] && IsDigit(s[0]) then 1 + LeadingDigits(s[1..]) else 0
  }

  /** Everything before position `LeadingDigits(s)` is a digit. */
  lemma {:induction false} LeadingDigitsAreDigits(s: string)
    ensures forall i :: 0 <= i < LeadingDigits(s) ==> IsDigit(s[i])
    decreases |s|
  {
    if s != [] && IsDigit(s[0]) {
      LeadingDigitsAreDigits(s[1..]);
      forall i | 0 < i < LeadingDigits(s) ensures IsDigit(s[i]) {
        assert s[i] == s[1..][i - 1];
      }
    }
  }

  /** `re.search(r'^\d+[.].*', line)` succeeds. */
  predicate IsHeaderLine(line: string) {
    0 < LeadingDigits(line) < |line| && line[LeadingDigits(line)] == '.'
  }

  /** `line.split(".")[1].strip()` on a header line. */
  function HeaderSpeaker(line: string): string
    requires IsHeaderLine(line)
  {
    var n := LeadingDigits(line);
    LeadingDigitsAreDigits(line);
    assert line == line[..n] + ['.'] + line[n + 1..];
    SplitOnFirst(line[..n], '.', line[n + 1..], {'.'});
    Strip(SplitOn(line, {'.'})[1])
  }

  lemma {:induction false} LeadingDigitsOf(d: string, rest: string)
    requires forall i :: 0 <= i < |d| ==> IsDigit(d[i])
    requires rest != [] && !IsDigit(rest[0])
    ensures LeadingDigits(d + rest) == |d|
    decreases |d|
  {
    if d != [] {
      assert (d + rest)[1..] == d[1..] + rest;
      LeadingDigitsOf(d[1..], rest);
    }
  }

  lemma StripLeadingSpace(s: string)
    ensures Strip([' '] + s) == Strip(s)
  {
    assert ([' '] + s)[1..] == s;
  }

  /**
   * The header `compact.py` writes for a chunk with a positive index and a
   * speaker without `.` is recognised as a header, and yields the stripped
   * speaker back.
   */
  lemma HeaderRoundTrip(c: Compact.Seg)
    requires c.num >= 1 && c.speaker.Some?
    requires forall i :: 0 <= i < |c.speaker.value| ==> c.speaker.value[i] != '.'
    ensures IsHeaderLine(Compact.HeaderLine(c) + "\n")
    ensures HeaderSpeaker(Compact.HeaderLine(c) + "\n") == Strip(c.speaker.value)
  {
    var d := NatToString(c.num);
    var sp := c.speaker.value;
    var tail := " " + c.start + " -> " + c.end + "\n";
    var rest := " " + sp + "." + tail;
    var line := Compact.HeaderLine(c) + "\n";
    assert line == d + "." + rest;
    assert line == d + ['.'] + rest;
    LeadingDigitsOf(d, "." + rest);
    assert d + "." + rest == d + ("." + rest);
    forall i | 0 <= i < |d| ensures d[i] !in {'.'} {
      assert IsDigit(d[i]);
    }
    SplitOnFirst(d, '.', rest, {'.'});
    assert rest == (" " + sp) + ['.'] + tail;
    SplitOnFirst(" " + sp, '.', tail, {'.'});
    assert SplitOn(line, {'.'})[1] == [' '] + sp;
    StripLeadingSpace(sp);
  }
}
