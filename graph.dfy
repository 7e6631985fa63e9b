/**
 * helpers.py, `GraphAnalyzer`: reading the compacted transcript into
 * asker/askee/question rows, turning the rows into asked/answered edges
 * between speakers, and the selections `run_analytics` makes over those
 * edges. The graph database is an in-memory vertex sequence and edge
 * sequence; its edge counts are counting functions over the edge sequence.
 */
module Graph {
  import opened Wrappers
  import opened PyStrings
  import opened Helpers

  // ---------------------------------------------------------------------
  // Reading the compacted transcript (`GraphAnalyzer.__init__`)

  /** The loop's accumulators: `currString`, `prevSpeaker` and `self.q_n_a`. */
  datatype ScanState = ScanState(text: string, prev: string, qna: seq<QnA>)

  /** The rows one `parse_text` call appends. */
  function Entries(e: Option<QnA>): (r: seq<QnA>)
    ensures |r| <= 1 && (r == [] <==> e.None?)
  {
    if e.Some? then [e.value] else []
  }

  /**
   * One pass of the `for line in vtt` loop: a header line hands the text
   * gathered so far to `parse_text` and starts a new chunk; any other line
   * is added stripped, followed by a space.
   */
  function ScanLine(examine: Examiner, st: ScanState, line: string): ScanState {
    if IsHeaderLine(line) then
      var speaker := HeaderSpeaker(line);
      ScanState("", speaker, st.qna + Entries(examine(st.text, st.prev, speaker)))
    else
      ScanState(st.text + (Strip(line) + " "), st.prev, st.qna)
  }

  /** `parse_text` as a function of the chunk's text, the asker and the askee. */
  type Examiner = (string, string, string) -> Option<QnA>

  function ParseTextOf(pos: PartOfSpeech): Examiner {
    (curr, prevSpeaker, currSpeaker) => ParseEntry(pos, curr, prevSpeaker, currSpeaker)
  }

  /** The accumulators after the loop has read `lines`. */
  function Scan(examine: Examiner, lines: seq<string>): ScanState
    decreases |lines|
  {
    if |lines| == 0 then ScanState("", "", [])
    else ScanLine(examine, Scan(examine, lines[..|lines| - 1]), lines[|lines| - 1])
  }

  predicate NoHeader(lines: seq<string>) {
    forall k :: 0 <= k < |lines| ==> !IsHeaderLine(lines[k])
  }

  /** The text gathered from lines that are not headers; a blank line adds a single space. */
  function Text(lines: seq<string>): string
    decreases |lines|
  {
    if |lines| == 0 then "" else Text(lines[..|lines| - 1]) + (Strip(lines[|lines| - 1]) + " ")
  }

  /** Lines that are not headers only extend the gathered text. */
  lemma {:induction false} ScanPlain(examine: Examiner, lines: seq<string>, rest: seq<string>)
    requires NoHeader(rest)
    ensures var st := Scan(examine, lines);
      Scan(examine, lines + rest) == ScanState(st.text + Text(rest), st.prev, st.qna)
    decreases |rest|
  {
    if |rest| == 0 {
      assert lines + rest == lines;
      AppendEmpty(Scan(examine, lines).text);
    } else {
      var init := rest[..|rest| - 1];
      NoHeaderPrefix(rest);
      ScanPlain(examine, lines, init);
      Snoc(rest);
      ScanPlainStep(examine, lines, init, rest[|rest| - 1]);
    }
  }

  lemma NoHeaderPrefix(rest: seq<string>)
    requires NoHeader(rest) && rest != []
    ensures NoHeader(rest[..|rest| - 1]) && !IsHeaderLine(rest[|rest| - 1])
  {
    var init := rest[..|rest| - 1];
    forall k | 0 <= k < |init| ensures !IsHeaderLine(init[k]) {
      assert init[k] == rest[k];
    }
  }

  lemma Snoc<T>(s: seq<T>)
    requires s != []
    ensures s[..|s| - 1] + [s[|s| - 1]] == s
  {
  }

  lemma DropLast<T>(a: seq<T>, b: seq<T>, x: T)
    ensures var all := a + (b + [x]);
      all[..|all| - 1] == a + b && all[|all| - 1] == x
  {
    var all := a + (b + [x]);
    assert all == (a + b) + [x];
  }

  lemma AppendEmpty(s: string)
    ensures s + "" == s && "" + s == s
  {
  }

  lemma ScanPlainStep(examine: Examiner, lines: seq<string>, init: seq<string>, last: string)
    requires !IsHeaderLine(last)
    requires var st := Scan(examine, lines);
      Scan(examine, lines + init) == ScanState(st.text + Text(init), st.prev, st.qna)
    ensures var st := Scan(examine, lines);
      Scan(examine, lines + (init + [last])) == ScanState(st.text + Text(init + [last]), st.prev, st.qna)
  {
    var st := Scan(examine, lines);
    var all := lines + (init + [last]);
    DropLast(lines, init, last);
    ScanUnfold(examine, all);
    PlainLine(examine, Scan(examine, lines + init), last);
    TextUnfold(init, last);
    Associative(st.text, Text(init), Strip(last) + " ");
  }

  lemma TextUnfold(init: seq<string>, last: string)
    ensures Text(init + [last]) == Text(init) + (Strip(last) + " ")
  {
    assert (init + [last])[..|init|] == init;
  }

  lemma ScanUnfold(examine: Examiner, lines: seq<string>)
    requires lines != []
    ensures Scan(examine, lines) == ScanLine(examine, Scan(examine, lines[..|lines| - 1]), lines[|lines| - 1])
  {
  }

  lemma PlainLine(examine: Examiner, st: ScanState, line: string)
    requires !IsHeaderLine(line)
    ensures ScanLine(examine, st, line) == ScanState(st.text + (Strip(line) + " "), st.prev, st.qna)
  {
  }

  lemma Associative(a: string, b: string, c: string)
    ensures a + (b + c) == (a + b) + c
  {
  }

  /** Text after the last header line is never passed to `parse_text`. */
  lemma TrailingTextIgnored(examine: Examiner, lines: seq<string>, rest: seq<string>)
    requires NoHeader(rest)
    ensures Scan(examine, lines + rest).qna == Scan(examine, lines).qna
  {
    ScanPlain(examine, lines, rest);
  }

  /**
   * The text between two consecutive header lines is examined once, with
   * the earlier header's speaker as asker and the later one's as askee.
   */
  lemma BetweenHeaders(examine: Examiner, lines: seq<string>, h1: string, mid: seq<string>, h2: string)
    requires IsHeaderLine(h1) && IsHeaderLine(h2) && NoHeader(mid)
    ensures Scan(examine, lines + [h1] + mid + [h2]).qna
         == Scan(examine, lines + [h1]).qna + Entries(examine(Text(mid), HeaderSpeaker(h1), HeaderSpeaker(h2)))
  {
    var pre := lines + [h1];
    assert pre[..|pre| - 1] == lines;
    ScanUnfold(examine, pre);
    HeaderStep(examine, Scan(examine, lines), h1);
    ScanPlain(examine, pre, mid);
    AppendEmpty(Text(mid));
    var all := pre + mid + [h2];
    assert all[..|all| - 1] == pre + mid;
    ScanUnfold(examine, all);
    HeaderStep(examine, Scan(examine, pre + mid), h2);
  }

  /** The text before the first header line is examined with the empty string as asker. */
  lemma FirstChunk(examine: Examiner, mid: seq<string>, h: string)
    requires NoHeader(mid) && IsHeaderLine(h)
    ensures Scan(examine, mid + [h]).qna == Entries(examine(Text(mid), "", HeaderSpeaker(h)))
  {
    ScanPlain(examine, [], mid);
    assert [] + mid == mid;
    AppendEmpty(Text(mid));
    var all := mid + [h];
    assert all[..|all| - 1] == mid;
    ScanUnfold(examine, all);
    HeaderStep(examine, Scan(examine, mid), h);
    assert Scan(examine, []).qna == [];
  }

  lemma HeaderStep(examine: Examiner, st: ScanState, line: string)
    requires IsHeaderLine(line)
    ensures var speaker := HeaderSpeaker(line);
      ScanLine(examine, st, line) == ScanState("", speaker, st.qna + Entries(examine(st.text, st.prev, speaker)))
  {
  }

  // ---------------------------------------------------------------------
  // Edges (`populate_graph`)

  /** An `asked_question` edge with its text, or an `answered_question` edge. */
  datatype Edge = Asked(from: string, to: string, text: seq<string>) | Answered(from: string, to: string)

  /**
   * The edges `populate_graph` upserts for row `i`: the question from asker
   * to askee, and an answer back from the askee when the askee is the next
   * row's asker.
   */
  function EdgesAt(qna: seq<QnA>, i: nat): seq<Edge>
    requires i < |qna|
  {
    [Asked(qna[i].asker, qna[i].askee, qna[i].question)]
    + if i + 1 != |qna| && qna[i].askee == qna[i + 1].asker then [Answered(qna[i].askee, qna[i].asker)] else []
  }

  /** The edges upserted for the first `n` rows. */
  function EdgesUpTo(qna: seq<QnA>, n: nat): seq<Edge>
    requires n <= |qna|
    decreases n
  {
    if n == 0 then [] else EdgesUpTo(qna, n - 1) + EdgesAt(qna, n - 1)
  }

  lemma AppendPair<T>(s: seq<T>, x: T, y: T)
    ensures s + [x] + [y] == s + ([x] + [y])
  {
  }

  lemma EdgesStep(es: seq<Edge>, qna: seq<QnA>, i: nat)
    requires i < |qna|
    ensures es + EdgesUpTo(qna, i + 1) == (es + EdgesUpTo(qna, i)) + EdgesAt(qna, i)
  {
  }

  /** Upserting a vertex adds it only when it is not there yet. */
  function AddVertex<T(==)>(vs: seq<T>, v: T): seq<T> {
    if v in vs then vs else vs + [v]
  }

  /** Upserting each of `xs` in turn. */
  function Upserts<T(==)>(vs: seq<T>, xs: seq<T>): seq<T>
    decreases |xs|
  {
    if |xs| == 0 then vs else AddVertex(Upserts(vs, xs[..|xs| - 1]), xs[|xs| - 1])
  }

  /** The askers and askees of the first `n` rows, in upsert order. */
  function Speakers(qna: seq<QnA>, n: nat): seq<string>
    requires n <= |qna|
    decreases n
  {
    if n == 0 then [] else Speakers(qna, n - 1) + [qna[n - 1].asker, qna[n - 1].askee]
  }

  /** The vertices after the first `n` rows have upserted their asker and askee. */
  function VerticesUpTo(vs: seq<string>, qna: seq<QnA>, n: nat): seq<string>
    requires n <= |qna|
  {
    Upserts(vs, Speakers(qna, n))
  }

  /** One more row upserts its asker, then its askee. */
  lemma VerticesStep(vs: seq<string>, qna: seq<QnA>, n: nat)
    requires n < |qna|
    ensures VerticesUpTo(vs, qna, n + 1) == AddVertex(AddVertex(VerticesUpTo(vs, qna, n), qna[n].asker), qna[n].askee)
  {
    UpsertsPair(vs, Speakers(qna, n), qna[n].asker, qna[n].askee);
  }

  lemma UpsertsPair<T>(vs: seq<T>, xs: seq<T>, a: T, b: T)
    ensures Upserts(vs, xs + [a, b]) == AddVertex(AddVertex(Upserts(vs, xs), a), b)
  {
    var ys := xs + [a, b];
    assert ys[..|ys| - 1] == xs + [a];
    assert (xs + [a])[..|xs|] == xs;
  }

  lemma InitOfAppend<T>(a: seq<T>, b: seq<T>)
    requires b != []
    ensures (a + b)[..|a + b| - 1] == a + b[..|b| - 1] && (a + b)[|a + b| - 1] == b[|b| - 1]
  {
  }

  lemma TakeSnoc<T>(s: seq<T>, n: nat)
    requires 0 < n <= |s|
    ensures s[..n] == s[..n - 1] + [s[n - 1]]
  {
  }

  /** The rows the asked edges carry, in edge order. */
  function AskedRows(es: seq<Edge>): seq<QnA>
    decreases |es|
  {
    if |es| == 0 then []
    else
      var e := es[|es| - 1];
      AskedRows(es[..|es| - 1]) + if e.Asked? then [QnA(e.from, e.to, e.text)] else []
  }

  lemma {:induction false} AskedRowsAppend(a: seq<Edge>, b: seq<Edge>)
    ensures AskedRows(a + b) == AskedRows(a) + AskedRows(b)
    decreases |b|
  {
    if |b| == 0 {
      assert a + b == a;
    } else {
      InitOfAppend(a, b);
      AskedRowsAppend(a, b[..|b| - 1]);
    }
  }

  /** Each row yields exactly one asked edge, carrying the row itself. */
  lemma AskedRowsAt(qna: seq<QnA>, i: nat)
    requires i < |qna|
    ensures AskedRows(EdgesAt(qna, i)) == [qna[i]]
  {
    var es := EdgesAt(qna, i);
    var first := [Asked(qna[i].asker, qna[i].askee, qna[i].question)];
    assert AskedRows(first) == [qna[i]] by {
      assert first[..0] == [];
    }
    if |es| == 2 {
      assert es[..1] == first;
    } else {
      assert es == first;
    }
  }

  /**
   * `populate_graph` loses and invents no question: reading back the asked
   * edges gives the rows of `q_n_a`, in order.
   */
  lemma {:induction false} AskedEdgesAreRows(qna: seq<QnA>, n: nat)
    requires n <= |qna|
    ensures AskedRows(EdgesUpTo(qna, n)) == qna[..n]
    decreases n
  {
    if n > 0 {
      AskedEdgesAreRows(qna, n - 1);
      AskedRowsAppend(EdgesUpTo(qna, n - 1), EdgesAt(qna, n - 1));
      AskedRowsAt(qna, n - 1);
      TakeSnoc(qna, n);
    }
  }

  /** Row `i` is answered: its askee asks the next question. */
  predicate Replies(qna: seq<QnA>, i: int, asker: string, askee: string) {
    0 <= i && i + 1 < |qna| && qna[i].asker == asker && qna[i].askee == askee && qna[i + 1].asker == askee
  }

  lemma AnsweredAt(qna: seq<QnA>, i: nat, a: string, b: string)
    requires i < |qna|
    ensures Answered(b, a) in EdgesAt(qna, i) <==> Replies(qna, i, a, b)
  {
  }

  /**
   * There is an answered edge from `b` to `a` exactly when some row in which
   * `a` asks `b` is followed by a row in which `b` asks; in particular the
   * last row never yields one.
   */
  lemma {:induction false} AnsweredEdges(qna: seq<QnA>, n: nat, a: string, b: string)
    requires n <= |qna|
    ensures Answered(b, a) in EdgesUpTo(qna, n) <==> exists i :: 0 <= i < n && Replies(qna, i, a, b)
    decreases n
  {
    if n > 0 {
      AnsweredEdges(qna, n - 1, a, b);
      AnsweredAt(qna, n - 1, a, b);
      if Answered(b, a) in EdgesUpTo(qna, n) {
        if Answered(b, a) in EdgesUpTo(qna, n - 1) {
          var i :| 0 <= i < n - 1 && Replies(qna, i, a, b);
          assert 0 <= i < n && Replies(qna, i, a, b);
        } else {
          assert Replies(qna, n - 1, a, b);
        }
      }
      if exists i :: 0 <= i < n && Replies(qna, i, a, b) {
        var i :| 0 <= i < n && Replies(qna, i, a, b);
        if i < n - 1 {
          assert Answered(b, a) in EdgesUpTo(qna, n - 1);
        }
      }
    }
  }

  predicate NoDuplicates<T(==)>(vs: seq<T>) {
    forall i, j :: 0 <= i < j < |vs| ==> vs[i] != vs[j]
  }

  /** Upserting never duplicates a vertex. */
  lemma {:induction false} UpsertsDistinct<T>(vs: seq<T>, xs: seq<T>)
    requires NoDuplicates(vs)
    ensures NoDuplicates(Upserts(vs, xs))
    decreases |xs|
  {
    if |xs| > 0 {
      UpsertsDistinct(vs, xs[..|xs| - 1]);
    }
  }

  /** Upserting keeps the vertices already present at the front. */
  lemma {:induction false} UpsertsExtend<T>(vs: seq<T>, xs: seq<T>)
    ensures vs <= Upserts(vs, xs)
    decreases |xs|
  {
    if |xs| > 0 {
      UpsertsExtend(vs, xs[..|xs| - 1]);
      var ws := Upserts(vs, xs[..|xs| - 1]);
      assert ws <= AddVertex(ws, xs[|xs| - 1]);
    }
  }

  /** Upserting adds exactly the upserted vertices. */
  lemma {:induction false} UpsertsMembers<T>(vs: seq<T>, xs: seq<T>, v: T)
    ensures v in Upserts(vs, xs) <==> v in vs || v in xs
    decreases |xs|
  {
    if |xs| > 0 {
      UpsertsMembers(vs, xs[..|xs| - 1], v);
      Snoc(xs);
      assert v in xs <==> v in xs[..|xs| - 1] || v == xs[|xs| - 1];
    }
  }

  /** Speaker `v` takes part in row `i`. */
  predicate Speaks(qna: seq<QnA>, i: int, v: string) {
    0 <= i < |qna| && (qna[i].asker == v || qna[i].askee == v)
  }

  /** Speaker `v` takes part in one of the first `n` rows. */
  ghost predicate SpeaksBefore(qna: seq<QnA>, n: int, v: string) {
    exists i :: 0 <= i < n && Speaks(qna, i, v)
  }

  lemma {:induction false} SpeakersOfRows(qna: seq<QnA>, n: nat, v: string)
    requires n <= |qna|
    ensures v in Speakers(qna, n) <==> SpeaksBefore(qna, n, v)
    decreases n
  {
    if n > 0 {
      SpeakersOfRows(qna, n - 1, v);
      var i := n - 1;
      assert v in Speakers(qna, n) <==> v in Speakers(qna, i) || v == qna[i].asker || v == qna[i].askee;
      if SpeaksBefore(qna, n, v) {
        var k :| 0 <= k < n && Speaks(qna, k, v);
        if k < i {
          assert SpeaksBefore(qna, i, v);
        }
      }
      if SpeaksBefore(qna, i, v) {
        var k :| 0 <= k < i && Speaks(qna, k, v);
        assert 0 <= k < n && Speaks(qna, k, v);
      }
      if v == qna[i].asker || v == qna[i].askee {
        assert Speaks(qna, i, v);
      }
    }
  }

  /**
   * The vertices are the ones already present followed by the speakers of
   * the rows, each once.
   */
  lemma VerticesOfRows(vs: seq<string>, qna: seq<QnA>, n: nat)
    requires n <= |qna| && NoDuplicates(vs)
    ensures var ws := VerticesUpTo(vs, qna, n);
      NoDuplicates(ws) && vs <= ws
      && forall v :: v in ws <==> v in vs || SpeaksBefore(qna, n, v)
  {
    UpsertsDistinct(vs, Speakers(qna, n));
    UpsertsExtend(vs, Speakers(qna, n));
    forall v ensures v in VerticesUpTo(vs, qna, n) <==> v in vs || SpeaksBefore(qna, n, v) {
      UpsertsMembers(vs, Speakers(qna, n), v);
      SpeakersOfRows(qna, n, v);
    }
  }

  // ---------------------------------------------------------------------
  // Edge counts

  datatype EdgeType = AskedQuestion | AnsweredQuestion

  function TypeOf(e: Edge): EdgeType {
    if e.Asked? then AskedQuestion else AnsweredQuestion
  }

  /** `getEdgeCount(t)`: the edges of type `t`. */
  function CountType(es: seq<Edge>, t: EdgeType): nat
    decreases |es|
  {
    if |es| == 0 then 0
    else CountType(es[..|es| - 1], t) + if TypeOf(es[|es| - 1]) == t then 1 else 0
  }

  /** `getEdgeCountFrom('speaker', v, t)`: the edges of type `t` leaving `v`. */
  function CountFrom(es: seq<Edge>, t: EdgeType, v: string): nat
    decreases |es|
  {
    if |es| == 0 then 0
    else
      var e := es[|es| - 1];
      CountFrom(es[..|es| - 1], t, v) + if TypeOf(e) == t && e.from == v then 1 else 0
  }

  /** `getEdgeCountFrom('speaker', a, t, 'speaker', b)`: the edges of type `t` from `a` to `b`. */
  function CountBetween(es: seq<Edge>, t: EdgeType, a: string, b: string): nat
    decreases |es|
  {
    if |es| == 0 then 0
    else
      var e := es[|es| - 1];
      CountBetween(es[..|es| - 1], t, a, b) + if TypeOf(e) == t && e.from == a && e.to == b then 1 else 0
  }

  lemma {:induction false} CountTypeAppend(a: seq<Edge>, b: seq<Edge>, t: EdgeType)
    ensures CountType(a + b, t) == CountType(a, t) + CountType(b, t)
    decreases |b|
  {
    if |b| == 0 {
      assert a + b == a;
    } else {
      InitOfAppend(a, b);
      CountTypeAppend(a, b[..|b| - 1], t);
    }
  }

  lemma CountTypeAt(qna: seq<QnA>, i: nat)
    requires i < |qna|
    ensures CountType(EdgesAt(qna, i), AskedQuestion) == 1
    ensures CountType(EdgesAt(qna, i), AnsweredQuestion) == if i + 1 < |qna| then CountType(EdgesAt(qna, i)[1..], AnsweredQuestion) else 0
    ensures CountType(EdgesAt(qna, i), AnsweredQuestion) <= 1
  {
    var es := EdgesAt(qna, i);
    var first := es[..1];
    assert CountType(first, AskedQuestion) == 1 && CountType(first, AnsweredQuestion) == 0 by {
      assert first[..0] == [];
    }
    if |es| == 2 {
      assert es[..1] == first;
      assert es[1..][..0] == [];
    } else {
      assert es == first;
    }
  }

  /**
   * There are as many asked edges as rows, and fewer answered edges than
   * rows: the last row is never answered.
   */
  lemma {:induction false} EdgeTotals(qna: seq<QnA>, n: nat)
    requires n <= |qna|
    ensures CountType(EdgesUpTo(qna, n), AskedQuestion) == n
    ensures CountType(EdgesUpTo(qna, n), AnsweredQuestion) <= n
    ensures 0 < n == |qna| ==> CountType(EdgesUpTo(qna, n), AnsweredQuestion) < n
    decreases n
  {
    if n > 0 {
      EdgeTotals(qna, n - 1);
      CountTypeAppend(EdgesUpTo(qna, n - 1), EdgesAt(qna, n - 1), AskedQuestion);
      CountTypeAppend(EdgesUpTo(qna, n - 1), EdgesAt(qna, n - 1), AnsweredQuestion);
      CountTypeAt(qna, n - 1);
    }
  }

  // ---------------------------------------------------------------------
  // Selections (`run_analytics`)

  /**
   * The running maximum of the first loop after `n` scores: it starts at
   * index 0 with value 0 and moves to index `k` only when `scores[k]` is
   * strictly larger than the value held.
   */
  function MaxScan(scores: seq<nat>, n: nat): (r: (nat, nat))
    requires n <= |scores|
    ensures r.0 == 0 || r.0 < n
    decreases n
  {
    if n == 0 then (0, 0)
    else
      var r := MaxScan(scores, n - 1);
      if r.1 < scores[n - 1] then (n - 1, scores[n - 1]) else r
  }

  /**
   * The running maximum holds the first index whose score is the largest;
   * when every score is 0 that is the first index.
   */
  lemma {:induction false} FirstMaximum(scores: seq<nat>, n: nat)
    requires 0 < n <= |scores|
    ensures var r := MaxScan(scores, n);
      r.0 < n && r.1 == scores[r.0]
      && (forall j :: 0 <= j < n ==> scores[j] <= r.1)
      && (forall j :: 0 <= j < r.0 ==> scores[j] < r.1)
    decreases n
  {
    if n > 1 {
      FirstMaximum(scores, n - 1);
    }
  }

  /**
   * The back-and-forth score of the ordered pair `(a, b)` as the code sums
   * it: questions `a` asked `b`, answers `a` gave `b`, and answers `b` gave
   * `a` counted twice.
   */
  function Score(es: seq<Edge>, a: string, b: string): nat {
    CountBetween(es, AskedQuestion, a, b) + CountBetween(es, AnsweredQuestion, a, b)
    + CountBetween(es, AnsweredQuestion, b, a) + CountBetween(es, AnsweredQuestion, b, a)
  }

  /** A question `b` asked `a` does not add to the score of `(a, b)`. */
  lemma ScoreIgnoresReverseQuestion(es: seq<Edge>, a: string, b: string, text: seq<string>)
    requires a != b
    ensures Score(es + [Asked(b, a, text)], a, b) == Score(es, a, b)
  {
    var es' := es + [Asked(b, a, text)];
    assert es'[..|es'| - 1] == es;
  }

  /** An answer `b` gave `a` adds 2 to the score of `(a, b)`. */
  lemma ScoreDoublesReverseAnswer(es: seq<Edge>, a: string, b: string)
    requires a != b
    ensures Score(es + [Answered(b, a)], a, b) == Score(es, a, b) + 2
  {
    var es' := es + [Answered(b, a)];
    assert es'[..|es'| - 1] == es;
  }

  /** The pair the nested loops hold, as vertex indices, and its score. */
  datatype Choice = Choice(pair: Option<(nat, nat)>, score: nat)

  /** The weights of the `n` by `n` index pairs the nested loops visit. */
  type Weights = (nat, nat) -> nat

  /**
   * The weight of index pair `(k, l)`: its score when the two vertices
   * differ, 0 when the code skips the pair. Under a strict `<` from 0 a
   * skipped pair and a pair of weight 0 have the same effect.
   */
  function Weight(vs: seq<string>, es: seq<Edge>): Weights {
    (k: nat, l: nat) => if k < |vs| && l < |vs| && vs[k] != vs[l] then Score(es, vs[k], vs[l]) else 0
  }

  predicate InRange(n: nat, c: Choice) {
    c.pair.Some? ==> c.pair.value.0 < n && c.pair.value.1 < n
  }

  /** The inner loop's body at index pair `(i, j)`. */
  function Consider(w: Weights, c: Choice, i: nat, j: nat): (r: Choice)
    ensures r.score == if c.score < w(i, j) then w(i, j) else c.score
    ensures r == c || (r.pair == Some((i, j)) && c.score < r.score == w(i, j))
    ensures c.score < w(i, j) ==> r.pair == Some((i, j))
    ensures w(i, j) <= c.score ==> r == c
  {
    if c.score < w(i, j) then Choice(Some((i, j)), w(i, j)) else c
  }

  /** The inner loop for row `i` after its first `m` passes. */
  function Row(w: Weights, n: nat, c: Choice, i: nat, m: nat): (r: Choice)
    requires i < n && m <= n
    ensures InRange(n, c) ==> InRange(n, r)
    decreases m
  {
    if m == 0 then c else Consider(w, Row(w, n, c, i, m - 1), i, m - 1)
  }

  /** The outer loop after its first `m` passes over `n` rows. */
  function Rows(w: Weights, n: nat, m: nat): (r: Choice)
    requires m <= n
    ensures InRange(n, r)
    decreases m
  {
    if m == 0 then Choice(None, 0) else Row(w, n, Rows(w, n, m - 1), m - 1, n)
  }

  /** Pair `(k, l)` comes before pair `(i, j)` in the nested loops. */
  predicate Before(k: int, l: int, i: int, j: int) {
    k < i || (k == i && l < j)
  }

  /**
   * `c` holds the first pair with the largest positive weight among the
   * pairs of `[0, n)` visited before `(i, j)`, and no pair when all of
   * them weigh 0.
   */
  ghost predicate Summarises(w: Weights, n: nat, c: Choice, i: int, j: int) {
    && (forall k: nat, l: nat :: Before(k, l, i, j) && k < n && l < n ==> w(k, l) <= c.score)
    && (c.pair.None? ==> c.score == 0)
    && (c.pair.Some? ==>
          var p := c.pair.value.0; var q := c.pair.value.1;
          Before(p, q, i, j) && p < n && q < n && 0 < c.score == w(p, q)
          && forall k: nat, l: nat :: Before(k, l, p, q) && k < n && l < n ==> w(k, l) < c.score)
  }

  lemma ConsiderStep(w: Weights, n: nat, c: Choice, i: nat, j: nat)
    requires i < n && j < n && Summarises(w, n, c, i, j)
    ensures Summarises(w, n, Consider(w, c, i, j), i, j + 1)
  {
    var r := Consider(w, c, i, j);
    forall k: nat, l: nat | Before(k, l, i, j + 1) && k < n && l < n ensures w(k, l) <= r.score {
      if Before(k, l, i, j) {
        assert w(k, l) <= c.score;
      }
    }
    if r != c {
      forall k: nat, l: nat | Before(k, l, i, j) && k < n && l < n ensures w(k, l) < r.score {
        assert w(k, l) <= c.score;
      }
    }
  }

  lemma {:induction false} RowSummarises(w: Weights, n: nat, c: Choice, i: nat, m: nat)
    requires i < n && m <= n && Summarises(w, n, c, i, 0)
    ensures Summarises(w, n, Row(w, n, c, i, m), i, m)
    decreases m
  {
    if m > 0 {
      RowSummarises(w, n, c, i, m - 1);
      ConsiderStep(w, n, Row(w, n, c, i, m - 1), i, m - 1);
    }
  }

  lemma NextRow(w: Weights, n: nat, c: Choice, i: int)
    requires Summarises(w, n, c, i, n)
    ensures Summarises(w, n, c, i + 1, 0)
  {
    forall k: nat, l: nat | Before(k, l, i + 1, 0) && k < n && l < n ensures Before(k, l, i, n) {
    }
  }

  lemma {:induction false} RowsSummarise(w: Weights, n: nat, m: nat)
    requires m <= n
    ensures Summarises(w, n, Rows(w, n, m), m, 0)
    decreases m
  {
    if m > 0 {
      RowsSummarise(w, n, m - 1);
      RowSummarises(w, n, Rows(w, n, m - 1), m - 1, n);
      NextRow(w, n, Row(w, n, Rows(w, n, m - 1), m - 1, n), m - 1);
    }
  }

  /** Pair `(k, l)` of distinct vertices, which the inner loop scores. */
  predicate Eligible(vs: seq<string>, k: int, l: int) {
    0 <= k < |vs| && 0 <= l < |vs| && vs[k] != vs[l]
  }

  /** The back-and-forth choice the nested loops end with. */
  function BestPairOf(vs: seq<string>, es: seq<Edge>): (r: Choice)
    ensures InRange(|vs|, r)
  {
    Rows(Weight(vs, es), |vs|, |vs|)
  }

  /**
   * The nested loops end holding the first pair of distinct vertices, in
   * loop order, with the strictly largest positive score, and hold no pair
   * exactly when every such pair scores 0.
   */
  lemma BestPair(vs: seq<string>, es: seq<Edge>)
    ensures var c := BestPairOf(vs, es);
      && (c.pair.None? <==> forall k, l :: Eligible(vs, k, l) ==> Score(es, vs[k], vs[l]) == 0)
      && (c.pair.Some? ==>
            var p := c.pair.value.0; var q := c.pair.value.1;
            Eligible(vs, p, q) && 0 < c.score == Score(es, vs[p], vs[q])
            && (forall k, l :: Eligible(vs, k, l) ==> Score(es, vs[k], vs[l]) <= c.score)
            && (forall k, l :: Before(k, l, p, q) && Eligible(vs, k, l) ==> Score(es, vs[k], vs[l]) < c.score))
  {
    var w, n := Weight(vs, es), |vs|;
    var c := BestPairOf(vs, es);
    RowsSummarise(w, n, n);
    assert Summarises(w, n, c, n, 0);
    forall k, l | Eligible(vs, k, l) ensures Score(es, vs[k], vs[l]) <= c.score {
      assert Before(k, l, n, 0) && w(k, l) == Score(es, vs[k], vs[l]);
    }
    if c.pair.Some? {
      var p, q := c.pair.value.0, c.pair.value.1;
      assert w(p, q) == c.score;
      forall k, l | Before(k, l, p, q) && Eligible(vs, k, l) ensures Score(es, vs[k], vs[l]) < c.score {
        assert w(k, l) == Score(es, vs[k], vs[l]);
      }
    }
  }

  /** What `run_analytics` reports, in place of its printout. */
  datatype Report = Report(
    speakers: nat, questionsAsked: nat, answersGiven: nat,
    mostAsked: string, mostAskedCount: nat,
    mostAnswered: string, mostAnsweredCount: nat,
    backAndForth: (string, string))

  /** The out-degree of type `t` of each vertex, in vertex order. */
  function Degrees(vs: seq<string>, es: seq<Edge>, t: EdgeType): (r: seq<nat>)
    ensures |r| == |vs| && forall k :: 0 <= k < |vs| ==> r[k] == CountFrom(es, t, vs[k])
  {
    seq(|vs|, k requires 0 <= k < |vs| => CountFrom(es, t, vs[k]))
  }

  function PairNames(vs: seq<string>, c: Choice): (string, string)
    requires InRange(|vs|, c) && c.pair.Some?
  {
    (vs[c.pair.value.0], vs[c.pair.value.1])
  }

  /**
   * The report for vertices `vs` and edges `es`. `None` where the code
   * raises: `vertices[0]` on an empty graph, and `maxSpeaker1.get` when no
   * pair scored above 0, so that `maxSpeaker1` is still the empty string.
   */
  function Analytics(vs: seq<string>, es: seq<Edge>): Option<Report> {
    if |vs| == 0 then None
    else
      var best := BestPairOf(vs, es);
      if best.pair.None? then None
      else
        var asked := MaxScan(Degrees(vs, es, AskedQuestion), |vs|);
        var answered := MaxScan(Degrees(vs, es, AnsweredQuestion), |vs|);
        Some(Report(|vs|, CountType(es, AskedQuestion), CountType(es, AnsweredQuestion),
                    vs[asked.0], asked.1, vs[answered.0], answered.1,
                    PairNames(vs, best)))
  }

  /** `v` is the first vertex whose out-degree of type `t` is the largest, `n`. */
  ghost predicate FirstWithMost(vs: seq<string>, es: seq<Edge>, t: EdgeType, v: string, n: nat) {
    && (forall k :: 0 <= k < |vs| ==> CountFrom(es, t, vs[k]) <= n)
    && exists b :: 0 <= b < |vs| && vs[b] == v && CountFrom(es, t, v) == n
         && forall j :: 0 <= j < b ==> CountFrom(es, t, vs[j]) < n
  }

  lemma FirstWithMostOf(vs: seq<string>, es: seq<Edge>, t: EdgeType)
    requires vs != []
    ensures var r := MaxScan(Degrees(vs, es, t), |vs|);
      FirstWithMost(vs, es, t, vs[r.0], r.1)
  {
    var d := Degrees(vs, es, t);
    FirstMaximum(d, |vs|);
    var r := MaxScan(d, |vs|);
    assert 0 <= r.0 < |vs| && vs[r.0] == vs[r.0] && CountFrom(es, t, vs[r.0]) == r.1;
  }

  /**
   * `run_analytics` fails on an empty graph and on a graph where no pair of
   * distinct speakers scores above 0; otherwise it reports the number of
   * speakers and of each kind of edge, the first speaker with the most
   * questions asked and the first with the most answers given, and the
   * back-and-forth pair `BestPair` describes.
   */
  lemma AnalyticsMeaning(vs: seq<string>, es: seq<Edge>)
    ensures var r := Analytics(vs, es);
      && (r.None? <==> |vs| == 0 || forall k, l :: Eligible(vs, k, l) ==> Score(es, vs[k], vs[l]) == 0)
      && (r.Some? ==>
            && r.value.speakers == |vs|
            && r.value.questionsAsked == CountType(es, AskedQuestion)
            && r.value.answersGiven == CountType(es, AnsweredQuestion)
            && FirstWithMost(vs, es, AskedQuestion, r.value.mostAsked, r.value.mostAskedCount)
            && FirstWithMost(vs, es, AnsweredQuestion, r.value.mostAnswered, r.value.mostAnsweredCount)
            && var c := BestPairOf(vs, es);
               c.pair.Some? && r.value.backAndForth == (vs[c.pair.value.0], vs[c.pair.value.1]))
  {
    BestPair(vs, es);
    if vs != [] {
      FirstWithMostOf(vs, es, AskedQuestion);
      FirstWithMostOf(vs, es, AnsweredQuestion);
    }
  }

  // ---------------------------------------------------------------------
  // The analyser

  /**
   * The first loop of `run_analytics`: the running maxima, as (vertex
   * index, count), of the questions each vertex asked and answered.
   */
  method MostActive(vs: seq<string>, es: seq<Edge>) returns (asked: (nat, nat), answered: (nat, nat))
    ensures asked == MaxScan(Degrees(vs, es, AskedQuestion), |vs|)
    ensures answered == MaxScan(Degrees(vs, es, AnsweredQuestion), |vs|)
  {
    asked, answered := (0, 0), (0, 0);
    for k := 0 to |vs|
      invariant asked == MaxScan(Degrees(vs, es, AskedQuestion), k)
      invariant answered == MaxScan(Degrees(vs, es, AnsweredQuestion), k)
    {
      var questionsAsked := CountFrom(es, AskedQuestion, vs[k]);
      var questionsAnswered := CountFrom(es, AnsweredQuestion, vs[k]);
      if asked.1 < questionsAsked {
        asked := (k, questionsAsked);
      }
      if answered.1 < questionsAnswered {
        answered := (k, questionsAnswered);
      }
    }
  }

  /**
   * The nested loops of `run_analytics`: the pair of distinct vertices with
   * the most back-and-forth, summed as the code sums it.
   */
  method MostBackAndForth(vs: seq<string>, es: seq<Edge>) returns (best: Choice)
    ensures best == BestPairOf(vs, es)
  {
    best := Choice(None, 0);
    for i := 0 to |vs|
      invariant best == Rows(Weight(vs, es), |vs|, i)
    {
      best := BackAndForthRow(vs, es, best, i);
    }
  }

  /** The inner loop of `run_analytics` for `speaker1 = vs[i]`. */
  method BackAndForthRow(vs: seq<string>, es: seq<Edge>, c: Choice, i: nat) returns (best: Choice)
    requires i < |vs|
    ensures best == Row(Weight(vs, es), |vs|, c, i, |vs|)
  {
    ghost var w := Weight(vs, es);
    best := c;
    for j := 0 to |vs|
      invariant best == Row(w, |vs|, c, i, j)
    {
      if vs[i] == vs[j] {
        assert w(i, j) == 0;
        continue;
      }
      var curr := CountBetween(es, AskedQuestion, vs[i], vs[j]);
      curr := curr + CountBetween(es, AnsweredQuestion, vs[i], vs[j]);
      curr := curr + CountBetween(es, AnsweredQuestion, vs[j], vs[i]);
      curr := curr + CountBetween(es, AnsweredQuestion, vs[j], vs[i]);
      assert w(i, j) == curr;
      if best.score < curr {
        best := Choice(Some((i, j)), curr);
      }
    }
  }

  class GraphAnalyzer {
    /** `self.q_n_a` */
    var qna: seq<QnA>
    /** The speaker vertices, in the order they were first upserted. */
    var vertices: seq<string>
    /** The upserted edges, in upsert order. */
    var edges: seq<Edge>

    /** Reads the compacted transcript `lines` and records one row per question found. */
    constructor (lines: seq<string>, determiner: PartOfSpeech)
      ensures qna == Scan(ParseTextOf(determiner), lines).qna
      ensures vertices == [] && edges == []
    {
      qna := [];
      vertices := [];
      edges := [];
      new;
      var currString := "";
      var prevSpeaker := "";
      for i := 0 to |lines|
        invariant vertices == [] && edges == []
        invariant Scan(ParseTextOf(determiner), lines[..i]) == ScanState(currString, prevSpeaker, qna)
      {
        var line := lines[i];
        assert lines[..i + 1][..i] == lines[..i];
        if !IsHeaderLine(line) {
          currString := currString + (Strip(line) + " ");
          continue;
        }
        var currSpeaker := HeaderSpeaker(line);
        ParseText(currString, prevSpeaker, currSpeaker, determiner);
        currString := "";
        prevSpeaker := currSpeaker;
      }
      assert lines[..|lines|] == lines;
    }

    /**
     * Appends `[prevSpeaker, currSpeaker, [question]]` for the first piece of
     * `curr` that is a question, if any.
     */
    method ParseText(curr: string, prevSpeaker: string, currSpeaker: string, determiner: PartOfSpeech)
      modifies this`qna
      ensures qna == old(qna) + Entries(ParseEntry(determiner, curr, prevSpeaker, currSpeaker))
    {
      var sentences := Sentences(curr);
      var asked := false;
      var question: seq<string> := [];
      var i := 0;
      while i < |sentences|
        invariant 0 <= i <= |sentences|
        invariant !asked && question == [] && qna == old(qna)
        invariant FirstWhere(Candidates(determiner), sentences[..i]) == None
      {
        var sentence := Strip(sentences[i]);
        assert Candidates(determiner)(sentences[i]) <==> sentence != "" && IsQuestion(determiner, sentence);
        FirstWhereExtend(Candidates(determiner), sentences, i);
        if sentence == "" {
          i := i + 1;
          continue;
        }
        if IsQuestion(determiner, sentence) {
          asked := true;
          question := question + [sentence];
          break;
        }
        i := i + 1;
      }
      if asked {
        FirstWhereFound(Candidates(determiner), sentences, i);
        ParseEntryAt(determiner, curr, prevSpeaker, currSpeaker, i);
        assert question == [Strip(sentences[i])];
        qna := qna + [QnA(prevSpeaker, currSpeaker, question)];
      } else {
        assert sentences[..i] == sentences;
        assert ParseEntry(determiner, curr, prevSpeaker, currSpeaker) == None;
      }
    }

    /**
     * Upserts, row by row, the asker and askee as vertices and the edges
     * `EdgesAt` describes.
     */
    method PopulateGraph()
      modifies this`vertices, this`edges
      ensures vertices == VerticesUpTo(old(vertices), qna, |qna|)
      ensures edges == old(edges) + EdgesUpTo(qna, |qna|)
    {
      var rows, vs, es := qna, vertices, edges;
      var i := 0;
      while i < |rows|
        invariant 0 <= i <= |rows|
        invariant vs == VerticesUpTo(old(vertices), rows, i)
        invariant es == old(edges) + EdgesUpTo(rows, i)
      {
        var currSpeaker := rows[i].asker;
        var nextSpeaker := rows[i].askee;
        var question := rows[i].question;
        ghost var before, seen := es, vs;
        // An upsert of a vertex already present changes nothing.
        if currSpeaker !in vs {
          vs := vs + [currSpeaker];
        }
        assert vs == AddVertex(seen, currSpeaker);
        ghost var seen' := vs;
        if nextSpeaker !in vs {
          vs := vs + [nextSpeaker];
        }
        assert vs == AddVertex(seen', nextSpeaker);
        es := es + [Asked(currSpeaker, nextSpeaker, question)];
        if i + 1 != |rows| && nextSpeaker == rows[i + 1].asker {
          es := es + [Answered(nextSpeaker, currSpeaker)];
          AppendPair(before, Asked(currSpeaker, nextSpeaker, question), Answered(nextSpeaker, currSpeaker));
        }
        assert es == before + EdgesAt(rows, i);
        EdgesStep(old(edges), rows, i);
        VerticesStep(old(vertices), rows, i);
        i := i + 1;
      }
      vertices, edges := vs, es;
    }

    /**
     * Picks the speakers with the most questions asked and answered and the
     * pair with the most back-and-forth; `None` where the code fails, on an
     * empty graph or when no pair scored above 0.
     */
    method RunAnalytics() returns (r: Option<Report>)
      ensures r == Analytics(vertices, edges)
    {
      if |vertices| == 0 {
        return None;
      }
      var best := MostBackAndForth(vertices, edges);
      if best.pair.None? {
        return None;
      }
      var asked, answered := MostActive(vertices, edges);
      r := Some(Report(|vertices|, CountType(edges, AskedQuestion), CountType(edges, AnsweredQuestion),
                       vertices[asked.0], asked.1, vertices[answered.0], answered.1,
                       PairNames(vertices, best)));
    }
  }
}
