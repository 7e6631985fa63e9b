/**
 * compact.py: the caption parser (a line-driven state machine over a loose
 * subset of WebVTT) and the compactor that merges runs of same-speaker
 * segments, plus the header line written for each chunk.
 */
module Compact {
  import opened Wrappers
  import opened PyStrings

  const Signature: string := "WEBVTT"
  const TimeArrow: string := " --> "
  const OmittedSpeaker: string := "OMITTED"

  /** The fields of a `Segment` at one moment; `speaker == None` is Python's None. */
  datatype Seg = Seg(num: int, speaker: Option<string>, start: string, end: string, text: string)
  {
    /** `is_complete`: `num`, `speaker` and `text` are all truthy. */
    predicate Complete() {
      num != 0 && speaker.Some? && speaker.value != "" && text != ""
    }
  }

  /** A freshly constructed `Segment()`. */
  const Fresh: Seg := Seg(0, None, "", "", "")

  /** The exception `segments` lets escape, with the (stripped) line it printed. */
  datatype ParseError = ParseError(line: string)

  /** `txt.split(' --> ')` unpacked into exactly two parts, or None where Python raises. */
  function SplitTiming(txt: string): (r: Option<(string, string)>)
    ensures r.Some? ==> r.value.0 + TimeArrow + r.value.1 == txt
  {
    var parts := SplitStr(txt, TimeArrow);
    SplitStrJoin(txt, TimeArrow);
    if |parts| == 2 then
      assert parts == [parts[0]] + [parts[1]];
      JoinCons(parts[0], [parts[1]], TimeArrow);
      Some((parts[0], parts[1]))
    else None
  }

  class Segment {
    var num: int
    var speaker: Option<string>
    var start: string
    var end: string
    var text: string

    constructor ()
      ensures Value() == Fresh
    {
      num, speaker, start, end, text := 0, None, "", "", "";
    }

    function Value(): Seg
      reads this
    {
      Seg(num, speaker, start, end, text)
    }

    predicate IsComplete()
      reads this
    {
      Value().Complete()
    }

    /** `time`: sets `start` and `end`, or fails (leaving both) when the line is not `a --> b`. */
    method Time(txt: string) returns (ok: bool)
      modifies this
      ensures ok <==> SplitTiming(txt).Some?
      ensures ok ==> Value() == old(Value()).(start := SplitTiming(txt).value.0, end := SplitTiming(txt).value.1)
      ensures !ok ==> Value() == old(Value())
    {
      var parts := SplitStr(txt, TimeArrow);
      ok := |parts| == 2;
      if ok {
        start, end := parts[0], parts[1];
      }
    }
  }

  function ValuesOf(segs: seq<Segment>): (r: seq<Seg>)
    reads segs
    ensures |r| == |segs| && forall k :: 0 <= k < |segs| ==> r[k] == segs[k].Value()
  {
    seq(|segs|, k reads segs requires 0 <= k < |segs| => segs[k].Value())
  }

  predicate Distinct(segs: seq<Segment>) {
    forall k, l :: 0 <= k < l < |segs| ==> segs[k] != segs[l]
  }

  // ---------------------------------------------------------------------
  // The parser as a pure state machine

  /** Segments emitted so far, and the segment being filled. */
  datatype ParserState = ParserState(done: seq<Seg>, cur: Seg)

  const Initial: ParserState := ParserState([], Fresh)

  /** What happens first for every line: a complete segment is emitted and a new one begun. */
  function Flush(st: ParserState): (r: ParserState)
    ensures !r.cur.Complete()
    ensures r.done == st.done + (if st.cur.Complete() then [st.cur] else [])
    ensures st.cur.Complete() ==> r.cur == Fresh
    ensures !st.cur.Complete() ==> r == st
  {
    if st.cur.Complete() then ParserState(st.done + [st.cur], Fresh) else st
  }

  /** Fills the first unset field of `cur` from a stripped, meaningful line. */
  function Fill(cur: Seg, line: string): Result<Seg, ParseError> {
    if cur.num == 0 then
      match ParseInt(line)
      case None => Failure(ParseError(line))
      case Some(n) => Success(cur.(num := n))
    else if cur.start == "" then
      match SplitTiming(line)
      case None => Failure(ParseError(line))
      case Some((a, b)) => Success(cur.(start := a, end := b))
    else if cur.speaker.None? then
      match SplitFirst(line, ':')
      case Some((who, said)) => Success(cur.(speaker := Some(who), text := Strip(said)))
      case None => Success(cur.(speaker := Some(OmittedSpeaker), text := Strip(line)))
    else Success(cur)
  }

  /** One iteration of the loop in `segments`. */
  function Step(st: ParserState, raw: string): Result<ParserState, ParseError> {
    var st' := Flush(st);
    var line := Strip(raw);
    if line == "" || line == Signature then Success(st')
    else match Fill(st'.cur, line)
      case Failure(e) => Failure(e)
      case Success(c) => Success(st'.(cur := c))
  }

  /** The loop of `segments` run from state `st` over `lines`. */
  function RunFrom(st: ParserState, lines: seq<string>): Result<ParserState, ParseError>
    decreases |lines|
  {
    if lines == [] then Success(st)
    else match RunFrom(st, lines[..|lines| - 1])
      case Failure(e) => Failure(e)
      case Success(s) => Step(s, lines[|lines| - 1])
  }

  function Run(lines: seq<string>): Result<ParserState, ParseError> {
    RunFrom(Initial, lines)
  }

  /** What `segments(lines)` returns, or the error it raises. */
  function ParseSegments(lines: seq<string>): Result<seq<Seg>, ParseError> {
    match Run(lines)
    case Failure(e) => Failure(e)
    case Success(st) => Success(st.done)
  }

  lemma RunFromSnoc(st: ParserState, lines: seq<string>, raw: string)
    ensures RunFrom(st, lines + [raw]) ==
      match RunFrom(st, lines) case Failure(e) => Failure(e) case Success(s) => Step(s, raw)
  {
    assert (lines + [raw])[..|lines|] == lines;
  }

  /** The `if/elif` chain of `segments` for one stripped, meaningful line. */
  method FillFields(seg: Segment, line: string) returns (err: Option<ParseError>)
    modifies seg
    ensures match Fill(old(seg.Value()), line)
      case Failure(e) => err == Some(e)
      case Success(c) => err == None && seg.Value() == c
  {
    err := None;
    if seg.num == 0 {
      match ParseInt(line) {
        case None => err := Some(ParseError(line));
        case Some(n) => seg.num := n;
      }
    } else if seg.start == "" {
      var ok := seg.Time(line);
      if !ok {
        err := Some(ParseError(line));
      }
    } else if seg.speaker.None? {
      match SplitFirst(line, ':') {
        case Some((who, said)) =>
          seg.speaker, seg.text := Some(who), said;
        case None =>
          // a speaker line without a colon keeps the whole line as the text
          seg.speaker, seg.text := Some(OmittedSpeaker), line;
      }
      seg.text := Strip(seg.text);
    }
  }

  /** The head of each iteration of `segments`: a complete segment is emitted and replaced by a fresh one. */
  method FlushSegment(segments: seq<Segment>, seg: Segment) returns (segments': seq<Segment>, seg': Segment)
    requires seg !in segments
    ensures seg' !in segments' && (seg' == seg || fresh(seg'))
    ensures segments' == segments || segments' == segments + [seg]
    ensures ParserState(ValuesOf(segments'), seg'.Value()) == Flush(ParserState(ValuesOf(segments), seg.Value()))
  {
    segments', seg' := segments, seg;
    if seg.IsComplete() {
      segments' := segments + [seg];
      seg' := new Segment();
    }
  }

  /**
   * One iteration of the loop in `segments`: emit the current segment if it
   * is complete, then fill its next field from the line.
   */
  method ProcessLine(segments: seq<Segment>, seg: Segment, raw: string)
    returns (segments': seq<Segment>, seg': Segment, err: Option<ParseError>)
    requires seg !in segments
    modifies seg
    ensures seg' !in segments' && (seg' == seg || fresh(seg'))
    ensures segments' == segments || segments' == segments + [seg]
    ensures Step(ParserState(old(ValuesOf(segments)), old(seg.Value())), raw) ==
      if err.Some? then Failure(err.value) else Success(ParserState(ValuesOf(segments'), seg'.Value()))
  {
    ghost var st := ParserState(ValuesOf(segments), seg.Value());
    segments', seg' := FlushSegment(segments, seg);
    ghost var flushed := ParserState(ValuesOf(segments'), seg'.Value());
    var line := Strip(raw);
    StepFills(st, raw);
    err := None;
    if line != "" && line != Signature {
      err := FillFields(seg', line);
      assert ValuesOf(segments') == flushed.done;
    }
  }

  /** `segments`: the line loop, mutating the current Segment and appending complete ones. */
  method Segments(lines: seq<string>) returns (r: Result<seq<Segment>, ParseError>)
    ensures r.Failure? <==> ParseSegments(lines).Failure?
    ensures r.Failure? ==> r.error == ParseSegments(lines).error
    ensures r.Success? ==> ValuesOf(r.value) == ParseSegments(lines).value
    ensures r.Success? ==> Distinct(r.value) && forall k :: 0 <= k < |r.value| ==> fresh(r.value[k])
  {
    var segments: seq<Segment> := [];
    var seg := new Segment();
    var i := 0;
    while i < |lines|
      invariant 0 <= i <= |lines|
      invariant fresh(seg) && seg !in segments
      invariant Distinct(segments) && forall k :: 0 <= k < |segments| ==> fresh(segments[k])
      invariant Run(lines[..i]) == Success(ParserState(ValuesOf(segments), seg.Value()))
    {
      ghost var st := ParserState(ValuesOf(segments), seg.Value());
      var err;
      segments, seg, err := ProcessLine(segments, seg, lines[i]);
      RunAdvance(lines, i, st, if err.Some? then Failure(err.value) else Success(ParserState(ValuesOf(segments), seg.Value())));
      if err.Some? {
        RunFailureSticks(lines, i + 1);
        return Failure(err.value);
      }
      i := i + 1;
    }
    assert lines[..i] == lines;
    return Success(segments);
  }

  /** One line: skipped when blank or the signature, otherwise `Fill` on the flushed segment. */
  lemma StepFills(st: ParserState, raw: string)
    ensures var line := Strip(raw);
      Step(st, raw) ==
        if line == "" || line == Signature then Success(Flush(st))
        else match Fill(Flush(st).cur, line)
          case Failure(e) => Failure(e)
          case Success(c) => Success(Flush(st).(cur := c))
  {
  }

  lemma RunAdvance(lines: seq<string>, i: nat, st: ParserState, next: Result<ParserState, ParseError>)
    requires i < |lines| && Run(lines[..i]) == Success(st) && Step(st, lines[i]) == next
    ensures Run(lines[..i + 1]) == next
  {
    RunStep(lines, i);
  }

  lemma RunStep(lines: seq<string>, i: nat)
    requires i < |lines|
    ensures Run(lines[..i + 1]) ==
      match Run(lines[..i]) case Failure(e) => Failure(e) case Success(s) => Step(s, lines[i])
  {
    RunFromSnoc(Initial, lines[..i], lines[i]);
    assert lines[..i + 1] == lines[..i] + [lines[i]];
  }

  /** Once the loop has raised, `segments` raises that same error whatever follows. */
  lemma {:induction false} RunFailureSticks(lines: seq<string>, i: nat)
    requires i <= |lines| && Run(lines[..i]).Failure?
    ensures Run(lines).Failure? && Run(lines).error == Run(lines[..i]).error
    decreases |lines| - i
  {
    if i < |lines| {
      RunStep(lines, i);
      RunFailureSticks(lines, i + 1);
    } else {
      assert lines[..i] == lines;
    }
  }

  // ---------------------------------------------------------------------
  // Properties of the parser

  /** A line that strips to nothing or to `WEBVTT` is one at which the parser does nothing but flush. */
  predicate Skipped(raw: string) {
    Strip(raw) == "" || Strip(raw) == Signature
  }

  lemma FlushIdempotent(st: ParserState)
    ensures Flush(Flush(st)) == Flush(st)
  {
  }

  /**
   * A skipped line changes nothing the next line can observe: the line
   * after it is processed exactly as if the skipped line were absent.
   */
  lemma SkippedLineInvisible(st: ParserState, skip: string, raw: string)
    requires Skipped(skip)
    ensures Step(st, skip) == Success(Flush(st))
    ensures Step(Flush(st), raw) == Step(st, raw)
  {
    FlushIdempotent(st);
  }

  /** `RunFrom` composes over concatenated inputs. */
  lemma {:induction false} RunFromAppend(st: ParserState, a: seq<string>, b: seq<string>)
    ensures RunFrom(st, a + b) ==
      if RunFrom(st, a).Failure? then RunFrom(st, a) else RunFrom(RunFrom(st, a).value, b)
    decreases |b|
  {
    if b == [] {
      assert a + b == a;
    } else {
      var b' := b[..|b| - 1];
      assert a + b == (a + b') + [b[|b| - 1]];
      RunFromSnoc(st, a + b', b[|b| - 1]);
      RunFromAppend(st, a, b');
      if RunFrom(st, a).Success? {
        RunFromSnoc(RunFrom(st, a).value, b', b[|b| - 1]);
      }
    }
  }

  lemma RunFromCons(st: ParserState, raw: string, rest: seq<string>)
    ensures RunFrom(st, [raw] + rest) ==
      if Step(st, raw).Failure? then Step(st, raw) else RunFrom(Step(st, raw).value, rest)
  {
    RunFromAppend(st, [raw], rest);
    RunFromSnoc(st, [], raw);
  }

  /** Removing a skipped line that some later line follows does not change what `segments` does. */
  lemma SkippedLineRemovable(st: ParserState, skip: string, raw: string, rest: seq<string>)
    requires Skipped(skip)
    ensures RunFrom(st, [skip, raw] + rest) == RunFrom(st, [raw] + rest)
  {
    assert [skip, raw] + rest == [skip] + ([raw] + rest);
    RunFromCons(st, skip, [raw] + rest);
    RunFromCons(Flush(st), raw, rest);
    RunFromCons(st, raw, rest);
    SkippedLineInvisible(st, skip, raw);
  }

  /** A meaningful line read while `num` is unset must parse with `int`, or the loop raises with it. */
  lemma IndexLine(st: ParserState, raw: string)
    requires !Skipped(raw) && Flush(st).cur.num == 0
    ensures ParseInt(Strip(raw)).None? ==> Step(st, raw) == Failure(ParseError(Strip(raw)))
    ensures ParseInt(Strip(raw)).Some? ==>
      Step(st, raw) == Success(Flush(st).(cur := Flush(st).cur.(num := ParseInt(Strip(raw)).value)))
  {
  }

  /** An index of 0 leaves `num` falsy: the state is as if the line had been skipped. */
  lemma ZeroIndexIgnored(st: ParserState, raw: string, next: string)
    requires !Skipped(raw) && Flush(st).cur.num == 0 && ParseInt(Strip(raw)) == Some(0)
    ensures Step(st, raw) == Success(Flush(st))
    ensures Step(Flush(st), next) == Step(st, next)
  {
    IndexLine(st, raw);
    assert Flush(st).cur.(num := 0) == Flush(st).cur;
    FlushIdempotent(st);
  }

  /** The timing line must split on ` --> ` into exactly two parts, else the loop raises with it. */
  lemma TimingLine(st: ParserState, raw: string)
    requires !Skipped(raw) && Flush(st).cur.num != 0 && Flush(st).cur.start == ""
    ensures var line := Strip(raw); var parts := SplitStr(line, TimeArrow);
      if |parts| == 2 then
        Step(st, raw) == Success(Flush(st).(cur := Flush(st).cur.(start := parts[0], end := parts[1])))
        && parts[0] + TimeArrow + parts[1] == line
      else Step(st, raw) == Failure(ParseError(line))
  {
  }

  /** A timing line without ` --> ` raises. */
  lemma TimingWithoutArrow(st: ParserState, raw: string)
    requires !Skipped(raw) && Flush(st).cur.num != 0 && Flush(st).cur.start == ""
    requires !Contains(Strip(raw), TimeArrow)
    ensures Step(st, raw) == Failure(ParseError(Strip(raw)))
  {
    SplitStrAbsent(Strip(raw), TimeArrow);
  }

  /**
   * The speaker line splits at its first `:` into an unstripped speaker and
   * a stripped text; without a colon the speaker is `OMITTED` and the whole
   * line is the text.
   */
  lemma SpeakerLine(st: ParserState, raw: string, who: string, said: string)
    requires !Skipped(raw)
    requires Flush(st).cur.num != 0 && Flush(st).cur.start != "" && Flush(st).cur.speaker.None?
    ensures Strip(raw) == who + [':'] + said && ':' !in who ==>
      Step(st, raw) == Success(Flush(st).(cur := Flush(st).cur.(speaker := Some(who), text := Strip(said))))
    ensures ':' !in Strip(raw) ==>
      Step(st, raw) == Success(Flush(st).(cur := Flush(st).cur.(speaker := Some(OmittedSpeaker), text := Strip(raw))))
  {
    if Strip(raw) == who + [':'] + said && ':' !in who {
      SplitFirstUnique(Strip(raw), ':', who, said);
    }
    StripIdempotent(raw);
  }

  /** The one segment a line can emit is the one complete before it, appended after the others. */
  lemma StepEmits(st: ParserState, raw: string)
    requires Step(st, raw).Success?
    ensures Step(st, raw).value.done == st.done + (if st.cur.Complete() then [st.cur] else [])
  {
  }

  /** Every segment `segments` returns is complete, and each prefix's output is a prefix of the whole output. */
  lemma {:induction false} RunDone(lines: seq<string>, i: nat)
    requires i <= |lines| && Run(lines).Success?
    ensures Run(lines[..i]).Success?
    ensures Run(lines[..i]).value.done <= Run(lines).value.done
    ensures forall k :: 0 <= k < |Run(lines).value.done| ==> Run(lines).value.done[k].Complete()
    decreases |lines| - i
  {
    if i < |lines| {
      RunDone(lines, i + 1);
      RunStep(lines, i);
      if Run(lines[..i]).Failure? {
        RunFailureSticks(lines, i);
      }
      StepEmits(Run(lines[..i]).value, lines[i]);
    } else {
      assert lines[..i] == lines;
      RunDoneComplete(lines);
    }
  }

  lemma {:induction false} RunDoneComplete(lines: seq<string>)
    requires Run(lines).Success?
    ensures forall k :: 0 <= k < |Run(lines).value.done| ==> Run(lines).value.done[k].Complete()
    decreases |lines|
  {
    if lines != [] {
      var init := lines[..|lines| - 1];
      RunFromSnoc(Initial, init, lines[|lines| - 1]);
      assert init + [lines[|lines| - 1]] == lines;
      RunDoneComplete(init);
      StepEmits(Run(init).value, lines[|lines| - 1]);
    }
  }

  /**
   * The segment completed by the last line is not returned; one more
   * skipped line would emit it.
   */
  lemma LastSegmentDropped(lines: seq<string>, skip: string)
    requires Run(lines).Success? && Run(lines).value.cur.Complete() && Skipped(skip)
    ensures ParseSegments(lines) == Success(Run(lines).value.done)
    ensures ParseSegments(lines + [skip]) == Success(Run(lines).value.done + [Run(lines).value.cur])
  {
    RunFromSnoc(Initial, lines, skip);
  }

  /** A segment whose fields are all set but that is not complete absorbs every later line. */
  predicate Stuck(cur: Seg) {
    cur.num != 0 && cur.start != "" && cur.speaker.Some? && !cur.Complete()
  }

  lemma {:induction false} StuckIgnoresRest(st: ParserState, rest: seq<string>)
    requires Stuck(st.cur)
    ensures RunFrom(st, rest) == Success(st)
    decreases |rest|
  {
    if rest != [] {
      StuckIgnoresRest(st, rest[..|rest| - 1]);
    }
  }

  /** After a complete segment, the next meaningful line is read as an index, so a second payload line raises. */
  lemma AfterCompleteIndex(st: ParserState, raw: string)
    requires st.cur.Complete() && !Skipped(raw)
    ensures ParseInt(Strip(raw)).None? ==> Step(st, raw) == Failure(ParseError(Strip(raw)))
    ensures ParseInt(Strip(raw)).Some? ==>
      Step(st, raw) == Success(ParserState(st.done + [st.cur], Fresh.(num := ParseInt(Strip(raw)).value)))
  {
  }

  // ---------------------------------------------------------------------
  // The compactor

  /** What `compact` does to a run head when the next segment has the same speaker. */
  function Merge(head: Seg, next: Seg): Seg {
    head.(text := head.text + "\n" + next.text, end := next.end)
  }

  /** One iteration of the loop in `compact`, on the chunks closed so far plus the open one. */
  function Absorb(acc: seq<Seg>, s: Seg): seq<Seg> {
    if acc != [] && acc[|acc| - 1].speaker == s.speaker then acc[..|acc| - 1] + [Merge(acc[|acc| - 1], s)]
    else acc + [s]
  }

  /** What `compact(segs)` returns, as values. */
  function Compacted(v: seq<Seg>): (r: seq<Seg>)
    ensures |r| <= |v|
    ensures r == [] <==> v == []
    decreases |v|
  {
    if v == [] then [] else Absorb(Compacted(v[..|v| - 1]), v[|v| - 1])
  }

  /** Indices of `v` at which a maximal run of one speaker begins. */
  function Starts(v: seq<Seg>): (r: seq<nat>)
    ensures forall k :: 0 <= k < |r| ==> r[k] < |v|
    decreases |v|
  {
    if v == [] then []
    else Starts(v[..|v| - 1]) + (if |v| > 1 && v[|v| - 2].speaker == v[|v| - 1].speaker then [] else [|v| - 1])
  }

  /** Python's "\n".join over the texts of a run. */
  function JoinTexts(run: seq<Seg>): string
    requires run != []
    decreases |run|
  {
    if |run| == 1 then run[0].text else JoinTexts(run[..|run| - 1]) + "\n" + run[|run| - 1].text
  }

  /** The chunk a run becomes: its first segment, with the last end and all texts joined. */
  function MergeRun(run: seq<Seg>): Seg
    requires run != []
  {
    run[0].(end := run[|run| - 1].end, text := JoinTexts(run))
  }

  predicate RunStartAt(v: seq<Seg>, i: int) {
    0 <= i < |v| && (i == 0 || v[i - 1].speaker != v[i].speaker)
  }

  /** The run starts are exactly the indices where the speaker changes, in increasing order. */
  lemma {:induction false} StartsAreRunStarts(v: seq<Seg>)
    ensures forall i :: i in Starts(v) <==> RunStartAt(v, i)
    ensures forall k, l :: 0 <= k < l < |Starts(v)| ==> Starts(v)[k] < Starts(v)[l]
    ensures v != [] ==> |Starts(v)| > 0 && Starts(v)[0] == 0
    decreases |v|
  {
    if v != [] {
      var u := v[..|v| - 1];
      StartsAreRunStarts(u);
      var extra := if |v| > 1 && v[|v| - 2].speaker == v[|v| - 1].speaker then [] else [|v| - 1];
      assert Starts(v) == Starts(u) + extra;
      assert forall i :: i in Starts(u) ==> i < |u|;
      forall i ensures i in Starts(v) <==> RunStartAt(v, i) {
        assert RunStartAt(u, i) <==> 0 <= i < |u| && RunStartAt(v, i);
      }
      forall k, l | 0 <= k < l < |Starts(v)| ensures Starts(v)[k] < Starts(v)[l] {
        if l >= |Starts(u)| {
          assert Starts(v)[k] == Starts(u)[k] && Starts(u)[k] in Starts(u);
        }
      }
      if u == [] {
        assert Starts(u) == [];
        assert extra == [0];
      } else {
        assert Starts(v)[0] == Starts(u)[0];
      }
    }
  }

  /** End (exclusive) of the k-th run. */
  function RunEnd(v: seq<Seg>, k: nat): nat
    requires k < |Starts(v)|
  {
    if k + 1 < |Starts(v)| then Starts(v)[k + 1] else |v|
  }

  lemma MergeRunSnoc(run: seq<Seg>, s: Seg)
    requires run != []
    ensures MergeRun(run + [s]) == Merge(MergeRun(run), s)
  {
    assert (run + [s])[..|run|] == run;
  }

  /** `c[k]` is the merge of the k-th maximal run of `v`, for every k. */
  predicate ChunksOfRuns(v: seq<Seg>, c: seq<Seg>) {
    && |c| == |Starts(v)|
    && forall k :: 0 <= k < |c| ==>
      Starts(v)[k] < RunEnd(v, k) <= |v| && c[k] == MergeRun(v[Starts(v)[k]..RunEnd(v, k)])
  }

  lemma StartsSnoc(u: seq<Seg>, s: Seg)
    ensures Starts(u + [s]) == Starts(u) + (if u != [] && u[|u| - 1].speaker == s.speaker then [] else [|u|])
  {
    assert (u + [s])[..|u|] == u;
  }

  /** A run of `u` that one more segment leaves closed keeps its bounds and its segments. */
  lemma ClosedRunKept(u: seq<Seg>, s: Seg, k: nat)
    requires k < |Starts(u)| && k + 1 < |Starts(u + [s])|
    requires Starts(u)[k] <= RunEnd(u, k) <= |u|
    ensures Starts(u + [s])[k] == Starts(u)[k] && RunEnd(u + [s], k) == RunEnd(u, k)
    ensures (u + [s])[Starts(u)[k]..RunEnd(u, k)] == u[Starts(u)[k]..RunEnd(u, k)]
  {
    StartsSnoc(u, s);
  }

  /** A segment with the last chunk's speaker extends the last run. */
  lemma AbsorbExtendsRun(u: seq<Seg>, s: Seg, c: seq<Seg>)
    requires ChunksOfRuns(u, c) && u != [] && u[|u| - 1].speaker == s.speaker
    requires c != [] && c[|c| - 1].speaker == u[|u| - 1].speaker
    ensures ChunksOfRuns(u + [s], Absorb(c, s))
  {
    var v := u + [s];
    StartsSnoc(u, s);
    var r := Absorb(c, s);
    var last := |Starts(u)| - 1;
    assert r == c[..last] + [Merge(c[last], s)];
    forall k | 0 <= k < |r|
      ensures Starts(v)[k] < RunEnd(v, k) <= |v| && r[k] == MergeRun(v[Starts(v)[k]..RunEnd(v, k)])
    {
      if k < last {
        ClosedRunKept(u, s, k);
      } else {
        var run := u[Starts(u)[k]..|u|];
        assert v[Starts(v)[k]..RunEnd(v, k)] == run + [s];
        MergeRunSnoc(run, s);
      }
    }
  }

  /** A segment with a new speaker opens a new run. */
  lemma AbsorbStartsRun(u: seq<Seg>, s: Seg, c: seq<Seg>)
    requires ChunksOfRuns(u, c) && (u == [] || u[|u| - 1].speaker != s.speaker)
    requires c == [] <==> u == []
    requires u != [] ==> c[|c| - 1].speaker == u[|u| - 1].speaker
    ensures ChunksOfRuns(u + [s], Absorb(c, s))
  {
    var v := u + [s];
    StartsSnoc(u, s);
    var r := Absorb(c, s);
    assert r == c + [s];
    forall k | 0 <= k < |r|
      ensures Starts(v)[k] < RunEnd(v, k) <= |v| && r[k] == MergeRun(v[Starts(v)[k]..RunEnd(v, k)])
    {
      if k < |c| {
        ClosedRunKept(u, s, k);
      } else {
        assert v[Starts(v)[k]..RunEnd(v, k)] == [s];
      }
    }
  }

  /** The last chunk has the speaker of the last segment. */
  lemma {:induction false} CompactedLastSpeaker(v: seq<Seg>)
    requires v != []
    ensures Compacted(v)[|Compacted(v)| - 1].speaker == v[|v| - 1].speaker
  {
    var c := Compacted(v[..|v| - 1]);
    if c != [] && c[|c| - 1].speaker == v[|v| - 1].speaker {
      assert Compacted(v)[|Compacted(v)| - 1] == Merge(c[|c| - 1], v[|v| - 1]);
    }
  }

  /**
   * `compact` yields one chunk per maximal run: the k-th chunk is the run's
   * first segment with the run's last `end` and its texts joined by newlines.
   */
  lemma {:induction false} CompactedRuns(v: seq<Seg>)
    ensures ChunksOfRuns(v, Compacted(v))
    decreases |v|
  {
    if v != [] {
      var u := v[..|v| - 1];
      var s := v[|v| - 1];
      assert v == u + [s];
      CompactedRuns(u);
      if u != [] {
        CompactedLastSpeaker(u);
      }
      if u != [] && u[|u| - 1].speaker == s.speaker {
        AbsorbExtendsRun(u, s, Compacted(u));
      } else {
        AbsorbStartsRun(u, s, Compacted(u));
      }
    }
  }

  predicate NoAdjacentSameSpeaker(c: seq<Seg>) {
    forall k :: 0 < k < |c| ==> c[k - 1].speaker != c[k].speaker
  }

  lemma AbsorbAlternates(c: seq<Seg>, s: Seg)
    requires NoAdjacentSameSpeaker(c)
    ensures NoAdjacentSameSpeaker(Absorb(c, s))
    ensures Absorb(c, s)[|Absorb(c, s)| - 1].speaker == s.speaker
  {
    var r := Absorb(c, s);
    if c != [] && c[|c| - 1].speaker == s.speaker {
      forall k | 0 < k < |r| ensures r[k - 1].speaker != r[k].speaker {
        assert r[k - 1] == c[k - 1];
        assert r[k].speaker == c[k].speaker;
      }
    } else {
      forall k | 0 < k < |r| ensures r[k - 1].speaker != r[k].speaker {
        if k < |c| {
          assert r[k - 1] == c[k - 1] && r[k] == c[k];
        }
      }
    }
  }

  /** Adjacent chunks always have different speakers. */
  lemma {:induction false} CompactedAlternates(v: seq<Seg>)
    ensures NoAdjacentSameSpeaker(Compacted(v))
    decreases |v|
  {
    if v != [] {
      CompactedAlternates(v[..|v| - 1]);
      AbsorbAlternates(Compacted(v[..|v| - 1]), v[|v| - 1]);
    }
  }

  /** A sequence whose neighbours already differ in speaker is left as it is. */
  lemma {:induction false} CompactedFixpoint(c: seq<Seg>)
    requires NoAdjacentSameSpeaker(c)
    ensures Compacted(c) == c
    decreases |c|
  {
    if c != [] {
      var u := c[..|c| - 1];
      CompactedFixpoint(u);
      assert u + [c[|c| - 1]] == c;
    }
  }

  /** Re-compacting the output of `compact` changes nothing. */
  lemma CompactIdempotent(v: seq<Seg>)
    ensures Compacted(Compacted(v)) == Compacted(v)
  {
    CompactedAlternates(v);
    CompactedFixpoint(Compacted(v));
  }

  /**
   * The body of the loop in `compact`: a segment with the open chunk's speaker
   * is merged into it in place, any other closes the chunk and opens a new one.
   */
  method AbsorbSegment(chunks: seq<Segment>, chunk: Segment, seg: Segment)
    returns (chunks': seq<Segment>, chunk': Segment)
    requires chunk !in chunks && seg != chunk
    modifies chunk
    ensures seg.speaker == old(chunk.speaker) ==> chunks' == chunks && chunk' == chunk
    ensures seg.speaker != old(chunk.speaker) ==> chunks' == chunks + [chunk] && chunk' == seg
    ensures chunk'.speaker == seg.speaker
    ensures ValuesOf(chunks' + [chunk']) == Absorb(old(ValuesOf(chunks + [chunk])), old(seg.Value()))
  {
    chunks', chunk' := chunks, chunk;
    if seg.speaker == chunk.speaker {
      chunk.text := chunk.text + "\n" + seg.text;
      chunk.end := seg.end;
    } else {
      chunks' := chunks + [chunk];
      chunk' := seg;
    }
  }

  /** How the run starts of a prefix grow by one segment. */
  lemma StartsGrow(v: seq<Seg>, i: nat, heads: seq<nat>)
    requires 0 < i < |v| && heads == Starts(v[..i])
    ensures Starts(v[..i + 1]) == if v[i - 1].speaker == v[i].speaker then heads else heads + [i]
    ensures forall k :: 0 <= k < |heads| ==> RunStartAt(v, heads[k]) && heads[k] < i
    ensures forall k, l :: 0 <= k < l < |heads| ==> heads[k] < heads[l]
    ensures Compacted(v[..i + 1]) == Absorb(Compacted(v[..i]), v[i])
  {
    assert v[..i + 1] == v[..i] + [v[i]];
    StartsSnoc(v[..i], v[i]);
    StartsAreRunStarts(v[..i]);
    forall k | 0 <= k < |heads| ensures RunStartAt(v, heads[k]) && heads[k] < i {
      assert heads[k] in Starts(v[..i]);
    }
  }

  /**
   * What `compact` knows after folding `v[..i]`: `heads` are the run starts
   * so far, `chunks` the finished run heads, `chunk` the open one, and every
   * segment that is not a run head still holds its original value.
   */
  predicate CompactState(segs: seq<Segment>, v: seq<Seg>, i: nat, heads: seq<nat>, chunks: seq<Segment>, chunk: Segment)
    reads segs, chunk
  {
    0 < i <= |v| == |segs| && heads == Starts(v[..i]) && |chunks| + 1 == |heads|
    && (forall k :: 0 <= k < |heads| ==> heads[k] < i)
    && (forall k :: 0 <= k < |chunks| ==> chunks[k] == segs[heads[k]])
    && chunk == segs[heads[|heads| - 1]] && chunk.speaker == v[i - 1].speaker
    && ValuesOf(chunks + [chunk]) == Compacted(v[..i])
    && (forall j :: 0 <= j < |segs| && (i <= j || !RunStartAt(v, j)) ==> segs[j].Value() == v[j])
  }

  /** One iteration of `compact`'s loop: absorbs `segs[i]`. */
  method CompactStep(segs: seq<Segment>, ghost v: seq<Seg>, i: nat, ghost heads: seq<nat>, chunks: seq<Segment>, chunk: Segment)
    returns (chunks': seq<Segment>, chunk': Segment, ghost heads': seq<nat>)
    requires Distinct(segs) && i < |segs| && CompactState(segs, v, i, heads, chunks, chunk)
    modifies segs
    ensures CompactState(segs, v, i + 1, heads', chunks', chunk')
  {
    StartsGrow(v, i, heads);
    StartsAreRunStarts(v[..i]);
    var seg := segs[i];
    assert seg.Value() == v[i];
    ghost var same := v[i - 1].speaker == v[i].speaker;
    assert same == (seg.speaker == chunk.speaker);
    ghost var hd := heads[|heads| - 1];
    assert chunk !in chunks by {
      forall k | 0 <= k < |chunks| ensures chunks[k] != chunk {
        assert heads[k] < hd;
      }
    }
    label Before:
    chunks', chunk' := AbsorbSegment(chunks, chunk, seg);
    forall j | 0 <= j < |segs| && (i + 1 <= j || !RunStartAt(v, j))
      ensures segs[j].Value() == v[j]
    {
      assert j != hd by {
        assert hd in Starts(v[..i]);
      }
      assert segs[j] != chunk;
      assert segs[j].Value() == old@Before(segs[j].Value());
    }
    assert ValuesOf(chunks' + [chunk']) == Compacted(v[..i + 1]);
    if same {
      heads' := heads;
      assert chunks' == chunks && chunk' == chunk;
    } else {
      heads' := heads + [i];
      assert chunks' == chunks + [chunk] && chunk' == seg;
    }
  }

  lemma CompactStateInit(segs: seq<Segment>, v: seq<Seg>)
    requires |segs| > 0 && v == ValuesOf(segs)
    ensures CompactState(segs, v, 1, [0], [], segs[0])
  {
    assert v[..1] == [v[0]];
  }

  lemma CompactStateDone(segs: seq<Segment>, v: seq<Seg>, heads: seq<nat>, chunks: seq<Segment>, chunk: Segment)
    requires CompactState(segs, v, |segs|, heads, chunks, chunk)
    ensures ValuesOf(chunks + [chunk]) == Compacted(v) && |chunks + [chunk]| == |Starts(v)|
    ensures forall k :: 0 <= k < |chunks + [chunk]| ==> (chunks + [chunk])[k] == segs[Starts(v)[k]]
    ensures forall j :: 0 <= j < |segs| && j !in Starts(v) ==> segs[j].Value() == v[j]
  {
    assert v[..|segs|] == v;
    var all := chunks + [chunk];
    forall k | 0 <= k < |all| ensures all[k] == segs[Starts(v)[k]] {
      if k < |chunks| {
        assert all[k] == chunks[k];
      } else {
        assert all[k] == chunk;
      }
    }
    NonHeadsUntouched(segs, v, Starts(v));
  }

  /** Segments at no run start keep their values once every segment is absorbed. */
  lemma NonHeadsUntouched(segs: seq<Segment>, v: seq<Seg>, heads: seq<nat>)
    requires |v| == |segs| && heads == Starts(v)
    requires forall j :: 0 <= j < |segs| && !RunStartAt(v, j) ==> segs[j].Value() == v[j]
    ensures forall j :: 0 <= j < |segs| && j !in heads ==> segs[j].Value() == v[j]
  {
    StartsAreRunStarts(v);
  }

  /**
   * `compact`: merges each run of same-speaker segments into its first
   * segment, in place, and returns those run heads in order.
   */
  method Compact(segs: seq<Segment>) returns (chunks: seq<Segment>)
    requires Distinct(segs)
    modifies segs
    ensures ValuesOf(chunks) == Compacted(old(ValuesOf(segs)))
    ensures |chunks| == |Starts(old(ValuesOf(segs)))|
    ensures forall k :: 0 <= k < |chunks| ==> chunks[k] == segs[Starts(old(ValuesOf(segs)))[k]]
    ensures forall j :: 0 <= j < |segs| && j !in Starts(old(ValuesOf(segs))) ==> segs[j].Value() == old(segs[j].Value())
  {
    chunks := [];
    if |segs| == 0 {
      return chunks;
    }
    ghost var v := ValuesOf(segs);
    var chunk := segs[0];
    ghost var heads: seq<nat> := [0];
    CompactStateInit(segs, v);
    for i := 1 to |segs|
      invariant CompactState(segs, v, i, heads, chunks, chunk)
    {
      chunks, chunk, heads := CompactStep(segs, v, i, heads, chunks, chunk);
    }
    CompactStateDone(segs, v, heads, chunks, chunk);
    chunks := chunks + [chunk];
  }

  // ---------------------------------------------------------------------
  // The compacted output

  /** Python's `"%s" % speaker`: the string itself, or `None`. */
  function SpeakerText(speaker: Option<string>): string {
    if speaker.Some? then speaker.value else "None"
  }

  /**
   * The header line `main_compact` writes in front of each chunk; the record
   * continues with a blank line, the chunk's text and two newlines.
   */
  function HeaderLine(c: Seg): string {
    IntToString(c.num) + ". " + SpeakerText(c.speaker) + ". " + c.start + " -> " + c.end
  }
}
