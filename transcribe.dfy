/** The decode constraint engine of src/sys/whisper.cpp:
    `TranscribeLogitsProcessor::process` rewrites the scores of every beam of
    one decode step so that only grammatical continuations stay finite, and a
    small registry maps request ids to per-request contexts.

    `ProcessSpec` states the whole step as a function of the scores before it
    and the beam histories; the method `Process` does the same work in place,
    loop by loop as the source does, and is proved equal to it. The rule
    lemmas at the end state what the step guarantees, each about
    `ProcessSpec`. */
module Transcribe {
  import opened Rows
  import opened Vocab
  import opened Wrappers
  import opened SysLogits

  /** The tokens one beam has produced so far, prompt included. */
  type History = seq<int>

  // ---------------------------------------------------------------------------
  // Reading a beam history.

  predicate LastIsTimestamp(h: History) {
    |h| >= 1 && IsTimestamp(h[|h| - 1])
  }

  /** The penultimate token counts as a timestamp when it is one, and also on
      the first text position (`is_first_text`, decided once from beam 0). */
  predicate PenultimateIsTimestamp(h: History, firstText: bool) {
    firstText || (|h| >= 2 && IsTimestamp(h[|h| - 2]))
  }

  /** Two timestamps in a row: a zero-length segment would follow. */
  predicate DoubleTimestamp(h: History, firstText: bool) {
    LastIsTimestamp(h) && PenultimateIsTimestamp(h, firstText)
  }

  /** A (text, timestamp) pair has just closed a segment. */
  predicate ClosesSegment(h: History, firstText: bool) {
    LastIsTimestamp(h) && !PenultimateIsTimestamp(h, firstText)
  }

  /** In single-segment mode, closing a segment ends the step at once. */
  predicate Finishes(h: History, firstText: bool, stop: bool) {
    stop && ClosesSegment(h, firstText)
  }

  /** Every beam that does not end the step and does not end in two
      timestamps asks for the probability check. */
  predicate SetsCheck(h: History, firstText: bool) {
    !DoubleTimestamp(h, firstText)
  }

  /** The backward scan stops at TRANSCRIBE or at a timestamp. */
  predicate IsScanStop(t: int) {
    t == TRANSCRIBE || IsTimestamp(t)
  }

  /** Some stop lies at or before `i`, so the scan from `i` down stays in
      bounds and terminates. */
  ghost predicate ScanStops(h: History, i: int) {
    0 <= i < |h| && exists j :: 0 <= j <= i && IsScanStop(h[j])
  }

  /** `k` is the stop nearest to `i` at or below it. */
  ghost predicate NearestStop(h: History, i: int, k: int) {
    && 0 <= k <= i < |h|
    && IsScanStop(h[k])
    && forall j :: k < j <= i ==> !IsScanStop(h[j])
  }

  /** The scan of lines 282-288 from index `i` down: None when it meets
      TRANSCRIBE first, Some(t) when it meets timestamp t first. */
  function ScanTimestamp(h: History, i: int): (r: Option<int>)
    requires ScanStops(h, i)
    ensures r.Some? ==> IsTimestamp(r.value)
    decreases i
  {
    if h[i] == TRANSCRIBE then None
    else if IsTimestamp(h[i]) then Some(h[i])
    else
      assert ScanStops(h, i - 1) by {
        var j :| 0 <= j <= i && IsScanStop(h[j]);
        assert j != i;
      }
      ScanTimestamp(h, i - 1)
  }

  /** The scan from `i` down meets the stop nearest to `i` first. */
  lemma {:induction false} ScanFindsNearest(h: History, i: int, k: int)
    requires ScanStops(h, i) && NearestStop(h, i, k)
    ensures ScanTimestamp(h, i) == if h[k] == TRANSCRIBE then None else Some(h[k])
    decreases i
  {
    if i != k {
      assert !IsScanStop(h[i]);
      assert ScanStops(h, i - 1) && NearestStop(h, i - 1, k);
      ScanFindsNearest(h, i - 1, k);
    }
  }

  /** What the step reads of one beam history exists: the last token, the
      penultimate one unless `is_first_text` short-circuits it, and a stop for
      the backward scan when the last token is not a timestamp. */
  ghost predicate Readable(h: History, firstText: bool) {
    && |h| >= 1
    && (firstText || |h| >= 2)
    && (LastIsTimestamp(h) || ScanStops(h, |h| - 1))
  }

  // ---------------------------------------------------------------------------
  // One beam.

  datatype BeamStep =
    | Continue(row: Row, check: bool)  // go on with the next beam
    | Finish(row: Row)                 // the early return of line 273

  /** The rules of lines 259-290 for one beam row. */
  function BeamRule(row: Row, h: History, firstText: bool, stop: bool): (s: BeamStep)
    requires Readable(h, firstText) && END_OF_TEXT < |row|
    ensures |s.row| == |row|
    ensures s.Finish? == Finishes(h, firstText, stop)
    ensures s.Continue? ==> s.check == SetsCheck(h, firstText)
  {
    var last := h[|h| - 1];
    if IsTimestamp(last) then
      if PenultimateIsTimestamp(h, firstText) then
        Continue(TimestampsSuppressed(row, None), false)
      else if stop then
        Finish(EotForced(row))
      else
        Continue(TimestampsSuppressed(TextSuppressed(row), Some(last as nat)), true)
    else
      Continue(ScanSuppressed(row, h), true)
  }

  /** The row after the backward scan of lines 280-290: the timestamps up to
      and including the one the scan meets are closed; nothing changes when
      it meets TRANSCRIBE first. The scan only ever closes timestamps: text
      and special tokens keep their scores, and every other score is kept
      or becomes −∞. */
  function ScanSuppressed(row: Row, h: History): (r: Row)
    requires ScanStops(h, |h| - 1)
    ensures |r| == |row|
    ensures forall i :: 0 <= i < START_OF_TIMESTAMP && i < |row| ==> r[i] == row[i]
    ensures forall i :: 0 <= i < |row| ==> r[i] == row[i] || r[i] == NegInf
  {
    match ScanTimestamp(h, |h| - 1)
    case Some(t) => TimestampsSuppressed(row, Some(t as nat + 1))
    case None => row
  }

  // ---------------------------------------------------------------------------
  // All beams.

  /** Every row reaches NO_TIMESTAMPS (and so every control token). */
  ghost predicate Wide(rows: seq<Row>) {
    forall k :: 0 <= k < |rows| ==> NO_TIMESTAMPS < |rows[k]|
  }

  /** The beam loop, started at beam `b`, gets to beam `k`: no beam in
      between ends the step. */
  predicate Reached(tokens: seq<History>, firstText: bool, stop: bool, b: nat, k: nat) {
    forall j :: b <= j < k && j < |tokens| ==> !Finishes(tokens[j], firstText, stop)
  }

  /** Every beam the loop gets to has a readable history. */
  ghost predicate Runnable(tokens: seq<History>, firstText: bool, stop: bool, b: nat) {
    && b <= |tokens|
    && forall k :: b <= k < |tokens| && Reached(tokens, firstText, stop, b, k) ==> Readable(tokens[k], firstText)
  }

  /** The step the beam loop takes at one beam: the beam rule on a history
      the step can read. A history it cannot read is one the loop never
      gets to (`Runnable`); there the row is kept, with the same flags. */
  ghost function StepAt(row: Row, h: History, firstText: bool, stop: bool): (s: BeamStep)
    ensures |s.row| == |row|
    ensures s.Finish? == Finishes(h, firstText, stop)
    ensures s.Continue? ==> s.check == SetsCheck(h, firstText)
    ensures Readable(h, firstText) && END_OF_TEXT < |row| ==> s == BeamRule(row, h, firstText, stop)
  {
    if Readable(h, firstText) && END_OF_TEXT < |row| then BeamRule(row, h, firstText, stop)
    else if Finishes(h, firstText, stop) then Finish(row)
    else Continue(row, SetsCheck(h, firstText))
  }

  /** The step at every beam, each taken on the row as it was before the
      loop: the loop changes no row before it gets to it. */
  ghost function Steps(rows: seq<Row>, tokens: seq<History>, firstText: bool, stop: bool): (s: seq<BeamStep>)
    requires |tokens| <= |rows|
    ensures |s| == |tokens|
    ensures forall k :: 0 <= k < |tokens| ==> s[k] == StepAt(rows[k], tokens[k], firstText, stop)
  {
    seq(|tokens|, k requires 0 <= k < |tokens| => StepAt(rows[k], tokens[k], firstText, stop))
  }

  /** At most one step per row, and each step keeps its row's length. */
  ghost predicate Fits(rows: seq<Row>, steps: seq<BeamStep>) {
    |steps| <= |rows| && forall k :: 0 <= k < |steps| ==> |steps[k].row| == |rows[k]|
  }

  /** No step from `b` up to `k` ends the loop. */
  predicate Passes(steps: seq<BeamStep>, b: nat, k: nat) {
    forall j :: b <= j < k && j < |steps| ==> steps[j].Continue?
  }

  datatype Walked = Walked(rows: seq<Row>, check: bool, finished: bool)

  /** The beam loop of lines 255-291 from beam `b` on, with the shared
      `check_timestamps_prob` flag, given the step at each beam. */
  function Walk(rows: seq<Row>, steps: seq<BeamStep>, b: nat, check: bool): (w: Walked)
    requires Fits(rows, steps) && b <= |steps|
    ensures |w.rows| == |rows|
    ensures forall k :: 0 <= k < |rows| ==> |w.rows[k]| == |rows[k]|
    decreases |steps| - b
  {
    if b == |steps| then Walked(rows, check, false)
    else
      match steps[b]
      case Finish(r) => Walked(rows[b := r], check, true)
      case Continue(r, c) => Walk(rows[b := r], steps, b + 1, check || c)
  }

  function AllNonLanguagesSuppressed(rows: seq<Row>): (r: seq<Row>)
    ensures |r| == |rows|
    ensures forall k :: 0 <= k < |rows| ==> |r[k]| == |rows[k]|
  {
    seq(|rows|, k requires 0 <= k < |rows| => NonLanguagesSuppressed(rows[k]))
  }

  function AllTranscribeForced(rows: seq<Row>): (r: seq<Row>)
    requires Wide(rows)
    ensures |r| == |rows|
    ensures forall k :: 0 <= k < |rows| ==> |r[k]| == |rows[k]|
  {
    seq(|rows|, k requires 0 <= k < |rows| => TranscribeForced(rows[k]))
  }

  function AllNoTimestampsSuppressed(rows: seq<Row>): (r: seq<Row>)
    requires Wide(rows)
    ensures |r| == |rows| && Wide(r)
    ensures forall k :: 0 <= k < |rows| ==> |r[k]| == |rows[k]|
  {
    seq(|rows|, k requires 0 <= k < |rows| => NoTimestampsSuppressed(rows[k]))
  }

  /** Lines 293-306: each of the first `n` beams whose timestamp mass beats
      its best text score loses every non-timestamp token. `massBeats(ts,
      text)` stands for "logsumexp of the timestamp log-probabilities exceeds
      the maximum of the others", the two halves given by `Logprobs`. */
  function ProbabilityChecked(rows: seq<Row>, n: nat, massBeats: (Row, Row) -> bool): (r: seq<Row>)
    ensures |r| == |rows|
    ensures forall k :: 0 <= k < |rows| ==> |r[k]| == |rows[k]|
  {
    seq(|rows|, k requires 0 <= k < |rows| => CheckedRow(rows[k], k < n, massBeats))
  }

  /** One row of the probability check, when it applies to that row. */
  function CheckedRow(row: Row, applies: bool, massBeats: (Row, Row) -> bool): (r: Row)
    ensures |r| == |row|
  {
    if applies && massBeats(Timestamps(row), NonTimestamps(row)) then NonTimestampsSuppressed(row) else row
  }

  /** `is_first_text`: beam 0's penultimate token is TRANSCRIBE. */
  function FirstText(tokens: seq<History>): bool
    requires |tokens| >= 1 && |tokens[0]| >= 2
  {
    tokens[0][|tokens[0]| - 2] == TRANSCRIBE
  }

  predicate LanguageGate(tokens: seq<History>)
    requires |tokens| >= 1 && |tokens[0]| >= 1
  {
    tokens[0][|tokens[0]| - 1] == START_OF_TRANSCRIPT
  }

  predicate TaskGate(tokens: seq<History>)
    requires |tokens| >= 1 && |tokens[0]| >= 1
  {
    !LanguageGate(tokens) && |tokens[0]| > 1 && tokens[0][|tokens[0]| - 2] == START_OF_TRANSCRIPT
  }

  /** Neither gate applies: the ordinary text/timestamp rules run. */
  predicate General(tokens: seq<History>)
    requires |tokens| >= 1 && |tokens[0]| >= 1
  {
    !LanguageGate(tokens) && !TaskGate(tokens)
  }

  /** What `process` needs of its inputs: a beam 0 with a last token, a
      penultimate one on the general path (line 248 reads it unguarded),
      readable histories for every beam the loop gets to, no more histories
      than score rows, and rows that reach every control token. */
  ghost predicate ProcessDefined(rows: seq<Row>, tokens: seq<History>, stop: bool) {
    && Wide(rows)
    && 1 <= |tokens| <= |rows|
    && |tokens[0]| >= 1
    && (General(tokens) ==> |tokens[0]| >= 2 && Runnable(tokens, FirstText(tokens), stop, 0))
  }

  /** The beam loop's result on the general path. */
  ghost function Beams(rows: seq<Row>, tokens: seq<History>, stop: bool): (w: Walked)
    requires ProcessDefined(rows, tokens, stop) && General(tokens)
    ensures |w.rows| == |rows|
    ensures forall k :: 0 <= k < |rows| ==> |w.rows[k]| == |rows[k]|
  {
    var stage1 := AllNoTimestampsSuppressed(rows);
    Walk(stage1, Steps(stage1, tokens, FirstText(tokens), stop), 0, false)
  }

  /** The whole decode step. */
  ghost function ProcessSpec(rows: seq<Row>, tokens: seq<History>, stop: bool, massBeats: (Row, Row) -> bool): (r: seq<Row>)
    requires ProcessDefined(rows, tokens, stop)
    ensures |r| == |rows|
    ensures forall k :: 0 <= k < |rows| ==> |r[k]| == |rows[k]|
  {
    if LanguageGate(tokens) then AllNonLanguagesSuppressed(rows)
    else if TaskGate(tokens) then AllTranscribeForced(rows)
    else
      var w := Beams(rows, tokens, stop);
      if !w.finished && w.check then ProbabilityChecked(w.rows, |tokens|, massBeats) else w.rows
  }

  // ---------------------------------------------------------------------------
  // What the beam loop does, beam by beam.

  /** The beam loop started at `b` replaces exactly the rows it gets to by
      their steps and leaves every other row alone. */
  lemma {:induction false} WalkRows(rows: seq<Row>, steps: seq<BeamStep>, b: nat, check: bool)
    requires Fits(rows, steps) && b <= |steps|
    ensures var w := Walk(rows, steps, b, check);
      forall k :: 0 <= k < |rows| ==>
        w.rows[k] == (if b <= k < |steps| && Passes(steps, b, k) then steps[k].row else rows[k])
    decreases |steps| - b
  {
    if b < |steps| {
      match steps[b]
      case Finish(r) =>
        forall k | b < k < |steps|
          ensures !Passes(steps, b, k)
        {
          assert !steps[b].Continue?;
        }
      case Continue(r, c) =>
        WalkRows(rows[b := r], steps, b + 1, check || c);
    }
  }

  /** The beam loop ends the step exactly when a step it gets to finishes. */
  lemma {:induction false} WalkFinished(rows: seq<Row>, steps: seq<BeamStep>, b: nat, check: bool)
    requires Fits(rows, steps) && b <= |steps|
    ensures Walk(rows, steps, b, check).finished <==>
      exists k :: b <= k < |steps| && Passes(steps, b, k) && steps[k].Finish?
    decreases |steps| - b
  {
    if b < |steps| {
      assert Passes(steps, b, b);
      match steps[b]
      case Finish(r) =>
      case Continue(r, c) =>
        WalkFinished(rows[b := r], steps, b + 1, check || c);
        assert forall k :: b + 1 <= k ==> Passes(steps, b + 1, k) == Passes(steps, b, k);
    }
  }

  /** The beam loop asks for the probability check exactly when the flag was
      already set or a step it gets to, and that does not finish, sets it. */
  lemma {:induction false} WalkCheck(rows: seq<Row>, steps: seq<BeamStep>, b: nat, check: bool)
    requires Fits(rows, steps) && b <= |steps|
    ensures Walk(rows, steps, b, check).check <==>
      check || exists k :: b <= k < |steps| && Passes(steps, b, k) && steps[k].Continue? && steps[k].check
    decreases |steps| - b
  {
    if b < |steps| {
      assert Passes(steps, b, b);
      match steps[b]
      case Finish(r) =>
        forall k | b < k < |steps|
          ensures !Passes(steps, b, k)
        {
          assert !steps[b].Continue?;
        }
      case Continue(r, c) =>
        WalkCheck(rows[b := r], steps, b + 1, check || c);
        assert forall k :: b + 1 <= k ==> Passes(steps, b + 1, k) == Passes(steps, b, k);
    }
  }

  /** The steps of a decode step end the loop where the histories do. */
  lemma PassesReached(rows: seq<Row>, tokens: seq<History>, firstText: bool, stop: bool)
    requires |tokens| <= |rows|
    ensures forall k: nat :: Passes(Steps(rows, tokens, firstText, stop), 0, k) == Reached(tokens, firstText, stop, 0, k)
  {
    var steps := Steps(rows, tokens, firstText, stop);
    assert forall j :: 0 <= j < |steps| ==> steps[j].Continue? == !Finishes(tokens[j], firstText, stop);
  }

  /** The three lemmas above for the loop of `process` on the general path. */
  lemma BeamsShape(rows: seq<Row>, tokens: seq<History>, stop: bool)
    requires ProcessDefined(rows, tokens, stop) && General(tokens)
    ensures var ft := FirstText(tokens);
      var stage1 := AllNoTimestampsSuppressed(rows);
      var w := Beams(rows, tokens, stop);
      && (forall k :: 0 <= k < |rows| ==>
            w.rows[k] == (if k < |tokens| && Reached(tokens, ft, stop, 0, k)
                          then BeamRule(stage1[k], tokens[k], ft, stop).row else stage1[k]))
      && (w.finished <==> exists k :: 0 <= k < |tokens| && Reached(tokens, ft, stop, 0, k) && Finishes(tokens[k], ft, stop))
      && (w.check <==> exists k :: 0 <= k < |tokens| && Reached(tokens, ft, stop, 0, k)
                                  && !Finishes(tokens[k], ft, stop) && SetsCheck(tokens[k], ft))
  {
    var ft := FirstText(tokens);
    var stage1 := AllNoTimestampsSuppressed(rows);
    var steps := Steps(stage1, tokens, ft, stop);
    WalkRows(stage1, steps, 0, false);
    WalkFinished(stage1, steps, 0, false);
    WalkCheck(stage1, steps, 0, false);
    PassesReached(stage1, tokens, ft, stop);
    ReachedSteps(rows, tokens, stop);
  }

  /** A beam the loop gets to takes the beam rule. */
  lemma ReachedSteps(rows: seq<Row>, tokens: seq<History>, stop: bool)
    requires ProcessDefined(rows, tokens, stop) && General(tokens)
    ensures var ft := FirstText(tokens);
      var stage1 := AllNoTimestampsSuppressed(rows);
      forall k :: 0 <= k < |tokens| && Reached(tokens, ft, stop, 0, k) ==>
        Steps(stage1, tokens, ft, stop)[k] == BeamRule(stage1[k], tokens[k], ft, stop)
  {
  }

  // ---------------------------------------------------------------------------
  // One row of a decode step on the general path.

  /** Row `b` after the beam loop: the beam rule applied to it, after
      NO_TIMESTAMPS is suppressed, when the loop gets to it. */
  function BeamRow(rows: seq<Row>, tokens: seq<History>, stop: bool, b: nat): (r: Row)
    requires ProcessDefined(rows, tokens, stop) && General(tokens) && b < |rows|
    ensures |r| == |rows[b]|
  {
    var ft := FirstText(tokens);
    var row := NoTimestampsSuppressed(rows[b]);
    if b < |tokens| && Reached(tokens, ft, stop, 0, b) then BeamRule(row, tokens[b], ft, stop).row else row
  }

  /** The probability check runs: no beam ends the step early and some beam
      sets the flag. */
  predicate ChecksProbabilities(tokens: seq<History>, stop: bool)
    requires |tokens| >= 1 && |tokens[0]| >= 2
  {
    var ft := FirstText(tokens);
    && (forall k :: 0 <= k < |tokens| ==> !Finishes(tokens[k], ft, stop))
    && (exists k :: 0 <= k < |tokens| && SetsCheck(tokens[k], ft))
  }

  /** If some step finishes, the first one that does is reached. */
  lemma {:induction false} FirstFinisher(steps: seq<BeamStep>, k: nat)
    requires k < |steps| && steps[k].Finish?
    ensures exists j :: 0 <= j <= k && Passes(steps, 0, j) && steps[j].Finish?
  {
    if !Passes(steps, 0, k) {
      var j :| 0 <= j < k && !steps[j].Continue?;
      FirstFinisher(steps, j);
    }
  }

  /** The loop ends with the flag set and no beam finished exactly when no
      step finishes and some step sets the flag. */
  lemma WalkChecks(rows: seq<Row>, steps: seq<BeamStep>)
    requires Fits(rows, steps)
    ensures var w := Walk(rows, steps, 0, false);
      (!w.finished && w.check) ==
        ((forall k :: 0 <= k < |steps| ==> steps[k].Continue?) && exists k :: 0 <= k < |steps| && steps[k].check)
  {
    if forall k :: 0 <= k < |steps| ==> steps[k].Continue? {
      WalkFinished(rows, steps, 0, false);
      WalkCheck(rows, steps, 0, false);
      assert forall k :: 0 <= k < |steps| ==> Passes(steps, 0, k);
    } else {
      var j :| 0 <= j < |steps| && !steps[j].Continue?;
      FirstFinisher(steps, j);
      WalkFinished(rows, steps, 0, false);
    }
  }

  /** On the general path, row `b` of the step is its row after the beam
      loop, put through the probability check when that runs. */
  lemma GeneralRow(rows: seq<Row>, tokens: seq<History>, stop: bool, massBeats: (Row, Row) -> bool, b: nat)
    requires ProcessDefined(rows, tokens, stop) && General(tokens) && b < |rows|
    ensures ProcessSpec(rows, tokens, stop, massBeats)[b] ==
      CheckedRow(BeamRow(rows, tokens, stop, b), ChecksProbabilities(tokens, stop) && b < |tokens|, massBeats)
  {
    var ft := FirstText(tokens);
    var stage1 := AllNoTimestampsSuppressed(rows);
    var w := Beams(rows, tokens, stop);
    WalkRows(stage1, Steps(stage1, tokens, ft, stop), 0, false);
    PassesReached(stage1, tokens, ft, stop);
    ReachedSteps(rows, tokens, stop);
    assert w.rows[b] == BeamRow(rows, tokens, stop, b);
    ChecksExactly(rows, tokens, stop);
  }

  /** The probability check runs exactly when `ChecksProbabilities` says. */
  lemma ChecksExactly(rows: seq<Row>, tokens: seq<History>, stop: bool)
    requires ProcessDefined(rows, tokens, stop) && General(tokens)
    ensures var w := Beams(rows, tokens, stop);
      (!w.finished && w.check) == ChecksProbabilities(tokens, stop)
  {
    var ft := FirstText(tokens);
    var stage1 := AllNoTimestampsSuppressed(rows);
    var w := Beams(rows, tokens, stop);
    var steps := Steps(stage1, tokens, ft, stop);
    WalkChecks(stage1, steps);
    assert forall k :: 0 <= k < |steps| ==> steps[k].Continue? == !Finishes(tokens[k], ft, stop);
    assert (forall k :: 0 <= k < |steps| ==> steps[k].Continue?) ==>
      forall k :: 0 <= k < |steps| ==> steps[k].check == SetsCheck(tokens[k], ft);
  }

  // ---------------------------------------------------------------------------
  // The rules of a decode step.

  /** Right after START_OF_TRANSCRIPT only a language tag may follow, with
      its score kept. */
  lemma LanguageGateRule(rows: seq<Row>, tokens: seq<History>, stop: bool, massBeats: (Row, Row) -> bool)
    requires ProcessDefined(rows, tokens, stop) && LanguageGate(tokens)
    ensures var r := ProcessSpec(rows, tokens, stop, massBeats);
      forall k, i :: 0 <= k < |rows| && 0 <= i < |rows[k]| ==>
        r[k][i] == (if IsLanguage(i) then rows[k][i] else NegInf)
  {
  }

  /** Right after START_OF_TRANSCRIPT and a language tag the task token is
      forced: it is the one finite score of every row, and it is 0. */
  lemma TaskGateRule(rows: seq<Row>, tokens: seq<History>, stop: bool, massBeats: (Row, Row) -> bool)
    requires ProcessDefined(rows, tokens, stop) && TaskGate(tokens)
    ensures var r := ProcessSpec(rows, tokens, stop, massBeats);
      forall k :: 0 <= k < |rows| ==> r[k][TRANSCRIBE] == Fin(0.0) && CountFinite(r[k]) == 1
  {
    var r := ProcessSpec(rows, tokens, stop, massBeats);
    forall k | 0 <= k < |rows|
      ensures r[k][TRANSCRIBE] == Fin(0.0) && CountFinite(r[k]) == 1
    {
      CountFiniteSingle(r[k], TRANSCRIBE);
    }
  }

  /** Past the gates NO_TIMESTAMPS is never allowed, in any beam, whatever
      else happens in the step. */
  lemma NoTimestampsNeverFollows(rows: seq<Row>, tokens: seq<History>, stop: bool, massBeats: (Row, Row) -> bool, b: nat)
    requires ProcessDefined(rows, tokens, stop) && General(tokens) && b < |rows|
    ensures ProcessSpec(rows, tokens, stop, massBeats)[b][NO_TIMESTAMPS] == NegInf
  {
    GeneralRow(rows, tokens, stop, massBeats, b);
  }

  /** After two timestamps in a row (or a timestamp as the first text
      token) no timestamp may follow in that beam. */
  lemma DoubleTimestampRule(rows: seq<Row>, tokens: seq<History>, stop: bool, massBeats: (Row, Row) -> bool, b: nat)
    requires ProcessDefined(rows, tokens, stop) && General(tokens)
    requires b < |tokens| && Reached(tokens, FirstText(tokens), stop, 0, b)
    requires DoubleTimestamp(tokens[b], FirstText(tokens))
    ensures var r := ProcessSpec(rows, tokens, stop, massBeats);
      forall i :: START_OF_TIMESTAMP <= i < |rows[b]| ==> r[b][i] == NegInf
  {
    GeneralRow(rows, tokens, stop, massBeats, b);
  }

  /** Single-segment mode: once a beam closes a segment, END_OF_TEXT is
      forced in it, the beams before it keep the rows the loop gave them,
      the beams after it keep their scores (bar NO_TIMESTAMPS) and the
      probability check is skipped. */
  lemma SingleSegmentRule(rows: seq<Row>, tokens: seq<History>, massBeats: (Row, Row) -> bool, b: nat)
    requires ProcessDefined(rows, tokens, true) && General(tokens)
    requires b < |tokens| && Reached(tokens, FirstText(tokens), true, 0, b)
    requires ClosesSegment(tokens[b], FirstText(tokens))
    ensures !ChecksProbabilities(tokens, true)
    ensures var r := ProcessSpec(rows, tokens, true, massBeats);
      && r[b][END_OF_TEXT] == Fin(0.0) && CountFinite(r[b]) == 1
      && (forall k :: 0 <= k < b ==> r[k] == BeamRow(rows, tokens, true, k))
      && forall k :: b < k < |rows| ==> r[k] == NoTimestampsSuppressed(rows[k])
  {
    var r := ProcessSpec(rows, tokens, true, massBeats);
    assert !ChecksProbabilities(tokens, true);
    GeneralRow(rows, tokens, true, massBeats, b);
    forall k | 0 <= k < b
      ensures r[k] == BeamRow(rows, tokens, true, k)
    {
      GeneralRow(rows, tokens, true, massBeats, k);
    }
    CountFiniteSingle(r[b], END_OF_TEXT);
    forall k | b < k < |rows|
      ensures r[k] == NoTimestampsSuppressed(rows[k])
    {
      GeneralRow(rows, tokens, true, massBeats, k);
      assert !Reached(tokens, FirstText(tokens), true, 0, k);
    }
  }

  /** Without single-segment mode, a beam that has just closed a segment at
      timestamp t may not continue with text, nor with a timestamp before t;
      the timestamps from t on keep their scores, so the next segment opens
      at or after t. */
  lemma SegmentCloseRule(rows: seq<Row>, tokens: seq<History>, massBeats: (Row, Row) -> bool, b: nat)
    requires ProcessDefined(rows, tokens, false) && General(tokens)
    requires b < |tokens| && ClosesSegment(tokens[b], FirstText(tokens))
    ensures var r := ProcessSpec(rows, tokens, false, massBeats);
      var t := tokens[b][|tokens[b]| - 1];
      forall i :: 0 <= i < |rows[b]| ==>
        && (i < END_OF_TEXT || START_OF_TIMESTAMP <= i < t ==> r[b][i] == NegInf)
        && (t <= i ==> r[b][i] == rows[b][i])
  {
    assert Reached(tokens, FirstText(tokens), false, 0, b);
    GeneralRow(rows, tokens, false, massBeats, b);
  }

  /** When a beam does not end in a timestamp, the timestamps up to the most
      recent one since TRANSCRIBE are closed and the later ones keep their
      scores: timestamps never go backwards. With no timestamp since
      TRANSCRIBE, every timestamp keeps its score. */
  lemma MonotonicTimestampRule(rows: seq<Row>, tokens: seq<History>, stop: bool, massBeats: (Row, Row) -> bool, b: nat)
    requires ProcessDefined(rows, tokens, stop) && General(tokens)
    requires b < |tokens| && Reached(tokens, FirstText(tokens), stop, 0, b)
    requires !LastIsTimestamp(tokens[b])
    ensures ScanStops(tokens[b], |tokens[b]| - 1)
    ensures var r := ProcessSpec(rows, tokens, stop, massBeats);
      match ScanTimestamp(tokens[b], |tokens[b]| - 1)
      case Some(t) =>
        && (forall i :: START_OF_TIMESTAMP <= i <= t && i < |rows[b]| ==> r[b][i] == NegInf)
        && (forall i :: t < i < |rows[b]| ==> r[b][i] == rows[b][i])
      case None =>
        forall i :: START_OF_TIMESTAMP <= i < |rows[b]| ==> r[b][i] == rows[b][i]
  {
    GeneralRow(rows, tokens, stop, massBeats, b);
  }

  /** The probability check: when it runs, each of the first |tokens| beams
      whose timestamp mass beats its best text score after the beam loop is
      left with timestamps only, and the others are not touched by it. */
  lemma ProbabilityCheckRule(rows: seq<Row>, tokens: seq<History>, stop: bool, massBeats: (Row, Row) -> bool, b: nat)
    requires ProcessDefined(rows, tokens, stop) && General(tokens) && b < |tokens|
    requires ChecksProbabilities(tokens, stop)
    ensures var r := ProcessSpec(rows, tokens, stop, massBeats);
      var w := BeamRow(rows, tokens, stop, b);
      forall i :: 0 <= i < |rows[b]| ==>
        r[b][i] == (if i < START_OF_TIMESTAMP && massBeats(Timestamps(w), NonTimestamps(w)) then NegInf else w[i])
  {
    GeneralRow(rows, tokens, stop, massBeats, b);
  }

  // ---------------------------------------------------------------------------
  // The registry and the in-place step.

  /** The per-request context: where the sampled text starts. */
  datatype TranscribeContext = TranscribeContext(sampleBegin: nat)

  /** `std::map::emplace`: inserts only when the key is absent. */
  function Emplaced<K, V>(m: map<K, V>, k: K, v: V): (r: map<K, V>)
    ensures r.Keys == m.Keys + {k}
    ensures r[k] == (if k in m then m[k] else v)
    ensures forall j :: j in m && j != k ==> r[j] == m[j]
  {
    if k in m then m else m[k := v]
  }

  /** `std::map::erase`: removes the key if present. */
  function Erased<K, V>(m: map<K, V>, k: K): (r: map<K, V>)
    ensures r.Keys == m.Keys - {k}
    ensures forall j :: j in r ==> r[j] == m[j]
  {
    m - {k}
  }

  /** Registering an id that is already present changes nothing; erasing a
      freshly registered id gives the map back. */
  lemma RegistryLaws<K, V>(m: map<K, V>, k: K, v: V, w: V)
    ensures Emplaced(Emplaced(m, k, v), k, w) == Emplaced(m, k, v)
    ensures k !in m ==> Erased(Emplaced(m, k, v), k) == m
    ensures Erased(Erased(m, k), k) == Erased(m, k)
  {
  }

  /** What `await_transcribe_response` hands back, less the average
      log-probability. Token ids are returned as unsigned 32-bit values. */
  datatype TranscribeResult = TranscribeResult(isFinal: bool, isSequenceFinal: bool, tokens: seq<nat>)

  const U32: int := 0x1_0000_0000

  class TranscribeLogitsProcessor {
    var contexts: map<int, TranscribeContext>

    constructor ()
      ensures contexts == map[]
    {
      contexts := map[];
    }

    method RegisterRequest(reqId: int, sampleBegin: nat)
      modifies this
      ensures contexts == Emplaced(old(contexts), reqId, TranscribeContext(sampleBegin))
    {
      if reqId !in contexts {
        contexts := contexts[reqId := TranscribeContext(sampleBegin)];
      }
    }

    method UnregisterRequest(reqId: int)
      modifies this
      ensures contexts == Erased(old(contexts), reqId)
    {
      contexts := contexts - {reqId};
    }

    /** The bookkeeping of `await_transcribe_response` once the engine has
        produced a response (its flags and beam 0's tokens): a final response
        unregisters the request, and the tokens are converted to unsigned. */
    method AwaitTranscribeResponse(reqId: int, isFinal: bool, isSequenceFinal: bool, outputTokens: seq<int>)
      returns (result: TranscribeResult)
      modifies this
      ensures contexts == (if isFinal then Erased(old(contexts), reqId) else old(contexts))
      ensures result.isFinal == isFinal && result.isSequenceFinal == isSequenceFinal
      ensures |result.tokens| == |outputTokens|
      ensures forall i :: 0 <= i < |outputTokens| ==>
        result.tokens[i] < U32 && (result.tokens[i] - outputTokens[i]) % U32 == 0
    {
      if isFinal {
        UnregisterRequest(reqId);
      }
      var tokens: seq<nat> := [];
      for i := 0 to |outputTokens|
        invariant |tokens| == i
        invariant forall j :: 0 <= j < i ==> tokens[j] < U32 && (tokens[j] - outputTokens[j]) % U32 == 0
      {
        tokens := tokens + [outputTokens[i] % U32];
      }
      result := TranscribeResult(isFinal, isSequenceFinal, tokens);
    }

    /** `process`: one decode step over the score tensor `scores` (one row
        per beam). The registry is not consulted. */
    method Process(reqId: int, scores: array<Row>, tokens: seq<History>, stopOnTimestamps: bool,
                   massBeats: (Row, Row) -> bool)
      requires ProcessDefined(scores[..], tokens, stopOnTimestamps)
      modifies scores
      ensures scores[..] == ProcessSpec(old(scores[..]), tokens, stopOnTimestamps, massBeats)
    {
      ghost var before := scores[..];
      var logits := new Logits(scores);

      if tokens[0][|tokens[0]| - 1] == START_OF_TRANSCRIPT {
        logits.SuppressNonLanguages();
        assert scores[..] == AllNonLanguagesSuppressed(before);
        return;
      }

      if |tokens[0]| > 1 && tokens[0][|tokens[0]| - 2] == START_OF_TRANSCRIPT {
        logits.SetTranscribe();
        assert scores[..] == AllTranscribeForced(before);
        return;
      }

      var isFirstText := tokens[0][|tokens[0]| - 2] == TRANSCRIBE;

      logits.SuppressNoTimestamps();
      assert scores[..] == AllNoTimestampsSuppressed(before);
      var finished, checkTimestampsProb := WalkBeams(logits, tokens, isFirstText, stopOnTimestamps);
      if finished {
        return;
      }

      if checkTimestampsProb {
        CheckProbabilities(logits, |tokens|, massBeats);
      }
    }
  }

  /** Lines 255-291: the beam loop, up to the first beam that ends the
      step. */
  method WalkBeams(logits: Logits, tokens: seq<History>, isFirstText: bool, stopOnTimestamps: bool)
    returns (finished: bool, checkTimestampsProb: bool)
    requires logits.Valid() && logits.Whole() && Wide(logits.tensor[..]) && |tokens| <= logits.tensor.Length
    requires Runnable(tokens, isFirstText, stopOnTimestamps, 0)
    modifies logits.tensor
    ensures var rows := old(logits.tensor[..]);
      var w := Walk(rows, Steps(rows, tokens, isFirstText, stopOnTimestamps), 0, false);
      logits.tensor[..] == w.rows && finished == w.finished && checkTimestampsProb == w.check
  {
    ghost var stage1 := logits.tensor[..];
    ghost var steps := Steps(stage1, tokens, isFirstText, stopOnTimestamps);
    ghost var target := Walk(stage1, steps, 0, false);
    checkTimestampsProb := false;
    var b := 0;
    while b < |tokens|
      invariant 0 <= b <= |tokens|
      invariant Reached(tokens, isFirstText, stopOnTimestamps, 0, b)
      invariant forall k :: b <= k < logits.tensor.Length ==> logits.tensor[k] == stage1[k]
      invariant Fits(logits.tensor[..], steps)
      invariant Walk(logits.tensor[..], steps, b, checkTimestampsProb) == target
    {
      assert Readable(tokens[b], isFirstText);
      var check;
      finished, check := StepBeam(logits, b, tokens[b], isFirstText, stopOnTimestamps);
      if finished {
        return;
      }
      checkTimestampsProb := checkTimestampsProb || check;
      b := b + 1;
    }
    finished := false;
  }

  /** The body of the beam loop for beam `b`: the rules for its history, and
      whether the step ends here or asks for the probability check. */
  method StepBeam(logits: Logits, b: nat, beamTokens: History, isFirstText: bool, stopOnTimestamps: bool)
    returns (finished: bool, check: bool)
    requires logits.Valid() && logits.Whole() && b < logits.tensor.Length
    requires Readable(beamTokens, isFirstText) && END_OF_TEXT < |logits.tensor[b]|
    modifies logits.tensor
    ensures var step := BeamRule(old(logits.tensor[b]), beamTokens, isFirstText, stopOnTimestamps);
      && logits.tensor[..] == old(logits.tensor[..])[b := step.row]
      && finished == step.Finish?
      && check == (step.Continue? && step.check)
  {
    ghost var cur := logits.tensor[..];
    ghost var step := BeamRule(cur[b], beamTokens, isFirstText, stopOnTimestamps);
    var beamLogits := logits.Beam(b);
    var lastWasTimestamp := IsTimestamp(beamTokens[|beamTokens| - 1]);
    if lastWasTimestamp {
      finished, check := AfterTimestamp(beamLogits, beamTokens, isFirstText, stopOnTimestamps);
    } else {
      SuppressBeforeLastTimestamp(beamLogits, beamTokens);
      finished, check := false, true;
    }
    assert logits.tensor[b] == step.row;
    assert logits.tensor[..] == cur[b := step.row];
  }

  /** Lines 262-279, for a beam whose last token is a timestamp: after two
      timestamps only text may follow; in single-segment mode a closed
      segment ends the step with END_OF_TEXT; otherwise no text and no
      earlier timestamp may follow. */
  method AfterTimestamp(beamLogits: Logits, beamTokens: History, isFirstText: bool, stopOnTimestamps: bool)
    returns (finished: bool, check: bool)
    requires beamLogits.Valid() && beamLogits.Covers(END_OF_TEXT)
    requires Readable(beamTokens, isFirstText) && LastIsTimestamp(beamTokens)
    modifies beamLogits.tensor
    ensures forall b :: 0 <= b < beamLogits.tensor.Length ==>
      beamLogits.tensor[b] ==
        (if beamLogits.lo <= b < beamLogits.hi
         then BeamRule(old(beamLogits.tensor[b]), beamTokens, isFirstText, stopOnTimestamps).row
         else old(beamLogits.tensor[b]))
    ensures finished == Finishes(beamTokens, isFirstText, stopOnTimestamps)
    ensures check == (!finished && SetsCheck(beamTokens, isFirstText))
  {
    var nTokens := |beamTokens|;
    var penultimateWasTimestamp := isFirstText || IsTimestamp(beamTokens[nTokens - 2]);
    finished, check := false, false;
    if penultimateWasTimestamp {
      beamLogits.SuppressTimestamps(None);
    } else if stopOnTimestamps {
      beamLogits.SetEot();
      finished := true;
    } else {
      beamLogits.SuppressText();
      beamLogits.SuppressTimestamps(Some(beamTokens[nTokens - 1] as nat));
      check := true;
    }
  }

  /** Lines 282-288: scan the history backwards until TRANSCRIBE; at the first
      timestamp t met on the way, suppress the timestamps up to and including
      t, and stop. */
  method SuppressBeforeLastTimestamp(beamLogits: Logits, beamTokens: History)
    requires beamLogits.Valid() && ScanStops(beamTokens, |beamTokens| - 1)
    modifies beamLogits.tensor
    ensures forall b :: 0 <= b < beamLogits.tensor.Length ==>
      beamLogits.tensor[b] ==
        (if beamLogits.lo <= b < beamLogits.hi then ScanSuppressed(old(beamLogits.tensor[b]), beamTokens)
         else old(beamLogits.tensor[b]))
  {
    var i := LastStop(beamTokens);
    ScanStopsAt(beamTokens, i);
    if beamTokens[i] != TRANSCRIBE {
      beamLogits.SuppressTimestamps(Some(beamTokens[i] as nat + 1));
    }
  }

  /** The backward walk of lines 282-288: the index of the last TRANSCRIBE or
      timestamp in the history. */
  method LastStop(h: History) returns (i: int)
    requires ScanStops(h, |h| - 1)
    ensures NearestStop(h, |h| - 1, i)
  {
    i := |h| - 1;
    while h[i] != TRANSCRIBE && !IsTimestamp(h[i])
      invariant ScanStops(h, i)
      invariant forall j :: i < j < |h| ==> !IsScanStop(h[j])
      decreases i
    {
      assert ScanStops(h, i - 1) by {
        var j :| 0 <= j <= i && IsScanStop(h[j]);
        assert j != i;
      }
      i := i - 1;
    }
  }

  /** The stop the scan meets decides the row it leaves. */
  lemma ScanStopsAt(h: History, i: int)
    requires ScanStops(h, |h| - 1) && NearestStop(h, |h| - 1, i)
    ensures forall row :: ScanSuppressed(row, h) ==
                          if h[i] == TRANSCRIBE then row else TimestampsSuppressed(row, Some(h[i] as nat + 1))
  {
    ScanFindsNearest(h, |h| - 1, i);
  }

  /** Lines 293-306 over the first `n` beams. The log-probabilities are taken
      once, before any beam is changed. */
  method CheckProbabilities(logits: Logits, n: nat, massBeats: (Row, Row) -> bool)
    requires logits.Valid() && logits.Whole() && n <= logits.tensor.Length
    modifies logits.tensor
    ensures logits.tensor[..] == ProbabilityChecked(old(logits.tensor[..]), n, massBeats)
  {
    ghost var walked := logits.tensor[..];
    var logprobs := logits.tensor[..];
    var b := 0;
    while b < n
      invariant 0 <= b <= n
      invariant logits.tensor[..] == ProbabilityChecked(walked, b, massBeats)
    {
      ghost var cur := logits.tensor[..];
      var beamLogprobs := logprobs[b];
      if massBeats(Timestamps(beamLogprobs), NonTimestamps(beamLogprobs)) {
        var beamLogits := logits.Beam(b);
        beamLogits.SuppressNonTimestamps();
        assert logits.tensor[..] == cur[b := NonTimestampsSuppressed(walked[b])];
      }
      assert logits.tensor[..] == ProbabilityChecked(walked, b + 1, massBeats);
      b := b + 1;
    }
  }
}
