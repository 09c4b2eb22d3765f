/** Token ids of the Whisper vocabulary and the two classifiers over them
    (src/sys/vocab.h). Ids are plain integers; the source's TokenIdType is a
    32-bit integer, and every constant here fits in it. */
module Vocab {

  const SPACE: int := 256
  const END_OF_TEXT: int := 50257
  const START_OF_TRANSCRIPT: int := 50258
  const TRANSCRIBE: int := 50360
  const START_OF_PREV: int := 50362
  const NO_TIMESTAMPS: int := 50364

  /** Language tags occupy [START_OF_LANGUAGE, END_OF_LANGUAGE). */
  const START_OF_LANGUAGE: int := 50259
  const END_OF_LANGUAGE: int := 50359

  /** Timestamp tokens occupy [START_OF_TIMESTAMP, END_OF_TIMESTAMP). */
  const START_OF_TIMESTAMP: int := 50365
  const END_OF_TIMESTAMP: int := 51866

  predicate IsTimestamp(t: int) {
    t >= START_OF_TIMESTAMP && t < END_OF_TIMESTAMP
  }

  predicate IsLanguage(t: int) {
    START_OF_LANGUAGE <= t < END_OF_LANGUAGE
  }

  /** The tokens that end a clause on their own: "," "." "!" "?" and the
      ideographic full stop. */
  predicate IsClauseMark(t: int) {
    t == 11 || t == 13 || t == 0 || t == 30 || t == 1543
  }

  /** The three-token byte sequences of the full-width comma, exclamation and
      question marks. */
  predicate IsWideClauseMark(a: int, b: int, c: int) {
    a == 171 && b == 120 && (c == 234 || c == 223 || c == 253)
  }

  predicate IsClauseEnd(tokens: seq<int>) {
    var n := |tokens|;
    (n > 0 && IsClauseMark(tokens[n - 1]))
    || (n > 2 && IsWideClauseMark(tokens[n - 3], tokens[n - 2], tokens[n - 1]))
  }

  /** The classifier agrees with the half-open timestamp range at both ends:
      the first timestamp id is one, the id just below it (NO_TIMESTAMPS) and
      the end of the range are not. */
  lemma TimestampBoundaries()
    ensures IsTimestamp(START_OF_TIMESTAMP) && IsTimestamp(END_OF_TIMESTAMP - 1)
    ensures !IsTimestamp(NO_TIMESTAMPS) && NO_TIMESTAMPS == START_OF_TIMESTAMP - 1
    ensures !IsTimestamp(END_OF_TIMESTAMP)
    ensures IsTimestamp(50365) && !IsTimestamp(50364) && !IsTimestamp(51866)
  {
  }

  /** The constants are strictly ordered, so the text, control, language and
      timestamp ranges do not overlap. */
  lemma RangesOrdered()
    ensures SPACE < END_OF_TEXT < START_OF_TRANSCRIPT < START_OF_LANGUAGE
    ensures START_OF_LANGUAGE < END_OF_LANGUAGE
    ensures END_OF_LANGUAGE <= TRANSCRIBE < START_OF_PREV < NO_TIMESTAMPS < START_OF_TIMESTAMP
    ensures START_OF_TIMESTAMP < END_OF_TIMESTAMP
    ensures forall t :: IsLanguage(t) ==> !IsTimestamp(t) && t != TRANSCRIBE && t != START_OF_TRANSCRIPT
  {
  }

  /** No control token is a timestamp. */
  lemma ControlTokensAreNotTimestamps()
    ensures !IsTimestamp(SPACE) && !IsTimestamp(END_OF_TEXT) && !IsTimestamp(START_OF_TRANSCRIPT)
    ensures !IsTimestamp(TRANSCRIBE) && !IsTimestamp(START_OF_PREV) && !IsTimestamp(NO_TIMESTAMPS)
  {
  }

  /** Clause ends: never for the empty history; always after a clause mark;
      always after a full-width mark. */
  lemma ClauseEndCases(tokens: seq<int>, t: int, a: int, b: int, c: int)
    ensures !IsClauseEnd([])
    ensures IsClauseMark(t) ==> IsClauseEnd(tokens + [t])
    ensures IsWideClauseMark(a, b, c) ==> IsClauseEnd(tokens + [a, b, c])
  {
  }

  /** Only the last three tokens matter: putting any history in front of
      three or more tokens does not change the answer. */
  lemma {:induction false} ClauseEndLooksAtLastThree(front: seq<int>, tail: seq<int>)
    requires |tail| >= 3
    ensures IsClauseEnd(front + tail) == IsClauseEnd(tail)
  {
    var s := front + tail;
    var n := |s|;
    var m := |tail|;
    assert s[n - 1] == tail[m - 1] && s[n - 2] == tail[m - 2] && s[n - 3] == tail[m - 3];
  }
}
