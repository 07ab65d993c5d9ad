/**
 The Simplified Lesk disambiguator. For every part of speech of the word, and
 every sense in that part of speech, the sense's gloss is tokenized and scored
 against the context sentence; the first sense to reach the highest positive
 score is the answer. A trace of every (gloss, overlap) pair, grouped by part
 of speech, is recorded for display when asked for.

 The dictionary is not part of this model: what it answers for the word is
 an input value (`Lookup`), with its parts of speech in the order the
 dictionary iterates them and each part's senses in dictionary order.
 */
module Lesk {
  import opened Tokenizer
  import opened Overlap

  datatype Option<T> = None | Some(value: T)

  /** A part of speech as reported by the dictionary. */
  datatype Pos = Noun | Verb | Adjective | Adverb

  /** A sense of the word (a synset); only its gloss takes part in the algorithm. */
  datatype Synset = Synset(gloss: string)

  /** The word's senses under one part of speech, in dictionary order. */
  datatype IndexWord = IndexWord(pos: Pos, senses: seq<Synset>)

  /** What the dictionary answers for the word: its index words, or a dictionary failure. */
  datatype Lookup = Found(indexWords: seq<IndexWord>) | DictionaryError

  /** One recorded sense: its gloss and its overlap with the context. */
  datatype SenseTrace = SenseTrace(gloss: string, overlap: set<string>)

  /** One recorded part of speech: its name and its senses, in order. */
  datatype PosTrace = PosTrace(pos: Pos, senses: seq<SenseTrace>)

  /**
   The outcome of one run. The source returns `null` both when the
   dictionary fails and when no sense scores; the two are kept apart here
   and merged only by the public entry points.
   */
  datatype Outcome = LookupFailed | NoSense | Best(sense: Synset)

  /** The overlap of a sense with the context tokens. */
  function SenseOverlap(context: seq<string>, s: Synset): set<string> {
    ComputeOverlap(GlossTokens(s.gloss), context)
  }

  /** The score of a sense: the size of its overlap. */
  function Score(context: seq<string>, s: Synset): nat {
    |SenseOverlap(context, s)|
  }

  /**
   The score of every sense, by part of speech: entry [q][j] is the score of
   sense j of part of speech q, the shape of the two nested loops.
   */
  ghost function ScoreTable(context: seq<string>, ws: seq<IndexWord>): (t: seq<seq<nat>>)
    ensures |t| == |ws|
  {
    seq(|ws|, q requires 0 <= q < |ws| =>
      seq(|ws[q].senses|, j requires 0 <= j < |ws[q].senses| => Score(context, ws[q].senses[j])))
  }

  /** Entry [q][j] of the table is the score of sense j of part of speech q. */
  lemma ScoreAt(context: seq<string>, ws: seq<IndexWord>, q: int, j: int)
    requires 0 <= q < |ws| && 0 <= j < |ws[q].senses|
    ensures ScoreTable(context, ws)[q][j] == Score(context, ws[q].senses[j])
  {
  }

  /** Row q of the table has one entry per sense of part of speech q. */
  lemma ScoreRow(context: seq<string>, ws: seq<IndexWord>, q: int)
    requires 0 <= q < |ws|
    ensures |ScoreTable(context, ws)[q]| == |ws[q].senses|
  {
  }

  /** (q, j) names sense j of part of speech q. */
  predicate ValidLoc(ws: seq<IndexWord>, q: int, j: int) {
    0 <= q < |ws| && 0 <= j < |ws[q].senses|
  }

  /** (q, j) names sense j of part of speech q in the table. */
  predicate In(t: seq<seq<nat>>, q: int, j: int) {
    0 <= q < |t| && 0 <= j < |t[q]|
  }

  /** (q, j) is examined before (p, i): part-of-speech order, then sense order. */
  predicate Before(q: int, j: int, p: int, i: int) {
    q < p || (q == p && j < i)
  }

  /** No sense of any part of speech has a positive score. */
  ghost predicate AllZero(t: seq<seq<nat>>) {
    forall q, j :: In(t, q, j) ==> t[q][j] == 0
  }

  /**
   Sense (p, i) is the Simplified Lesk answer: its score is positive, no
   sense scores more, and every sense examined before it scores less.
   */
  ghost predicate IsFirstBest(t: seq<seq<nat>>, p: int, i: int) {
    && In(t, p, i)
    && t[p][i] > 0
    && (forall q, j :: In(t, q, j) ==> t[q][j] <= t[p][i])
    && (forall q, j :: In(t, q, j) && Before(q, j, p, i) ==> t[q][j] < t[p][i])
  }

  /** `st` pairs each of the first n senses of `senses`, in order, with its gloss and overlap. */
  ghost predicate RecordsSensesUpTo(st: seq<SenseTrace>, context: seq<string>, senses: seq<Synset>, n: int) {
    && |st| == n <= |senses|
    && forall k :: 0 <= k < n ==>
         st[k] == SenseTrace(senses[k].gloss, SenseOverlap(context, senses[k]))
  }

  /** `st` pairs each sense of `senses`, in order, with its gloss and overlap. */
  ghost predicate RecordsSenses(st: seq<SenseTrace>, context: seq<string>, senses: seq<Synset>) {
    RecordsSensesUpTo(st, context, senses, |senses|)
  }

  /** A trace entry records one part of speech: its name and each of its senses. */
  ghost predicate RecordsPos(entry: PosTrace, context: seq<string>, w: IndexWord) {
    entry.pos == w.pos && RecordsSenses(entry.senses, context, w.senses)
  }

  /** The first n entries of the trace record the first n parts of speech. */
  ghost predicate RecordsUpTo(trace: seq<PosTrace>, context: seq<string>, ws: seq<IndexWord>, n: int) {
    && n <= |trace| && n <= |ws|
    && forall q :: 0 <= q < n ==> RecordsPos(trace[q], context, ws[q])
  }

  /** The trace has one entry per part of speech, in order, each recording its senses. */
  ghost predicate Records(trace: seq<PosTrace>, context: seq<string>, ws: seq<IndexWord>) {
    |trace| == |ws| && RecordsUpTo(trace, context, ws, |ws|)
  }

  /**
   The selection state after examining every sense before (p, i): with
   `found`, (bestPos, bestSense) is the first sense of highest score so far
   and `maxOverlap` its score; without, nothing has scored yet.
   */
  ghost predicate SelectedSoFar(t: seq<seq<nat>>, p: int, i: int,
                                maxOverlap: nat, found: bool, bestPos: nat, bestSense: nat)
  {
    && (!found ==>
          && maxOverlap == 0 && bestPos == 0 && bestSense == 0
          && forall q, j :: In(t, q, j) && Before(q, j, p, i) ==> t[q][j] == 0)
    && (found ==>
          && In(t, bestPos, bestSense) && Before(bestPos, bestSense, p, i)
          && maxOverlap == t[bestPos][bestSense] > 0
          && (forall q, j :: In(t, q, j) && Before(q, j, p, i) ==> t[q][j] <= maxOverlap)
          && (forall q, j :: In(t, q, j) && Before(q, j, bestPos, bestSense) ==> t[q][j] < maxOverlap))
  }

  /** Examining sense (p, i) moves the selection state past it (lines 102-104). */
  lemma SelectStep(t: seq<seq<nat>>, p: int, i: int,
                   maxOverlap: nat, found: bool, bestPos: nat, bestSense: nat)
    requires In(t, p, i)
    requires SelectedSoFar(t, p, i, maxOverlap, found, bestPos, bestSense)
    ensures t[p][i] > maxOverlap ==> SelectedSoFar(t, p, i + 1, t[p][i], true, p, i)
    ensures t[p][i] <= maxOverlap ==> SelectedSoFar(t, p, i + 1, maxOverlap, found, bestPos, bestSense)
  {
  }

  /** Having examined every sense of part of speech p is having examined everything before p + 1. */
  lemma NextPos(t: seq<seq<nat>>, p: int, maxOverlap: nat, found: bool, bestPos: nat, bestSense: nat)
    requires 0 <= p < |t|
    requires SelectedSoFar(t, p, |t[p]|, maxOverlap, found, bestPos, bestSense)
    ensures SelectedSoFar(t, p + 1, 0, maxOverlap, found, bestPos, bestSense)
  {
  }

  /** Once every sense is examined, the selection state is the answer. */
  lemma SelectionComplete(t: seq<seq<nat>>, maxOverlap: nat, found: bool, bestPos: nat, bestSense: nat)
    requires SelectedSoFar(t, |t|, 0, maxOverlap, found, bestPos, bestSense)
    ensures !found <==> AllZero(t)
    ensures found ==> IsFirstBest(t, bestPos, bestSense)
  {
  }

  /** Recording sense i extends the record of the senses before it (line 99). */
  lemma RecordSenseStep(st: seq<SenseTrace>, context: seq<string>, senses: seq<Synset>, i: int)
    requires 0 <= i < |senses| && RecordsSensesUpTo(st, context, senses, i)
    ensures RecordsSensesUpTo(st + [SenseTrace(senses[i].gloss, SenseOverlap(context, senses[i]))],
                              context, senses, i + 1)
  {
  }

  /** Appending the record of part of speech p extends the record of those before it (line 89). */
  lemma RecordPosStep(trace: seq<PosTrace>, context: seq<string>, ws: seq<IndexWord>, p: int, st: seq<SenseTrace>)
    requires 0 <= p < |ws| && |trace| == p && RecordsUpTo(trace, context, ws, p)
    requires RecordsSenses(st, context, ws[p].senses)
    ensures RecordsUpTo(trace + [PosTrace(ws[p].pos, st)], context, ws, p + 1)
  {
    var trace' := trace + [PosTrace(ws[p].pos, st)];
    forall q | 0 <= q < p + 1 ensures RecordsPos(trace'[q], context, ws[q]) {
      if q < p {
        assert trace'[q] == trace[q];
      }
    }
  }

  /**
   The inner loop of the algorithm (lines 92-112): score every sense of part
   of speech p in order, collecting the record of each sense in `senseTrace`
   when `record` holds, and move the best sense whenever a score beats
   `maxOverlap`.
   */
  method ExamineSenses(context: seq<string>, ws: seq<IndexWord>, p: nat, record: bool,
                       maxOverlap0: nat, outcome0: Outcome, bestPos0: nat, bestSense0: nat)
    returns (senseTrace: seq<SenseTrace>, maxOverlap: nat, outcome: Outcome, bestPos: nat, bestSense: nat)
    requires p < |ws|
    requires outcome0 != LookupFailed
    requires outcome0.Best? ==> ValidLoc(ws, bestPos0, bestSense0) && outcome0.sense == ws[bestPos0].senses[bestSense0]
    requires SelectedSoFar(ScoreTable(context, ws), p, 0, maxOverlap0, outcome0.Best?, bestPos0, bestSense0)
    ensures record ==> RecordsSenses(senseTrace, context, ws[p].senses)
    ensures !record ==> senseTrace == []
    ensures outcome != LookupFailed
    ensures outcome.Best? ==> ValidLoc(ws, bestPos, bestSense) && outcome.sense == ws[bestPos].senses[bestSense]
    ensures SelectedSoFar(ScoreTable(context, ws), p + 1, 0, maxOverlap, outcome.Best?, bestPos, bestSense)
  {
    ghost var t := ScoreTable(context, ws);
    ScoreRow(context, ws, p);
    senseTrace, maxOverlap, outcome, bestPos, bestSense := [], maxOverlap0, outcome0, bestPos0, bestSense0;
    var senses := ws[p].senses;
    for i := 0 to |senses|
      invariant record ==> RecordsSensesUpTo(senseTrace, context, senses, i)
      invariant !record ==> senseTrace == []
      invariant outcome != LookupFailed
      invariant outcome.Best? ==> ValidLoc(ws, bestPos, bestSense) && outcome.sense == ws[bestPos].senses[bestSense]
      invariant SelectedSoFar(t, p, i, maxOverlap, outcome.Best?, bestPos, bestSense)
    {
      var overlapSet := SenseOverlap(context, senses[i]);
      var overlap := |overlapSet|;
      if record {
        RecordSenseStep(senseTrace, context, senses, i);
        senseTrace := senseTrace + [SenseTrace(senses[i].gloss, overlapSet)];
      }
      ScoreAt(context, ws, p, i);
      SelectStep(t, p, i, maxOverlap, outcome.Best?, bestPos, bestSense);
      if overlap > maxOverlap {
        maxOverlap := overlap;
        outcome := Best(senses[i]);
        bestPos, bestSense := p, i;
      }
    }
    NextPos(t, p, maxOverlap, outcome.Best?, bestPos, bestSense);
  }

  /**
   The Simplified Lesk algorithm (the private five-argument `simplifiedLesk`).
   `record` says whether the display trace is kept; the position of the best
   sense is (bestPos, bestSense), 0 and 0 when no sense was chosen.
   */
  method Disambiguate(sentence: string, lookup: Lookup, record: bool)
    returns (outcome: Outcome, trace: seq<PosTrace>, bestPos: nat, bestSense: nat)
    ensures lookup.DictionaryError? ==> outcome == LookupFailed && trace == [] && bestPos == 0 && bestSense == 0
    ensures lookup.Found? ==> outcome != LookupFailed
    ensures lookup.Found? ==>
              (outcome == NoSense <==> AllZero(ScoreTable(ContextTokens(sentence), lookup.indexWords)))
    ensures lookup.Found? && outcome.Best? ==>
              && IsFirstBest(ScoreTable(ContextTokens(sentence), lookup.indexWords), bestPos, bestSense)
              && outcome.sense == lookup.indexWords[bestPos].senses[bestSense]
    ensures outcome == NoSense ==> bestPos == 0 && bestSense == 0
    ensures lookup.Found? && record ==> Records(trace, ContextTokens(sentence), lookup.indexWords)
    ensures !record ==> trace == []
  {
    trace, bestPos, bestSense := [], 0, 0;
    if lookup.DictionaryError? {
      return LookupFailed, trace, bestPos, bestSense;
    }
    var ws := lookup.indexWords;
    var maxOverlap: nat := 0;
    var context := ContextTokens(sentence);
    outcome := NoSense;
    var p := 0;
    while p < |ws|
      invariant 0 <= p <= |ws|
      invariant record ==> |trace| == p && RecordsUpTo(trace, context, ws, p)
      invariant !record ==> trace == []
      invariant outcome != LookupFailed
      invariant outcome.Best? ==> ValidLoc(ws, bestPos, bestSense) && outcome.sense == ws[bestPos].senses[bestSense]
      invariant SelectedSoFar(ScoreTable(context, ws), p, 0, maxOverlap, outcome.Best?, bestPos, bestSense)
    {
      var senseTrace;
      senseTrace, maxOverlap, outcome, bestPos, bestSense :=
        ExamineSenses(context, ws, p, record, maxOverlap, outcome, bestPos, bestSense);
      if record {
        RecordPosStep(trace, context, ws, p, senseTrace);
        trace := trace + [PosTrace(ws[p].pos, senseTrace)];
      }
      p := p + 1;
    }
    SelectionComplete(ScoreTable(context, ws), maxOverlap, outcome.Best?, bestPos, bestSense);
  }

  /**
   The public static `simplifiedLesk(word, sentence)`: no trace, only the
   best sense. `lookup` is the dictionary's answer for the word.
   */
  method SimplifiedLesk(sentence: string, lookup: Lookup) returns (best: Option<Synset>)
    ensures best.None? <==>
              lookup.DictionaryError? || AllZero(ScoreTable(ContextTokens(sentence), lookup.indexWords))
    ensures best.Some? ==>
              && lookup.Found?
              && exists p, i :: IsFirstBest(ScoreTable(ContextTokens(sentence), lookup.indexWords), p, i)
                             && best.value == lookup.indexWords[p].senses[i]
  {
    var outcome, _, bestPos, bestSense := Disambiguate(sentence, lookup, false);
    best := if outcome.Best? then Some(outcome.sense) else None;
  }

  /**
   Two locations that both satisfy IsFirstBest coincide, so the answer of
   Disambiguate is determined by its inputs.
   */
  lemma FirstBestUnique(t: seq<seq<nat>>, p1: int, i1: int, p2: int, i2: int)
    requires IsFirstBest(t, p1, i1) && IsFirstBest(t, p2, i2)
    ensures p1 == p2 && i1 == i2
  {
  }

  /** Tie-break: of two senses with the same score, the later one is never the answer. */
  lemma LaterTieNeverChosen(t: seq<seq<nat>>, q: int, j: int, p: int, i: int)
    requires In(t, q, j) && In(t, p, i) && Before(q, j, p, i) && t[q][j] == t[p][i]
    ensures !IsFirstBest(t, p, i)
  {
  }

  /** A sense with no overlap is never the answer, wherever it stands. */
  lemma ZeroScoreNeverChosen(t: seq<seq<nat>>, p: int, i: int)
    requires In(t, p, i) && t[p][i] == 0
    ensures !IsFirstBest(t, p, i)
  {
  }

  /**
   The recorded trace agrees with the answer: the entry at the best position
   holds the best sense's gloss and an overlap whose size is the highest
   score in the whole trace.
   */
  lemma TracePointsAtBest(context: seq<string>, ws: seq<IndexWord>, trace: seq<PosTrace>, p: int, i: int)
    requires Records(trace, context, ws) && IsFirstBest(ScoreTable(context, ws), p, i)
    ensures 0 <= p < |trace| && 0 <= i < |trace[p].senses|
    ensures trace[p].senses[i].gloss == ws[p].senses[i].gloss
    ensures |trace[p].senses[i].overlap| == Score(context, ws[p].senses[i]) > 0
    ensures forall q, j :: 0 <= q < |trace| && 0 <= j < |trace[q].senses| ==>
              |trace[q].senses[j].overlap| <= |trace[p].senses[i].overlap|
  {
    var t := ScoreTable(context, ws);
    ScoreRow(context, ws, p);
    ScoreAt(context, ws, p, i);
    forall q, j | 0 <= q < |trace| && 0 <= j < |trace[q].senses|
      ensures |trace[q].senses[j].overlap| <= |trace[p].senses[i].overlap|
    {
      ScoreRow(context, ws, q);
      assert In(t, q, j);
      ScoreAt(context, ws, q, j);
    }
  }

  /** The table and the trace of a word with no parts of speech are empty. */
  lemma EmptyLookup(context: seq<string>)
    ensures AllZero(ScoreTable(context, []))
    ensures Records([], context, [])
  {
  }

  /**
   A word the dictionary knows under no part of speech has nothing to
   disambiguate: no sense, an empty trace, and indices 0.
   */
  method UnknownWordHasNoSense(sentence: string) returns (outcome: Outcome, trace: seq<PosTrace>)
    ensures outcome == NoSense && trace == []
  {
    var bestPos, bestSense;
    EmptyLookup(ContextTokens(sentence));
    outcome, trace, bestPos, bestSense := Disambiguate(sentence, Found([]), true);
  }

  /** The instance form of the disambiguator, which keeps what it displays. */
  class WordSenseDisambiguation {
    const word: string
    const sentence: string
    /** The display trace; None until simplifiedLesk() has run. */
    var senseTrace: Option<seq<PosTrace>>
    var bestSensePosIndex: nat
    var bestSenseIndex: nat

    constructor (word: string, sentence: string)
      ensures this.word == word && this.sentence == sentence
      ensures senseTrace == None
    {
      this.word := word;
      this.sentence := sentence;
      senseTrace := None;
    }

    /**
     The instance `simplifiedLesk()`: runs the algorithm on this object's
     sentence, keeping the trace and the best position for display.
     `lookup` is the dictionary's answer for `word`.
     */
    method SimplifiedLesk(lookup: Lookup) returns (best: Option<Synset>)
      modifies this
      ensures senseTrace.Some?
      ensures lookup.DictionaryError? ==> best == None && senseTrace == Some([])
      ensures lookup.Found? ==> Records(senseTrace.value, ContextTokens(sentence), lookup.indexWords)
      ensures lookup.Found? ==>
                (best.None? <==> AllZero(ScoreTable(ContextTokens(sentence), lookup.indexWords)))
      ensures best.Some? ==>
                && lookup.Found?
                && IsFirstBest(ScoreTable(ContextTokens(sentence), lookup.indexWords), bestSensePosIndex, bestSenseIndex)
                && best.value == lookup.indexWords[bestSensePosIndex].senses[bestSenseIndex]
      ensures best.None? ==> bestSensePosIndex == 0 && bestSenseIndex == 0
    {
      var outcome, trace, bestPos, bestSense := Disambiguate(sentence, lookup, true);
      senseTrace := Some(trace);
      bestSensePosIndex, bestSenseIndex := bestPos, bestSense;
      best := if outcome.Best? then Some(outcome.sense) else None;
    }
  }
}
