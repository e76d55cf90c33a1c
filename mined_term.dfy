/** The mention record produced by the text miner: which ontology term was
    found, where in the source text, with which tokens and verbatim text, and
    whether it was asserted (observed) or negated (excluded). */
module MinedTerms {

  /** A token produced by the external tokenizer; its internals are not part
      of this model. */
  type SimpleToken

  /** An ontology term identifier (e.g. an HPO id); opaque here. */
  type TermId

  /** Rust's `usize` on a 64-bit target. */
  newtype usize = x: int | 0 <= x < 0x1_0000_0000_0000_0000

  /** One mined mention. `isObserved` is true when the term was observed and
      false when the text excludes it. */
  datatype MinedTerm = MinedTerm(
    tokens: seq<SimpleToken>,
    termId: TermId,
    startPos: usize,
    endPos: usize,
    matchingString: string,
    isObserved: bool)

  /** `MinedTerm::new`: stores every argument unchanged. It is total: there is
      no precondition and no validation, so `start > end` or a string that
      has nothing to do with the span is accepted as given. */
  function New(tokens: seq<SimpleToken>, tid: TermId, start: usize, end: usize,
               matching: string, observed: bool): (m: MinedTerm)
    ensures m.tokens == tokens && m.termId == tid
    ensures m.startPos == start && m.endPos == end
    ensures m.matchingString == matching
    ensures m.isObserved == observed
  {
    MinedTerm(tokens, tid, start, end, matching, observed)
  }

  /** Rebuilding a mention from its own fields gives the same mention back:
      `New` loses nothing, and every mention is the result of some `New`. */
  lemma NewFromFields(m: MinedTerm)
    ensures New(m.tokens, m.termId, m.startPos, m.endPos, m.matchingString, m.isObserved) == m
  {
  }

  /** Two calls of `New` give equal mentions exactly when all their
      arguments are equal. */
  lemma NewInjective(t1: seq<SimpleToken>, id1: TermId, s1: usize, e1: usize, str1: string, o1: bool,
                     t2: seq<SimpleToken>, id2: TermId, s2: usize, e2: usize, str2: string, o2: bool)
    ensures New(t1, id1, s1, e1, str1, o1) == New(t2, id2, s2, e2, str2, o2)
        <==> t1 == t2 && id1 == id2 && s1 == s2 && e1 == e2 && str1 == str2 && o1 == o2
  {
  }

  /** The span invariant a mention is meant to satisfy against the text it
      was mined from: the half-open span `[startPos, endPos)` lies inside the
      source and `matchingString` is exactly that substring. Nothing in
      `MinedTerm::new` checks it; a caller may choose to establish it. */
  predicate SpanMatchesSource(m: MinedTerm, source: string)
  {
    m.startPos <= m.endPos && m.endPos as int <= |source| &&
    m.matchingString == source[m.startPos as int .. m.endPos as int]
  }

  /** `New` neither establishes nor breaks the span invariant: the mention it
      builds satisfies it exactly when the caller's arguments already do. */
  lemma NewKeepsCallerSpan(tokens: seq<SimpleToken>, tid: TermId, start: usize, end: usize,
                           matching: string, observed: bool, source: string)
    ensures SpanMatchesSource(New(tokens, tid, start, end, matching, observed), source)
        <==> start <= end && end as int <= |source| && matching == source[start as int .. end as int]
  {
  }

  /** Concretely: a reversed span is stored as given, so the resulting
      mention violates the span invariant for every source text. */
  lemma NewAcceptsReversedSpan(tokens: seq<SimpleToken>, tid: TermId, matching: string,
                               observed: bool, source: string)
    ensures New(tokens, tid, 5, 2, matching, observed).startPos == 5
    ensures New(tokens, tid, 5, 2, matching, observed).endPos == 2
    ensures !SpanMatchesSource(New(tokens, tid, 5, 2, matching, observed), source)
  {
  }
}
