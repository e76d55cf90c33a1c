/** The document-level driver of the text miner: every sentence of a text is
    handed to a sentence mapper, the mentions of the sentences that map
    successfully are concatenated in document order, and a sentence that
    fails is reported and skipped without stopping the document. */
module ClinicalMapping {
  import opened MinedTerms

  /** Rust's `Result`: the outcome of mapping one sentence. */
  datatype Result<T, E> = Ok(value: T) | Err(error: E)

  /** The sentence mapper built from the concept lexicon. Its matching
      algorithm is not part of this model: it is an arbitrary total function
      from a sentence's tokens to either the mentions found or an error
      message. */
  datatype SentenceMapper = SentenceMapper(
    mapSentence: seq<SimpleToken> -> Result<seq<MinedTerm>, string>)

  /** `ClinicalMapper`: holds one sentence mapper and never changes it. */
  datatype ClinicalMapper = ClinicalMapper(sentenceMapper: SentenceMapper)

  /** `ClinicalMapper::new` and `ClinicalMapper::from_map`: both build a
      lexicon-backed sentence mapper (from an ontology or from an explicit
      phrase table) and store it; with that construction abstracted, both
      wrap the given sentence mapper. */
  function FromSentenceMapper(sentenceMapper: SentenceMapper): (c: ClinicalMapper)
    ensures c.sentenceMapper == sentenceMapper
  {
    ClinicalMapper(sentenceMapper)
  }

  /** What one sentence's outcome adds to the document's mentions. */
  function Contribution(r: Result<seq<MinedTerm>, string>): seq<MinedTerm>
  {
    match r
    case Ok(parts) => parts
    case Err(_) => []
  }

  /** The specification of `map_text`: the concatenation, in order, of the
      payloads of the successful outcomes. Defined from the last outcome
      backwards, the way the loop grows its result. */
  function Harvest(rs: seq<Result<seq<MinedTerm>, string>>): seq<MinedTerm>
    decreases |rs|
  {
    if rs == [] then [] else Harvest(rs[..|rs| - 1]) + Contribution(rs[|rs| - 1])
  }

  /** Total number of mentions in the successful outcomes. */
  function OkLengthSum(rs: seq<Result<seq<MinedTerm>, string>>): nat
    decreases |rs|
  {
    if rs == [] then 0
    else OkLengthSum(rs[..|rs| - 1]) + (if rs[|rs| - 1].Ok? then |rs[|rs| - 1].value| else 0)
  }

  /** The outcomes of mapping each sentence with the mapper, in sentence order. */
  function SentenceResults(mapper: ClinicalMapper, sentences: seq<seq<SimpleToken>>)
    : seq<Result<seq<MinedTerm>, string>>
  {
    seq(|sentences|, i requires 0 <= i < |sentences| => mapper.sentenceMapper.mapSentence(sentences[i]))
  }

  /** Harvesting a document made of two parts is harvesting each part and
      concatenating. */
  lemma {:induction false} HarvestConcat(a: seq<Result<seq<MinedTerm>, string>>,
                                         b: seq<Result<seq<MinedTerm>, string>>)
    ensures Harvest(a + b) == Harvest(a) + Harvest(b)
    decreases |b|
  {
    if b == [] {
      assert a + b == a;
    } else {
      var front := b[..|b| - 1];
      assert (a + b)[..|a + b| - 1] == a + front;
      assert (a + b)[|a + b| - 1] == b[|b| - 1];
      HarvestConcat(a, front);
    }
  }

  /** Cutting a sequence around one of its elements. */
  lemma SplitAround<T>(s: seq<T>, i: nat)
    requires i < |s|
    ensures s == s[..i] + ([s[i]] + s[i + 1..])
  {
    assert s[i..] == [s[i]] + s[i + 1..];
    assert s == s[..i] + s[i..];
  }

  /** Sequence concatenation is associative. */
  lemma AppendAssoc<T>(a: seq<T>, b: seq<T>, c: seq<T>)
    ensures a + (b + c) == a + b + c
  {
  }

  /** Harvesting a single outcome gives its contribution. */
  lemma HarvestSingle(r: Result<seq<MinedTerm>, string>)
    ensures Harvest([r]) == Contribution(r)
  {
    assert [r][..0] == [];
  }

  /** Sentence i sits in the result between the mentions of the sentences
      before it and those of the sentences after it: a successful sentence
      contributes its own list unchanged, a failed one contributes nothing,
      and the sentences after it are still harvested. */
  lemma HarvestAt(rs: seq<Result<seq<MinedTerm>, string>>, i: nat)
    requires i < |rs|
    ensures Harvest(rs) == Harvest(rs[..i]) + Contribution(rs[i]) + Harvest(rs[i + 1..])
  {
    var before, here, after := rs[..i], [rs[i]], rs[i + 1..];
    SplitAround(rs, i);
    HarvestSingle(rs[i]);
    HarvestConcat(here, after);
    HarvestConcat(before, here + after);
    AppendAssoc(Harvest(before), Contribution(rs[i]), Harvest(after));
  }

  /** A failed sentence can be removed from the document without changing
      the result: an error neither contributes mentions nor stops the later
      sentences from being harvested. */
  lemma HarvestSkipsFailure(rs: seq<Result<seq<MinedTerm>, string>>, i: nat)
    requires i < |rs| && rs[i].Err?
    ensures Harvest(rs) == Harvest(rs[..i] + rs[i + 1..])
  {
    var before, after := rs[..i], rs[i + 1..];
    HarvestAt(rs, i);
    assert Contribution(rs[i]) == [];
    assert Harvest(before) + [] == Harvest(before);
    HarvestConcat(before, after);
  }

  /** The result is empty exactly when every sentence either failed or
      found nothing; in particular when there are no sentences or all of
      them fail. */
  lemma {:induction false} HarvestEmptyIff(rs: seq<Result<seq<MinedTerm>, string>>)
    ensures Harvest(rs) == [] <==> forall i :: 0 <= i < |rs| ==> rs[i].Err? || rs[i].value == []
    decreases |rs|
  {
    if rs != [] {
      var front := rs[..|rs| - 1];
      HarvestEmptyIff(front);
      assert forall i :: 0 <= i < |front| ==> front[i] == rs[i];
    }
  }

  /** A mention is in the result exactly when some successful sentence
      returned it. */
  lemma {:induction false} HarvestMembership(rs: seq<Result<seq<MinedTerm>, string>>, m: MinedTerm)
    ensures m in Harvest(rs) <==> exists i :: 0 <= i < |rs| && rs[i].Ok? && m in rs[i].value
    decreases |rs|
  {
    if rs != [] {
      var front := rs[..|rs| - 1];
      var last := |rs| - 1;
      HarvestMembership(front, m);
      if m in Harvest(rs) {
        if m !in Harvest(front) {
          assert rs[last].Ok? && m in rs[last].value;
        }
      } else {
        forall i | 0 <= i < |rs| && rs[i].Ok?
          ensures m !in rs[i].value
        {
          if i < last {
            assert front[i] == rs[i];
          }
        }
      }
    }
  }

  /** The result's length is the sum of the lengths of the successful
      sentences' lists. */
  lemma {:induction false} HarvestLength(rs: seq<Result<seq<MinedTerm>, string>>)
    ensures |Harvest(rs)| == OkLengthSum(rs)
    decreases |rs|
  {
    if rs != [] {
      HarvestLength(rs[..|rs| - 1]);
    }
  }

  /** Position by position: the k-th mention returned for successful
      sentence i appears in the result right after all the mentions of the
      earlier successful sentences, at offset k, so the order inside a
      sentence and the order of sentences are both preserved. */
  lemma HarvestPlacesSentence(rs: seq<Result<seq<MinedTerm>, string>>, i: nat, k: nat)
    requires i < |rs| && rs[i].Ok? && k < |rs[i].value|
    ensures OkLengthSum(rs[..i]) + k < |Harvest(rs)|
    ensures Harvest(rs)[OkLengthSum(rs[..i]) + k] == rs[i].value[k]
  {
    HarvestAt(rs, i);
    HarvestLength(rs[..i]);
  }

  /** `ClinicalMapper::map_text`, with the text already split into
      sentences of tokens. The loop keeps a growing list and extends it with
      every successful sentence's mentions; a failed sentence's error is
      only reported on the console and the loop goes on. */
  method MapText(mapper: ClinicalMapper, sentences: seq<seq<SimpleToken>>)
    returns (mappedParts: seq<MinedTerm>)
    ensures mappedParts == Harvest(SentenceResults(mapper, sentences))
    ensures |mappedParts| == OkLengthSum(SentenceResults(mapper, sentences))
    ensures (forall i :: 0 <= i < |sentences| ==> mapper.sentenceMapper.mapSentence(sentences[i]).Err?)
              ==> mappedParts == []
  {
    ghost var results := SentenceResults(mapper, sentences);
    mappedParts := [];
    for i := 0 to |sentences|
      invariant mappedParts == Harvest(results[..i])
    {
      assert results[..i + 1][..i] == results[..i];
      match mapper.sentenceMapper.mapSentence(sentences[i])
      case Ok(sentenceParts) =>
        mappedParts := mappedParts + sentenceParts;
      case Err(_) =>
    }
    assert results[..|sentences|] == results;
    HarvestLength(results);
    HarvestEmptyIff(results);
  }

  /** `map_text` borrows the mapper immutably, so mapping the same sentences
      twice with the same mapper gives identical results, order included. */
  method MapTextTwice(mapper: ClinicalMapper, sentences: seq<seq<SimpleToken>>)
    returns (first: seq<MinedTerm>, second: seq<MinedTerm>)
    ensures first == second
  {
    first := MapText(mapper, sentences);
    second := MapText(mapper, sentences);
  }
}
