# ClinicalMapper and MinedTerm, modelled in Dafny

This project models the document-level driver and the mention record of the
ferriphene clinical text miner. The miner finds mentions of Human Phenotype
Ontology terms in free text.

- `clinical_mapper.dfy` (module `ClinicalMapping`) models `ClinicalMapper`.
  `map_text` takes the sentences of a text in order and hands each sentence's
  tokens to the sentence mapper. The mapper returns either a list of mined
  terms or an error message. The method appends every successful list to a
  growing result. For a failed sentence it only prints the error and then
  moves on to the next sentence. The model takes the sentence splitter's
  output as an input `seq<seq<SimpleToken>>`. The sentence mapper is an
  arbitrary total function value of type
  `seq<SimpleToken> -> Result<seq<MinedTerm>, string>`, so every result holds
  for every possible matching algorithm. `MapText` is the imperative loop.
  It is proved equal to the pure specification `Harvest`: the concatenation
  of the `Ok` payloads, in sentence order. The lemmas about `Harvest` state
  what the loop promises.
- `mined_term.dfy` (module `MinedTerms`) models the `MinedTerm` record and
  its constructor `MinedTerm::new`. `SimpleToken` and `TermId` are abstract
  types. `usize` is a 64-bit newtype. The span invariant one might expect of
  a mention (start before end, and the matching string equal to that slice
  of the source) is the predicate `SpanMatchesSource`. `New` does not
  enforce it. `NewKeepsCallerSpan` shows that the result satisfies it only
  when the caller's arguments already do, and `NewAcceptsReversedSpan` shows
  that a reversed span is stored as given.

## Model

| member | source | states |
|---|---|---|
| `MinedTerms.New` | src/mined_term.rs:31-45 | Total, with no precondition. It stores `tokens`, `tid`, `start`, `end`, the matching string and `observed` unchanged in `tokens`, `termId`, `startPos`, `endPos`, `matchingString` and `isObserved` |
| `MinedTerms.NewFromFields` | src/mined_term.rs:8-14 | Every mention is `New` applied to its own fields, so the constructor loses no field |
| `MinedTerms.NewInjective` | src/mined_term.rs:37-44 | Two constructions are equal if and only if all six arguments are equal: each argument is kept in its own field |
| `MinedTerms.NewKeepsCallerSpan` | src/mined_term.rs:31-45 | The constructed mention satisfies the span invariant (`start <= end <= |source|` and the matching string equals `source[start..end]`) if and only if the arguments do. `new` performs no validation |
| `MinedTerms.NewAcceptsReversedSpan` | src/mined_term.rs:33-34 | A reversed span (start 5, end 2) is stored as given, and the resulting mention breaks the span invariant for every source text |
| `ClinicalMapping.FromSentenceMapper` | src/hpo/clinical_mapper.rs:32-52 | The mapper that `new` and `from_map` build holds exactly the sentence mapper it was given |
| `ClinicalMapping.MapText` | src/hpo/clinical_mapper.rs:54-65 | The loop's result equals `Harvest` of the per-sentence outcomes: the `Ok` payloads, concatenated in sentence order. Its length is the sum of their lengths. When every sentence fails, including when there are none, the result is empty. The loop invariant: after i sentences, the list holds the harvest of the first i outcomes |
| `ClinicalMapping.MapTextTwice` | src/hpo/clinical_mapper.rs:54 | `map_text` only borrows the mapper, so two calls on the same sentences give identical results, order included |
| `ClinicalMapping.HarvestConcat` | src/hpo/clinical_mapper.rs:57-63 | Harvesting two consecutive runs of sentences equals harvesting each run and concatenating, so the fold is order-preserving |
| `ClinicalMapping.HarvestAt` | src/hpo/clinical_mapper.rs:58-63 | Sentence i's contribution comes after the mentions of all earlier sentences and before those of all later ones. A successful sentence contributes its list unchanged, and a failed one contributes nothing |
| `ClinicalMapping.HarvestSkipsFailure` | src/hpo/clinical_mapper.rs:61 | Deleting a failed sentence leaves the result unchanged: the error adds no terms and does not stop later sentences |
| `ClinicalMapping.HarvestEmptyIff` | src/hpo/clinical_mapper.rs:57-64 | The result is empty if and only if every sentence either failed or returned an empty list. This covers no sentences and all sentences failing |
| `ClinicalMapping.HarvestMembership` | src/hpo/clinical_mapper.rs:58-60 | A mined term is in the result if and only if some successful sentence returned it |
| `ClinicalMapping.HarvestLength` | src/hpo/clinical_mapper.rs:57-64 | The result's length equals the sum of the lengths of the successful sentences' lists |
| `ClinicalMapping.HarvestPlacesSentence` | src/hpo/clinical_mapper.rs:60 | Term k of successful sentence i is at position (number of terms from earlier successful sentences) + k. `extend` keeps each sentence's own order |

## Left out

- Sentence splitting and tokenisation (`CoreDocument::new`, `get_sentences`, `get_tokens`) are not part of this model. `MapText` takes the sentences' token sequences as input.
- `SentenceMapper::map_sentence` is not part of this model: neither its longest-match algorithm nor its negation handling. It is an arbitrary function value, so nothing here depends on how it matches.
- `DefaultHpoMapper::new` and `DefaultHpoMapper::from_map` are not part of this model: lexicon construction from an ontology or from a phrase table. `ClinicalMapping.FromSentenceMapper` therefore stands for both `new` and `from_map`, taking the already built sentence mapper.
- The `ontolius` ontology traits (`OntologyTerms`, `HierarchyWalks`, `MinimalTerm`, `Synonymous`) belong to a foreign crate.
- The console message for a failed sentence, with the error lowercased, is console output. The model keeps only its effect: the error is dropped and the loop continues.
- The commented-out JSON serialisation in `clinical_mapper.rs` is not live code. So are the commented-out `decorations` and `similarity` fields in `mined_term.rs`.
- The internals of `SimpleToken` and `TermId` are abstract types here. Token-level mention invariants, such as a contiguous token slice whose offsets equal the span, cannot be stated.
