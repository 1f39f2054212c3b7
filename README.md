# Chatbot intent classifier: feature extraction, modelled in Dafny

`train_chatbot.py` trains an intent classifier for a rule-based chatbot. This project models
its feature-extraction pipeline and proves properties of that model. The pipeline has three parts:

- `perform_ETL` walks the intents. It makes one `(tokens, tag)` document per example question and
  records each tag the first time it sees it. It then builds the vocabulary: it drops raw
  tokens in the ignore list `['?', '!']`, lower-cases and lemmatises the rest, and
  deduplicates and sorts them. The tag list is also deduplicated and sorted.
- `get_training_data` turns each document into a pair. The pair holds a binary bag-of-words
  vector indexed by the vocabulary and a one-hot label row indexed by the tag list. The
  function then shuffles the list of pairs in place.
- The `__main__` loop splits the shuffled pairs into the inputs `x_train` and the labels `y_train`.

Modules, one per component:

- `StringOrder` (`string_order.dfy`): Python's ordering of `str` values, and `sorted(list(set(xs)))`
  as `SortedDistinct`. `SortedDistinct` inserts each element into a strictly increasing list.
  A lemma proves that exactly one strictly increasing list holds a given set of
  elements. So the result is Python's result, whatever order `set` iterates in.
- `Normalizer` (`normalizer.dfy`): the ignore list. `str.lower` on ASCII. The tokenizer and the
  lemmatizer are function-typed parameters (`Tokenizer`, `Lemmatizer`) that the model never
  looks inside.
- `Extraction` (`extraction.dfy`): intents, documents and `perform_ETL`. The nested append
  loops are kept as methods with loop invariants. They are proved against the recursive
  specification functions `Documents`, `AllTokens` and `KeptLemmas`.
- `Encoding` (`encoding.dfy`): training pairs and `get_training_data`.
  - The inner append loops are methods.
  - `list_of_zeros` is an array. Each `output_row` is a fresh copy of it, written in place, and
    a loop invariant keeps the template all zeros from one document to the next.
  - `random.shuffle` is CPython's in-place swap loop over an array. The random draws are a parameter.
- `Pipeline` (`pipeline.dfy`): the x/y split and the composition in `__main__`.

The ignore list is applied to the raw token, before lower-casing and lemmatising
(`train_chatbot.py:46-47`), so the raw tokens `?` and `!` never contribute to the vocabulary.
A `?` would still appear if the lemmatizer mapped some other token to it. An intent without
questions contributes no tag, because tags are collected inside the per-question loop.

The tokenizer and lemmatizer are parameters, and the shuffle's random draws are a parameter
`draw`. A missing tag in `get_training_data` makes `tags.index` raise, and the source does not
handle that. The model states it as the precondition `Encodable` of `GetTrainingData`, and
`PerformETL` proves that its own output meets it.

## Model

| member | source | states |
|---|---|---|
| `StringOrder.Less` | train_chatbot.py:49-50 | `a < b` holds iff there is a first position `k` where the strings differ, with the prefixes before `k` equal and `a` either ended at `k` or holding the smaller code point there |
| `StringOrder.LessIrreflexive` | train_chatbot.py:49-50 | no string sorts before itself under Python's string order |
| `StringOrder.LessTransitive` | train_chatbot.py:49-50 | Python's string order is transitive |
| `StringOrder.LessTotal` | train_chatbot.py:49-50 | any two different strings are ordered one way or the other |
| `StringOrder.LessAsymmetric` | train_chatbot.py:49-50 | two strings are never ordered both ways |
| `StringOrder.StrictlySortedHasNoDuplicates` | train_chatbot.py:49-50 | a strictly increasing list has no repeated element |
| `StringOrder.Insert` | train_chatbot.py:49-50 | inserting into a strictly increasing list keeps it strictly increasing, and its elements are the old ones plus the new one |
| `StringOrder.SortedDistinct` | train_chatbot.py:49-50 | `sorted(list(set(xs)))` is strictly increasing and holds exactly the elements of `xs` |
| `StringOrder.StrictlySortedIsUnique` | train_chatbot.py:49-50 | two strictly increasing lists with the same elements are equal |
| `StringOrder.SortedDistinctIsCanonical` | train_chatbot.py:49-50 | any strictly increasing list of exactly the elements of `xs` is `SortedDistinct(xs)`, so the vocabulary and tag list do not depend on set iteration order |
| `StringOrder.SortedDistinctDependsOnlyOnElements` | train_chatbot.py:49-50 | two lists with the same elements give the same sorted deduplicated list, so extraction is deterministic |
| `Normalizer.LowerChar` | train_chatbot.py:47 | an upper-case ASCII letter maps to its lower-case form (code plus 32); every other character is unchanged; the result is never upper-case |
| `Normalizer.Lower` | train_chatbot.py:47 | `w.lower()` keeps the length, leaves no upper-case ASCII letter, maps each upper-case ASCII letter to its lower-case form (code plus 32) and keeps every other character |
| `Normalizer.Normalize` | train_chatbot.py:47 | the base form of a raw token does not depend on its case: any spelling of the same length that differs from it only in upper- versus lower-case ASCII letters gets the same lemma |
| `Extraction.QuestionDocuments` | train_chatbot.py:34-38 | one intent yields one document per question, in question order, each the tokenised question with the intent's tag |
| `Extraction.Documents` | train_chatbot.py:33-38 | the number of documents equals the number of questions of all intents |
| `Extraction.DocumentAt` | train_chatbot.py:33-38 | question `j` of intent `i` is the document at position (questions before intent `i`) + `j`, so the order is intent order, then question order |
| `Extraction.DocumentTags` | train_chatbot.py:33-41 | a tag is carried by some document iff it is the tag of an intent with at least one question |
| `Extraction.AllTokens` | train_chatbot.py:35-36 | a raw token is collected iff it is a token of some document |
| `Extraction.KeptLemmas` | train_chatbot.py:44-47 | `v` is in `temp` iff it is `lemmatize(lower(w))` for some raw token `w` not in the ignore list |
| `Extraction.VocabularyMembers` | train_chatbot.py:35-47 | `temp` holds exactly the lemmas of the non-ignored raw tokens of the documents |
| `Extraction.ExtractQuestions` | train_chatbot.py:34-41 | one intent's questions append their documents to the list; the raw-token list stays the documents' tokens, and the seen-tag list holds exactly the documents' tags, each once |
| `Extraction.ExtractDocuments` | train_chatbot.py:33-41 | the loops build exactly `Documents(intents)`, the concatenated raw tokens, and a tag list holding exactly the documents' tags, without repeats |
| `Extraction.LemmatizeRawWords` | train_chatbot.py:44-47 | the filter loop builds exactly the lemmas of the non-ignored raw tokens, in order |
| `Extraction.PerformETL` | train_chatbot.py:20-52 | documents in intent and question order, one per question; tags strictly sorted and exactly the tags of intents with a question; every document's tag is in the tags; vocabulary strictly sorted and `v` in it iff `v` is the lemma of a lower-cased, non-ignored raw token |
| `Encoding.Encode` | train_chatbot.py:64-81 | one document's pair has a bag as wide as the vocabulary and a label row as wide as the tag list, with a 1 at `tags.index(tag)` |
| `Encoding.EncodeAll` | train_chatbot.py:64-81 | before the shuffle there is one pair per document, each with a bag as wide as the vocabulary and a label row as wide as the tag list |
| `Encoding.IndexOf` | train_chatbot.py:80 | `tags.index(t)` is a position holding `t`, with no earlier position holding `t` |
| `Encoding.SumOfIndicator` | train_chatbot.py:79-80 | a row with one 1 and zeros elsewhere sums to 1 |
| `Encoding.EncodedBag` | train_chatbot.py:65-77 | the bag is as wide as the vocabulary; entry `i` is 1 iff `words[i]` is the lemma of a lower-cased token of the document, and 0 iff it is not |
| `Encoding.EncodedLabel` | train_chatbot.py:79-80 | the label row is as wide as the tag list, 1 at `tags.index(tag)` and 0 everywhere else, summing to 1; with no duplicate tags, entry `k` is 1 iff `tags[k]` is the document's tag |
| `Encoding.ShuffledExamples` | train_chatbot.py:81-84 | any reordering of the encoded documents has one pair per document, each the encoding of some document, with the widths and the one-hot sum kept |
| `Encoding.LemmatizeTokens` | train_chatbot.py:68-71 | `pattern_words[m]` is `lemmatize(lower(tokens[m]))` for every token, in order |
| `Encoding.BuildBag` | train_chatbot.py:73-77 | one entry per vocabulary word, 1 iff the word is among the pattern words and 0 iff it is not |
| `Encoding.Shuffle` | train_chatbot.py:83 | the in-place shuffle only reorders: the multiset of elements is unchanged |
| `Encoding.EncodeDocument` | train_chatbot.py:65-81 | the loop body builds exactly the document's bag and one-hot row; it only reads the zero template, so the template stays all zeros |
| `Encoding.EncodeDocuments` | train_chatbot.py:62-81 | the loop over the documents builds exactly the per-document encodings, in document order, sharing one all-zero template |
| `Encoding.GetTrainingData` | train_chatbot.py:55-84 | one pair per document; the multiset of pairs is the multiset of per-document encodings; every pair is some document's encoding, with a bag as wide as the vocabulary and a label row as wide as the tags, summing to 1 |
| `Pipeline.SplitTrainingData` | train_chatbot.py:130-134 | `x_train` and `y_train` are as long as the training data, and position `i` holds the bag and the label row of pair `i` |
| `Pipeline.PrepareTrainingSet` | train_chatbot.py:118-134 | the vocabulary and the tags are strictly sorted; the vocabulary holds exactly the lemmas of the lower-cased, non-ignored raw tokens of the documents; the tags are exactly the tags of intents with a question; there is one input row and one label row per question; each row pair is the encoding of some question's document; inputs are as wide as the vocabulary and labels are one-hot rows as wide as the tags; the input and label rows, paired up, are a permutation of the per-document encodings |

## Left out

- `nltk.download` and the internals of `word_tokenize` and `WordNetLemmatizer.lemmatize`
  (`train_chatbot.py:6-10, 35, 47, 70`): foreign library code. They are the uninterpreted
  parameters `tokenize` and `lemmatize`.
- `create_neural_network_model` (`train_chatbot.py:87-111`): Keras layers, dropout, SGD,
  fitting and saving. This is floating-point numerics inside an external library.
- The randomness of `random.shuffle` (`train_chatbot.py:83`): the draws are the parameter `draw`.
  Only the permutation property is proved, not the uniform distribution.
- Reading and parsing `intents.json`, the pickle dumps and the console prints
  (`train_chatbot.py:115-127`): I/O. The intents arrive as a parsed sequence of `Intent` values.
  A missing "intents", "tag" or "questions" key, or malformed JSON, is not modelled.
- Normalizer.Lower: only ASCII letters are case-folded. Python's Unicode case mapping of other
  characters (for example, characters whose lower-case form is longer) is not modelled.
- Encoding.GetTrainingData: a document whose tag is not in the tag list makes the source raise
  `ValueError` from `tags.index`. The model excludes this with a precondition instead of modelling
  the exception, and `Extraction.PerformETL` proves that its own output always meets it.
