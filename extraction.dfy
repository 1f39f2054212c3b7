/**
 * The corpus extractor, `perform_ETL`: one document per question, the tags in
 * first-seen order, and the vocabulary of lemmatised, lower-cased raw tokens.
 */
module Extraction {
  import opened StringOrder
  import opened Normalizer

  /** One entry of the "intents" collection: a tag and its example questions. */
  datatype Intent = Intent(tag: string, questions: seq<string>)

  /** A tokenised question paired with the tag of the intent it came from. */
  datatype Document = Document(tokens: seq<string>, tag: string)

  /** The documents the questions of one intent produce, in question order. */
  function QuestionDocuments(tag: string, questions: seq<string>, tokenize: Tokenizer): (r: seq<Document>)
    ensures |r| == |questions|
    ensures forall j :: 0 <= j < |questions| ==> r[j] == Document(tokenize(questions[j]), tag)
  {
    if |questions| == 0 then []
    else
      QuestionDocuments(tag, questions[..|questions| - 1], tokenize)
        + [Document(tokenize(questions[|questions| - 1]), tag)]
  }

  /** How many questions the intents hold together. */
  function QuestionCount(intents: seq<Intent>): nat
  {
    if |intents| == 0 then 0
    else QuestionCount(intents[..|intents| - 1]) + |intents[|intents| - 1].questions|
  }

  /** The documents of all intents, intent after intent. */
  function Documents(intents: seq<Intent>, tokenize: Tokenizer): (r: seq<Document>)
    ensures |r| == QuestionCount(intents)
  {
    if |intents| == 0 then []
    else
      var last := intents[|intents| - 1];
      Documents(intents[..|intents| - 1], tokenize) + QuestionDocuments(last.tag, last.questions, tokenize)
  }

  /** `w` is one of the tokens of some document. */
  ghost predicate IsTokenOf(docs: seq<Document>, w: string)
  {
    exists k, m :: 0 <= k < |docs| && 0 <= m < |docs[k].tokens| && docs[k].tokens[m] == w
  }

  /** `v` is the lemma of a lower-cased raw token that is not in the ignore list. */
  ghost predicate IsKeptLemma(raw: seq<string>, lemmatize: Lemmatizer, v: string)
  {
    exists w :: w in raw && w !in IgnoreWords && v == Normalize(lemmatize, w)
  }

  /** The raw tokens of the documents, concatenated: the `words` list before lemmatising.
      A string is collected iff it is a token of some document. */
  function AllTokens(docs: seq<Document>): (r: seq<string>)
    ensures forall w :: w in r <==> IsTokenOf(docs, w)
  {
    if |docs| == 0 then []
    else
      var n := |docs|;
      var init := docs[..n - 1];
      var r := AllTokens(init) + docs[n - 1].tokens;
      assert forall w :: w in r <==> IsTokenOf(docs, w) by {
        forall w
          ensures w in r <==> IsTokenOf(docs, w)
        {
          if w in r {
            if w in AllTokens(init) {
              var k, m :| 0 <= k < |init| && 0 <= m < |init[k].tokens| && init[k].tokens[m] == w;
              assert docs[k] == init[k];
            } else {
              var m :| 0 <= m < |docs[n - 1].tokens| && docs[n - 1].tokens[m] == w;
            }
          }
          if IsTokenOf(docs, w) {
            var k, m :| 0 <= k < |docs| && 0 <= m < |docs[k].tokens| && docs[k].tokens[m] == w;
            if k < n - 1 {
              assert init[k] == docs[k];
              assert IsTokenOf(init, w);
            } else {
              assert docs[k].tokens[m] in docs[n - 1].tokens;
            }
          }
        }
      }
      r
  }

  /** The lemmatised forms of the raw tokens that are not in the ignore list: `temp`.
      A string is kept iff it is the lemma of some lower-cased raw token outside the
      ignore list. */
  function KeptLemmas(raw: seq<string>, lemmatize: Lemmatizer): (r: seq<string>)
    ensures forall v :: v in r <==> IsKeptLemma(raw, lemmatize, v)
  {
    if |raw| == 0 then []
    else
      var init := raw[..|raw| - 1];
      var w := raw[|raw| - 1];
      var kept := KeptLemmas(init, lemmatize);
      var r := if w in IgnoreWords then kept else kept + [Normalize(lemmatize, w)];
      assert raw == init + [w];
      assert forall v :: v in r <==> IsKeptLemma(raw, lemmatize, v) by {
        forall v
          ensures v in r <==> IsKeptLemma(raw, lemmatize, v)
        {
          if v in r && v in kept {
            var w' :| w' in init && w' !in IgnoreWords && v == Normalize(lemmatize, w');
            assert w' in raw;
          }
          if IsKeptLemma(raw, lemmatize, v) {
            var w' :| w' in raw && w' !in IgnoreWords && v == Normalize(lemmatize, w');
            if w' != w {
              assert w' in init;
              assert IsKeptLemma(init, lemmatize, v);
            }
          }
        }
      }
      r
  }

  ghost predicate HasDocumentTag(docs: seq<Document>, t: string)
  {
    exists k :: 0 <= k < |docs| && docs[k].tag == t
  }

  /** `t` is the tag of some intent with at least one question. */
  ghost predicate HasQuestionedTag(intents: seq<Intent>, t: string)
  {
    exists i :: 0 <= i < |intents| && |intents[i].questions| > 0 && intents[i].tag == t
  }

  /** `v` is the lemma of a lower-cased raw token of some document, that token not
      being in the ignore list. */
  ghost predicate IsVocabularyWord(docs: seq<Document>, lemmatize: Lemmatizer, v: string)
  {
    exists k, m :: 0 <= k < |docs| && 0 <= m < |docs[k].tokens| &&
      docs[k].tokens[m] !in IgnoreWords && v == Normalize(lemmatize, docs[k].tokens[m])
  }

  /** Question `j` of intent `i` becomes the document at position
      (questions of the intents before `i`) + `j`: intent order, then question order. */
  lemma {:induction false} DocumentAt(intents: seq<Intent>, tokenize: Tokenizer, i: nat, j: nat)
    requires i < |intents| && j < |intents[i].questions|
    ensures QuestionCount(intents[..i]) + j < |Documents(intents, tokenize)|
    ensures Documents(intents, tokenize)[QuestionCount(intents[..i]) + j]
         == Document(tokenize(intents[i].questions[j]), intents[i].tag)
    decreases |intents|
  {
    var n := |intents|;
    var init := intents[..n - 1];
    var last := intents[n - 1];
    assert Documents(intents, tokenize)
        == Documents(init, tokenize) + QuestionDocuments(last.tag, last.questions, tokenize);
    if i < n - 1 {
      assert init[..i] == intents[..i];
      assert init[i] == intents[i];
      DocumentAt(init, tokenize, i, j);
    } else {
      assert intents[..i] == init;
    }
  }

  /** The tags documents carry are exactly the tags of intents with a question. */
  lemma {:induction false} DocumentTags(intents: seq<Intent>, tokenize: Tokenizer, t: string)
    ensures HasDocumentTag(Documents(intents, tokenize), t) <==> HasQuestionedTag(intents, t)
    decreases |intents|
  {
    if |intents| > 0 {
      var n := |intents|;
      var init := intents[..n - 1];
      var last := intents[n - 1];
      var d0 := Documents(init, tokenize);
      var q := QuestionDocuments(last.tag, last.questions, tokenize);
      var docs := Documents(intents, tokenize);
      assert docs == d0 + q;
      DocumentTags(init, tokenize, t);
      if HasDocumentTag(docs, t) {
        var k :| 0 <= k < |docs| && docs[k].tag == t;
        if k < |d0| {
          assert d0[k].tag == t;
          var i :| 0 <= i < |init| && |init[i].questions| > 0 && init[i].tag == t;
          assert intents[i] == init[i];
        } else {
          assert q[k - |d0|].tag == t;
          assert |intents[n - 1].questions| > 0;
        }
      }
      if HasQuestionedTag(intents, t) {
        var i :| 0 <= i < n && |intents[i].questions| > 0 && intents[i].tag == t;
        if i < n - 1 {
          assert init[i] == intents[i];
          var k :| 0 <= k < |d0| && d0[k].tag == t;
          assert docs[k] == d0[k];
        } else {
          assert docs[|d0|] == q[0];
        }
      }
    }
  }

  lemma DocumentTagsAppend(docs: seq<Document>, d: Document)
    ensures forall t :: HasDocumentTag(docs + [d], t) <==> HasDocumentTag(docs, t) || d.tag == t
  {
    var docs' := docs + [d];
    forall t
      ensures HasDocumentTag(docs', t) <==> HasDocumentTag(docs, t) || d.tag == t
    {
      if HasDocumentTag(docs, t) {
        var k :| 0 <= k < |docs| && docs[k].tag == t;
        assert docs'[k] == docs[k];
      }
      if d.tag == t {
        assert docs'[|docs|] == d;
      }
      if HasDocumentTag(docs', t) {
        var k :| 0 <= k < |docs'| && docs'[k].tag == t;
        if k < |docs| {
          assert docs[k] == docs'[k];
        }
      }
    }
  }

  /** The vocabulary words are exactly the lemmas of the kept raw tokens of the documents. */
  lemma VocabularyMembers(docs: seq<Document>, lemmatize: Lemmatizer, v: string)
    ensures v in KeptLemmas(AllTokens(docs), lemmatize) <==> IsVocabularyWord(docs, lemmatize, v)
  {
    var raw := AllTokens(docs);
    if v in KeptLemmas(raw, lemmatize) {
      var w :| w in raw && w !in IgnoreWords && v == Normalize(lemmatize, w);
      assert IsTokenOf(docs, w);
      var k, m :| 0 <= k < |docs| && 0 <= m < |docs[k].tokens| && docs[k].tokens[m] == w;
    }
    if IsVocabularyWord(docs, lemmatize, v) {
      var k, m :| 0 <= k < |docs| && 0 <= m < |docs[k].tokens| &&
        docs[k].tokens[m] !in IgnoreWords && v == Normalize(lemmatize, docs[k].tokens[m]);
      assert IsTokenOf(docs, docs[k].tokens[m]);
      assert IsKeptLemma(raw, lemmatize, v);
    }
  }

  /** Lines 34-41 of `perform_ETL`, for one intent: each question adds one document,
      its raw tokens, and the intent's tag if it has not been seen yet. */
  method ExtractQuestions(intent: Intent, tokenize: Tokenizer,
                          documents0: seq<Document>, rawWords0: seq<string>, seenTags0: seq<string>)
    returns (documents: seq<Document>, rawWords: seq<string>, seenTags: seq<string>)
    requires rawWords0 == AllTokens(documents0)
    requires forall t :: t in seenTags0 <==> HasDocumentTag(documents0, t)
    requires NoDuplicates(seenTags0)
    ensures documents == documents0 + QuestionDocuments(intent.tag, intent.questions, tokenize)
    ensures rawWords == AllTokens(documents)
    ensures forall t :: t in seenTags <==> HasDocumentTag(documents, t)
    ensures NoDuplicates(seenTags)
  {
    documents, rawWords, seenTags := documents0, rawWords0, seenTags0;
    var j := 0;
    while j < |intent.questions|
      invariant 0 <= j <= |intent.questions|
      invariant documents == documents0 + QuestionDocuments(intent.tag, intent.questions[..j], tokenize)
      invariant rawWords == AllTokens(documents)
      invariant forall t :: t in seenTags <==> HasDocumentTag(documents, t)
      invariant NoDuplicates(seenTags)
    {
      var wordsList := tokenize(intent.questions[j]);
      var doc := Document(wordsList, intent.tag);
      rawWords := rawWords + wordsList;
      DocumentTagsAppend(documents, doc);
      assert (documents + [doc])[..|documents|] == documents;
      documents := documents + [doc];
      if intent.tag !in seenTags {
        seenTags := seenTags + [intent.tag];
      }
      assert intent.questions[..j + 1][..j] == intent.questions[..j];
      j := j + 1;
    }
    assert intent.questions[..j] == intent.questions;
  }

  /** Lines 33-41 of `perform_ETL`: for every question of every intent, one document,
      its raw tokens appended to `rawWords`, and its tag appended to `seenTags` the
      first time it appears. */
  method ExtractDocuments(intents: seq<Intent>, tokenize: Tokenizer)
    returns (documents: seq<Document>, rawWords: seq<string>, seenTags: seq<string>)
    ensures documents == Documents(intents, tokenize)
    ensures rawWords == AllTokens(documents)
    ensures forall t :: t in seenTags <==> HasDocumentTag(documents, t)
    ensures NoDuplicates(seenTags)
  {
    rawWords, seenTags, documents := [], [], [];
    var i := 0;
    while i < |intents|
      invariant 0 <= i <= |intents|
      invariant documents == Documents(intents[..i], tokenize)
      invariant rawWords == AllTokens(documents)
      invariant forall t :: t in seenTags <==> HasDocumentTag(documents, t)
      invariant NoDuplicates(seenTags)
    {
      documents, rawWords, seenTags := ExtractQuestions(intents[i], tokenize, documents, rawWords, seenTags);
      assert intents[..i + 1][..i] == intents[..i];
      i := i + 1;
    }
    assert intents[..i] == intents;
  }

  /** Lines 44-47 of `perform_ETL`: the lemma of every lower-cased raw token outside
      the ignore list, in order. */
  method LemmatizeRawWords(rawWords: seq<string>, lemmatize: Lemmatizer) returns (temp: seq<string>)
    ensures temp == KeptLemmas(rawWords, lemmatize)
  {
    temp := [];
    var k := 0;
    while k < |rawWords|
      invariant 0 <= k <= |rawWords|
      invariant temp == KeptLemmas(rawWords[..k], lemmatize)
    {
      var w := rawWords[k];
      assert rawWords[..k + 1][..k] == rawWords[..k];
      if w !in IgnoreWords {
        temp := temp + [Normalize(lemmatize, w)];
      }
      k := k + 1;
    }
    assert rawWords[..k] == rawWords;
  }

  /** `perform_ETL`: the documents in intent and question order, the sorted tags of
      the intents that have a question, and the sorted vocabulary. */
  method PerformETL(intents: seq<Intent>, tokenize: Tokenizer, lemmatize: Lemmatizer)
    returns (documents: seq<Document>, tags: seq<string>, words: seq<string>)
    ensures documents == Documents(intents, tokenize)
    ensures |documents| == QuestionCount(intents)
    ensures StrictlySorted(tags)
    ensures forall t :: t in tags <==> HasQuestionedTag(intents, t)
    ensures forall k :: 0 <= k < |documents| ==> documents[k].tag in tags
    ensures StrictlySorted(words)
    ensures forall v :: v in words <==> IsVocabularyWord(documents, lemmatize, v)
  {
    var rawWords, seenTags;
    documents, rawWords, seenTags := ExtractDocuments(intents, tokenize);
    var temp := LemmatizeRawWords(rawWords, lemmatize);
    words := SortedDistinct(temp);
    tags := SortedDistinct(seenTags);

    forall t
      ensures t in tags <==> HasQuestionedTag(intents, t)
    {
      DocumentTags(intents, tokenize, t);
    }
    forall n | 0 <= n < |documents|
      ensures documents[n].tag in tags
    {
      assert HasDocumentTag(documents, documents[n].tag);
    }
    forall v
      ensures v in words <==> IsVocabularyWord(documents, lemmatize, v)
    {
      VocabularyMembers(documents, lemmatize, v);
    }
  }
}
