/**
 * The feature encoder, `get_training_data`: every document becomes a binary
 * bag-of-words vector indexed by the vocabulary and a one-hot label vector indexed
 * by the tag list, and the list of pairs is shuffled in place.
 */
module Encoding {
  import opened StringOrder
  import opened Normalizer
  import opened Extraction

  /** One `[bag, output_row]` pair of the training data. */
  datatype Example = Example(bag: seq<int>, outputRow: seq<int>)

  /** `s.index(x)`: the position of the first occurrence of `x`. */
  function IndexOf(s: seq<string>, x: string): (r: nat)
    requires x in s
    ensures r < |s| && s[r] == x
    ensures forall k :: 0 <= k < r ==> s[k] != x
  {
    if s[0] == x then 0 else 1 + IndexOf(s[1..], x)
  }

  /** The lemma of every lower-cased token of a question, in order. */
  function Lemmatized(tokens: seq<string>, lemmatize: Lemmatizer): seq<string>
  {
    seq(|tokens|, m requires 0 <= m < |tokens| => Normalize(lemmatize, tokens[m]))
  }

  /** 1 at each vocabulary position whose word occurs in `patternWords`, else 0. */
  function BagOfWords(words: seq<string>, patternWords: seq<string>): seq<int>
  {
    seq(|words|, i requires 0 <= i < |words| => if words[i] in patternWords then 1 else 0)
  }

  /** A row of `width` zeros with a single 1 at position `hot`. */
  function OneHot(width: nat, hot: nat): seq<int>
  {
    seq(width, k requires 0 <= k < width => if k == hot then 1 else 0)
  }

  /** The training pair `get_training_data` builds for one document: a bag as wide as
      the vocabulary and a label row as wide as the tag list, hot where `tags.index`
      finds the document's tag. */
  function Encode(doc: Document, tags: seq<string>, words: seq<string>, lemmatize: Lemmatizer): (r: Example)
    requires doc.tag in tags
    ensures |r.bag| == |words| && |r.outputRow| == |tags|
    ensures r.outputRow[IndexOf(tags, doc.tag)] == 1
  {
    Example(BagOfWords(words, Lemmatized(doc.tokens, lemmatize)), OneHot(|tags|, IndexOf(tags, doc.tag)))
  }

  /** Every document's tag is in the tag list, so `tags.index` succeeds on each. */
  ghost predicate Encodable(docs: seq<Document>, tags: seq<string>)
  {
    forall k :: 0 <= k < |docs| ==> docs[k].tag in tags
  }

  /** The training pairs in document order, before the shuffle: one per document, each
      with a bag as wide as the vocabulary and a label row as wide as the tag list. */
  function EncodeAll(docs: seq<Document>, tags: seq<string>, words: seq<string>, lemmatize: Lemmatizer): (r: seq<Example>)
    requires Encodable(docs, tags)
    ensures |r| == |docs|
    ensures forall k :: 0 <= k < |r| ==> |r[k].bag| == |words| && |r[k].outputRow| == |tags|
  {
    seq(|docs|, k requires 0 <= k < |docs| => Encode(docs[k], tags, words, lemmatize))
  }

  function Sum(s: seq<int>): int
  {
    if |s| == 0 then 0 else s[0] + Sum(s[1..])
  }

  lemma {:induction false} SumOfZeros(s: seq<int>)
    requires forall k :: 0 <= k < |s| ==> s[k] == 0
    ensures Sum(s) == 0
    decreases |s|
  {
    if |s| > 0 {
      SumOfZeros(s[1..]);
    }
  }

  /** A row that is 1 at one position and 0 elsewhere sums to 1. */
  lemma {:induction false} SumOfIndicator(s: seq<int>, p: nat)
    requires p < |s| && s[p] == 1
    requires forall k :: 0 <= k < |s| && k != p ==> s[k] == 0
    ensures Sum(s) == 1
    decreases |s|
  {
    if p == 0 {
      SumOfZeros(s[1..]);
    } else {
      SumOfIndicator(s[1..], p - 1);
    }
  }

  /** The bag has one entry per vocabulary word, and entry `i` is 1 exactly when
      `words[i]` is the lemma of a lower-cased token of the document, 0 otherwise. */
  lemma EncodedBag(doc: Document, tags: seq<string>, words: seq<string>, lemmatize: Lemmatizer)
    requires doc.tag in tags
    ensures |Encode(doc, tags, words, lemmatize).bag| == |words|
    ensures forall i :: 0 <= i < |words| ==>
      (Encode(doc, tags, words, lemmatize).bag[i] == 1 <==>
         exists m :: 0 <= m < |doc.tokens| && words[i] == Normalize(lemmatize, doc.tokens[m]))
    ensures forall i :: 0 <= i < |words| ==>
      (Encode(doc, tags, words, lemmatize).bag[i] == 0 <==>
         forall m :: 0 <= m < |doc.tokens| ==> words[i] != Normalize(lemmatize, doc.tokens[m]))
  {
    var pw := Lemmatized(doc.tokens, lemmatize);
    forall i | 0 <= i < |words|
      ensures words[i] in pw <==> exists m :: 0 <= m < |doc.tokens| && words[i] == Normalize(lemmatize, doc.tokens[m])
    {
      if words[i] in pw {
        var m :| 0 <= m < |pw| && pw[m] == words[i];
        assert words[i] == Normalize(lemmatize, doc.tokens[m]);
      }
      if exists m :: 0 <= m < |doc.tokens| && words[i] == Normalize(lemmatize, doc.tokens[m]) {
        var m :| 0 <= m < |doc.tokens| && words[i] == Normalize(lemmatize, doc.tokens[m]);
        assert pw[m] == words[i];
      }
    }
  }

  /** The label row has one entry per tag, a 1 at the position `tags.index` gives for the
      document's tag, 0 everywhere else, and so sums to 1; when the tag list has no
      duplicates, the 1 is at the one position holding the document's tag. */
  lemma EncodedLabel(doc: Document, tags: seq<string>, words: seq<string>, lemmatize: Lemmatizer)
    requires doc.tag in tags
    ensures |Encode(doc, tags, words, lemmatize).outputRow| == |tags|
    ensures tags[IndexOf(tags, doc.tag)] == doc.tag
    ensures Encode(doc, tags, words, lemmatize).outputRow[IndexOf(tags, doc.tag)] == 1
    ensures forall k :: 0 <= k < |tags| && k != IndexOf(tags, doc.tag) ==>
              Encode(doc, tags, words, lemmatize).outputRow[k] == 0
    ensures Sum(Encode(doc, tags, words, lemmatize).outputRow) == 1
    ensures NoDuplicates(tags) ==> forall k :: 0 <= k < |tags| ==>
              (Encode(doc, tags, words, lemmatize).outputRow[k] == 1 <==> tags[k] == doc.tag)
  {
    var p := IndexOf(tags, doc.tag);
    SumOfIndicator(Encode(doc, tags, words, lemmatize).outputRow, p);
  }

  /** Any reordering of the encoded documents holds, at each position, the encoding of
      some document: a bag as wide as the vocabulary and a label row as wide as the tag
      list with entries summing to 1. */
  lemma ShuffledExamples(examples: seq<Example>, documents: seq<Document>, tags: seq<string>,
                         words: seq<string>, lemmatize: Lemmatizer)
    requires Encodable(documents, tags)
    requires multiset(examples) == multiset(EncodeAll(documents, tags, words, lemmatize))
    ensures |examples| == |documents|
    ensures forall i :: 0 <= i < |examples| ==>
              exists k :: 0 <= k < |documents| && examples[i] == Encode(documents[k], tags, words, lemmatize)
    ensures forall i :: 0 <= i < |examples| ==>
              |examples[i].bag| == |words| && |examples[i].outputRow| == |tags| &&
              Sum(examples[i].outputRow) == 1
  {
    var pairs := EncodeAll(documents, tags, words, lemmatize);
    assert |examples| == |multiset(examples)| == |multiset(pairs)| == |pairs|;
    forall i | 0 <= i < |examples|
      ensures exists k :: 0 <= k < |documents| && examples[i] == Encode(documents[k], tags, words, lemmatize)
      ensures |examples[i].bag| == |words| && |examples[i].outputRow| == |tags|
      ensures Sum(examples[i].outputRow) == 1
    {
      assert examples[i] in multiset(pairs);
      var k :| 0 <= k < |pairs| && pairs[k] == examples[i];
      EncodedBag(documents[k], tags, words, lemmatize);
      EncodedLabel(documents[k], tags, words, lemmatize);
    }
  }

  /** Lines 68-71: the lemma of every lower-cased token of one document. */
  method LemmatizeTokens(tokens: seq<string>, lemmatize: Lemmatizer) returns (patternWords: seq<string>)
    ensures |patternWords| == |tokens|
    ensures forall m :: 0 <= m < |tokens| ==> patternWords[m] == Normalize(lemmatize, tokens[m])
  {
    patternWords := [];
    var m := 0;
    while m < |tokens|
      invariant 0 <= m <= |tokens|
      invariant |patternWords| == m
      invariant forall q :: 0 <= q < m ==> patternWords[q] == Normalize(lemmatize, tokens[q])
    {
      patternWords := patternWords + [Normalize(lemmatize, tokens[m])];
      m := m + 1;
    }
  }

  /** Lines 73-77: one entry per vocabulary word, 1 if the word is among the
      document's lemmas and 0 if not. */
  method BuildBag(words: seq<string>, patternWords: seq<string>) returns (bag: seq<int>)
    ensures |bag| == |words|
    ensures forall i :: 0 <= i < |words| ==> (bag[i] == 1 <==> words[i] in patternWords)
    ensures forall i :: 0 <= i < |words| ==> (bag[i] == 0 <==> words[i] !in patternWords)
  {
    bag := [];
    var i := 0;
    while i < |words|
      invariant 0 <= i <= |words|
      invariant |bag| == i
      invariant forall q :: 0 <= q < i ==> bag[q] == if words[q] in patternWords then 1 else 0
    {
      if words[i] in patternWords {
        bag := bag + [1];
      } else {
        bag := bag + [0];
      }
      i := i + 1;
    }
  }

  /** `random.shuffle`: CPython's in-place Fisher-Yates loop, swapping position `i` with
      one drawn below `i + 1`, for `i` from the last position down to 1. The random
      draws are the parameter `draw`. */
  method Shuffle<T>(a: array<T>, draw: nat -> nat)
    modifies a
    ensures multiset(a[..]) == old(multiset(a[..]))
  {
    var i := a.Length - 1;
    while i > 0
      invariant i < a.Length
      invariant multiset(a[..]) == old(multiset(a[..]))
    {
      var j := draw(i) % (i + 1);
      a[i], a[j] := a[j], a[i];
      i := i - 1;
    }
  }

  /** Lines 65-81, for one document: its lemmas, its bag, and an output row copied
      from the all-zero template with a 1 written at the index of its tag. The template
      is only read, so it is still all zeros for the next document. */
  method EncodeDocument(doc: Document, tags: seq<string>, words: seq<string>,
                        lemmatize: Lemmatizer, listOfZeros: array<int>)
    returns (pair: Example)
    requires doc.tag in tags
    requires listOfZeros.Length == |tags|
    requires forall k :: 0 <= k < listOfZeros.Length ==> listOfZeros[k] == 0
    ensures pair == Encode(doc, tags, words, lemmatize)
  {
    var patternWords := LemmatizeTokens(doc.tokens, lemmatize);
    assert patternWords == Lemmatized(doc.tokens, lemmatize);
    var bag := BuildBag(words, patternWords);
    assert bag == BagOfWords(words, patternWords);
    // `output_row = list(list_of_zeros)`: a fresh copy, so the write below leaves
    // the template untouched.
    var outputRow := new int[listOfZeros.Length](k reads listOfZeros requires 0 <= k < listOfZeros.Length => listOfZeros[k]);
    var hot := IndexOf(tags, doc.tag);
    outputRow[hot] := 1;
    assert outputRow[..] == OneHot(|tags|, hot);
    pair := Example(bag, outputRow[..]);
  }

  /** Lines 62-81: the loop over the documents, appending each document's pair, with
      one all-zero template shared by every iteration. */
  method EncodeDocuments(documents: seq<Document>, tags: seq<string>, words: seq<string>,
                         lemmatize: Lemmatizer)
    returns (pairs: seq<Example>)
    requires Encodable(documents, tags)
    ensures pairs == EncodeAll(documents, tags, words, lemmatize)
  {
    var listOfZeros := new int[|tags|](_ => 0);
    pairs := [];
    var n := 0;
    while n < |documents|
      invariant 0 <= n <= |documents|
      invariant |pairs| == n
      invariant forall k :: 0 <= k < n ==> pairs[k] == Encode(documents[k], tags, words, lemmatize)
      invariant listOfZeros.Length == |tags|
      invariant forall k :: 0 <= k < listOfZeros.Length ==> listOfZeros[k] == 0
    {
      var pair := EncodeDocument(documents[n], tags, words, lemmatize, listOfZeros);
      pairs := pairs + [pair];
      n := n + 1;
    }
  }

  /** `get_training_data`: one training pair per document, holding the document's bag
      of words and one-hot label, in shuffled order. */
  method GetTrainingData(documents: seq<Document>, tags: seq<string>, words: seq<string>,
                         lemmatize: Lemmatizer, draw: nat -> nat)
    returns (trainingData: seq<Example>)
    requires Encodable(documents, tags)
    ensures |trainingData| == |documents|
    ensures multiset(trainingData) == multiset(EncodeAll(documents, tags, words, lemmatize))
    ensures forall i :: 0 <= i < |trainingData| ==>
              exists k :: 0 <= k < |documents| && trainingData[i] == Encode(documents[k], tags, words, lemmatize)
    ensures forall i :: 0 <= i < |trainingData| ==>
              |trainingData[i].bag| == |words| && |trainingData[i].outputRow| == |tags| &&
              Sum(trainingData[i].outputRow) == 1
  {
    var pairs := EncodeDocuments(documents, tags, words, lemmatize);
    var a := new Example[|pairs|](k requires 0 <= k < |pairs| => pairs[k]);
    assert a[..] == pairs;
    Shuffle(a, draw);
    trainingData := a[..];
    ShuffledExamples(trainingData, documents, tags, words, lemmatize);
  }
}
