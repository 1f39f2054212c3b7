/**
 * The script's driver: extraction, encoding, and the split of the training pairs
 * into the inputs `x_train` and the labels `y_train` handed to the network.
 */
module Pipeline {
  import opened StringOrder
  import opened Normalizer
  import opened Extraction
  import opened Encoding

  /** Lines 130-134: the bags and the label rows of the training pairs, as two
      parallel lists. */
  method SplitTrainingData(trainingData: seq<Example>) returns (xTrain: seq<seq<int>>, yTrain: seq<seq<int>>)
    ensures |xTrain| == |trainingData| && |yTrain| == |trainingData|
    ensures forall i :: 0 <= i < |trainingData| ==>
              xTrain[i] == trainingData[i].bag && yTrain[i] == trainingData[i].outputRow
  {
    xTrain, yTrain := [], [];
    var i := 0;
    while i < |trainingData|
      invariant 0 <= i <= |trainingData|
      invariant |xTrain| == i && |yTrain| == i
      invariant forall q :: 0 <= q < i ==> xTrain[q] == trainingData[q].bag && yTrain[q] == trainingData[q].outputRow
    {
      xTrain := xTrain + [trainingData[i].bag];
      yTrain := yTrain + [trainingData[i].outputRow];
      i := i + 1;
    }
  }

  /** Lines 118-134 without the printing and the pickle files: the extracted
      vocabulary and tag list, and one input row and one label row per question,
      each pair the encoding of some question's document, with inputs as wide as the
      vocabulary and one-hot labels as wide as the tag list. */
  method PrepareTrainingSet(intents: seq<Intent>, tokenize: Tokenizer, lemmatize: Lemmatizer, draw: nat -> nat)
    returns (words: seq<string>, tags: seq<string>, xTrain: seq<seq<int>>, yTrain: seq<seq<int>>)
    ensures StrictlySorted(words) && StrictlySorted(tags)
    ensures forall t :: t in tags <==> HasQuestionedTag(intents, t)
    ensures forall v :: v in words <==> IsVocabularyWord(Documents(intents, tokenize), lemmatize, v)
    ensures Encodable(Documents(intents, tokenize), tags)
    ensures |xTrain| == QuestionCount(intents) && |yTrain| == QuestionCount(intents)
    ensures forall i :: 0 <= i < |xTrain| ==>
              exists k :: 0 <= k < QuestionCount(intents) &&
                Example(xTrain[i], yTrain[i]) == Encode(Documents(intents, tokenize)[k], tags, words, lemmatize)
    ensures forall i :: 0 <= i < |xTrain| ==>
              |xTrain[i]| == |words| && |yTrain[i]| == |tags| && Sum(yTrain[i]) == 1
    ensures |xTrain| == |yTrain|
    ensures multiset(seq(|xTrain|, i requires 0 <= i < |xTrain| => Example(xTrain[i], yTrain[i])))
         == multiset(EncodeAll(Documents(intents, tokenize), tags, words, lemmatize))
  {
    var documents;
    documents, tags, words := PerformETL(intents, tokenize, lemmatize);
    var trainingData := GetTrainingData(documents, tags, words, lemmatize, draw);
    xTrain, yTrain := SplitTrainingData(trainingData);
    forall i | 0 <= i < |xTrain|
      ensures exists k :: 0 <= k < QuestionCount(intents) &&
                Example(xTrain[i], yTrain[i]) == Encode(Documents(intents, tokenize)[k], tags, words, lemmatize)
    {
      assert Example(xTrain[i], yTrain[i]) == trainingData[i];
      var k :| 0 <= k < |documents| && trainingData[i] == Encode(documents[k], tags, words, lemmatize);
    }
    assert forall i :: 0 <= i < |xTrain| ==>
              |xTrain[i]| == |words| && |yTrain[i]| == |tags| && Sum(yTrain[i]) == 1;
    assert seq(|xTrain|, i requires 0 <= i < |xTrain| => Example(xTrain[i], yTrain[i])) == trainingData;
  }
}
