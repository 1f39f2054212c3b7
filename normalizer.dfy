/**
 * The text normalizer: NLTK's tokenizer and WordNet lemmatizer, which the model does
 * not look inside, and Python's `str.lower`, restricted to ASCII.
 */
module Normalizer {

  /** `nltk.word_tokenize`: a question to its tokens. Passed in, never inspected. */
  type Tokenizer = string -> seq<string>

  /** `WordNetLemmatizer().lemmatize`: a word to its base form. Passed in, never inspected. */
  type Lemmatizer = string -> string

  /** Raw tokens that never reach the vocabulary. */
  const IgnoreWords: seq<string> := ["?", "!"]

  predicate IsUpper(c: char)
  {
    'A' <= c <= 'Z'
  }

  function LowerChar(c: char): (r: char)
    ensures !IsUpper(r)
    ensures !IsUpper(c) ==> r == c
    ensures IsUpper(c) ==> r as int == c as int + 32
  {
    if IsUpper(c) then (c as int + 32) as char else c
  }

  /** `w.lower()` on ASCII letters: every upper-case letter becomes its lower-case
      form and every other character is kept. */
  function Lower(w: string): (r: string)
    ensures |r| == |w|
    ensures forall i :: 0 <= i < |r| ==> !IsUpper(r[i])
    ensures forall i :: 0 <= i < |w| && !IsUpper(w[i]) ==> r[i] == w[i]
    ensures forall i :: 0 <= i < |w| && IsUpper(w[i]) ==> r[i] as int == w[i] as int + 32
  {
    seq(|w|, i requires 0 <= i < |w| => LowerChar(w[i]))
  }

  /** `v` and `w` have the same length and, position by position, are the same
      character or one is the upper-case ASCII form of the other. */
  ghost predicate SameUpToCase(v: string, w: string)
  {
    |v| == |w| &&
    forall i :: 0 <= i < |v| ==>
      v[i] == w[i] ||
      (IsUpper(v[i]) && w[i] as int == v[i] as int + 32) ||
      (IsUpper(w[i]) && v[i] as int == w[i] as int + 32)
  }

  /** The base form a raw token contributes: `lemmatizer.lemmatize(w.lower())`. It does
      not depend on case: spellings that differ only in ASCII case have the same base form. */
  function Normalize(lemmatize: Lemmatizer, w: string): (r: string)
    ensures forall v :: SameUpToCase(v, w) ==> r == lemmatize(Lower(v))
  {
    assert forall v :: SameUpToCase(v, w) ==> Lower(v) == Lower(w);
    lemmatize(Lower(w))
  }
}
