/** The nltk resources the scanner reads (a read-only handle loaded once per
    process) and `process_text` / `is_english_word` from init/helpers.py. */
module Nltk {

  /** The nltk calls, as functions of their inputs. */
  datatype Lexicon = Lexicon(
    /** `nltk.word_tokenize(text)` */
    tokenize: string -> seq<string>,
    /** `set(stopwords.words('english'))` */
    stopWords: set<string>,
    /** `[s.pos() for s in wordnet.synsets(word)]`: one part-of-speech letter per
        sense, in WordNet's order */
    synsetPos: string -> seq<char>,
    /** `WordNetLemmatizer().lemmatize(word, pos)` */
    lemmatize: (string, string) -> string,
    /** `pos_tag([word])[0][1]`: the Penn Treebank tag of a word tagged on its own */
    posTag: string -> string)
}

module Normalize {
  import opened Chars
  import opened Seqs
  import opened Nltk

  /** `is_english_word`: the word has a WordNet sense and its first sense is a
      noun, verb, adjective or adverb (an adjective satellite `s` does not count). */
  predicate IsEnglishWord(lex: Lexicon, word: string)
    ensures lex.synsetPos(word) == [] ==> !IsEnglishWord(lex, word)
    ensures IsEnglishWord(lex, word) ==> lex.synsetPos(word)[0] != 's'
  {
    var senses := lex.synsetPos(word);
    |senses| > 0 && senses[0] in ['n', 'v', 'a', 'r']
  }

  /** `re.sub(r"[^a-zA-Z0-9\s]", " ", text)`. */
  function Scrub(text: string): (r: string)
    ensures |r| == |text|
    ensures forall i :: 0 <= i < |r| ==> IsAlnum(r[i]) || IsSpace(r[i])
    ensures forall i :: 0 <= i < |r| ==> r[i] == text[i] || r[i] == ' '
    ensures forall i :: 0 <= i < |r| ==> (r[i] == text[i] <==> IsAlnum(text[i]) || IsSpace(text[i]))
  {
    seq(|text|, i requires 0 <= i < |text| => if IsAlnum(text[i]) || IsSpace(text[i]) then text[i] else ' ')
  }

  /** `bool(re.search(r'\d', word))`: some character of `word` is a digit. The
      ensures is the same definition stated over the characters, not the indices. */
  predicate HasDigit(word: string)
    ensures HasDigit(word) <==> exists c :: c in word && IsDigit(c)
  {
    exists i :: 0 <= i < |word| && IsDigit(word[i])
  }

  /** The text the tokenizer is given: lower-cased, then every character outside
      `[a-zA-Z0-9\s]` replaced by a space. */
  function Cleaned(text: string): (r: string)
    ensures forall i :: 0 <= i < |r| ==> IsLower(r[i]) || IsDigit(r[i]) || IsSpace(r[i])
    ensures |r| == |text|
    ensures forall i :: 0 <= i < |text| ==>
      r[i] == (if IsAlnum(text[i]) || IsSpace(text[i]) then ToLower(text[i]) else ' ')
  {
    Scrub(Lower(text))
  }

  /** The condition each of the three comprehensions of `process_text` adds. */
  predicate Kept(lex: Lexicon, word: string)
  {
    word !in lex.stopWords && !HasDigit(word) && IsEnglishWord(lex, word)
  }

  /** `process_text(text)`: tokenize, then drop stop-words, tokens with a digit,
      and tokens that are not English words, in that order. */
  function ProcessText(lex: Lexicon, text: string): (tokens: seq<string>)
    ensures forall w :: w in tokens <==> w in lex.tokenize(Cleaned(text)) && Kept(lex, w)
    ensures forall w :: multiset(tokens)[w] == if Kept(lex, w) then multiset(lex.tokenize(Cleaned(text)))[w] else 0
  {
    var all := lex.tokenize(Cleaned(text));
    var noStop := Filter(all, w => w !in lex.stopWords);
    var noDigit := Filter(noStop, w => !HasDigit(w));
    FilterMembership(all, w => w !in lex.stopWords);
    FilterMembership(noStop, w => !HasDigit(w));
    FilterMembership(noDigit, w => IsEnglishWord(lex, w));
    ProcessTextCounts(lex, all);
    Filter(noDigit, w => IsEnglishWord(lex, w))
  }

  /** The three filters keep every occurrence of a kept token and drop every
      occurrence of any other. */
  lemma ProcessTextCounts(lex: Lexicon, all: seq<string>)
    ensures forall w ::
      multiset(Filter(Filter(Filter(all, w => w !in lex.stopWords), w => !HasDigit(w)), w => IsEnglishWord(lex, w)))[w]
      == if Kept(lex, w) then multiset(all)[w] else 0
  {
    var noStop := Filter(all, w => w !in lex.stopWords);
    var noDigit := Filter(noStop, w => !HasDigit(w));
    forall w ensures multiset(Filter(noDigit, w => IsEnglishWord(lex, w)))[w] == if Kept(lex, w) then multiset(all)[w] else 0 {
      FilterCount(all, w => w !in lex.stopWords, w);
      FilterCount(noStop, w => !HasDigit(w), w);
      FilterCount(noDigit, w => IsEnglishWord(lex, w), w);
    }
  }

  /** Each output token passed all three filters: it is not a stop-word, has
      no digit, and its first WordNet sense is a noun, verb, adjective or adverb. */
  lemma ProcessTextFilters(lex: Lexicon, text: string)
    ensures forall w :: w in ProcessText(lex, text) ==>
      && w !in lex.stopWords
      && (forall i :: 0 <= i < |w| ==> !IsDigit(w[i]))
      && |lex.synsetPos(w)| > 0 && lex.synsetPos(w)[0] in ['n', 'v', 'a', 'r']
  {
  }

  /** The output keeps the tokenizer's order: it is a subsequence of the tokens. */
  lemma ProcessTextKeepsOrder(lex: Lexicon, text: string)
    ensures IsSubsequence(ProcessText(lex, text), lex.tokenize(Cleaned(text)))
  {
    var all := lex.tokenize(Cleaned(text));
    var noStop := Filter(all, w => w !in lex.stopWords);
    var noDigit := Filter(noStop, w => !HasDigit(w));
    FilterIsSubsequence(all, w => w !in lex.stopWords);
    FilterIsSubsequence(noStop, w => !HasDigit(w));
    FilterIsSubsequence(noDigit, w => IsEnglishWord(lex, w));
    SubsequenceTransitive(noDigit, noStop, all);
    SubsequenceTransitive(ProcessText(lex, text), noDigit, all);
  }

  /** The tokenizer only cuts its input into pieces: every character of every
      token is a non-whitespace character of the input. */
  predicate OnlySplits(text: string, tokens: seq<string>)
  {
    forall k, i :: 0 <= k < |tokens| && 0 <= i < |tokens[k]| ==>
      !IsSpace(tokens[k][i]) && tokens[k][i] in text
  }

  /** With a tokenizer that only splits, every output token is made of lower-case
      ASCII letters: `lower()` removed the capitals, the substitution everything
      else but digits and whitespace, and the digit filter the digits. */
  lemma ProcessTextLowercaseLetters(lex: Lexicon, text: string)
    requires OnlySplits(Cleaned(text), lex.tokenize(Cleaned(text)))
    ensures forall w, i :: w in ProcessText(lex, text) && 0 <= i < |w| ==> IsLower(w[i])
  {
    var cleaned := Cleaned(text);
    var all := lex.tokenize(cleaned);
    forall w, i | w in ProcessText(lex, text) && 0 <= i < |w| ensures IsLower(w[i]) {
      assert w in all && !HasDigit(w);
      var k :| 0 <= k < |all| && all[k] == w;
      assert !IsSpace(all[k][i]) && all[k][i] in cleaned;
      var j :| 0 <= j < |cleaned| && cleaned[j] == w[i];
      assert !IsDigit(w[i]);
    }
  }
}
