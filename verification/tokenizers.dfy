/** The two tokenizer classes of 01_python/YBIGTA/tokenizers.py. Each holds
    a corpus (a list of lines) and a trained table (`None` until `train`). */
module Tokenizers {
  import opened Outcomes
  import opened Text
  import opened PyDict
  import opened VocabStats
  import opened MergeSelect
  import opened Encoding

  /** The corpus an argument stands for: a list as it is, one string as a
      one-line list. */
  function Lines(c: TextInput): seq<string>
  {
    match c
    case One(s) => [s]
    case Many(lines) => lines
  }

  class BPETokenizer {
    var corpus: seq<string>
    var vocab: Option<Dict<string, int>>

    /** `__init__`: a list becomes the corpus, a single string a one-line
        corpus; nothing is trained yet. */
    constructor (c: TextInput)
      ensures corpus == Lines(c) && vocab == None
    {
      match c {
        case Many(lines) => corpus := lines;
        case One(s) => corpus := [s];
      }
      vocab := None;
    }

    /** `add_corpus`: the lines, or the one string, go to the end of the
        corpus; the table is untouched. */
    method AddCorpus(c: TextInput)
      modifies this
      ensures corpus == old(corpus) + Lines(c)
      ensures vocab == old(vocab)
    {
      match c
      case Many(lines) => corpus := corpus + lines;
      case One(s) => corpus := corpus + [s];
    }

    /** `train(n_iter)`: count the words of the whole corpus, then run
        `max(n_iter, 0)` rounds of pair counting and merging with budget
        `n_iter`. Training never merges: the keys of the word-count table are
        single words, which hold no pair of symbols, so every round returns
        the table unchanged and the table kept is the word-count table. */
    method Train(nIter: int)
      modifies this
      ensures corpus == old(corpus)
      ensures vocab == Some(WordTable(corpus))
    {
      var v := GetVocab(corpus);
      var i := 0;
      while i < nIter
        invariant corpus == old(corpus)
        invariant v == WordTable(corpus)
      {
        var pairs := GetStats(v);
        NoPairsInWordTable(corpus);
        MergeNBestSpec(pairs, Some(v), nIter);
        var res := MergeNBest(pairs, Some(v), nIter);
        v := res.value.1;
        // `i += num_merged` rebinds the loop variable, which `range` then
        // overwrites: every round advances the count by exactly one.
        i := i + 1;
      }
      vocab := Some(v);
    }

    /** `tokenize`: raises before `train`; otherwise returns the tokens and
        keeps the table the `<unk>` lookups leave. The corpus is untouched. */
    method Tokenize(text: TextInput, padding: bool, maxLength: Option<int>) returns (r: Result<Tokens>)
      modifies this
      ensures corpus == old(corpus)
      ensures old(vocab).None? ==> r == Err(Untrained) && vocab == None
      ensures old(vocab).Some? ==>
                && r == Encoded(old(vocab).value, text, padding, maxLength)
                && vocab == Some(VocabAfter(old(vocab).value, text))
    {
      if vocab.None? {
        return Err(Untrained);
      }
      var v;
      r, v := Encode(vocab.value, text, padding, maxLength);
      vocab := Some(v);
    }

    /** `__call__`: the same as `tokenize`. */
    method Call(text: TextInput, padding: bool, maxLength: Option<int>) returns (r: Result<Tokens>)
      modifies this
      ensures corpus == old(corpus)
      ensures old(vocab).None? ==> r == Err(Untrained) && vocab == None
      ensures old(vocab).Some? ==>
                && r == Encoded(old(vocab).value, text, padding, maxLength)
                && vocab == Some(VocabAfter(old(vocab).value, text))
    {
      r := Tokenize(text, padding, maxLength);
    }
  }

  class WordTokenizer {
    var corpus: seq<string>
    var vocab: Option<Dict<string, int>>

    /** `__init__`: a list becomes the corpus, a single string a one-line
        corpus; nothing is trained yet. */
    constructor (c: TextInput)
      ensures corpus == Lines(c) && vocab == None
    {
      match c {
        case Many(lines) => corpus := lines;
        case One(s) => corpus := [s];
      }
      vocab := None;
    }

    /** `add_corpus`: the lines, or the one string, go to the end of the
        corpus; the table is untouched. */
    method AddCorpus(c: TextInput)
      modifies this
      ensures corpus == old(corpus) + Lines(c)
      ensures vocab == old(vocab)
    {
      match c
      case Many(lines) => corpus := corpus + lines;
      case One(s) => corpus := corpus + [s];
    }

    /** `train`: count every whitespace word of the corpus into a fresh
        `defaultdict(int)`; `n_iter` is ignored. */
    method Train(nIter: Option<int>)
      modifies this
      ensures corpus == old(corpus)
      ensures vocab == Some(WordTable(corpus))
    {
      var v := Empty();
      vocab := Some(v);
      for i := 0 to |corpus|
        invariant corpus == old(corpus)
        invariant vocab == Some(Tally(Ones(AllWords(corpus[..i]))))
      {
        var words := Split(corpus[i]);
        ghost var before := AllWords(corpus[..i]);
        assert before + words[..0] == before;
        for j := 0 to |words|
          invariant corpus == old(corpus)
          invariant vocab == Some(Tally(Ones(before + words[..j])))
        {
          CountOneMore(before, words, j);
          vocab := Some(AddTo(vocab.value, words[j], 1));
        }
        AllWordsStep(corpus, i);
      }
      assert corpus[..|corpus|] == corpus;
    }

    /** `tokenize`: raises before `train`; otherwise returns the tokens and
        keeps the table the `<unk>` lookups leave. The corpus is untouched. */
    method Tokenize(text: TextInput, padding: bool, maxLength: Option<int>) returns (r: Result<Tokens>)
      modifies this
      ensures corpus == old(corpus)
      ensures old(vocab).None? ==> r == Err(Untrained) && vocab == None
      ensures old(vocab).Some? ==>
                && r == Encoded(old(vocab).value, text, padding, maxLength)
                && vocab == Some(VocabAfter(old(vocab).value, text))
    {
      if vocab.None? {
        return Err(Untrained);
      }
      var v;
      r, v := Encode(vocab.value, text, padding, maxLength);
      vocab := Some(v);
    }

    /** `__call__`: the same as `tokenize`. */
    method Call(text: TextInput, padding: bool, maxLength: Option<int>) returns (r: Result<Tokens>)
      modifies this
      ensures corpus == old(corpus)
      ensures old(vocab).None? ==> r == Err(Untrained) && vocab == None
      ensures old(vocab).Some? ==>
                && r == Encoded(old(vocab).value, text, padding, maxLength)
                && vocab == Some(VocabAfter(old(vocab).value, text))
    {
      r := Tokenize(text, padding, maxLength);
    }
  }

  /** Both classes train to the same table: after `train` the BPE tokenizer
      and the word tokenizer over the same corpus tokenize alike. */
  method SameTraining(corpus: seq<string>, nIter: int) returns (bpe: BPETokenizer, word: WordTokenizer)
    ensures bpe.corpus == corpus && word.corpus == corpus
    ensures bpe.vocab == word.vocab == Some(WordTable(corpus))
  {
    bpe := new BPETokenizer(Many(corpus));
    bpe.Train(nIter);
    word := new WordTokenizer(Many(corpus));
    word.Train(Some(nIter));
  }
}
