/** `get_vocab` and `get_stats` (01_python/YBIGTA/tokenizers.py): the word
    count table of a corpus and the adjacent-symbol pair statistics of a
    table whose keys are space-separated symbol sequences. */
module VocabStats {
  import opened Text
  import opened PyDict

  /** An ordered pair of adjacent symbols, `(symbols[i], symbols[i+1])`. */
  type Pair = (string, string)

  /** Every whitespace-delimited word of the corpus, line after line. */
  function AllWords(corpus: seq<string>): (ws: seq<string>)
    ensures forall i :: 0 <= i < |ws| ==> IsWord(ws[i])
  {
    if corpus == [] then []
    else AllWords(corpus[..|corpus| - 1]) + Split(corpus[|corpus| - 1])
  }

  /** One `+= 1` entry per word. */
  function Ones(ws: seq<string>): (r: seq<(string, int)>)
    ensures KeysOf(r) == ws
  {
    if ws == [] then []
    else
      var r := Ones(ws[..|ws| - 1]) + [(ws[|ws| - 1], 1)];
      KeysOfAppend(Ones(ws[..|ws| - 1]), (ws[|ws| - 1], 1));
      assert ws == ws[..|ws| - 1] + [ws[|ws| - 1]];
      r
  }

  /** The table `get_vocab(corpus)` returns. */
  function WordTable(corpus: seq<string>): (r: Dict<string, int>)
    ensures Valid(r)
  {
    Tally(Ones(AllWords(corpus)))
  }

  /** `get_vocab`: count every whitespace-delimited word of the corpus in a
      `defaultdict(int)`. */
  method GetVocab(corpus: seq<string>) returns (vocab: Dict<string, int>)
    ensures vocab == WordTable(corpus)
  {
    vocab := Empty();
    for i := 0 to |corpus|
      invariant vocab == Tally(Ones(AllWords(corpus[..i])))
    {
      var words := Split(corpus[i]);
      ghost var before := AllWords(corpus[..i]);
      assert before + words[..0] == before;
      for j := 0 to |words|
        invariant vocab == Tally(Ones(before + words[..j]))
      {
        CountOneMore(before, words, j);
        vocab := AddTo(vocab, words[j], 1);
      }
      AllWordsStep(corpus, i);
    }
    assert corpus[..|corpus|] == corpus;
  }

  lemma AllWordsStep(corpus: seq<string>, i: nat)
    requires i < |corpus|
    ensures AllWords(corpus[..i + 1]) == AllWords(corpus[..i]) + Split(corpus[i])[..|Split(corpus[i])|]
  {
    assert corpus[..i + 1][..i] == corpus[..i];
    assert Split(corpus[i])[..|Split(corpus[i])|] == Split(corpus[i]);
  }

  lemma CountOneMore(before: seq<string>, words: seq<string>, j: nat)
    requires j < |words|
    ensures Tally(Ones(before + words[..j + 1])) == AddTo(Tally(Ones(before + words[..j])), words[j], 1)
  {
    var ws := before + words[..j];
    assert before + words[..j + 1] == ws + [words[j]];
    OnesAppend(ws, words[j]);
    TallyStep(Ones(ws), words[j], 1);
  }

  lemma OnesAppend(ws: seq<string>, w: string)
    ensures Ones(ws + [w]) == Ones(ws) + [(w, 1)]
  {
    assert (ws + [w])[..|ws|] == ws;
  }

  lemma OnesSnoc(ws: seq<string>, w: string)
    requires ws != []
    ensures Weight(Ones(ws), w) == Weight(Ones(ws[..|ws| - 1]), w) + (if ws[|ws| - 1] == w then 1 else 0)
    ensures multiset(ws)[w] == multiset(ws[..|ws| - 1])[w] + (if ws[|ws| - 1] == w then 1 else 0)
  {
    var o := Ones(ws);
    assert ws == ws[..|ws| - 1] + [ws[|ws| - 1]];
    assert o[..|o| - 1] == Ones(ws[..|ws| - 1]);
  }

  lemma {:induction false} OnesWeight(ws: seq<string>, w: string)
    ensures Weight(Ones(ws), w) == multiset(ws)[w]
  {
    if ws != [] {
      OnesWeight(ws[..|ws| - 1], w);
      OnesSnoc(ws, w);
    }
  }

  lemma {:induction false} OnesTotal(ws: seq<string>)
    ensures TotalWeight(Ones(ws)) == |ws|
  {
    if ws != [] {
      OnesTotal(ws[..|ws| - 1]);
      assert Ones(ws)[..|Ones(ws)| - 1] == Ones(ws[..|ws| - 1]);
    }
  }

  /** What `get_vocab` promises: its keys are exactly the distinct words of
      the corpus (none of them empty or containing whitespace), each mapped
      to its number of occurrences, so the values add up to the number of
      words. */
  lemma WordTableCounts(corpus: seq<string>)
    ensures forall w :: w in WordTable(corpus).m <==> w in AllWords(corpus)
    ensures forall w :: w in WordTable(corpus).m ==>
              IsWord(w) && WordTable(corpus).m[w] == multiset(AllWords(corpus))[w]
    ensures SumValues(WordTable(corpus)) == |AllWords(corpus)|
  {
    var ws := AllWords(corpus);
    TallyClosed(Ones(ws));
    forall w | w in ws ensures WordTable(corpus).m[w] == multiset(ws)[w] {
      OnesWeight(ws, w);
    }
    TallySum(Ones(ws));
    OnesTotal(ws);
  }

  // ---------------------------------------------------------------------
  // get_stats

  /** The adjacent pairs of a symbol sequence, left to right. */
  function Adjacent(syms: seq<string>): (r: seq<Pair>)
    ensures |syms| <= 1 ==> r == []
    ensures |syms| > 1 ==> |r| == |syms| - 1
    ensures forall i :: 0 <= i < |r| ==> r[i] == (syms[i], syms[i + 1])
  {
    if |syms| <= 1 then [] else seq(|syms| - 1, i requires 0 <= i < |syms| - 1 => (syms[i], syms[i + 1]))
  }

  /** The adjacent symbol pairs of a key: `symbols = word.split()`, then
      `(symbols[i], symbols[i+1])` for each `i`. */
  function KeyPairs(word: string): seq<Pair>
  {
    Adjacent(Split(word))
  }

  /** One `+= freq` entry per pair. */
  function Weighted(ps: seq<Pair>, freq: int): (r: seq<(Pair, int)>)
    ensures |r| == |ps|
    ensures forall i :: 0 <= i < |ps| ==> r[i] == (ps[i], freq)
  {
    if ps == [] then [] else Weighted(ps[..|ps| - 1], freq) + [(ps[|ps| - 1], freq)]
  }

  /** The `pairs[...] += freq` updates `get_stats` performs for the keys
      `ks`, in order. */
  function PairStream(ks: seq<string>, m: map<string, int>): seq<(Pair, int)>
  {
    if ks == [] then []
    else
      var k := ks[|ks| - 1];
      PairStream(ks[..|ks| - 1], m) + Weighted(KeyPairs(k), Get0(m, k))
  }

  /** The table `get_stats(vocab)` returns. */
  function PairTable(vocab: Dict<string, int>): (r: Dict<Pair, int>)
    ensures Valid(r)
  {
    Tally(PairStream(vocab.keys, vocab.m))
  }

  /** `get_stats`: for every key, split it into symbols and add the key's
      frequency to each of its adjacent pairs. */
  method GetStats(vocab: Dict<string, int>) returns (pairs: Dict<Pair, int>)
    requires Valid(vocab)
    ensures pairs == PairTable(vocab)
  {
    pairs := Empty();
    for i := 0 to |vocab.keys|
      invariant pairs == Tally(PairStream(vocab.keys[..i], vocab.m))
    {
      var word := vocab.keys[i];
      var freq := vocab.m[word];
      var symbols := Split(word);
      pairs := AddAdjacent(pairs, PairStream(vocab.keys[..i], vocab.m), symbols, freq);
      PairStreamStep(vocab, i, Adjacent(symbols));
    }
    assert vocab.keys[..|vocab.keys|] == vocab.keys;
  }

  /** The inner loop of `get_stats`: `pairs[symbols[i], symbols[i + 1]] +=
      freq` for each position `i` but the last. The table that was the
      tally of `before` becomes the tally of `before` and these updates. */
  method AddAdjacent(pairs0: Dict<Pair, int>, ghost before: seq<(Pair, int)>, symbols: seq<string>, freq: int)
    returns (pairs: Dict<Pair, int>)
    requires pairs0 == Tally(before)
    ensures pairs == Tally(before + Weighted(Adjacent(symbols), freq))
  {
    pairs := pairs0;
    ghost var adj := Adjacent(symbols);
    assert before + Weighted(adj[..0], freq) == before;
    var j := 0;
    while j < |symbols| - 1
      invariant 0 <= j <= |adj|
      invariant pairs == Tally(before + Weighted(adj[..j], freq))
    {
      AddPairStep(before, adj, freq, j);
      pairs := AddTo(pairs, (symbols[j], symbols[j + 1]), freq);
      j := j + 1;
    }
    assert adj[..j] == adj;
  }

  lemma AddPairStep(before: seq<(Pair, int)>, adj: seq<Pair>, freq: int, j: nat)
    requires j < |adj|
    ensures Tally(before + Weighted(adj[..j + 1], freq)) == AddTo(Tally(before + Weighted(adj[..j], freq)), adj[j], freq)
  {
    var st := before + Weighted(adj[..j], freq);
    assert adj[..j + 1][..j] == adj[..j];
    assert before + Weighted(adj[..j + 1], freq) == st + [(adj[j], freq)];
    TallyStep(st, adj[j], freq);
  }

  lemma PairStreamStep(vocab: Dict<string, int>, i: nat, adj: seq<Pair>)
    requires Valid(vocab) && i < |vocab.keys|
    requires adj == KeyPairs(vocab.keys[i])
    ensures PairStream(vocab.keys[..i + 1], vocab.m)
            == PairStream(vocab.keys[..i], vocab.m) + Weighted(adj, vocab.m[vocab.keys[i]])
  {
    assert vocab.keys[..i + 1][..i] == vocab.keys[..i];
  }

  /** How many times `p` occurs among the adjacent pairs of the symbols of
      the keys `ks`, each occurrence weighted by its key's frequency. */
  function WeightedOccurrences(ks: seq<string>, m: map<string, int>, p: Pair): int
  {
    if ks == [] then 0
    else
      var k := ks[|ks| - 1];
      WeightedOccurrences(ks[..|ks| - 1], m, p) + Get0(m, k) * multiset(KeyPairs(k))[p]
  }

  lemma {:induction false} WeightAppend<K>(a: seq<(K, int)>, b: seq<(K, int)>, k: K)
    ensures Weight(a + b, k) == Weight(a, k) + Weight(b, k)
    decreases |b|
  {
    if b == [] {
      assert a + b == a;
    } else {
      var b' := b[..|b| - 1];
      assert (a + b)[..|a + b| - 1] == a + b';
      WeightAppend(a, b', k);
    }
  }

  lemma WeightedSnoc(q: seq<Pair>, x: Pair, f: int, p: Pair)
    ensures Weight(Weighted(q + [x], f), p) == Weight(Weighted(q, f), p) + (if x == p then f else 0)
    ensures multiset(q + [x])[p] == multiset(q)[p] + (if x == p then 1 else 0)
  {
    var w := Weighted(q + [x], f);
    assert (q + [x])[..|q|] == q;
    assert w[..|w| - 1] == Weighted(q, f);
  }

  lemma MulStep(f: int, c: int, x: Pair, p: Pair)
    ensures f * (c + (if x == p then 1 else 0)) == f * c + (if x == p then f else 0)
  {
  }

  lemma {:induction false} WeightedWeight(ps: seq<Pair>, f: int, p: Pair)
    ensures Weight(Weighted(ps, f), p) == f * multiset(ps)[p]
  {
    if ps != [] {
      var q := ps[..|ps| - 1];
      var x := ps[|ps| - 1];
      WeightedWeight(q, f, p);
      assert ps == q + [x];
      WeightedSnoc(q, x, f, p);
      MulStep(f, multiset(q)[p], x, p);
    }
  }

  /** Each pair's value in `get_stats` is the sum, over the keys, of the key's
      frequency times the number of adjacent positions of its symbols that
      hold the pair. */
  lemma {:induction false} PairCounts(ks: seq<string>, m: map<string, int>, p: Pair)
    ensures Weight(PairStream(ks, m), p) == WeightedOccurrences(ks, m, p)
  {
    if ks != [] {
      var k := ks[|ks| - 1];
      PairCounts(ks[..|ks| - 1], m, p);
      WeightAppend(PairStream(ks[..|ks| - 1], m), Weighted(KeyPairs(k), Get0(m, k)), p);
      WeightedWeight(KeyPairs(k), Get0(m, k), p);
    }
  }

  lemma KeysOfConcat<K, V>(a: seq<(K, V)>, b: seq<(K, V)>)
    ensures KeysOf(a + b) == KeysOf(a) + KeysOf(b)
  {
    var l := KeysOf(a + b);
    forall j | 0 <= j < |l| ensures l[j] == (KeysOf(a) + KeysOf(b))[j] {
      if j >= |a| { assert (a + b)[j] == b[j - |a|]; }
    }
  }

  /** Some key's symbols hold the pair `p` next to each other. */
  predicate OccursIn(ks: seq<string>, p: Pair)
  {
    exists i :: 0 <= i < |ks| && p in KeyPairs(ks[i])
  }

  lemma OccursInSnoc(ks: seq<string>, p: Pair)
    requires ks != []
    ensures OccursIn(ks, p) <==> OccursIn(ks[..|ks| - 1], p) || p in KeyPairs(ks[|ks| - 1])
  {
    var pre := ks[..|ks| - 1];
    forall i | 0 <= i < |pre| ensures pre[i] == ks[i] {}
    if OccursIn(ks, p) && !(p in KeyPairs(ks[|ks| - 1])) {
      var i :| 0 <= i < |ks| && p in KeyPairs(ks[i]);
      assert p in KeyPairs(pre[i]);
    }
  }

  /** The pairs `get_stats` reports are exactly the adjacent pairs of some
      key's symbols. */
  lemma {:induction false} PairKeys(ks: seq<string>, m: map<string, int>, p: Pair)
    ensures p in KeysOf(PairStream(ks, m)) <==> OccursIn(ks, p)
  {
    if ks != [] {
      var k := ks[|ks| - 1];
      var pre := ks[..|ks| - 1];
      var a := PairStream(pre, m);
      var b := Weighted(KeyPairs(k), Get0(m, k));
      PairKeys(pre, m, p);
      KeysOfConcat(a, b);
      assert KeysOf(b) == KeyPairs(k);
      OccursInSnoc(ks, p);
    }
  }

  /** `get_stats` as a whole: a pair is reported exactly when some key holds
      it, with the frequency-weighted number of its occurrences. */
  lemma PairTableCounts(vocab: Dict<string, int>, p: Pair)
    ensures p in PairTable(vocab).m <==> OccursIn(vocab.keys, p)
    ensures p in PairTable(vocab).m ==>
              PairTable(vocab).m[p] == WeightedOccurrences(vocab.keys, vocab.m, p)
  {
    TallyClosed(PairStream(vocab.keys, vocab.m));
    PairKeys(vocab.keys, vocab.m, p);
    PairCounts(vocab.keys, vocab.m, p);
  }

  /** Keys with at most one symbol contribute nothing. */
  lemma {:induction false} PairStreamOfUnsplit(ks: seq<string>, m: map<string, int>)
    requires forall i :: 0 <= i < |ks| ==> |Split(ks[i])| <= 1
    ensures PairStream(ks, m) == []
  {
    if ks != [] {
      PairStreamOfUnsplit(ks[..|ks| - 1], m);
    }
  }

  /** Training never finds a pair: the keys of a word count table contain no
      whitespace, so `get_stats` of it is empty. */
  lemma NoPairsInWordTable(corpus: seq<string>)
    ensures PairTable(WordTable(corpus)).keys == []
  {
    var v := WordTable(corpus);
    WordTableCounts(corpus);
    forall i | 0 <= i < |v.keys| ensures |Split(v.keys[i])| <= 1 {
      assert v.keys[i] in v.m;
      SplitOfWord(v.keys[i]);
    }
    PairStreamOfUnsplit(v.keys, v.m);
  }
}
