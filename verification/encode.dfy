/** What `tokenize` and `_padding` of 01_python/YBIGTA/tokenizers.py compute
    from a trained table: each whitespace word becomes the count stored for
    it (or for `<unk>`), rows are cut to `max_length`, and a batch may be
    right-padded with zeros. The two tokenizer classes share this code. */
module Encoding {
  import opened Outcomes
  import opened Text
  import opened PyDict
  import opened VocabStats
  import opened MergeSelect

  /** An argument that is either one string or a list of strings. */
  datatype TextInput = One(s: string) | Many(lines: seq<string>)

  /** What `tokenize` returns: a flat list for one string, one row per
      sentence for a list. */
  datatype Tokens = Flat(ids: seq<int>) | Nested(rows: seq<seq<int>>)

  const Unk: string := "<unk>"

  // ---------------------------------------------------------------------
  // Looking words up in the `defaultdict` table

  /** `vocab[word]` when `word in vocab`, else `vocab['<unk>']`, which reads
      0 when `<unk>` is absent. */
  function IdOf(m: map<string, int>, w: string): int
  {
    if w in m then m[w] else Get0(m, Unk)
  }

  function IdsOf(m: map<string, int>, ws: seq<string>): (r: seq<int>)
    ensures |r| == |ws|
  {
    seq(|ws|, i requires 0 <= i < |ws| => IdOf(m, ws[i]))
  }

  predicate AllKnown(m: map<string, int>, ws: seq<string>)
  {
    forall i :: 0 <= i < |ws| ==> ws[i] in m
  }

  /** The table once the words `ws` have been looked up: reading the missing
      key `<unk>` of a `defaultdict` inserts `<unk> ↦ 0`. */
  function AfterLookup(v: Dict<string, int>, ws: seq<string>): (r: Dict<string, int>)
    ensures Valid(v) ==> Valid(r)
  {
    if !AllKnown(v.m, ws) && Unk !in v.m then Put(v, Unk, 0) else v
  }

  /** The inner loop of `tokenize`: one value per word, in order. */
  method LookupWords(v: Dict<string, int>, ws: seq<string>) returns (ids: seq<int>, v': Dict<string, int>)
    ensures ids == IdsOf(v.m, ws)
    ensures v' == AfterLookup(v, ws)
  {
    ids := [];
    v' := v;
    for i := 0 to |ws|
      invariant |ids| == i
      invariant forall j :: 0 <= j < i ==> ids[j] == IdOf(v.m, ws[j])
      invariant v' == AfterLookup(v, ws[..i])
    {
      var word := ws[i];
      LookupOneMore(v, ws, i);
      if word in v'.m {
        ids := ids + [v'.m[word]];
      } else {
        if Unk !in v'.m {
          v' := Put(v', Unk, 0);
        }
        ids := ids + [v'.m[Unk]];
      }
    }
    assert ws[..|ws|] == ws;
  }

  lemma LookupOneMore(v: Dict<string, int>, ws: seq<string>, i: nat)
    requires i < |ws|
    ensures AfterLookup(v, ws[..i + 1]) ==
              if ws[i] in AfterLookup(v, ws[..i]).m then AfterLookup(v, ws[..i])
              else if Unk in AfterLookup(v, ws[..i]).m then AfterLookup(v, ws[..i])
              else Put(AfterLookup(v, ws[..i]), Unk, 0)
    ensures ws[i] in AfterLookup(v, ws[..i]).m ==> AfterLookup(v, ws[..i]).m[ws[i]] == IdOf(v.m, ws[i])
    ensures ws[i] !in AfterLookup(v, ws[..i]).m && Unk in AfterLookup(v, ws[..i]).m ==>
              AfterLookup(v, ws[..i]).m[Unk] == IdOf(v.m, ws[i])
    ensures ws[i] !in AfterLookup(v, ws[..i]).m && Unk !in AfterLookup(v, ws[..i]).m ==> IdOf(v.m, ws[i]) == 0
  {
    var p := ws[..i + 1];
    assert p[..i] == ws[..i] && p[i] == ws[i];
    assert AllKnown(v.m, p) <==> AllKnown(v.m, ws[..i]) && ws[i] in v.m;
  }

  /** Looking words up keeps every entry of the table, and adds nothing but
      `<unk> ↦ 0`, and that only when a word is unknown and `<unk>` absent. */
  lemma AfterLookupChanges(v: Dict<string, int>, ws: seq<string>)
    ensures forall w :: w in v.m ==> w in AfterLookup(v, ws).m && AfterLookup(v, ws).m[w] == v.m[w]
    ensures forall w :: w in AfterLookup(v, ws).m && w !in v.m ==>
              w == Unk && AfterLookup(v, ws).m[w] == 0 && !AllKnown(v.m, ws)
    ensures AllKnown(v.m, ws) ==> AfterLookup(v, ws) == v
  {
  }

  /** Looking up `a` then `b` leaves the table looking up `a + b` leaves. */
  lemma AfterLookupAppend(v: Dict<string, int>, a: seq<string>, b: seq<string>)
    ensures AfterLookup(AfterLookup(v, a), b) == AfterLookup(v, a + b)
  {
    assert AllKnown(v.m, a + b) <==> AllKnown(v.m, a) && AllKnown(v.m, b) by {
      if AllKnown(v.m, a) && AllKnown(v.m, b) {
        forall i | 0 <= i < |a + b| ensures (a + b)[i] in v.m {
          if i < |a| { assert (a + b)[i] == a[i]; } else { assert (a + b)[i] == b[i - |a|]; }
        }
      }
      if AllKnown(v.m, a + b) {
        forall i | 0 <= i < |a| ensures a[i] in v.m { assert (a + b)[i] == a[i]; }
        forall i | 0 <= i < |b| ensures b[i] in v.m { assert (a + b)[|a| + i] == b[i]; }
      }
    }
  }

  /** An inserted `<unk> ↦ 0` does not change what any later word reads. */
  lemma IdsAfterLookup(v: Dict<string, int>, a: seq<string>, ws: seq<string>)
    ensures IdsOf(AfterLookup(v, a).m, ws) == IdsOf(v.m, ws)
  {
    var v1 := AfterLookup(v, a);
    forall i | 0 <= i < |ws| ensures IdOf(v1.m, ws[i]) == IdOf(v.m, ws[i]) {
    }
  }

  // ---------------------------------------------------------------------
  // Truncation

  /** A row cut to `max_length` when it is longer: `tokens[:max_length]`. */
  function Truncated(t: seq<int>, maxLength: Option<int>): seq<int>
  {
    if maxLength.Some? && |t| > maxLength.value then PySliceTo(t, maxLength.value) else t
  }

  /** A truncated row is a prefix of the row; without `max_length` or when
      the row is short enough it is the whole row; otherwise it keeps the
      first `max_length` entries, or, for a negative `max_length`, drops that
      many from the end. */
  lemma TruncatedSpec(t: seq<int>, maxLength: Option<int>)
    ensures Truncated(t, maxLength) == t[..|Truncated(t, maxLength)|]
    ensures maxLength.None? || |t| <= maxLength.value ==> Truncated(t, maxLength) == t
    ensures maxLength.Some? && 0 <= maxLength.value < |t| ==> |Truncated(t, maxLength)| == maxLength.value
    ensures maxLength.Some? && maxLength.value < 0 ==>
              |Truncated(t, maxLength)| == if |t| + maxLength.value > 0 then |t| + maxLength.value else 0
  {
  }

  // ---------------------------------------------------------------------
  // _padding

  /** `max(len(sentence) for sentence in tokens)`. */
  function MaxLen(rows: seq<seq<int>>): (m: nat)
    requires rows != []
    ensures forall i :: 0 <= i < |rows| ==> |rows[i]| <= m
    ensures exists i :: 0 <= i < |rows| && |rows[i]| == m
  {
    if |rows| == 1 then |rows[0]|
    else
      var p := MaxLen(rows[..|rows| - 1]);
      assert forall i :: 0 <= i < |rows| - 1 ==> rows[..|rows| - 1][i] == rows[i];
      if |rows[|rows| - 1]| > p then |rows[|rows| - 1]| else p
  }

  /** `[0] * k`: empty when `k <= 0`. */
  function Zeros(k: int): (z: seq<int>)
    ensures |z| == if k > 0 then k else 0
    ensures forall i :: 0 <= i < |z| ==> z[i] == 0
  {
    if k <= 0 then [] else seq(k, _ => 0)
  }

  /** What `_padding(tokens)` returns or raises. */
  function Padded(rows: seq<seq<int>>): Result<seq<seq<int>>>
  {
    if rows == [] then Err(EmptyMax)
    else Ok(seq(|rows|, i requires 0 <= i < |rows| => rows[i] + Zeros(MaxLen(rows) - |rows[i]|)))
  }

  /** `_padding`: an empty batch raises; otherwise every row is the original
      row followed by zeros, up to the length of the longest row. */
  lemma PaddedSpec(rows: seq<seq<int>>)
    ensures Padded(rows).Err? <==> rows == []
    ensures Padded(rows).Err? ==> Padded(rows).error == EmptyMax
    ensures Padded(rows).Ok? ==>
              var p := Padded(rows).value;
              && |p| == |rows|
              && (forall i :: 0 <= i < |rows| ==> |p[i]| == MaxLen(rows) && p[i][..|rows[i]|] == rows[i])
              && (forall i, k :: 0 <= i < |rows| && |rows[i]| <= k < |p[i]| ==> p[i][k] == 0)
              && (exists i :: 0 <= i < |rows| && p[i] == rows[i])
  {
    if rows != [] {
      var p := Padded(rows).value;
      forall i | 0 <= i < |rows| ensures |p[i]| == MaxLen(rows) && p[i][..|rows[i]|] == rows[i] {
        assert p[i] == rows[i] + Zeros(MaxLen(rows) - |rows[i]|);
      }
      forall i, k | 0 <= i < |rows| && |rows[i]| <= k < |p[i]| ensures p[i][k] == 0 {
        assert p[i] == rows[i] + Zeros(MaxLen(rows) - |rows[i]|);
        assert p[i][k] == Zeros(MaxLen(rows) - |rows[i]|)[k - |rows[i]|];
      }
      var j :| 0 <= j < |rows| && |rows[j]| == MaxLen(rows);
      assert p[j] == rows[j] + [];
    }
  }

  /** `_padding`, building the padded list row by row. */
  method Pad(tokens: seq<seq<int>>) returns (r: Result<seq<seq<int>>>)
    ensures r == Padded(tokens)
  {
    if tokens == [] {
      return Err(EmptyMax);
    }
    var maxLen := MaxLen(tokens);
    var paddedTokens: seq<seq<int>> := [];
    for i := 0 to |tokens|
      invariant |paddedTokens| == i
      invariant forall j :: 0 <= j < i ==> paddedTokens[j] == tokens[j] + Zeros(maxLen - |tokens[j]|)
    {
      var padding := Zeros(maxLen - |tokens[i]|);
      paddedTokens := paddedTokens + [tokens[i] + padding];
    }
    assert paddedTokens == Padded(tokens).value;
    r := Ok(paddedTokens);
  }

  // ---------------------------------------------------------------------
  // tokenize

  /** The rows of a batch, each looked up and truncated on its own. */
  function Rows(m: map<string, int>, lines: seq<string>, maxLength: Option<int>): (r: seq<seq<int>>)
    ensures |r| == |lines|
  {
    seq(|lines|, j requires 0 <= j < |lines| => Truncated(IdsOf(m, Split(lines[j])), maxLength))
  }

  /** What `tokenize(text, padding, max_length)` returns or raises on a
      trained table `v`. */
  function Encoded(v: Dict<string, int>, text: TextInput, padding: bool, maxLength: Option<int>): Result<Tokens>
  {
    match text
    case One(s) => Ok(Flat(Truncated(IdsOf(v.m, Split(s)), maxLength)))
    case Many(lines) =>
      var rows := Rows(v.m, lines, maxLength);
      if !padding then Ok(Nested(rows))
      else
        match Padded(rows)
        case Ok(p) => Ok(Nested(p))
        case Err(e) => Err(e)
  }

  /** The table once `tokenize(text, ...)` has looked up every word. */
  function VocabAfter(v: Dict<string, int>, text: TextInput): Dict<string, int>
  {
    match text
    case One(s) => AfterLookup(v, Split(s))
    case Many(lines) => AfterLookup(v, AllWords(lines))
  }

  /** The body of `tokenize` after its `vocab is None` check, on the trained
      table `v0`; it returns the tokens and the table the `<unk>` lookups
      leave. */
  method Encode(v0: Dict<string, int>, text: TextInput, padding: bool, maxLength: Option<int>)
    returns (r: Result<Tokens>, v: Dict<string, int>)
    ensures r == Encoded(v0, text, padding, maxLength)
    ensures v == VocabAfter(v0, text)
  {
    v := v0;
    match text
    case Many(lines) =>
      var tokens: seq<seq<int>> := [];
      assert lines[..0] == [];
      for k := 0 to |lines|
        invariant |tokens| == k
        invariant forall j :: 0 <= j < k ==> tokens[j] == IdsOf(v0.m, Split(lines[j]))
        invariant v == AfterLookup(v0, AllWords(lines[..k]))
      {
        var tokenizedWords;
        BatchStep(v0, lines, k);
        tokenizedWords, v := LookupWords(v, Split(lines[k]));
        tokens := tokens + [tokenizedWords];
      }
      assert lines[..|lines|] == lines;
      if maxLength.Some? {
        for i := 0 to |tokens|
          invariant |tokens| == |lines|
          invariant forall j :: 0 <= j < i ==> tokens[j] == Truncated(IdsOf(v0.m, Split(lines[j])), maxLength)
          invariant forall j :: i <= j < |tokens| ==> tokens[j] == IdsOf(v0.m, Split(lines[j]))
        {
          if |tokens[i]| > maxLength.value {
            tokens := tokens[i := PySliceTo(tokens[i], maxLength.value)];
          }
        }
      }
      assert tokens == Rows(v0.m, lines, maxLength);
      if padding {
        var p := Pad(tokens);
        match p
        case Ok(rows) => r := Ok(Nested(rows));
        case Err(e) => r := Err(e);
      } else {
        r := Ok(Nested(tokens));
      }
    case One(s) =>
      var tokens;
      tokens, v := LookupWords(v, Split(s));
      if maxLength.Some? && |tokens| > maxLength.value {
        tokens := PySliceTo(tokens, maxLength.value);
      }
      r := Ok(Flat(tokens));
  }

  /** One more sentence of a batch: its words read what they would read in
      the original table, and the table goes on to the one the longer
      prefix of the batch leaves. */
  lemma BatchStep(v0: Dict<string, int>, lines: seq<string>, k: nat)
    requires k < |lines|
    ensures IdsOf(AfterLookup(v0, AllWords(lines[..k])).m, Split(lines[k])) == IdsOf(v0.m, Split(lines[k]))
    ensures AfterLookup(AfterLookup(v0, AllWords(lines[..k])), Split(lines[k]))
            == AfterLookup(v0, AllWords(lines[..k + 1]))
  {
    IdsAfterLookup(v0, AllWords(lines[..k]), Split(lines[k]));
    AfterLookupAppend(v0, AllWords(lines[..k]), Split(lines[k]));
    AllWordsStep(lines, k);
    assert Split(lines[k])[..|Split(lines[k])|] == Split(lines[k]);
  }

  // ---------------------------------------------------------------------
  // What tokenize promises

  /** One string: one value per whitespace word, the word's count when it is
      in the table and the `<unk>` entry's otherwise, cut to `max_length`
      only when longer; `padding` is ignored and nothing is raised. */
  lemma EncodeOne(v: Dict<string, int>, s: string, padding: bool, maxLength: Option<int>)
    ensures Encoded(v, One(s), padding, maxLength) == Encoded(v, One(s), false, maxLength)
    ensures Encoded(v, One(s), padding, maxLength).Ok?
    ensures var t := Encoded(v, One(s), padding, maxLength).value;
      && t.Flat?
      && t.ids == Truncated(IdsOf(v.m, Split(s)), maxLength)
      && (maxLength.None? ==> |t.ids| == |Split(s)|)
      && (forall i :: 0 <= i < |t.ids| ==>
            t.ids[i] == (if Split(s)[i] in v.m then v.m[Split(s)[i]] else Get0(v.m, Unk)))
  {
    var ids := IdsOf(v.m, Split(s));
    TruncatedSpec(ids, maxLength);
    var t := Truncated(ids, maxLength);
    forall i | 0 <= i < |t| ensures t[i] == IdOf(v.m, Split(s)[i]) {
      assert t[i] == ids[i];
    }
  }

  /** A batch: each row is what tokenizing that sentence alone gives; with
      `padding` the rows are then padded, and an empty batch raises. */
  lemma EncodeMany(v: Dict<string, int>, lines: seq<string>, padding: bool, maxLength: Option<int>)
    ensures var rows := seq(|lines|, j requires 0 <= j < |lines| => Encoded(v, One(lines[j]), false, maxLength).value.ids);
      && (!padding ==> Encoded(v, Many(lines), padding, maxLength) == Ok(Nested(rows)))
      && (padding && lines != [] ==> Encoded(v, Many(lines), padding, maxLength) == Ok(Nested(Padded(rows).value)))
      && (padding && lines == [] ==> Encoded(v, Many(lines), padding, maxLength) == Err(EmptyMax))
  {
    var rows := seq(|lines|, j requires 0 <= j < |lines| => Encoded(v, One(lines[j]), false, maxLength).value.ids);
    assert rows == Rows(v.m, lines, maxLength);
  }

  /** Whenever `tokenize` raises on a trained table, the table is unchanged:
      only an empty padded batch raises, and it looks up no word. */
  lemma RaiseKeepsTable(v: Dict<string, int>, text: TextInput, padding: bool, maxLength: Option<int>)
    ensures Encoded(v, text, padding, maxLength).Err? ==> VocabAfter(v, text) == v
  {
    if Encoded(v, text, padding, maxLength).Err? {
      var lines := text.lines;
      PaddedSpec(Rows(v.m, lines, maxLength));
      assert lines == [];
      assert AllWords(lines) == [];
    }
  }

  /** Tokenizing keeps every entry of the table and adds at most
      `<unk> ↦ 0`; with every word known the table is unchanged. */
  lemma VocabAfterChanges(v: Dict<string, int>, text: TextInput)
    ensures Valid(v) ==> Valid(VocabAfter(v, text))
    ensures forall w :: w in v.m ==> w in VocabAfter(v, text).m && VocabAfter(v, text).m[w] == v.m[w]
    ensures forall w :: w in VocabAfter(v, text).m && w !in v.m ==> w == Unk && VocabAfter(v, text).m[w] == 0
    ensures text.One? && AllKnown(v.m, Split(text.s)) ==> VocabAfter(v, text) == v
    ensures text.Many? && AllKnown(v.m, AllWords(text.lines)) ==> VocabAfter(v, text) == v
  {
    match text
    case One(s) => AfterLookupChanges(v, Split(s));
    case Many(lines) => AfterLookupChanges(v, AllWords(lines));
  }

  /** The "ids" are frequencies: on the table trained from `corpus`, a word
      of the corpus reads its number of occurrences, and any other word the
      number of occurrences of the literal word `<unk>` (0 when there is
      none). */
  lemma TrainedIds(corpus: seq<string>, w: string)
    ensures w in AllWords(corpus) ==> IdOf(WordTable(corpus).m, w) == multiset(AllWords(corpus))[w] > 0
    ensures w !in AllWords(corpus) ==> IdOf(WordTable(corpus).m, w) == multiset(AllWords(corpus))[Unk]
  {
    WordTableCounts(corpus);
    if Unk !in AllWords(corpus) {
      assert multiset(AllWords(corpus))[Unk] == 0;
    }
  }
}
