/** `merge_n_best` (01_python/YBIGTA/tokenizers.py): rank the pairs by
    descending count, keep the first `n`, and merge, in ranked order, each
    pair that shares no symbol with a pair already merged in this round. */
module MergeSelect {
  import opened Outcomes
  import opened PyDict
  import opened VocabStats
  import opened Merge

  // ---------------------------------------------------------------------
  // Ranking: sorted(pairs, key=pairs.get, reverse=True)

  /** Place `x` after every element of `r` at least as frequent as it. */
  function Insert(r: seq<Pair>, x: Pair, f: map<Pair, int>): (s: seq<Pair>)
    ensures |s| == |r| + 1
  {
    if r == [] then [x]
    else if Get0(f, r[0]) >= Get0(f, x) then [r[0]] + Insert(r[1..], x, f)
    else [x] + r
  }

  /** The pairs by descending count; equal counts keep their order in `ks`
      (Python's sort is stable, and `reverse=True` keeps it so). */
  function Rank(ks: seq<Pair>, f: map<Pair, int>): (r: seq<Pair>)
    ensures |r| == |ks|
  {
    if ks == [] then [] else Insert(Rank(ks[..|ks| - 1], f), ks[|ks| - 1], f)
  }

  predicate Descending(r: seq<Pair>, f: map<Pair, int>)
  {
    forall i, j :: 0 <= i < j < |r| ==> Get0(f, r[i]) >= Get0(f, r[j])
  }

  /** The elements of `s` whose count is `c`, in order. */
  function WithCount(s: seq<Pair>, f: map<Pair, int>, c: int): seq<Pair>
  {
    if s == [] then []
    else WithCount(s[..|s| - 1], f, c) + (if Get0(f, s[|s| - 1]) == c then [s[|s| - 1]] else [])
  }

  lemma {:induction false} InsertSplit(r: seq<Pair>, x: Pair, f: map<Pair, int>) returns (k: nat)
    ensures k <= |r|
    ensures Insert(r, x, f) == r[..k] + [x] + r[k..]
    ensures forall i :: 0 <= i < k ==> Get0(f, r[i]) >= Get0(f, x)
    ensures k < |r| ==> Get0(f, r[k]) < Get0(f, x)
  {
    if r == [] {
      k := 0;
    } else if Get0(f, r[0]) >= Get0(f, x) {
      var k' := InsertSplit(r[1..], x, f);
      k := k' + 1;
      assert r[..k] == [r[0]] + r[1..][..k'];
      assert r[k..] == r[1..][k'..];
      forall i | 0 <= i < k ensures Get0(f, r[i]) >= Get0(f, x) {
        if i > 0 { assert r[i] == r[1..][i - 1]; }
      }
    } else {
      k := 0;
    }
  }

  lemma {:induction false} WithCountAppend(a: seq<Pair>, b: seq<Pair>, f: map<Pair, int>, c: int)
    ensures WithCount(a + b, f, c) == WithCount(a, f, c) + WithCount(b, f, c)
    decreases |b|
  {
    if b == [] {
      assert a + b == a;
    } else {
      var b' := b[..|b| - 1];
      assert (a + b)[..|a + b| - 1] == a + b';
      WithCountAppend(a, b', f, c);
    }
  }

  lemma {:induction false} WithCountNone(s: seq<Pair>, f: map<Pair, int>, c: int)
    requires forall i :: 0 <= i < |s| ==> Get0(f, s[i]) < c
    ensures WithCount(s, f, c) == []
  {
    if s != [] {
      WithCountNone(s[..|s| - 1], f, c);
    }
  }

  lemma InsertDescending(r: seq<Pair>, x: Pair, f: map<Pair, int>)
    requires Descending(r, f)
    ensures Descending(Insert(r, x, f), f)
  {
    var k := InsertSplit(r, x, f);
    var s := Insert(r, x, f);
    forall i, j | 0 <= i < j < |s| ensures Get0(f, s[i]) >= Get0(f, s[j]) {
      if j < k {
        assert s[i] == r[i] && s[j] == r[j];
      } else if j == k {
        assert s[i] == r[i];
      } else if i < k {
        assert s[i] == r[i] && s[j] == r[j - 1];
      } else if i == k {
        assert s[j] == r[j - 1];
        assert Get0(f, r[j - 1]) < Get0(f, x) by {
          if k < |r| { assert Get0(f, r[k]) >= Get0(f, r[j - 1]); }
        }
      } else {
        assert s[i] == r[i - 1] && s[j] == r[j - 1];
      }
    }
  }

  lemma InsertPermutes(r: seq<Pair>, x: Pair, f: map<Pair, int>)
    ensures multiset(Insert(r, x, f)) == multiset(r) + multiset{x}
  {
    var k := InsertSplit(r, x, f);
    assert r == r[..k] + r[k..];
  }

  lemma WithCountOne(x: Pair, f: map<Pair, int>, c: int)
    ensures WithCount([x], f, c) == (if Get0(f, x) == c then [x] else [])
  {
    assert [x][..0] == [];
  }

  /** In a descending ranking, nothing from the insertion point on has the
      inserted pair's count. */
  lemma TailBelow(r: seq<Pair>, x: Pair, f: map<Pair, int>, k: nat)
    requires Descending(r, f) && k <= |r|
    requires k < |r| ==> Get0(f, r[k]) < Get0(f, x)
    ensures WithCount(r[k..], f, Get0(f, x)) == []
  {
    forall i | 0 <= i < |r[k..]| ensures Get0(f, r[k..][i]) < Get0(f, x) {
      assert r[k..][i] == r[k + i];
      assert Get0(f, r[k]) >= Get0(f, r[k + i]);
    }
    WithCountNone(r[k..], f, Get0(f, x));
  }

  /** Where `Insert` puts `x`, with only the facts stability needs: the
      bound on the position and the count of the pair after it. */
  lemma InsertAt(r: seq<Pair>, x: Pair, f: map<Pair, int>) returns (k: nat)
    ensures k <= |r| && Insert(r, x, f) == (r[..k] + [x]) + r[k..]
    ensures k < |r| ==> Get0(f, r[k]) < Get0(f, x)
  {
    k := InsertSplit(r, x, f);
  }

  lemma WithCountAround(a: seq<Pair>, x: Pair, b: seq<Pair>, f: map<Pair, int>, c: int)
    ensures WithCount((a + [x]) + b, f, c) == WithCount(a, f, c) + WithCount([x], f, c) + WithCount(b, f, c)
    ensures WithCount(a + b, f, c) == WithCount(a, f, c) + WithCount(b, f, c)
  {
    WithCountAppend(a + [x], b, f, c);
    WithCountAppend(a, [x], f, c);
    WithCountAppend(a, b, f, c);
  }

  lemma InsertStable(r: seq<Pair>, x: Pair, f: map<Pair, int>, c: int)
    requires Descending(r, f)
    ensures WithCount(Insert(r, x, f), f, c)
            == WithCount(r, f, c) + (if Get0(f, x) == c then [x] else [])
  {
    var k := InsertAt(r, x, f);
    assert r == r[..k] + r[k..];
    WithCountAround(r[..k], x, r[k..], f, c);
    WithCountOne(x, f, c);
    if Get0(f, x) == c {
      TailBelow(r, x, f, k);
    }
  }

  lemma {:induction false} RankDescending(ks: seq<Pair>, f: map<Pair, int>)
    ensures Descending(Rank(ks, f), f)
  {
    if ks != [] {
      var p := ks[..|ks| - 1];
      RankDescending(p, f);
      InsertDescending(Rank(p, f), ks[|ks| - 1], f);
    }
  }

  lemma {:induction false} RankPermutes(ks: seq<Pair>, f: map<Pair, int>)
    ensures multiset(Rank(ks, f)) == multiset(ks)
  {
    if ks != [] {
      var p := ks[..|ks| - 1];
      RankPermutes(p, f);
      InsertPermutes(Rank(p, f), ks[|ks| - 1], f);
      assert ks == p + [ks[|ks| - 1]];
    }
  }

  lemma {:induction false} RankStable(ks: seq<Pair>, f: map<Pair, int>, c: int)
    ensures WithCount(Rank(ks, f), f, c) == WithCount(ks, f, c)
  {
    if ks != [] {
      var p := ks[..|ks| - 1];
      RankStable(p, f, c);
      RankDescending(p, f);
      InsertStable(Rank(p, f), ks[|ks| - 1], f, c);
    }
  }

  /** The ranking is a permutation of the pairs, by descending count, and
      stable: the pairs of any one count appear in their original order. */
  lemma RankSpec(ks: seq<Pair>, f: map<Pair, int>, c: int)
    ensures Descending(Rank(ks, f), f)
    ensures multiset(Rank(ks, f)) == multiset(ks)
    ensures WithCount(Rank(ks, f), f, c) == WithCount(ks, f, c)
  {
    RankDescending(ks, f);
    RankPermutes(ks, f);
    RankStable(ks, f, c);
  }

  /** Python's `s[:n]`, negative `n` counting from the end. */
  function PySliceTo<T>(s: seq<T>, n: int): (r: seq<T>)
    ensures n >= 0 ==> |r| <= n
    ensures |r| <= |s| && r == s[..|r|]
    ensures 0 <= n <= |s| ==> |r| == n
    ensures n > |s| ==> r == s
    ensures n < 0 ==> |r| == if |s| + n > 0 then |s| + n else 0
  {
    if n >= 0 then s[..if n < |s| then n else |s|]
    else s[..if |s| + n > 0 then |s| + n else 0]
  }

  // ---------------------------------------------------------------------
  // Greedy non-overlapping selection

  /** The symbols used by the pairs in `acc` (`selected_chars`). */
  function Symbols(acc: seq<Pair>): set<string>
  {
    if acc == [] then {}
    else Symbols(acc[..|acc| - 1]) + {acc[|acc| - 1].0, acc[|acc| - 1].1}
  }

  /** The pairs the loop of `merge_n_best` accepts from `cands`: each one
      neither of whose symbols an earlier accepted pair used. */
  function Greedy(cands: seq<Pair>): seq<Pair>
  {
    if cands == [] then []
    else
      var g := Greedy(cands[..|cands| - 1]);
      var c := cands[|cands| - 1];
      if c.0 in Symbols(g) || c.1 in Symbols(g) then g else g + [c]
  }

  /** `a` is `b` with some elements left out. */
  predicate SubseqOf(a: seq<Pair>, b: seq<Pair>)
    decreases |b|
  {
    if a == [] then true
    else if b == [] then false
    else if a[|a| - 1] == b[|b| - 1] then SubseqOf(a[..|a| - 1], b[..|b| - 1])
    else SubseqOf(a, b[..|b| - 1])
  }

  predicate NoSharedSymbol(p: Pair, q: Pair)
  {
    p.0 != q.0 && p.0 != q.1 && p.1 != q.0 && p.1 != q.1
  }

  lemma {:induction false} SymbolsOf(acc: seq<Pair>, s: string)
    ensures s in Symbols(acc) <==> exists i :: 0 <= i < |acc| && (acc[i].0 == s || acc[i].1 == s)
  {
    if acc != [] {
      var p := acc[..|acc| - 1];
      SymbolsOf(p, s);
      if exists i :: 0 <= i < |p| && (p[i].0 == s || p[i].1 == s) {
        var i :| 0 <= i < |p| && (p[i].0 == s || p[i].1 == s);
        assert acc[i] == p[i];
      }
      if exists i :: 0 <= i < |acc| && (acc[i].0 == s || acc[i].1 == s) {
        var i :| 0 <= i < |acc| && (acc[i].0 == s || acc[i].1 == s);
        if i < |p| { assert p[i] == acc[i]; }
      }
    }
  }

  lemma {:induction false} SubseqExtend(a: seq<Pair>, b: seq<Pair>, x: Pair)
    requires SubseqOf(a, b)
    ensures SubseqOf(a, b + [x])
    decreases |b|, 1
  {
    var b' := b + [x];
    assert b'[..|b'| - 1] == b;
    if a != [] && a[|a| - 1] == x {
      SubseqShrink(a, b);
    }
  }

  lemma {:induction false} SubseqShrink(a: seq<Pair>, b: seq<Pair>)
    requires a != [] && SubseqOf(a, b)
    ensures SubseqOf(a[..|a| - 1], b)
    decreases |b|, 0
  {
    if a[|a| - 1] == b[|b| - 1] {
      SubseqExtend(a[..|a| - 1], b[..|b| - 1], b[|b| - 1]);
      assert b[..|b| - 1] + [b[|b| - 1]] == b;
    } else {
      SubseqShrink(a, b[..|b| - 1]);
      SubseqExtend(a[..|a| - 1], b[..|b| - 1], b[|b| - 1]);
      assert b[..|b| - 1] + [b[|b| - 1]] == b;
    }
  }

  lemma {:induction false} SubseqElems(a: seq<Pair>, b: seq<Pair>)
    requires SubseqOf(a, b)
    ensures |a| <= |b|
    ensures forall x :: x in a ==> x in b
    decreases |b|
  {
    if a != [] {
      if a[|a| - 1] == b[|b| - 1] {
        SubseqElems(a[..|a| - 1], b[..|b| - 1]);
        assert a == a[..|a| - 1] + [a[|a| - 1]];
        assert b == b[..|b| - 1] + [b[|b| - 1]];
      } else {
        SubseqElems(a, b[..|b| - 1]);
        assert b == b[..|b| - 1] + [b[|b| - 1]];
      }
    }
  }

  lemma {:induction false} GreedySubseq(cands: seq<Pair>)
    ensures SubseqOf(Greedy(cands), cands)
  {
    if cands != [] {
      var pre := cands[..|cands| - 1];
      var g := Greedy(pre);
      var c := cands[|cands| - 1];
      GreedySubseq(pre);
      assert cands == pre + [c];
      if c.0 in Symbols(g) || c.1 in Symbols(g) {
        SubseqExtend(g, pre, c);
      } else {
        var g' := g + [c];
        assert g'[..|g'| - 1] == g;
      }
    }
  }

  lemma {:induction false} GreedyDisjoint(cands: seq<Pair>)
    ensures forall i, j :: 0 <= i < j < |Greedy(cands)| ==> NoSharedSymbol(Greedy(cands)[i], Greedy(cands)[j])
  {
    if cands != [] {
      var pre := cands[..|cands| - 1];
      var g := Greedy(pre);
      var c := cands[|cands| - 1];
      GreedyDisjoint(pre);
      if !(c.0 in Symbols(g) || c.1 in Symbols(g)) {
        var g' := g + [c];
        assert Greedy(cands) == g';
        forall i, j | 0 <= i < j < |g'| ensures NoSharedSymbol(g'[i], g'[j]) {
          if j == |g| {
            SymbolsOf(g, c.0);
            SymbolsOf(g, c.1);
            assert g'[i] == g[i];
          } else {
            assert g'[i] == g[i] && g'[j] == g[j];
          }
        }
      }
    }
  }

  lemma {:induction false} GreedyFirst(cands: seq<Pair>)
    requires cands != []
    ensures Greedy(cands) != [] && Greedy(cands)[0] == cands[0]
  {
    var pre := cands[..|cands| - 1];
    var g := Greedy(pre);
    var c := cands[|cands| - 1];
    if pre == [] {
      assert Greedy(pre) == [];
      assert Symbols(g) == {};
      assert Greedy(cands) == [c];
    } else {
      GreedyFirst(pre);
      assert pre[0] == cands[0];
      assert Greedy(cands)[..|g|] == g || Greedy(cands) == g;
    }
  }

  lemma {:induction false} GreedyBlocked(cands: seq<Pair>)
    ensures forall c :: c in cands ==> c in Greedy(cands) || c.0 in Symbols(Greedy(cands)) || c.1 in Symbols(Greedy(cands))
  {
    if cands != [] {
      var pre := cands[..|cands| - 1];
      var g := Greedy(pre);
      var c := cands[|cands| - 1];
      GreedyBlocked(pre);
      assert cands == pre + [c];
      if !(c.0 in Symbols(g) || c.1 in Symbols(g)) {
        var g' := g + [c];
        assert Greedy(cands) == g';
        assert g'[..|g'| - 1] == g;
        assert Symbols(g') == Symbols(g) + {c.0, c.1};
        forall d | d in cands ensures d in g' || d.0 in Symbols(g') || d.1 in Symbols(g') {
          if d != c {
            assert d in pre;
          }
        }
      }
    }
  }

  /** Accepting works on a growing prefix: a pair accepted from the first `i`
      candidates stays accepted from all of them. */
  lemma {:induction false} GreedyPrefixMono(cands: seq<Pair>, i: nat)
    requires i <= |cands|
    ensures forall q :: q in Greedy(cands[..i]) ==> q in Greedy(cands)
    decreases |cands| - i
  {
    if i < |cands| {
      GreedyStep(cands, i, Greedy(cands[..i]));
      GreedyPrefixMono(cands, i + 1);
      assert cands[..|cands|] == cands;
    } else {
      assert cands[..i] == cands;
    }
  }

  /** A candidate is rejected only because a pair accepted EARLIER in the
      candidate order already used one of its symbols. */
  lemma {:induction false} GreedyBlockedEarlier(cands: seq<Pair>)
    ensures forall i :: 0 <= i < |cands| && cands[i] !in Greedy(cands) ==>
              exists j :: 0 <= j < i && cands[j] in Greedy(cands) && !NoSharedSymbol(cands[j], cands[i])
  {
    forall i | 0 <= i < |cands| && cands[i] !in Greedy(cands)
      ensures exists j :: 0 <= j < i && cands[j] in Greedy(cands) && !NoSharedSymbol(cands[j], cands[i])
    {
      var acc := Greedy(cands[..i]);
      GreedyStep(cands, i, acc);
      GreedyPrefixMono(cands, i + 1);
      var c := cands[i];
      assert c.0 in Symbols(acc) || c.1 in Symbols(acc);
      var s := if c.0 in Symbols(acc) then c.0 else c.1;
      SymbolsOf(acc, s);
      var k :| 0 <= k < |acc| && (acc[k].0 == s || acc[k].1 == s);
      GreedySubseq(cands[..i]);
      SubseqElems(acc, cands[..i]);
      assert acc[k] in cands[..i];
      var j :| 0 <= j < i && cands[..i][j] == acc[k];
      GreedyPrefixMono(cands, i);
      assert cands[j] == acc[k];
    }
  }

  /** What the selection loop promises: the accepted pairs are candidates, in
      candidate order; no two of them share a symbol; the first candidate is
      always accepted; and every candidate left out shares a symbol with a
      pair accepted before it. */
  lemma GreedySpec(cands: seq<Pair>)
    ensures SubseqOf(Greedy(cands), cands)
    ensures forall i, j :: 0 <= i < j < |Greedy(cands)| ==> NoSharedSymbol(Greedy(cands)[i], Greedy(cands)[j])
    ensures cands != [] ==> Greedy(cands) != [] && Greedy(cands)[0] == cands[0]
    ensures forall c :: c in cands ==> c in Greedy(cands) || c.0 in Symbols(Greedy(cands)) || c.1 in Symbols(Greedy(cands))
    ensures forall i :: 0 <= i < |cands| && cands[i] !in Greedy(cands) ==>
              exists j :: 0 <= j < i && cands[j] in Greedy(cands) && !NoSharedSymbol(cands[j], cands[i])
  {
    GreedySubseq(cands);
    GreedyDisjoint(cands);
    if cands != [] {
      GreedyFirst(cands);
    }
    GreedyBlocked(cands);
    GreedyBlockedEarlier(cands);
  }

  // ---------------------------------------------------------------------
  // merge_n_best

  /** The table after merging each of `acc`, in order. */
  function MergeAll(v: Dict<string, int>, acc: seq<Pair>): Dict<string, int>
  {
    if acc == [] then v else Merged(acc[|acc| - 1], MergeAll(v, acc[..|acc| - 1]))
  }

  lemma MergeAllValid(v: Dict<string, int>, acc: seq<Pair>)
    requires Valid(v)
    ensures Valid(MergeAll(v, acc))
  {
  }

  /** The pairs `merge_n_best(pairs, vocab, n)` merges. */
  function Accepted(pairs: Dict<Pair, int>, n: int): seq<Pair>
  {
    if n <= 0 then [] else Greedy(PySliceTo(Rank(pairs.keys, pairs.m), n))
  }

  /** What `merge_n_best(pairs, vocab, n)` returns or raises. */
  function MergeNBestResult(pairs: Dict<Pair, int>, vocab: Option<Dict<string, int>>, n: int)
    : Result<(int, Dict<string, int>)>
    requires vocab.Some? ==> Valid(vocab.value)
  {
    if vocab.None? then Err(VocabNotInitialized)
    else
      var acc := Accepted(pairs, n);
      Ok((|acc|, MergeAll(vocab.value, acc)))
  }

  lemma GreedyStep(cands: seq<Pair>, i: nat, acc: seq<Pair>)
    requires i < |cands| && acc == Greedy(cands[..i])
    ensures Greedy(cands[..i + 1])
            == if cands[i].0 in Symbols(acc) || cands[i].1 in Symbols(acc) then acc else acc + [cands[i]]
  {
    var pre := cands[..i + 1];
    assert pre[..|pre| - 1] == cands[..i];
  }

  lemma SymbolsStep(acc: seq<Pair>, p: Pair)
    ensures Symbols(acc + [p]) == Symbols(acc) + {p.0, p.1}
  {
    assert (acc + [p])[..|acc|] == acc;
  }

  lemma MergeAllStep(v: Dict<string, int>, acc: seq<Pair>, p: Pair)
    ensures MergeAll(v, acc + [p]) == Merged(p, MergeAll(v, acc))
  {
    assert (acc + [p])[..|acc|] == acc;
  }

  /** The loop of `merge_n_best` stops having accepted exactly the pairs
      `Accepted` names: with `n <= 0` it stops at once, and otherwise it
      walks all of the `n` best-ranked pairs. */
  lemma LoopExit(pairs: Dict<Pair, int>, n: int, bestN: seq<Pair>, acc: seq<Pair>, i: nat)
    requires bestN == PySliceTo(Rank(pairs.keys, pairs.m), n)
    requires n <= 0 ==> i == 0 && acc == []
    requires n > 0 ==> i == |bestN| && acc == Greedy(bestN[..i])
    ensures acc == Accepted(pairs, n)
  {
    assert bestN[..|bestN|] == bestN;
  }

  /** `merge_n_best`: raise if `vocab` is None; otherwise walk the `n`
      best-ranked pairs and merge each whose symbols are still unused.
      (`num_merged >= n` can only stop the loop when `n <= 0`.) */
  method MergeNBest(pairs: Dict<Pair, int>, vocab: Option<Dict<string, int>>, n: int)
    returns (r: Result<(int, Dict<string, int>)>)
    requires vocab.Some? ==> Valid(vocab.value)
    ensures r == MergeNBestResult(pairs, vocab, n)
  {
    if vocab.None? {
      return Err(VocabNotInitialized);
    }
    var v := vocab.value;
    var bestN := PySliceTo(Rank(pairs.keys, pairs.m), n);
    var selected: set<string> := {};
    var numMerged := 0;
    ghost var acc: seq<Pair> := [];
    var i := 0;
    assert bestN[..0] == [];
    assert acc == Greedy(bestN[..0]);
    while i < |bestN|
      invariant 0 <= i <= |bestN|
      invariant n <= 0 ==> i == 0
      invariant acc == Greedy(bestN[..i])
      invariant numMerged == |acc| <= i
      invariant selected == Symbols(acc)
      invariant v == MergeAll(vocab.value, acc)
    {
      if numMerged >= n {
        break;
      }
      var best := bestN[i];
      GreedyStep(bestN, i, acc);
      if !(best.0 in selected || best.1 in selected) {
        MergeAllValid(vocab.value, acc);
        MergeAllStep(vocab.value, acc, best);
        SymbolsStep(acc, best);
        v := MergeVocab(best, v);
        selected := selected + {best.0, best.1};
        numMerged := numMerged + 1;
        acc := acc + [best];
      }
      i := i + 1;
    }
    LoopExit(pairs, n, bestN, acc, i);
    r := Ok((numMerged, v));
  }

  // ---------------------------------------------------------------------
  // What merge_n_best promises

  /** The best-ranked pair has the largest count of all the pairs. */
  lemma RankTop(ks: seq<Pair>, f: map<Pair, int>)
    requires ks != []
    ensures Rank(ks, f)[0] in ks
    ensures forall q :: q in ks ==> Get0(f, Rank(ks, f)[0]) >= Get0(f, q)
  {
    var r := Rank(ks, f);
    RankDescending(ks, f);
    RankPermutes(ks, f);
    assert r[0] in multiset(r);
    forall q | q in ks ensures Get0(f, r[0]) >= Get0(f, q) {
      assert q in multiset(ks);
      var j :| 0 <= j < |r| && r[j] == q;
      if j > 0 {
        assert Get0(f, r[0]) >= Get0(f, r[j]);
      }
    }
  }

  /** The accepted pairs: at most `n` and at most one per pair, all among the
      `n` best-ranked, pairwise without a shared symbol; none when `n <= 0` or
      there are no pairs; and with `n >= 1` the best-ranked pair, which has
      the largest count, is always the first accepted. */
  lemma AcceptedSpec(pairs: Dict<Pair, int>, n: int)
    ensures |Accepted(pairs, n)| <= |pairs.keys|
    ensures n >= 0 ==> |Accepted(pairs, n)| <= n
    ensures n <= 0 || pairs.keys == [] ==> Accepted(pairs, n) == []
    ensures forall p :: p in Accepted(pairs, n) ==> p in PySliceTo(Rank(pairs.keys, pairs.m), n)
    ensures forall i, j :: 0 <= i < j < |Accepted(pairs, n)| ==>
              NoSharedSymbol(Accepted(pairs, n)[i], Accepted(pairs, n)[j])
    ensures n >= 1 && pairs.keys != [] ==>
              Accepted(pairs, n) != [] && Accepted(pairs, n)[0] == Rank(pairs.keys, pairs.m)[0] &&
              forall q :: q in pairs.keys ==> Get0(pairs.m, Accepted(pairs, n)[0]) >= Get0(pairs.m, q)
  {
    if n > 0 {
      var top := PySliceTo(Rank(pairs.keys, pairs.m), n);
      GreedySpec(top);
      SubseqElems(Greedy(top), top);
      if pairs.keys != [] {
        RankTop(pairs.keys, pairs.m);
        assert top[0] == Rank(pairs.keys, pairs.m)[0];
      }
    }
  }

  /** `merge_n_best` raises exactly when `vocab` is None; otherwise it merges
      at most `n` pairs and at most as many as there are, returns the table
      unchanged when `n <= 0` or there are no pairs, and keeps the table a
      well-formed dict. */
  lemma MergeNBestSpec(pairs: Dict<Pair, int>, vocab: Option<Dict<string, int>>, n: int)
    requires vocab.Some? ==> Valid(vocab.value)
    ensures MergeNBestResult(pairs, vocab, n).Err? <==> vocab.None?
    ensures vocab.None? ==> MergeNBestResult(pairs, vocab, n) == Err(VocabNotInitialized)
    ensures MergeNBestResult(pairs, vocab, n).Ok? ==>
              var (count, v) := MergeNBestResult(pairs, vocab, n).value;
              && 0 <= count <= |pairs.keys|
              && (n >= 0 ==> count <= n)
              && Valid(v)
    ensures vocab.Some? && (n <= 0 || pairs.keys == []) ==>
              MergeNBestResult(pairs, vocab, n) == Ok((0, vocab.value))
  {
    AcceptedSpec(pairs, n);
    if vocab.Some? {
      MergeAllValid(vocab.value, Accepted(pairs, n));
    }
  }

  /** When the keys spell pairwise different words, a whole round of merges
      keeps the total frequency and that property. */
  lemma {:induction false} MergeAllConserves(v: Dict<string, int>, acc: seq<Pair>)
    requires Valid(v) && DistinctSpellings(v)
    ensures SumValues(MergeAll(v, acc)) == SumValues(v)
    ensures DistinctSpellings(MergeAll(v, acc))
  {
    if acc != [] {
      var p := acc[..|acc| - 1];
      MergeAllConserves(v, p);
      MergeAllValid(v, p);
      MergedConservesFrequency(acc[|acc| - 1], MergeAll(v, p));
    }
  }
}
