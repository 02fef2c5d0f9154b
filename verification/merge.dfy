/** `merge_vocab` (01_python/YBIGTA/tokenizers.py): rewrite every key of a
    table by substituting the concatenation of a pair for the pair joined by
    one space, as `re.sub` does with the pattern the source compiles. */
module Merge {
  import opened Text
  import opened PyDict
  import opened VocabStats

  /** The lookarounds of the compiled pattern are written `(?<!\\S)` and
      `(?!\\S)` inside raw strings: they reject a backslash followed by `S`,
      not a non-whitespace character. */
  const Guard: string := "\\S"

  /** `' '.join(pair)`, the text the pattern looks for. */
  function Bigram(p: Pair): string
  {
    p.0 + " " + p.1
  }

  /** `''.join(pair)`, the replacement. */
  function Joined(p: Pair): string
  {
    p.0 + p.1
  }

  /** The pattern's lookbehind fails at `i`. */
  predicate GuardBefore(w: string, i: nat)
    requires i <= |w|
  {
    i >= 2 && w[i - 2..i] == Guard
  }

  /** The pattern's lookahead fails at `j`. */
  predicate GuardAfter(w: string, j: nat)
    requires j <= |w|
  {
    j + 2 <= |w| && w[j..j + 2] == Guard
  }

  /** The text `pat` occurs in `w` at `i`. */
  predicate At(w: string, pat: string, i: nat)
  {
    i + |pat| <= |w| && w[i..i + |pat|] == pat
  }

  /** The compiled pattern matches `w` at `i`. */
  predicate MatchAt(w: string, pat: string, i: nat)
  {
    At(w, pat, i) && !GuardBefore(w, i) && !GuardAfter(w, i + |pat|)
  }

  /** `re.sub` from position `i` on: scan left to right, replace each match
      and resume after it, otherwise copy one character. */
  function SubFrom(w: string, pat: string, rep: string, i: nat): string
    requires |pat| > 0
    decreases |w| - i
  {
    if i >= |w| then []
    else if MatchAt(w, pat, i) then rep + SubFrom(w, pat, rep, i + |pat|)
    else [w[i]] + SubFrom(w, pat, rep, i + 1)
  }

  /** `p.sub(''.join(pair), word)` for the pattern built from `pair`. */
  function Rewrite(word: string, pair: Pair): string
  {
    SubFrom(word, Bigram(pair), Joined(pair), 0)
  }

  /** `s` with every space character deleted. */
  function DropBlanks(s: string): string
  {
    if s == [] then [] else (if s[0] == ' ' then [] else [s[0]]) + DropBlanks(s[1..])
  }

  /** The bigram text occurs somewhere in `w`, guarded or not. */
  predicate HasBigram(w: string, pair: Pair)
  {
    exists i :: 0 <= i <= |w| && At(w, Bigram(pair), i)
  }

  // ---------------------------------------------------------------------
  // merge_vocab

  /** The assignments `v_out[w_out] = v_in[word]` in key order. */
  function RewriteStream(pair: Pair, ks: seq<string>, m: map<string, int>): (r: seq<(string, int)>)
    ensures |r| == |ks|
    ensures forall i :: 0 <= i < |ks| ==> r[i] == (Rewrite(ks[i], pair), Get0(m, ks[i]))
  {
    if ks == [] then []
    else RewriteStream(pair, ks[..|ks| - 1], m) + [(Rewrite(ks[|ks| - 1], pair), Get0(m, ks[|ks| - 1]))]
  }

  /** `v_out` once the loop of `merge_vocab` has handled the keys `ks`, in
      order: each rewritten key assigned its value. */
  function MergedKeys(pair: Pair, ks: seq<string>, m: map<string, int>): (r: Dict<string, int>)
    ensures Valid(r)
  {
    if ks == [] then Empty()
    else Put(MergedKeys(pair, ks[..|ks| - 1], m), Rewrite(ks[|ks| - 1], pair), Get0(m, ks[|ks| - 1]))
  }

  /** The dict `merge_vocab(pair, v_in)` returns. */
  function Merged(pair: Pair, vIn: Dict<string, int>): (r: Dict<string, int>)
    ensures Valid(r)
  {
    MergedKeys(pair, vIn.keys, vIn.m)
  }

  /** `merge_vocab`: a fresh dict; each key of `v_in`, in order, is rewritten
      and the result assigned its value, so a later key rewriting to the same
      text overwrites the earlier one's value. */
  method MergeVocab(pair: Pair, vIn: Dict<string, int>) returns (vOut: Dict<string, int>)
    requires Valid(vIn)
    ensures vOut == Merged(pair, vIn)
  {
    vOut := Empty();
    assert vIn.keys[..0] == [];
    for i := 0 to |vIn.keys|
      invariant vOut == MergedKeys(pair, vIn.keys[..i], vIn.m)
    {
      var word := vIn.keys[i];
      var wOut := Rewrite(word, pair);
      assert vIn.keys[..i + 1][..i] == vIn.keys[..i];
      vOut := Put(vOut, wOut, vIn.m[word]);
    }
    assert vIn.keys[..|vIn.keys|] == vIn.keys;
  }

  /** The merged table is the table the stream of assignments builds. */
  lemma {:induction false} MergedKeysAssign(pair: Pair, ks: seq<string>, m: map<string, int>)
    ensures MergedKeys(pair, ks, m) == Assign(RewriteStream(pair, ks, m))
  {
    if ks != [] {
      var p := ks[..|ks| - 1];
      var k := ks[|ks| - 1];
      MergedKeysAssign(pair, p, m);
      assert RewriteStream(pair, ks, m) == RewriteStream(pair, p, m) + [(Rewrite(k, pair), Get0(m, k))];
      AssignStep(RewriteStream(pair, p, m), Rewrite(k, pair), Get0(m, k));
    }
  }

  // ---------------------------------------------------------------------
  // What one substitution does to a key

  /** Without a match from `i` on, the scan copies the rest of the text. */
  lemma {:induction false} SubFromNoMatch(w: string, pat: string, rep: string, i: nat)
    requires |pat| > 0
    requires i <= |w|
    requires forall j :: i <= j <= |w| ==> !MatchAt(w, pat, j)
    ensures SubFrom(w, pat, rep, i) == w[i..]
    decreases |w| - i
  {
    if i < |w| {
      SubFromNoMatch(w, pat, rep, i + 1);
      assert w[i..] == [w[i]] + w[i + 1..];
    }
  }

  /** A replacement no longer than the pattern never lengthens the text. */
  lemma {:induction false} SubFromLength(w: string, pat: string, rep: string, i: nat)
    requires 0 < |pat| && |rep| <= |pat|
    requires i <= |w|
    ensures |SubFrom(w, pat, rep, i)| <= |w| - i
    decreases |w| - i
  {
    if i < |w| {
      if MatchAt(w, pat, i) {
        SubFromLength(w, pat, rep, i + |pat|);
      } else {
        SubFromLength(w, pat, rep, i + 1);
      }
    }
  }

  /** A replacement shorter than the pattern shortens the text as soon as
      the pattern matches somewhere from `i` on. */
  lemma {:induction false} SubFromShorter(w: string, pat: string, rep: string, i: nat, j: nat)
    requires 0 < |pat| && |rep| < |pat|
    requires i <= j && MatchAt(w, pat, j)
    ensures |SubFrom(w, pat, rep, i)| < |w| - i
    decreases |w| - i
  {
    if MatchAt(w, pat, i) {
      SubFromLength(w, pat, rep, i + |pat|);
    } else {
      SubFromShorter(w, pat, rep, i + 1, j);
    }
  }

  /** `p.sub` changes a key exactly when the pattern matches it somewhere:
      every unguarded occurrence of `' '.join(pair)` is merged. */
  lemma RewriteUnchangedIff(w: string, pair: Pair)
    ensures Rewrite(w, pair) == w <==> !exists i :: MatchAt(w, Bigram(pair), i)
  {
    if exists i :: MatchAt(w, Bigram(pair), i) {
      var i :| MatchAt(w, Bigram(pair), i);
      SubFromShorter(w, Bigram(pair), Joined(pair), 0, i);
    } else {
      SubFromNoMatch(w, Bigram(pair), Joined(pair), 0);
      assert w[0..] == w;
    }
  }

  /** A key in which the bigram text does not occur is left as it is. */
  lemma RewriteWithoutBigram(w: string, pair: Pair)
    requires !HasBigram(w, pair)
    ensures Rewrite(w, pair) == w
  {
    SubFromNoMatch(w, Bigram(pair), Joined(pair), 0);
  }

  lemma {:induction false} DropBlanksAppend(s: string, t: string)
    ensures DropBlanks(s + t) == DropBlanks(s) + DropBlanks(t)
  {
    if s == [] {
      assert s + t == t;
    } else {
      assert (s + t)[1..] == s[1..] + t;
      DropBlanksAppend(s[1..], t);
    }
  }

  lemma DropBlanksAt(w: string, i: nat, n: nat)
    requires i + n <= |w|
    ensures DropBlanks(w[i..]) == DropBlanks(w[i..i + n]) + DropBlanks(w[i + n..])
  {
    assert w[i..] == w[i..i + n] + w[i + n..];
    DropBlanksAppend(w[i..i + n], w[i + n..]);
  }

  /** One step of the scan keeps the letters, given that the rest does. */
  lemma ScanStepKeepsLetters(w: string, pat: string, rep: string, i: nat)
    requires |pat| > 0 && DropBlanks(pat) == DropBlanks(rep)
    requires i < |w|
    requires MatchAt(w, pat, i) ==>
               DropBlanks(SubFrom(w, pat, rep, i + |pat|)) == DropBlanks(w[i + |pat|..])
    requires !MatchAt(w, pat, i) ==>
               DropBlanks(SubFrom(w, pat, rep, i + 1)) == DropBlanks(w[i + 1..])
    ensures DropBlanks(SubFrom(w, pat, rep, i)) == DropBlanks(w[i..])
  {
    if MatchAt(w, pat, i) {
      var rest := SubFrom(w, pat, rep, i + |pat|);
      assert SubFrom(w, pat, rep, i) == rep + rest;
      DropBlanksAppend(rep, rest);
      DropBlanksAt(w, i, |pat|);
    } else {
      var rest := SubFrom(w, pat, rep, i + 1);
      assert SubFrom(w, pat, rep, i) == [w[i]] + rest;
      DropBlanksAppend([w[i]], rest);
      DropBlanksAt(w, i, 1);
      assert w[i..i + 1] == [w[i]];
    }
  }

  lemma {:induction false} SubFromKeepsLetters(w: string, pat: string, rep: string, i: nat)
    requires |pat| > 0 && DropBlanks(pat) == DropBlanks(rep)
    requires i <= |w|
    ensures DropBlanks(SubFrom(w, pat, rep, i)) == DropBlanks(w[i..])
    decreases |w| - i
  {
    if i < |w| {
      if MatchAt(w, pat, i) {
        SubFromKeepsLetters(w, pat, rep, i + |pat|);
      } else {
        SubFromKeepsLetters(w, pat, rep, i + 1);
      }
      ScanStepKeepsLetters(w, pat, rep, i);
    }
  }

  /** A merge only deletes the space between the two symbols: with the
      spaces taken out, every key reads the same before and after. */
  lemma RewriteKeepsLetters(w: string, pair: Pair)
    ensures DropBlanks(Rewrite(w, pair)) == DropBlanks(w)
  {
    DropBlanksAppend(pair.0 + " ", pair.1);
    DropBlanksAppend(pair.0, " ");
    DropBlanksAppend(pair.0, pair.1);
    assert DropBlanks(" ") == [];
    SubFromKeepsLetters(w, Bigram(pair), Joined(pair), 0);
    assert w[0..] == w;
  }

  /** The pattern's boundary test is the literal text `\S`, not whitespace:
      a pair is merged even inside longer symbols. */
  lemma MergesInsideSymbols()
    ensures Rewrite("xa by", ("a", "b")) == "xaby"
  {
    var w, pat, rep := "xa by", "a b", "ab";
    assert Bigram(("a", "b")) == pat && Joined(("a", "b")) == rep;
    assert w[0..3][0] != pat[0];
    assert w[1..4] == pat;
    assert SubFrom(w, pat, rep, 4) == "y";
    assert SubFrom(w, pat, rep, 1) == "ab" + "y";
  }

  /** An occurrence directly after the two characters `\S` is not merged. */
  lemma GuardBlocksMerge()
    ensures Rewrite("\\Sa b", ("a", "b")) == "\\Sa b"
  {
    var w, pat, rep := "\\Sa b", "a b", "ab";
    assert Bigram(("a", "b")) == pat && Joined(("a", "b")) == rep;
    assert w[0..3][0] != pat[0] && w[1..4][0] != pat[0];
    assert w[2..5] == pat && w[0..2] == Guard;
    assert SubFrom(w, pat, rep, 3) == " b";
    assert SubFrom(w, pat, rep, 2) == "a b";
  }

  // ---------------------------------------------------------------------
  // What merge_vocab does to the table

  /** `merge_vocab` never adds keys, its keys are exactly the rewritten input
      keys, and each output value was the value of an input key that
      rewrites to that output key. */
  lemma MergedShape(pair: Pair, vIn: Dict<string, int>)
    requires Valid(vIn)
    ensures |Merged(pair, vIn).keys| <= |vIn.keys|
    ensures forall w :: w in Merged(pair, vIn).m <==> exists k :: k in vIn.m && Rewrite(k, pair) == w
    ensures forall w :: w in Merged(pair, vIn).m ==>
              exists k :: k in vIn.m && Rewrite(k, pair) == w && vIn.m[k] == Merged(pair, vIn).m[w]
  {
    MergedKeysAssign(pair, vIn.keys, vIn.m);
    StreamShape(pair, vIn);
  }

  lemma StreamShape(pair: Pair, vIn: Dict<string, int>)
    requires Valid(vIn)
    ensures var d := Assign(RewriteStream(pair, vIn.keys, vIn.m));
      && |d.keys| <= |vIn.keys|
      && (forall w :: w in d.m <==> exists k :: k in vIn.m && Rewrite(k, pair) == w)
      && (forall w :: w in d.m ==> exists k :: k in vIn.m && Rewrite(k, pair) == w && vIn.m[k] == d.m[w])
  {
    var s := RewriteStream(pair, vIn.keys, vIn.m);
    var d := Assign(s);
    AssignKeys(s);
    AssignMembers(s);
    forall w | w in d.m
      ensures exists k :: k in vIn.m && Rewrite(k, pair) == w && vIn.m[k] == d.m[w]
    {
      var i := AssignWritten(s, w);
      assert vIn.keys[i] in vIn.m;
    }
    forall w | exists k :: k in vIn.m && Rewrite(k, pair) == w
      ensures w in d.m
    {
      var k :| k in vIn.m && Rewrite(k, pair) == w;
      var i :| 0 <= i < |vIn.keys| && vIn.keys[i] == k;
      assert KeysOf(s)[i] == w;
    }
  }

  /** The key at position `i` survives the merge when the bigram does not
      occur in it, and keeps its value unless a later key rewrites onto it
      (an earlier one is overwritten by it). */
  lemma MergedPassThrough(pair: Pair, vIn: Dict<string, int>, i: nat)
    requires Valid(vIn) && i < |vIn.keys| && !HasBigram(vIn.keys[i], pair)
    ensures vIn.keys[i] in Merged(pair, vIn).m
    ensures (forall j :: i < j < |vIn.keys| ==> Rewrite(vIn.keys[j], pair) != vIn.keys[i]) ==>
              Merged(pair, vIn).m[vIn.keys[i]] == vIn.m[vIn.keys[i]]
  {
    var s := RewriteStream(pair, vIn.keys, vIn.m);
    RewriteWithoutBigram(vIn.keys[i], pair);
    MergedKeysAssign(pair, vIn.keys, vIn.m);
    assert s[i].0 == vIn.keys[i];
    AssignHas(s, i);
    if forall j :: i < j < |vIn.keys| ==> Rewrite(vIn.keys[j], pair) != vIn.keys[i] {
      StreamKeeps(pair, vIn, i);
    }
  }

  /** The assignment of the key at position `i` to itself stands when no
      later assignment has the same key. */
  lemma StreamKeeps(pair: Pair, vIn: Dict<string, int>, i: nat)
    requires Valid(vIn) && i < |vIn.keys| && Rewrite(vIn.keys[i], pair) == vIn.keys[i]
    requires forall j :: i < j < |vIn.keys| ==> Rewrite(vIn.keys[j], pair) != vIn.keys[i]
    ensures vIn.keys[i] in Assign(RewriteStream(pair, vIn.keys, vIn.m)).m
    ensures Assign(RewriteStream(pair, vIn.keys, vIn.m)).m[vIn.keys[i]] == vIn.m[vIn.keys[i]]
  {
    var s := RewriteStream(pair, vIn.keys, vIn.m);
    assert s[i] == (vIn.keys[i], vIn.m[vIn.keys[i]]);
    forall j | i < j < |s| ensures s[j].0 != s[i].0 {
      assert s[j].0 == Rewrite(vIn.keys[j], pair);
    }
    AssignLastWriter(s, i);
  }

  lemma RewriteCollisionKeys()
    ensures Rewrite("ab", ("a", "b")) == "ab"
    ensures Rewrite("a b", ("a", "b")) == "ab"
  {
    assert Bigram(("a", "b")) == "a b" && Joined(("a", "b")) == "ab";
    assert !HasBigram("ab", ("a", "b"));
    RewriteWithoutBigram("ab", ("a", "b"));
    assert "a b"[0..3] == "a b";
    assert SubFrom("a b", "a b", "ab", 3) == [];
  }

  /** Two keys that rewrite to the same text: the later value wins and the
      frequencies are not added. */
  lemma CollisionOverwrites()
    ensures Merged(("a", "b"), Dict(["ab", "a b"], map["ab" := 1, "a b" := 2]))
            == Dict(["ab"], map["ab" := 2])
  {
    var pair := ("a", "b");
    var m := map["ab" := 1, "a b" := 2];
    RewriteCollisionKeys();
    var ks := ["ab", "a b"];
    var one := ks[..1];
    assert one == ["ab"] && one[..|one| - 1] == [] && one[|one| - 1] == "ab";
    assert MergedKeys(pair, [], m) == Empty();
    assert Get0(m, "ab") == 1 && Get0(m, "a b") == 2;
    var first := MergedKeys(pair, one, m);
    assert first == Put(Empty(), "ab", 1);
    assert ks[..|ks| - 1] == one && ks[|ks| - 1] == "a b";
    assert MergedKeys(pair, ks, m) == Put(first, "ab", 2);
  }

  // ---------------------------------------------------------------------
  // Frequency conservation

  /** No two keys read the same once their spaces are taken out: the keys
      are decompositions of different words. */
  predicate DistinctSpellings(d: Dict<string, int>)
  {
    forall i, j :: 0 <= i < j < |d.keys| ==> DropBlanks(d.keys[i]) != DropBlanks(d.keys[j])
  }

  /** A word holds no space, so taking spaces out leaves it as it is. */
  lemma {:induction false} DropBlanksOfWord(w: string)
    requires forall i :: 0 <= i < |w| ==> !IsSpace(w[i])
    ensures DropBlanks(w) == w
  {
    if w != [] {
      assert IsSpace(' ');
      DropBlanksOfWord(w[1..]);
      assert w == [w[0]] + w[1..];
    }
  }

  /** The table training builds meets the hypothesis of frequency
      conservation: its keys are distinct words without spaces. */
  lemma WordTableSpellings(corpus: seq<string>)
    ensures DistinctSpellings(WordTable(corpus))
  {
    var d := WordTable(corpus);
    WordTableCounts(corpus);
    forall i, j | 0 <= i < j < |d.keys| ensures DropBlanks(d.keys[i]) != DropBlanks(d.keys[j]) {
      assert d.keys[i] in d.m && d.keys[j] in d.m;
      DropBlanksOfWord(d.keys[i]);
      DropBlanksOfWord(d.keys[j]);
    }
  }

  lemma {:induction false} RewriteStreamWeight(pair: Pair, ks: seq<string>, m: map<string, int>)
    ensures TotalWeight(RewriteStream(pair, ks, m)) == SumOver(ks, m)
  {
    if ks != [] {
      var r := RewriteStream(pair, ks, m);
      assert r[..|r| - 1] == RewriteStream(pair, ks[..|ks| - 1], m);
      RewriteStreamWeight(pair, ks[..|ks| - 1], m);
    }
  }

  /** When the keys spell different words, no two keys collide: the merge
      keeps the total frequency and the keys still spell different words. */
  lemma MergedConservesFrequency(pair: Pair, vIn: Dict<string, int>)
    requires Valid(vIn) && DistinctSpellings(vIn)
    ensures SumValues(Merged(pair, vIn)) == SumValues(vIn)
    ensures DistinctSpellings(Merged(pair, vIn))
  {
    MergedKeysAssign(pair, vIn.keys, vIn.m);
    var s := RewriteStream(pair, vIn.keys, vIn.m);
    var ks := KeysOf(s);
    forall i | 0 <= i < |ks| ensures DropBlanks(ks[i]) == DropBlanks(vIn.keys[i]) {
      RewriteKeepsLetters(vIn.keys[i], pair);
    }
    assert Distinct(ks);
    DedupProps(ks);
    AssignClosed(s);
    AssignSumDistinct(s);
    RewriteStreamWeight(pair, vIn.keys, vIn.m);
  }
}
