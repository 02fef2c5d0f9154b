/** Python dictionaries as the tokenizer uses them: a table plus the order in
    which keys were first inserted (iteration order). Assigning to a key that
    is already present keeps its position and replaces its value. */
module PyDict {

  datatype Dict<K, V> = Dict(keys: seq<K>, m: map<K, V>)

  predicate Distinct<K(==)>(s: seq<K>)
  {
    forall i, j :: 0 <= i < j < |s| ==> s[i] != s[j]
  }

  /** Every Python dict: each key listed once, and the listed keys are the
      table's keys. */
  predicate Valid<K(==), V>(d: Dict<K, V>)
  {
    && Distinct(d.keys)
    && (forall k :: k in d.keys ==> k in d.m)
    && (forall k :: k in d.m ==> k in d.keys)
  }

  function Empty<K, V>(): (r: Dict<K, V>)
    ensures Valid(r) && r.keys == []
  {
    Dict([], map[])
  }

  /** `d[k] = v`. */
  function Put<K(==), V>(d: Dict<K, V>, k: K, v: V): (r: Dict<K, V>)
    ensures Valid(d) ==> Valid(r)
    ensures r.m == d.m[k := v]
  {
    if k in d.m then Dict(d.keys, d.m[k := v]) else Dict(d.keys + [k], d.m[k := v])
  }

  /** Reading `d[k]` from a `defaultdict(int)` without inserting: 0 when absent. */
  function Get0<K(==)>(m: map<K, int>, k: K): int
  {
    if k in m then m[k] else 0
  }

  /** `d[k] += w` on a `defaultdict(int)`. */
  function AddTo<K(==)>(d: Dict<K, int>, k: K, w: int): (r: Dict<K, int>)
    ensures Valid(d) ==> Valid(r)
    ensures k in r.m && r.m[k] == Get0(d.m, k) + w
  {
    Put(d, k, Get0(d.m, k) + w)
  }

  // ---------------------------------------------------------------------
  // Streams of (key, value) entries and the dicts they build

  function KeysOf<K, V>(s: seq<(K, V)>): (r: seq<K>)
    ensures |r| == |s|
    ensures forall i :: 0 <= i < |s| ==> r[i] == s[i].0
  {
    if s == [] then [] else KeysOf(s[..|s| - 1]) + [s[|s| - 1].0]
  }

  /** The elements of `s` in order of first occurrence. */
  function Dedup<K(==)>(s: seq<K>): seq<K>
  {
    if s == [] then []
    else
      var d := Dedup(s[..|s| - 1]);
      if s[|s| - 1] in s[..|s| - 1] then d else d + [s[|s| - 1]]
  }

  /** Sum of the weights of the entries of `s` whose key is `k`. */
  function Weight<K(==)>(s: seq<(K, int)>, k: K): int
  {
    if s == [] then 0
    else Weight(s[..|s| - 1], k) + (if s[|s| - 1].0 == k then s[|s| - 1].1 else 0)
  }

  function TotalWeight<K(==)>(s: seq<(K, int)>): int
  {
    if s == [] then 0 else TotalWeight(s[..|s| - 1]) + s[|s| - 1].1
  }

  /** The value of the last entry of `s` whose key is `k`. */
  function LastValue<K(==), V>(s: seq<(K, V)>, k: K): V
    requires k in KeysOf(s)
  {
    if s[|s| - 1].0 == k then s[|s| - 1].1
    else
      assert KeysOf(s) == KeysOf(s[..|s| - 1]) + [s[|s| - 1].0];
      LastValue(s[..|s| - 1], k)
  }

  /** The dict `d` left by running `d[k] += w` for every entry of `s`, in
      order, on an empty `defaultdict(int)`. */
  function Tally<K(==)>(s: seq<(K, int)>): (r: Dict<K, int>)
    ensures Valid(r)
  {
    if s == [] then Empty() else AddTo(Tally(s[..|s| - 1]), s[|s| - 1].0, s[|s| - 1].1)
  }

  /** The dict `d` left by running `d[k] = v` for every entry of `s`, in order,
      on an empty dict. */
  function Assign<K(==), V>(s: seq<(K, V)>): (r: Dict<K, V>)
    ensures Valid(r)
  {
    if s == [] then Empty() else Put(Assign(s[..|s| - 1]), s[|s| - 1].0, s[|s| - 1].1)
  }

  /** Sum of the values of a dict (`sum(d.values())`). */
  function SumValues<K(==)>(d: Dict<K, int>): int
  {
    SumOver(d.keys, d.m)
  }

  function SumOver<K(==)>(ks: seq<K>, m: map<K, int>): int
  {
    if ks == [] then 0 else SumOver(ks[..|ks| - 1], m) + Get0(m, ks[|ks| - 1])
  }

  // ---------------------------------------------------------------------
  // Lemmas

  lemma {:induction false} DedupProps<K>(s: seq<K>)
    ensures Distinct(Dedup(s))
    ensures forall x :: x in Dedup(s) <==> x in s
    ensures |Dedup(s)| <= |s|
    ensures Distinct(s) ==> Dedup(s) == s
  {
    if s != [] {
      var p := s[..|s| - 1];
      DedupProps(p);
      assert s == p + [s[|s| - 1]];
      if Distinct(s) {
        assert Distinct(p);
        forall i | 0 <= i < |p| ensures p[i] != s[|s| - 1] {
          assert p[i] == s[i];
        }
      }
    }
  }

  lemma {:induction false} WeightAbsent<K>(s: seq<(K, int)>, k: K)
    requires k !in KeysOf(s)
    ensures Weight(s, k) == 0
  {
    if s != [] {
      var p := s[..|s| - 1];
      assert KeysOf(s) == KeysOf(p) + [s[|s| - 1].0];
      WeightAbsent(p, k);
    }
  }

  lemma {:induction false} KeysOfAppend<K, V>(s: seq<(K, V)>, e: (K, V))
    ensures KeysOf(s + [e]) == KeysOf(s) + [e.0]
  {
    assert (s + [e])[..|s|] == s;
  }

  /** One more `d[k] += w` extends the stream by one entry. */
  lemma TallyStep<K>(s: seq<(K, int)>, k: K, w: int)
    ensures Tally(s + [(k, w)]) == AddTo(Tally(s), k, w)
  {
    assert (s + [(k, w)])[..|s|] == s;
  }

  /** One more `d[k] = v` extends the stream by one entry. */
  lemma AssignStep<K, V>(s: seq<(K, V)>, k: K, v: V)
    ensures Assign(s + [(k, v)]) == Put(Assign(s), k, v)
  {
    assert (s + [(k, v)])[..|s|] == s;
  }

  lemma {:induction false} TallyMembers<K>(s: seq<(K, int)>)
    ensures forall k :: k in Tally(s).m <==> k in KeysOf(s)
  {
    if s != [] {
      var p := s[..|s| - 1];
      TallyMembers(p);
      assert KeysOf(s) == KeysOf(p) + [s[|s| - 1].0];
    }
  }

  lemma {:induction false} TallyOrder<K>(s: seq<(K, int)>)
    ensures Tally(s).keys == Dedup(KeysOf(s))
  {
    if s != [] {
      var p := s[..|s| - 1];
      TallyOrder(p);
      TallyMembers(p);
      assert KeysOf(s)[..|s| - 1] == KeysOf(p);
    }
  }

  lemma {:induction false} TallyValue<K>(s: seq<(K, int)>, k: K)
    requires k in Tally(s).m
    ensures Tally(s).m[k] == Weight(s, k)
  {
    var p := s[..|s| - 1];
    var e := s[|s| - 1];
    TallyMembers(p);
    if k in Tally(p).m {
      TallyValue(p, k);
    } else if k == e.0 {
      WeightAbsent(p, k);
    }
  }

  /** Counting in closed form: the keys of the tally are the stream's keys in
      order of first occurrence, and each maps to its total weight. */
  lemma TallyClosed<K>(s: seq<(K, int)>)
    ensures Tally(s).keys == Dedup(KeysOf(s))
    ensures forall k :: k in Tally(s).m <==> k in KeysOf(s)
    ensures forall k :: k in Tally(s).m ==> Tally(s).m[k] == Weight(s, k)
  {
    TallyOrder(s);
    TallyMembers(s);
    forall k | k in Tally(s).m ensures Tally(s).m[k] == Weight(s, k) {
      TallyValue(s, k);
    }
  }

  lemma {:induction false} AssignMembers<K, V>(s: seq<(K, V)>)
    ensures forall k :: k in Assign(s).m <==> k in KeysOf(s)
  {
    if s != [] {
      var p := s[..|s| - 1];
      AssignMembers(p);
      assert KeysOf(s) == KeysOf(p) + [s[|s| - 1].0];
    }
  }

  lemma {:induction false} AssignOrder<K, V>(s: seq<(K, V)>)
    ensures Assign(s).keys == Dedup(KeysOf(s))
  {
    if s != [] {
      var p := s[..|s| - 1];
      AssignOrder(p);
      AssignMembers(p);
      assert KeysOf(s)[..|s| - 1] == KeysOf(p);
    }
  }

  lemma {:induction false} AssignValue<K, V>(s: seq<(K, V)>, k: K)
    requires k in Assign(s).m
    ensures k in KeysOf(s) && Assign(s).m[k] == LastValue(s, k)
  {
    var p := s[..|s| - 1];
    var e := s[|s| - 1];
    AssignMembers(s);
    if k != e.0 {
      AssignValue(p, k);
      assert KeysOf(s) == KeysOf(p) + [e.0];
    }
  }

  /** Overwriting in closed form: the keys of the dict are the stream's keys
      in order of first occurrence, and each keeps its last written value. */
  lemma AssignClosed<K, V>(s: seq<(K, V)>)
    ensures Assign(s).keys == Dedup(KeysOf(s))
    ensures forall k :: k in Assign(s).m <==> k in KeysOf(s)
    ensures forall k :: k in Assign(s).m ==> k in KeysOf(s) && Assign(s).m[k] == LastValue(s, k)
  {
    AssignOrder(s);
    AssignMembers(s);
    forall k | k in Assign(s).m ensures k in KeysOf(s) && Assign(s).m[k] == LastValue(s, k) {
      AssignValue(s, k);
    }
  }

  /** The value `d[k] = v` leaves for `k` was written by some entry of the
      stream with that key. */
  lemma {:induction false} LastValueWritten<K, V>(s: seq<(K, V)>, k: K)
    requires k in KeysOf(s)
    ensures exists i :: 0 <= i < |s| && s[i] == (k, LastValue(s, k))
  {
    if s[|s| - 1].0 != k {
      var p := s[..|s| - 1];
      assert KeysOf(s) == KeysOf(p) + [s[|s| - 1].0];
      LastValueWritten(p, k);
      var i :| 0 <= i < |p| && p[i] == (k, LastValue(p, k));
      assert s[i] == p[i];
    }
  }

  /** `d[k] = v` leaves at most one key per entry of the stream. */
  lemma AssignKeys<K, V>(s: seq<(K, V)>)
    ensures |Assign(s).keys| <= |s|
  {
    AssignClosed(s);
    DedupProps(KeysOf(s));
  }

  lemma AssignWritten<K, V>(s: seq<(K, V)>, k: K) returns (i: nat)
    requires k in Assign(s).m
    ensures i < |s| && s[i] == (k, Assign(s).m[k])
  {
    AssignClosed(s);
    LastValueWritten(s, k);
    i :| 0 <= i < |s| && s[i] == (k, LastValue(s, k));
  }

  /** An entry that no later entry overwrites leaves its value. */
  lemma {:induction false} LastValueOfLast<K, V>(s: seq<(K, V)>, i: nat)
    requires i < |s|
    requires forall j :: i < j < |s| ==> s[j].0 != s[i].0
    ensures LastValue(s, s[i].0) == s[i].1
  {
    if i < |s| - 1 {
      var p := s[..|s| - 1];
      assert KeysOf(s) == KeysOf(p) + [s[|s| - 1].0];
      assert p[i] == s[i] && KeysOf(p)[i] == s[i].0;
      LastValueOfLast(p, i);
    }
  }

  /** Every key of the stream is in the dict `d[k] = v` builds. */
  lemma AssignHas<K, V>(s: seq<(K, V)>, i: nat)
    requires i < |s|
    ensures s[i].0 in Assign(s).m
  {
    AssignMembers(s);
    assert KeysOf(s)[i] == s[i].0;
  }

  /** The last write to a key decides its value. */
  lemma AssignLastWriter<K, V>(s: seq<(K, V)>, i: nat)
    requires i < |s|
    requires forall j :: i < j < |s| ==> s[j].0 != s[i].0
    ensures s[i].0 in Assign(s).m && Assign(s).m[s[i].0] == s[i].1
  {
    AssignHas(s, i);
    AssignValue(s, s[i].0);
    LastValueOfLast(s, i);
  }

  lemma {:induction false} SumOverUntouched<K>(ks: seq<K>, m: map<K, int>, k: K, v: int)
    requires k !in ks
    ensures SumOver(ks, m[k := v]) == SumOver(ks, m)
  {
    if ks != [] {
      SumOverUntouched(ks[..|ks| - 1], m, k, v);
    }
  }

  lemma {:induction false} SumOverUpdate<K>(ks: seq<K>, m: map<K, int>, k: K, v: int)
    requires Distinct(ks) && k in ks
    ensures SumOver(ks, m[k := v]) == SumOver(ks, m) - Get0(m, k) + v
  {
    var p := ks[..|ks| - 1];
    assert Distinct(p);
    if ks[|ks| - 1] == k {
      forall i | 0 <= i < |p| ensures p[i] != k {
        assert p[i] == ks[i];
      }
      SumOverUntouched(p, m, k, v);
    } else {
      assert ks == p + [ks[|ks| - 1]];
      assert k in p;
      SumOverUpdate(p, m, k, v);
    }
  }

  /** `d[k] += w` raises the sum of the values by `w`. */
  lemma AddToSum<K>(d: Dict<K, int>, k: K, w: int)
    requires Valid(d)
    ensures SumValues(AddTo(d, k, w)) == SumValues(d) + w
  {
    var v := Get0(d.m, k) + w;
    if k in d.m {
      assert k in d.keys;
      assert AddTo(d, k, w) == Dict(d.keys, d.m[k := v]);
      SumOverUpdate(d.keys, d.m, k, v);
    } else {
      assert k !in d.keys;
      var ks := d.keys + [k];
      assert AddTo(d, k, w) == Dict(ks, d.m[k := v]);
      assert ks[..|ks| - 1] == d.keys;
      assert SumOver(ks, d.m[k := v]) == SumOver(d.keys, d.m[k := v]) + v;
      SumOverUntouched(d.keys, d.m, k, v);
    }
  }

  /** Counting conserves mass: the values of a tally sum to the total weight
      of the stream it was built from. */
  lemma {:induction false} TallySum<K>(s: seq<(K, int)>)
    ensures SumValues(Tally(s)) == TotalWeight(s)
  {
    if s != [] {
      var p := s[..|s| - 1];
      TallySum(p);
      AddToSum(Tally(p), s[|s| - 1].0, s[|s| - 1].1);
    }
  }

  lemma DistinctLast<K>(ks: seq<K>)
    requires ks != [] && Distinct(ks)
    ensures Distinct(ks[..|ks| - 1]) && ks[|ks| - 1] !in ks[..|ks| - 1]
  {
    var p := ks[..|ks| - 1];
    forall i | 0 <= i < |p| ensures p[i] != ks[|ks| - 1] {
      assert p[i] == ks[i];
    }
  }

  /** Overwriting conserves mass when no key repeats in the stream. */
  lemma {:induction false} AssignSumDistinct(s: seq<(string, int)>)
    requires Distinct(KeysOf(s))
    ensures SumValues(Assign(s)) == TotalWeight(s)
  {
    if s != [] {
      var p := s[..|s| - 1];
      var e := s[|s| - 1];
      DistinctLast(KeysOf(s));
      assert KeysOf(p) == KeysOf(s)[..|s| - 1];
      AssignSumDistinct(p);
      var d := Assign(p);
      AssignClosed(p);
      assert Put(d, e.0, e.1) == AddTo(d, e.0, e.1);
      AddToSum(d, e.0, e.1);
    }
  }
}
