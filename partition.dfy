/**
 Pure functions over community labellings.  A labelling is the sequence of
 `community` (or `nodeCommunity`) values of the vertices, in the store's fixed
 enumeration order.
 */
module Partition {

  /** A strictly increasing sequence of positions; no position occurs twice. */
  ghost predicate Increasing(r: seq<nat>) {
    forall a, b :: 0 <= a < b < |r| ==> r[a] < r[b]
  }

  /** The positions whose label is `v`. */
  ghost function Members(s: seq<int>, v: int): set<nat> {
    set i: nat | i < |s| && s[i] == v
  }

  /** The set of labels in use. */
  ghost function Labels(s: seq<int>): set<int> {
    set x | x in s
  }

  /** No label occurs twice. */
  ghost predicate NoDup(d: seq<int>) {
    forall a, b :: 0 <= a < b < |d| ==> d[a] != d[b]
  }

  /**
   The positions of `s` labelled `v`, in enumeration order: what an index
   lookup `findNodes(NODE_LABEL, key, v)` yields.
   */
  function Select(s: seq<int>, v: int): (r: seq<nat>)
    ensures forall i: nat :: i in r <==> i < |s| && s[i] == v
    ensures forall t :: 0 <= t < |r| ==> r[t] < |s|
    ensures Increasing(r)
  {
    if s == [] then []
    else
      var init := s[..|s| - 1];
      var last := |s| - 1;
      var r0 := Select(init, v);
      assert forall i: nat :: i < last ==> s[i] == init[i];
      if s[last] == v then
        var r := r0 + [last];
        assert forall i: nat :: i in r <==> i in r0 || i == last;
        r
      else
        r0
  }

  /** An index lookup yields exactly as many vertices as carry the label. */
  lemma {:induction false} SelectCount(s: seq<int>, v: int)
    ensures |Select(s, v)| == |Members(s, v)|
  {
    if s != [] {
      var init := s[..|s| - 1];
      assert s == init + [s[|s| - 1]];
      SelectCount(init, v);
      MembersSnoc(init, s[|s| - 1], v);
    }
  }

  /** The labels of `s` in order of first occurrence. */
  function Distinct(s: seq<int>): (d: seq<int>)
    ensures forall x :: x in d <==> x in s
    ensures NoDup(d)
  {
    if s == [] then []
    else
      var d0 := Distinct(s[..|s| - 1]);
      assert s == s[..|s| - 1] + [s[|s| - 1]];
      if s[|s| - 1] in d0 then d0 else d0 + [s[|s| - 1]]
  }

  /** The first position of `x` in `d`. */
  function IndexOf(d: seq<int>, x: int): (k: nat)
    requires x in d
    ensures k < |d| && d[k] == x && x !in d[..k]
  {
    if d[0] == x then 0
    else
      var k0 := IndexOf(d[1..], x);
      assert d[..k0 + 1] == [d[0]] + d[1..][..k0];
      k0 + 1
  }

  /** The dense labels 0, 1, ..., k - 1 in increasing order. */
  function Range(k: nat): (r: seq<int>)
    ensures |r| == k && forall i :: 0 <= i < k ==> r[i] == i
  {
    seq(k, i => i)
  }

  /**
   The dense relabelling of `s`: every label is replaced by the rank of its
   first occurrence, so the new labels are 0, 1, ... in order of appearance.
   */
  function Dense(s: seq<int>): (r: seq<int>)
    ensures |r| == |s|
    ensures forall i :: 0 <= i < |s| ==> 0 <= r[i] < |Distinct(s)|
  {
    var d := Distinct(s);
    seq(|s|, i requires 0 <= i < |s| => IndexOf(d, s[i]))
  }

  /** Dense relabelling keeps the groups: two positions share a new label iff they shared the old one. */
  lemma DenseSameGroup(s: seq<int>)
    ensures forall i, j :: 0 <= i < |s| && 0 <= j < |s| ==> (Dense(s)[i] == Dense(s)[j] <==> s[i] == s[j])
  {
    var r := Dense(s);
    var d := Distinct(s);
    forall i, j | 0 <= i < |s| && 0 <= j < |s| && r[i] == r[j] ensures s[i] == s[j] {
      assert d[r[i]] == s[i] && d[r[j]] == s[j];
    }
  }

  /** A prefix one longer is the prefix followed by the next element. */
  lemma PrefixSnoc<T>(s: seq<T>, j: nat)
    requires j < |s|
    ensures s[..j + 1] == s[..j] + [s[j]]
  {
  }

  /** The prefix of full length is the whole sequence. */
  lemma PrefixFull<T>(s: seq<T>)
    ensures s[..|s|] == s
  {
  }

  /** In a strictly increasing sequence no element occurs before its own position. */
  lemma IncreasingFresh(r: seq<nat>, t: nat)
    requires Increasing(r) && t < |r|
    ensures r[t] !in r[..t]
  {
  }

  /** Every group of the finer labelling `fine` lies inside one group of `coarse`. */
  ghost predicate Refines(coarse: seq<int>, fine: seq<int>)
    requires |coarse| == |fine|
  {
    forall p, q :: 0 <= p < |fine| && 0 <= q < |fine| && fine[p] == fine[q] ==> coarse[p] == coarse[q]
  }

  /** The sum of the group sizes of labels 0 .. k - 1. */
  ghost function SumSizes(s: seq<int>, k: nat): nat {
    if k == 0 then 0 else SumSizes(s, k - 1) + |Members(s, k - 1)|
  }

  /** The node ids at the given positions, in the same order. */
  function IdsAt(ids: seq<int>, ps: seq<nat>): (r: seq<int>)
    requires forall t :: 0 <= t < |ps| ==> ps[t] < |ids|
    ensures |r| == |ps| && forall t :: 0 <= t < |ps| ==> r[t] == ids[ps[t]]
  {
    seq(|ps|, t requires 0 <= t < |ps| => ids[ps[t]])
  }

  /**
   For every community index 0 .. k - 1, the node ids of the vertices labelled
   with it, in enumeration order.
   */
  function CommunityMap(ids: seq<int>, cs: seq<int>, k: int): (m: map<int, seq<int>>)
    requires |cs| == |ids|
    ensures forall c :: c in m <==> 0 <= c < k
    ensures forall c, x :: c in m ==> (x in m[c] <==> exists p :: 0 <= p < |ids| && cs[p] == c && ids[p] == x)
    ensures forall c :: c in m ==> |m[c]| == |Members(cs, c)|
  {
    var m := map c | 0 <= c < k :: IdsAt(ids, Select(cs, c));
    forall c | c in m
      ensures (forall x :: x in m[c] <==> exists p :: 0 <= p < |ids| && cs[p] == c && ids[p] == x)
      ensures |m[c]| == |Members(cs, c)|
    {
      IdsAtSelect(ids, cs, c);
    }
    m
  }

  /** The node ids of the vertices labelled `c`: exactly the ids of those vertices, one per vertex. */
  lemma IdsAtSelect(ids: seq<int>, cs: seq<int>, c: int)
    requires |cs| == |ids|
    ensures forall x :: x in IdsAt(ids, Select(cs, c)) <==> exists p :: 0 <= p < |ids| && cs[p] == c && ids[p] == x
    ensures |IdsAt(ids, Select(cs, c))| == |Members(cs, c)|
  {
    var ps := Select(cs, c);
    var r := IdsAt(ids, ps);
    forall x | x in r ensures exists p :: 0 <= p < |ids| && cs[p] == c && ids[p] == x {
      var t :| 0 <= t < |ps| && r[t] == x;
      assert ps[t] in ps;
    }
    forall p | 0 <= p < |ids| && cs[p] == c ensures ids[p] in r {
      assert p in ps;
      var t :| 0 <= t < |ps| && ps[t] == p;
      assert r[t] == ids[p];
    }
    SelectCount(cs, c);
  }

  // ---------------------------------------------------------------------------
  // Lemmas about Distinct and Dense
  // ---------------------------------------------------------------------------

  /** A sequence without repeated labels has as many labels as elements. */
  lemma {:induction false} NoDupCard(d: seq<int>)
    requires NoDup(d)
    ensures |Labels(d)| == |d|
  {
    if d != [] {
      var init := d[..|d| - 1];
      assert d == init + [d[|d| - 1]];
      NoDupCard(init);
      assert Labels(d) == Labels(init) + {d[|d| - 1]};
      assert d[|d| - 1] !in Labels(init);
    }
  }

  /** The length of Distinct(s) is the number of distinct labels of s. */
  lemma DistinctCount(s: seq<int>)
    ensures |Distinct(s)| == |Labels(s)|
  {
    NoDupCard(Distinct(s));
    assert Labels(Distinct(s)) == Labels(s);
  }

  /** The first-occurrence order of a prefix is a prefix of the whole. */
  lemma {:induction false} DistinctPrefix(s: seq<int>, i: nat)
    requires i <= |s|
    ensures Distinct(s[..i]) <= Distinct(s)
    decreases |s|
  {
    if i < |s| {
      var init := s[..|s| - 1];
      assert init[..i] == s[..i];
      DistinctPrefix(init, i);
    } else {
      assert s[..i] == s;
    }
  }

  /** Extending a sequence does not move the first position of a present label. */
  lemma IndexOfPrefix(d: seq<int>, e: seq<int>, x: int)
    requires d <= e && x in d
    ensures IndexOf(e, x) == IndexOf(d, x)
  {
    var k := IndexOf(d, x);
    assert e[..k] == d[..k];
  }

  /** The dense label of position i depends only on the prefix up to i. */
  lemma DenseAt(s: seq<int>, i: nat)
    requires i < |s|
    ensures s[..i + 1][..i] == s[..i] && s[..i + 1][i] == s[i]
    ensures Dense(s)[i] == IndexOf(Distinct(s[..i + 1]), s[i])
  {
    DistinctPrefix(s, i + 1);
    assert s[i] in s[..i + 1];
    IndexOfPrefix(Distinct(s[..i + 1]), Distinct(s), s[i]);
  }

  /** Distinct grows by the appended label exactly when that label is new. */
  lemma DistinctSnoc(t: seq<int>, x: int)
    ensures Distinct(t + [x]) == if x in Distinct(t) then Distinct(t) else Distinct(t) + [x]
  {
    assert (t + [x])[..|t|] == t;
  }

  /** One step of DenseCanonicalPrefix: position j keeps the dense labels in first-occurrence order. */
  lemma DenseCanonicalStep(s: seq<int>, j: nat)
    requires j < |s|
    requires Distinct(Dense(s)[..j]) == Range(|Distinct(s[..j])|)
    ensures Distinct(Dense(s)[..j + 1]) == Range(|Distinct(s[..j + 1])|)
  {
    var r := Dense(s);
    DenseAt(s, j);
    PrefixSnoc(r, j);
    PrefixSnoc(s, j);
    DistinctSnoc(s[..j], s[j]);
    CanonicalExtend(r[..j], r[j], Distinct(s[..j]), s[j]);
  }

  /**
   Appending the rank `y` of label `x` to a relabelling `R` whose labels are
   0 .. |D| - 1 in order keeps the labels dense and in order.
   */
  lemma CanonicalExtend(R: seq<int>, y: int, D: seq<int>, x: int)
    requires Distinct(R) == Range(|D|)
    requires y == IndexOf(if x in D then D else D + [x], x)
    ensures Distinct(R + [y]) == Range(|if x in D then D else D + [x]|)
  {
    DistinctSnoc(R, y);
    if x in D {
      IndexOfRange(|D|, y);
    } else {
      NewLabelStep(D, x, y);
    }
  }

  /** A label met for the first time is given the next unused dense label. */
  lemma NewLabelStep(D: seq<int>, x: int, y: int)
    requires x !in D && y == IndexOf(D + [x], x)
    ensures y == |D| && y !in Range(|D|) && Range(|D|) + [y] == Range(|D| + 1)
  {
    IndexOfAppended(D, x);
    RangeSnoc(|D|);
  }

  /** A label absent from `D` is found at the end of `D + [x]`. */
  lemma {:induction false} IndexOfAppended(D: seq<int>, x: int)
    requires x !in D
    ensures IndexOf(D + [x], x) == |D|
  {
    if D != [] {
      var e := D + [x];
      assert e[0] == D[0] && e[1..] == D[1..] + [x];
      IndexOfAppended(D[1..], x);
    }
  }

  /** The next dense label is new and extends the range by one. */
  lemma RangeSnoc(k: nat)
    ensures k !in Range(k) && Range(k) + [k] == Range(k + 1)
  {
    var a := Range(k) + [k];
    assert forall i :: 0 <= i < k ==> a[i] == i;
  }

  /** Dense relabelling of a prefix: the labels met so far are exactly 0 .. c - 1, in order. */
  lemma {:induction false} DenseCanonicalPrefix(s: seq<int>, i: nat)
    requires i <= |s|
    ensures Distinct(Dense(s)[..i]) == Range(|Distinct(s[..i])|)
  {
    if i == 0 {
      assert Dense(s)[..0] == [] && s[..0] == [];
    } else {
      DenseCanonicalPrefix(s, i - 1);
      DenseCanonicalStep(s, i - 1);
    }
  }

  /**
   The dense relabelling issues labels in first-occurrence order: the k-th
   distinct label met in the enumeration is k.
   */
  lemma DenseCanonical(s: seq<int>)
    ensures Distinct(Dense(s)) == Range(|Distinct(s)|)
  {
    DenseCanonicalPrefix(s, |s|);
    assert Dense(s)[..|s|] == Dense(s) && s[..|s|] == s;
  }

  /** In a dense-ordered labelling every label is its own first-occurrence rank. */
  lemma IndexOfRange(k: nat, v: int)
    requires 0 <= v < k
    ensures v in Range(k) && IndexOf(Range(k), v) == v
  {
    assert Range(k)[v] == v;
  }

  /**
   What the dense relabelling of `s` is: labels 0 .. c - 1 for the c distinct
   labels of `s`, issued in first-occurrence order, with the groups of `s` kept.
   */
  lemma DenseSummary(s: seq<int>)
    ensures |Distinct(s)| == |Labels(s)|
    ensures forall p :: 0 <= p < |s| ==> 0 <= Dense(s)[p] < |Distinct(s)|
    ensures forall p, q :: 0 <= p < |s| && 0 <= q < |s| ==> (Dense(s)[p] == Dense(s)[q] <==> s[p] == s[q])
    ensures Distinct(Dense(s)) == Range(|Distinct(s)|)
  {
    DistinctCount(s);
    DenseCanonical(s);
    DenseSameGroup(s);
  }

  /**
   Relabelling twice changes nothing: the second pass finds the labels already
   dense and in first-occurrence order, and counts the same communities.
   */
  lemma DenseIdempotent(s: seq<int>)
    ensures Dense(Dense(s)) == Dense(s)
    ensures |Distinct(Dense(s))| == |Distinct(s)|
  {
    var r := Dense(s);
    DenseCanonical(s);
    forall i | 0 <= i < |r| ensures Dense(r)[i] == r[i] {
      IndexOfRange(|Distinct(s)|, r[i]);
    }
  }

  /** The ordinal labelling 0 .. n - 1 is already dense and has n communities. */
  lemma {:induction false} RangeCanonical(n: nat)
    ensures Distinct(Range(n)) == Range(n)
    ensures Dense(Range(n)) == Range(n)
  {
    if n > 0 {
      RangeCanonical(n - 1);
      assert Range(n)[..n - 1] == Range(n - 1);
      assert n - 1 !in Range(n - 1);
      assert Range(n - 1) + [n - 1] == Range(n);
    }
    forall i | 0 <= i < n ensures Dense(Range(n))[i] == i {
      IndexOfRange(n, i);
    }
  }

  /**
   The state of a first-occurrence relabelling after the labels `t`:
   `counter` labels issued, and `m` maps each label met so far to its rank of
   first occurrence.
   */
  ghost predicate RelabelState(t: seq<int>, m: map<int, int>, counter: int) {
    && counter == |Distinct(t)|
    && (forall v :: v in m <==> v in Distinct(t))
    && (forall v :: v in m ==> v in Distinct(t) && m[v] == IndexOf(Distinct(t), v))
  }

  /**
   One step of the relabelling: a label met for the first time is mapped to
   the counter, which then advances; the label now given to position n is its
   dense label.
   */
  lemma RelabelStep(s: seq<int>, n: nat, m: map<int, int>, counter: int, m': map<int, int>, counter': int)
    requires n < |s| && RelabelState(s[..n], m, counter)
    requires m' == if s[n] in m then m else m[s[n] := counter]
    requires counter' == if s[n] in m then counter else counter + 1
    ensures RelabelState(s[..n + 1], m', counter') && s[n] in m' && m'[s[n]] == Dense(s)[n]
  {
    DenseAt(s, n);
    DistinctSnoc(s[..n], s[n]);
    PrefixSnoc(s, n);
    if s[n] in m {
      RelabelSeen(s[..n], s[n], m, counter);
    } else {
      RelabelNew(s[..n], s[n], m, counter);
    }
  }

  /**
   The label arrays after n steps of the relabelling of `s`: both hold the
   dense label below n, and the community array still holds the old label from n on.
   */
  ghost predicate RelabelledUpTo(c: seq<int>, nc: seq<int>, s: seq<int>, n: nat) {
    && |c| == |s| && |nc| == |s| && n <= |s|
    && (forall k :: 0 <= k < n ==> c[k] == Dense(s)[k] && nc[k] == Dense(s)[k])
    && (forall k :: n <= k < |s| ==> c[k] == s[k])
  }

  /** Writing the dense label at position n into both arrays extends the relabelled prefix by one. */
  lemma RelabelledWrite(c: seq<int>, nc: seq<int>, s: seq<int>, n: nat)
    requires RelabelledUpTo(c, nc, s, n) && n < |s|
    ensures RelabelledUpTo(c[n := Dense(s)[n]], nc[n := Dense(s)[n]], s, n + 1)
  {
  }

  /** Once every position is relabelled, both arrays hold the dense relabelling. */
  lemma RelabelledAll(c: seq<int>, nc: seq<int>, s: seq<int>)
    requires RelabelledUpTo(c, nc, s, |s|)
    ensures c == Dense(s) && nc == Dense(s)
  {
  }

  /** Meeting a label already mapped changes neither the map nor the counter. */
  lemma RelabelSeen(t: seq<int>, x: int, m: map<int, int>, counter: int)
    requires RelabelState(t, m, counter) && x in m
    requires Distinct(t + [x]) == Distinct(t)
    ensures RelabelState(t + [x], m, counter)
  {
  }

  /** Meeting a new label maps it to the counter, the label's rank of first occurrence. */
  lemma RelabelNew(t: seq<int>, x: int, m: map<int, int>, counter: int)
    requires RelabelState(t, m, counter) && x !in m
    requires Distinct(t + [x]) == Distinct(t) + [x]
    ensures RelabelState(t + [x], m[x := counter], counter + 1)
  {
    RanksExtend(Distinct(t), x, m, counter);
  }

  /** Appending a new label to a rank table keeps the old ranks and gives the new label the next one. */
  lemma RanksExtend(D: seq<int>, x: int, m: map<int, int>, counter: int)
    requires counter == |D| && x !in D
    requires forall v :: v in m <==> v in D
    requires forall v :: v in m ==> v in D && m[v] == IndexOf(D, v)
    ensures forall v :: v in m[x := counter] <==> v in D + [x]
    ensures forall v :: v in m[x := counter] ==> v in D + [x] && m[x := counter][v] == IndexOf(D + [x], v)
  {
    var D' := D + [x];
    var m' := m[x := counter];
    NewLabelStep(D, x, IndexOf(D', x));
    forall v | v in m' ensures v in D' && m'[v] == IndexOf(D', v) {
      if v != x {
        IndexOfPrefix(D, D', v);
      }
    }
  }

  /** Extending the community map by one index adds the list of that index. */
  lemma CommunityMapStep(ids: seq<int>, cs: seq<int>, i: nat)
    requires |cs| == |ids|
    ensures CommunityMap(ids, cs, i + 1) == CommunityMap(ids, cs, i)[i := IdsAt(ids, Select(cs, i))]
  {
  }

  /** The community map over no index is empty. */
  lemma CommunityMapNone(ids: seq<int>, cs: seq<int>, k: int)
    requires |cs| == |ids| && k <= 0
    ensures CommunityMap(ids, cs, k) == map[]
  {
  }

  // ---------------------------------------------------------------------------
  // Lemmas about group sizes
  // ---------------------------------------------------------------------------

  /** Appending one position adds it to the group of its label and to no other. */
  lemma MembersSnoc(s: seq<int>, x: int, c: int)
    ensures Members(s + [x], c) == Members(s, c) + (if x == c then {|s|} else {})
    ensures |s| !in Members(s, c)
  {
    var t := s + [x];
    assert forall i: nat :: i < |s| ==> t[i] == s[i];
  }

  /** Appending a position labelled in 0 .. k - 1 grows the sum of group sizes by one. */
  lemma {:induction false} SumSizesSnoc(s: seq<int>, x: int, k: nat)
    ensures SumSizes(s + [x], k) == SumSizes(s, k) + (if 0 <= x < k then 1 else 0)
  {
    if k > 0 {
      SumSizesSnoc(s, x, k - 1);
      MembersSnoc(s, x, k - 1);
    }
  }

  /** When every label lies in 0 .. k - 1, the group sizes add up to the number of positions. */
  lemma {:induction false} SumSizesTotal(s: seq<int>, k: nat)
    requires forall i :: 0 <= i < |s| ==> 0 <= s[i] < k
    ensures SumSizes(s, k) == |s|
  {
    if s == [] {
      assert forall c :: Members(s, c) == {};
      SumSizesEmpty(k);
    } else {
      var init := s[..|s| - 1];
      assert s == init + [s[|s| - 1]];
      SumSizesTotal(init, k);
      SumSizesSnoc(init, s[|s| - 1], k);
    }
  }

  /** The empty labelling has no members in any group. */
  lemma {:induction false} SumSizesEmpty(k: nat)
    ensures SumSizes([], k) == 0
  {
    if k > 0 {
      SumSizesEmpty(k - 1);
      assert Members([], k - 1) == {};
    }
  }

  /** The labels, in `fine`, of the positions labelled `c` in `coarse`. */
  ghost function LabelsWithin(coarse: seq<int>, fine: seq<int>, c: int): set<int>
    requires |coarse| == |fine|
  {
    set p | 0 <= p < |coarse| && coarse[p] == c :: fine[p]
  }

  /** Appending one position adds its fine label when its coarse label is `c`. */
  lemma LabelsWithinSnoc(coarse: seq<int>, fine: seq<int>, x: int, y: int, c: int)
    requires |coarse| == |fine|
    ensures LabelsWithin(coarse + [x], fine + [y], c) == LabelsWithin(coarse, fine, c) + (if x == c then {y} else {})
  {
    var cs, fs := coarse + [x], fine + [y];
    assert forall p :: 0 <= p < |coarse| ==> cs[p] == coarse[p] && fs[p] == fine[p];
    assert cs[|coarse|] == x && fs[|coarse|] == y;
  }

  /**
   A group of `coarse` holds at most as many distinct fine labels as it has
   members, and at least one exactly when it is not empty.
   */
  lemma {:induction false} LabelsWithinBound(coarse: seq<int>, fine: seq<int>, c: int)
    requires |coarse| == |fine|
    ensures |LabelsWithin(coarse, fine, c)| <= |Members(coarse, c)|
    ensures |LabelsWithin(coarse, fine, c)| == 0 <==> |Members(coarse, c)| == 0
  {
    if coarse == [] {
      assert Members(coarse, c) == {};
      assert LabelsWithin(coarse, fine, c) == {};
    } else {
      var n := |coarse| - 1;
      var cs, fs := coarse[..n], fine[..n];
      assert coarse == cs + [coarse[n]] && fine == fs + [fine[n]];
      LabelsWithinBound(cs, fs, c);
      LabelsWithinSnoc(cs, fs, coarse[n], fine[n], c);
      MembersSnoc(cs, coarse[n], c);
    }
  }

  /** Reading the coarse label itself yields only `c`, and only when `c` is in use. */
  lemma LabelsWithinSelf(cs: seq<int>, c: int)
    ensures LabelsWithin(cs, cs, c) == if c in cs then {c} else {}
  {
    if c in cs {
      var p :| 0 <= p < |cs| && cs[p] == c;
      assert c in LabelsWithin(cs, cs, c);
    }
  }

  /**
   A community of two vertices in two different node-communities: collecting
   the community label counts one, collecting the node-community label two.
   */
  lemma CommunitySizeCounterexample()
    ensures |LabelsWithin([0, 0], [0, 0], 0)| == 1
    ensures |LabelsWithin([0, 0], [0, 1], 0)| == 2
  {
    LabelsWithinSelf([0, 0], 0);
    var w := LabelsWithin([0, 0], [0, 1], 0);
    assert [0, 1][0] == 0 && [0, 1][1] == 1;
    assert 0 in w && 1 in w;
    assert w == {0, 1};
  }

  /**
   When the labels lie in 0 .. k - 1 and the ids are unique, the lists of
   CommunityMap(ids, cs, k) partition the ids: each id is in the list of its
   own community and in no other, and the lists hold |ids| entries in all.
   */
  lemma CommunityMapPartition(ids: seq<int>, cs: seq<int>, k: nat)
    requires |cs| == |ids|
    requires forall p, q :: 0 <= p < q < |ids| ==> ids[p] != ids[q]
    requires forall p :: 0 <= p < |cs| ==> 0 <= cs[p] < k
    ensures forall p :: 0 <= p < |ids| ==> cs[p] in CommunityMap(ids, cs, k) && ids[p] in CommunityMap(ids, cs, k)[cs[p]]
    ensures forall c, p :: c in CommunityMap(ids, cs, k) && 0 <= p < |ids| && ids[p] in CommunityMap(ids, cs, k)[c] ==> c == cs[p]
    ensures SumSizes(cs, k) == |ids|
  {
    var m := CommunityMap(ids, cs, k);
    forall c, p | c in m && 0 <= p < |ids| && ids[p] in m[c] ensures c == cs[p] {
      var q :| 0 <= q < |ids| && cs[q] == c && ids[q] == ids[p];
      assert p == q;
    }
    SumSizesTotal(cs, k);
  }

  /**
   After dense relabelling, the community map over the returned count
   partitions all node ids.
   */
  lemma CommunityMapAfterDense(ids: seq<int>, cs: seq<int>)
    requires |cs| == |ids|
    requires forall p, q :: 0 <= p < q < |ids| ==> ids[p] != ids[q]
    ensures forall p :: 0 <= p < |ids| ==>
      Dense(cs)[p] in CommunityMap(ids, Dense(cs), |Distinct(cs)|) &&
      ids[p] in CommunityMap(ids, Dense(cs), |Distinct(cs)|)[Dense(cs)[p]]
    ensures forall c, p :: (c in CommunityMap(ids, Dense(cs), |Distinct(cs)|) && 0 <= p < |ids| &&
      ids[p] in CommunityMap(ids, Dense(cs), |Distinct(cs)|)[c]) ==> c == Dense(cs)[p]
    ensures SumSizes(Dense(cs), |Distinct(cs)|) == |ids|
  {
    CommunityMapPartition(ids, Dense(cs), |Distinct(cs)|);
  }
}
