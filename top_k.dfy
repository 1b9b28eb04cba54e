/** The bounded best-of-K bookkeeping behind a prefix's suggestion entry:
    the counted labels an entry retains, which one an insertion evicts,
    and the ranking written out as the suggestion list. Everything here
    is a value; the mutable container that uses it is in
    prefix_suggestions.dfy. */
module TopK {

  /** Capacity of one entry (_MAX_SUGGESTIONS). */
  const MaxSuggestions: nat := 10

  /** A label with its occurrence count. Two CountedLabels are equal when
      both name and count agree, which is datatype equality here; they are
      ordered by count alone (see Less). */
  datatype CountedLabel = CountedLabel(labelName: string, count: int)

  /** CountedLabel.__lt__: the order used by the heap compares counts only. */
  predicate Less(a: CountedLabel, b: CountedLabel) {
    a.count < b.count
  }

  /** What PrefixSuggestions.insert accepts: a non-empty name and a
      non-negative count. */
  predicate ValidLabel(l: CountedLabel) {
    |l.labelName| > 0 && l.count >= 0
  }

  function Min(a: int, b: int): int {
    if a <= b then a else b
  }

  /** Sum of the counts of a sequence of labels. */
  function SumCounts(s: seq<CountedLabel>): int {
    if s == [] then 0 else s[0].count + SumCounts(s[1..])
  }

  lemma {:induction false} SumCountsAppend(s: seq<CountedLabel>, x: CountedLabel)
    ensures SumCounts(s + [x]) == SumCounts(s) + x.count
  {
    if s != [] {
      assert (s + [x])[1..] == s[1..] + [x];
      SumCountsAppend(s[1..], x);
    }
  }

  /** Position of a label of least count (the first one, in this model). */
  function MinIndex(s: seq<CountedLabel>): (i: nat)
    requires |s| > 0
    ensures i < |s|
    ensures forall j | 0 <= j < |s| :: s[i].count <= s[j].count
  {
    if |s| == 1 then 0
    else
      var k := MinIndex(s[1..]) + 1;
      if s[0].count <= s[k].count then 0 else k
  }

  function RemoveAt(s: seq<CountedLabel>, i: nat): (r: seq<CountedLabel>)
    requires i < |s|
    ensures |r| == |s| - 1
    ensures multiset(r) == multiset(s) - multiset{s[i]}
  {
    assert s == s[..i] + [s[i]] + s[i+1..];
    s[..i] + s[i+1..]
  }

  /** e is a label of least count among those of c. */
  predicate IsMinimumOf(e: CountedLabel, c: seq<CountedLabel>) {
    e in c && forall y | y in c :: e.count <= y.count
  }

  /** PrefixSuggestions.insert on the retained labels: push x, and when the
      result exceeds the capacity pop one label of least count. Which of
      several least labels goes is the model's choice (the first);
      AcceptEvictsMinimum only says that it is one of least count. */
  function Accept(labels: seq<CountedLabel>, x: CountedLabel): (r: seq<CountedLabel>)
    ensures |labels| < MaxSuggestions ==> r == labels + [x]
    ensures |labels| >= MaxSuggestions ==> |r| == |labels|
  {
    var c := labels + [x];
    if |c| > MaxSuggestions then RemoveAt(c, MinIndex(c)) else c
  }

  /** Below capacity the label is added and nothing is removed; at capacity
      exactly one label of least count among the old labels and x is
      removed, so every retained count is at least the evicted one. */
  lemma AcceptEvictsMinimum(labels: seq<CountedLabel>, x: CountedLabel)
    ensures |labels| < MaxSuggestions ==>
      multiset(Accept(labels, x)) == multiset(labels) + multiset{x}
    ensures |labels| >= MaxSuggestions ==>
      exists e :: IsMinimumOf(e, labels + [x]) &&
        multiset(Accept(labels, x)) == multiset(labels) + multiset{x} - multiset{e}
  {
    var c := labels + [x];
    if |c| > MaxSuggestions {
      var i := MinIndex(c);
      assert IsMinimumOf(c[i], c);
      assert multiset(c) == multiset(labels) + multiset{x};
    }
  }

  /** Repeated Accept, in order. */
  function AcceptAll(labels: seq<CountedLabel>, xs: seq<CountedLabel>): seq<CountedLabel>
    decreases |xs|
  {
    if xs == [] then labels else AcceptAll(Accept(labels, xs[0]), xs[1..])
  }

  /** Number of labels whose count is at least v. */
  function CountAtLeast(s: seq<CountedLabel>, v: int): nat {
    if s == [] then 0 else (if s[0].count >= v then 1 else 0) + CountAtLeast(s[1..], v)
  }

  lemma {:induction false} CountAtLeastBounds(s: seq<CountedLabel>, v: int)
    ensures CountAtLeast(s, v) <= |s|
    ensures CountAtLeast(s, v) == |s| <==> forall y | y in s :: y.count >= v
  {
    if s != [] {
      CountAtLeastBounds(s[1..], v);
      assert forall y | y in s[1..] :: y in s;
      assert forall y | y in s && y != s[0] :: y in s[1..];
    }
  }

  lemma {:induction false} CountAtLeastConcat(a: seq<CountedLabel>, b: seq<CountedLabel>, v: int)
    ensures CountAtLeast(a + b, v) == CountAtLeast(a, v) + CountAtLeast(b, v)
  {
    if a == [] {
      assert a + b == b;
    } else {
      assert (a + b)[1..] == a[1..] + b;
      CountAtLeastConcat(a[1..], b, v);
    }
  }

  lemma CountAtLeastRemoveAt(s: seq<CountedLabel>, i: nat, v: int)
    requires i < |s|
    ensures CountAtLeast(RemoveAt(s, i), v) + (if s[i].count >= v then 1 else 0) == CountAtLeast(s, v)
  {
    assert s == s[..i] + ([s[i]] + s[i+1..]);
    CountAtLeastConcat(s[..i], [s[i]] + s[i+1..], v);
    CountAtLeastConcat([s[i]], s[i+1..], v);
    CountAtLeastConcat(s[..i], s[i+1..], v);
    assert CountAtLeast([s[i]], v) == (if s[i].count >= v then 1 else 0) by {
      assert [s[i]][1..] == [];
    }
  }

  /** Inserting a label whose count is at least v never lowers the number of
      retained labels that reach v, and raises it by one while there is
      room or while a label below v can be evicted. */
  lemma AcceptFloor(labels: seq<CountedLabel>, x: CountedLabel, v: int)
    requires |labels| <= MaxSuggestions
    ensures CountAtLeast(Accept(labels, x), v) >=
      Min(CountAtLeast(labels, v) + (if x.count >= v then 1 else 0), MaxSuggestions)
  {
    var c := labels + [x];
    CountAtLeastConcat(labels, [x], v);
    assert CountAtLeast([x], v) == (if x.count >= v then 1 else 0) by {
      assert [x][1..] == [];
    }
    if |c| > MaxSuggestions {
      var i := MinIndex(c);
      CountAtLeastRemoveAt(c, i, v);
      if c[i].count >= v {
        assert forall y | y in RemoveAt(c, i) :: y.count >= v by {
          forall y | y in RemoveAt(c, i) ensures y.count >= v {
            assert y in multiset(c) - multiset{c[i]};
            assert y in c;
          }
        }
        CountAtLeastBounds(RemoveAt(c, i), v);
      }
    }
  }

  /** x is retained, or ten retained labels each count at least as much as x:
      x has been beaten or tied by a full entry. */
  predicate Covers(labels: seq<CountedLabel>, x: CountedLabel) {
    x in labels || CountAtLeast(labels, x.count) >= MaxSuggestions
  }

  /** A label that an overflowing push drops was a least one: every
      label kept counts at least as much. */
  lemma DroppedWasLeast(c: seq<CountedLabel>, x: CountedLabel)
    requires |c| > 0 && x in c && x !in RemoveAt(c, MinIndex(c))
    ensures CountAtLeast(RemoveAt(c, MinIndex(c)), x.count) == |c| - 1
  {
    var i := MinIndex(c);
    var r := RemoveAt(c, i);
    assert multiset(c)[x] >= 1;
    assert multiset(r)[x] == 0;
    assert c[i] == x;
    forall z | z in r
      ensures z.count >= x.count
    {
      assert z in multiset(c) - multiset{c[i]};
      assert z in c;
    }
    CountAtLeastBounds(r, x.count);
  }

  /** The label just inserted is covered. */
  lemma AcceptCoversNew(labels: seq<CountedLabel>, x: CountedLabel)
    requires |labels| <= MaxSuggestions
    ensures Covers(Accept(labels, x), x)
  {
    var c := labels + [x];
    assert x in c;
    if |c| > MaxSuggestions && x !in RemoveAt(c, MinIndex(c)) {
      DroppedWasLeast(c, x);
    }
  }

  /** A covered label stays covered whatever is inserted next. */
  lemma AcceptKeepsCover(labels: seq<CountedLabel>, y: CountedLabel, x: CountedLabel)
    requires |labels| <= MaxSuggestions
    requires Covers(labels, x)
    ensures Covers(Accept(labels, y), x)
  {
    AcceptFloor(labels, y, x.count);
    var c := labels + [y];
    if x in labels && |c| > MaxSuggestions && x !in RemoveAt(c, MinIndex(c)) {
      assert x in c;
      DroppedWasLeast(c, x);
    }
  }

  /** Inserting labels one by one never leaves more than MaxSuggestions. */
  lemma {:induction false} AcceptAllSize(labels: seq<CountedLabel>, xs: seq<CountedLabel>)
    requires |labels| <= MaxSuggestions
    ensures |AcceptAll(labels, xs)| == Min(|labels| + |xs|, MaxSuggestions)
    decreases |xs|
  {
    if xs != [] {
      AcceptAllSize(Accept(labels, xs[0]), xs[1..]);
    }
  }

  /** Covered labels stay covered through any run of insertions. */
  lemma {:induction false} AcceptAllKeepsCover(labels: seq<CountedLabel>, xs: seq<CountedLabel>, x: CountedLabel)
    requires |labels| <= MaxSuggestions
    requires Covers(labels, x)
    ensures Covers(AcceptAll(labels, xs), x)
    decreases |xs|
  {
    if xs != [] {
      AcceptKeepsCover(labels, xs[0], x);
      assert |Accept(labels, xs[0])| <= MaxSuggestions;
      AcceptAllKeepsCover(Accept(labels, xs[0]), xs[1..], x);
    }
  }

  /** Inserting a run of labels of which k reach v leaves at least
      min(before + k, capacity) retained labels that reach v. */
  lemma {:induction false} AcceptAllFloor(labels: seq<CountedLabel>, xs: seq<CountedLabel>, v: int)
    requires |labels| <= MaxSuggestions
    ensures CountAtLeast(AcceptAll(labels, xs), v) >=
      Min(CountAtLeast(labels, v) + CountAtLeast(xs, v), MaxSuggestions)
    decreases |xs|
  {
    if xs == [] {
      CountAtLeastBounds(labels, v);
    } else {
      var next := Accept(labels, xs[0]);
      var k := if xs[0].count >= v then 1 else 0;
      var a, r := CountAtLeast(labels, v), CountAtLeast(xs[1..], v);
      var b := CountAtLeast(next, v);
      assert b >= Min(a + k, MaxSuggestions) by {
        AcceptFloor(labels, xs[0], v);
      }
      assert |next| <= MaxSuggestions;
      var rest := AcceptAll(next, xs[1..]);
      var f := CountAtLeast(rest, v);
      assert f >= Min(b + r, MaxSuggestions) by {
        AcceptAllFloor(next, xs[1..], v);
      }
      assert CountAtLeast(xs, v) == k + r;
      assert AcceptAll(labels, xs) == rest;
      FloorStep(a, b, k, r, f);
    }
  }

  lemma FloorStep(a: int, b: int, k: int, r: nat, f: int)
    requires b >= Min(a + k, MaxSuggestions)
    requires f >= Min(b + r, MaxSuggestions)
    ensures f >= Min(a + k + r, MaxSuggestions)
  {
  }

  /** Inserting a run and then one more label is inserting the longer run. */
  lemma {:induction false} AcceptAllSnoc(labels: seq<CountedLabel>, xs: seq<CountedLabel>, x: CountedLabel)
    ensures AcceptAll(labels, xs + [x]) == Accept(AcceptAll(labels, xs), x)
    decreases |xs|
  {
    if xs == [] {
      assert [x][1..] == [];
    } else {
      assert (xs + [x])[1..] == xs[1..] + [x];
      AcceptAllSnoc(Accept(labels, xs[0]), xs[1..], x);
    }
  }

  /** Every label of a run is covered once the whole run has been inserted. */
  lemma {:induction false} AcceptAllCoversEach(labels: seq<CountedLabel>, xs: seq<CountedLabel>, x: CountedLabel)
    requires |labels| <= MaxSuggestions
    requires x in xs
    ensures Covers(AcceptAll(labels, xs), x)
    decreases |xs|
  {
    var next := Accept(labels, xs[0]);
    if x == xs[0] {
      AcceptCoversNew(labels, x);
      AcceptAllKeepsCover(next, xs[1..], x);
    } else {
      AcceptAllCoversEach(next, xs[1..], x);
    }
  }

  /** When xs itself covers x (x is in it, or ten of its labels reach x),
      inserting all of xs covers x. This is how a shorter prefix inherits
      the guarantee of a longer one when the longer entry's labels are
      folded into it. */
  lemma InheritCover(labels: seq<CountedLabel>, xs: seq<CountedLabel>, x: CountedLabel)
    requires |labels| <= MaxSuggestions
    requires Covers(xs, x)
    ensures Covers(AcceptAll(labels, xs), x)
  {
    if CountAtLeast(xs, x.count) >= MaxSuggestions {
      AcceptAllFull(labels, xs, x.count);
    } else {
      AcceptAllCoversEach(labels, xs, x);
    }
  }

  /** Ten inserted labels that reach v leave a full entry of labels that reach v. */
  lemma AcceptAllFull(labels: seq<CountedLabel>, xs: seq<CountedLabel>, v: int)
    requires |labels| <= MaxSuggestions
    requires CountAtLeast(xs, v) >= MaxSuggestions
    ensures CountAtLeast(AcceptAll(labels, xs), v) >= MaxSuggestions
  {
    AcceptAllFloor(labels, xs, v);
  }

  /** Descending order by count, the order in which suggestions are written:
      no label counts more than the one before it. */
  predicate SortedDesc(s: seq<CountedLabel>) {
    forall i | 0 < i < |s| :: s[i - 1].count >= s[i].count
  }

  /** Insert x into a descending sequence, after the labels of equal count. */
  function InsertDesc(x: CountedLabel, s: seq<CountedLabel>): (r: seq<CountedLabel>)
    requires SortedDesc(s)
    ensures SortedDesc(r)
    ensures multiset(r) == multiset(s) + multiset{x}
    ensures |r| == |s| + 1
    ensures r[0] == x || (s != [] && r[0] == s[0])
  {
    if s == [] || s[0].count < x.count then [x] + s
    else
      assert s == [s[0]] + s[1..];
      [s[0]] + InsertDesc(x, s[1..])
  }

  /** The labels sorted by descending count (heapq.nlargest over all of them). */
  function SortDesc(s: seq<CountedLabel>): (r: seq<CountedLabel>)
    ensures SortedDesc(r)
    ensures multiset(r) == multiset(s)
    ensures |r| == |s|
  {
    if s == [] then [] else
      assert s == [s[0]] + s[1..];
      InsertDesc(s[0], SortDesc(s[1..]))
  }

  function Names(s: seq<CountedLabel>): (r: seq<string>)
    ensures |r| == |s|
    ensures forall i | 0 <= i < |s| :: r[i] == s[i].labelName
  {
    if s == [] then [] else [s[0].labelName] + Names(s[1..])
  }

  /** The suggestion list written for an entry: the names of at most
      MaxSuggestions of its labels, highest count first. */
  function SuggestionList(labels: seq<CountedLabel>): (r: seq<string>)
    ensures |r| == Min(|labels|, MaxSuggestions)
    ensures exists ranked: seq<CountedLabel> ::
      SortedDesc(ranked) && multiset(ranked) == multiset(labels) &&
      r == Names(ranked[..|r|])
  {
    var ranked := SortDesc(labels);
    Names(ranked[..Min(|labels|, MaxSuggestions)])
  }
}
