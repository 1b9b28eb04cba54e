/** PrefixSuggestions: the bounded top-K container kept for one prefix.
    It holds at most MaxSuggestions counted labels (a heap in the source;
    here a sequence whose order carries no meaning) and the running total
    of all counts it has accepted. */
module Entry {
  import opened TopK

  /** The Python values `insert` may be handed. Only a str name and an int
      count are accepted; anything else is a ValueError. A bool is an int
      in Python, so a bool count arrives as PyInt(0) or PyInt(1). */
  datatype PyValue = PyStr(s: string) | PyInt(n: int) | PyNone | PyOther

  /** The two ValueErrors raised by insert. */
  datatype InsertError = InvalidLabelName | InvalidCount

  datatype Result<T, E> = Ok(value: T) | Err(error: E)

  /** The argument checks of insert: the name is checked first, then the
      count; a label is accepted exactly when the name is a non-empty
      string and the count a non-negative integer. */
  function Validate(labelName: PyValue, count: PyValue): (r: Result<CountedLabel, InsertError>)
    ensures r.Ok? <==> labelName.PyStr? && labelName.s != [] && count.PyInt? && count.n >= 0
    ensures r.Ok? ==> ValidLabel(r.value) && r.value == CountedLabel(labelName.s, count.n)
    ensures !(labelName.PyStr? && labelName.s != []) ==> r == Err(InvalidLabelName)
    ensures labelName.PyStr? && labelName.s != [] && r.Err? ==> r.error == InvalidCount
  {
    if !labelName.PyStr? || labelName.s == [] then Err(InvalidLabelName)
    else if !count.PyInt? || count.n < 0 then Err(InvalidCount)
    else Ok(CountedLabel(labelName.s, count.n))
  }

  /** A retained label that was evicted at some point is beaten or tied by
      a full entry: every retained count is at least its count. */
  lemma CoveredAndAbsentIsBeaten(labels: seq<CountedLabel>, x: CountedLabel)
    requires |labels| <= MaxSuggestions
    requires Covers(labels, x) && x !in labels
    ensures |labels| == MaxSuggestions
    ensures forall y | y in labels :: y.count >= x.count
  {
    CountAtLeastBounds(labels, x.count);
  }

  /** Inserting keeps the retained labels a sub-multiset of what was offered. */
  lemma AcceptFromOffered(labels: seq<CountedLabel>, x: CountedLabel)
    ensures multiset(Accept(labels, x)) <= multiset(labels) + multiset{x}
  {
    AcceptEvictsMinimum(labels, x);
  }

  /** What a container's retained labels say about everything it accepted:
      it retains min(accepted, capacity) labels, all taken from what it
      accepted, and every accepted label is valid and still retained or
      beaten-or-tied by a full set of retained labels. */
  ghost predicate Tracks(labels: seq<CountedLabel>, accepted: seq<CountedLabel>)
  {
    && |labels| == Min(|accepted|, MaxSuggestions)
    && multiset(labels) <= multiset(accepted)
    && (forall l | l in accepted :: ValidLabel(l))
    && (forall l | l in accepted :: Covers(labels, l))
  }

  /** Accepting a valid label preserves Tracks. */
  lemma AcceptTracks(labels: seq<CountedLabel>, accepted: seq<CountedLabel>, x: CountedLabel)
    requires Tracks(labels, accepted) && ValidLabel(x)
    ensures Tracks(Accept(labels, x), accepted + [x])
  {
    AcceptFromOffered(labels, x);
    assert multiset(accepted + [x]) == multiset(accepted) + multiset{x};
    AcceptCoversNew(labels, x);
    forall l | l in accepted + [x]
      ensures Covers(Accept(labels, x), l)
    {
      if l != x {
        AcceptKeepsCover(labels, x, l);
      }
    }
  }

  class PrefixSuggestions {
    /** The retained labels (the heap's contents, in no particular order). */
    var countedLabels: seq<CountedLabel>
    /** Sum of the counts of every accepted insertion. */
    var overallCount: int
    /** Every label accepted so far, evicted or not (proof only). */
    ghost var accepted: seq<CountedLabel>
    /** The prefix this entry is filed under in an index (proof only); it
        keeps entries under different prefixes distinct objects. */
    ghost var key: string

    /** The container's invariant: the retained labels track what was
        accepted, and overallCount is the sum of every accepted count. */
    ghost predicate Valid()
      reads this
    {
      && Tracks(countedLabels, accepted)
      && overallCount == SumCounts(accepted)
    }

    /** PrefixSuggestions(): an empty entry. */
    constructor (ghost prefix: string)
      ensures Valid() && key == prefix
      ensures countedLabels == [] && overallCount == 0 && accepted == []
    {
      countedLabels := [];
      overallCount := 0;
      accepted := [];
      key := prefix;
    }

    /** insert(label_name, count): rejected arguments leave the entry as it
        was; an accepted label always adds its count to overallCount and
        is pushed, evicting one least label when the entry overflows. */
    method Insert(labelName: PyValue, count: PyValue) returns (r: Result<CountedLabel, InsertError>)
      requires Valid()
      modifies this
      ensures Valid() && key == old(key)
      ensures r == Validate(labelName, count)
      ensures r.Err? ==>
        countedLabels == old(countedLabels) && overallCount == old(overallCount) &&
        accepted == old(accepted)
      ensures r.Ok? ==>
        overallCount == old(overallCount) + r.value.count &&
        countedLabels == Accept(old(countedLabels), r.value) &&
        accepted == old(accepted) + [r.value]
    {
      r := Validate(labelName, count);
      if r.Err? {
        return;
      }
      var x := r.value;
      SumCountsAppend(accepted, x);
      AcceptTracks(countedLabels, accepted, x);
      overallCount := overallCount + x.count;
      countedLabels := Accept(countedLabels, x);
      accepted := accepted + [x];
    }

    /** __deepcopy__: a new, independent entry with the same total and the
        same retained labels (filed under newKey). */
    method DeepCopy(ghost newKey: string) returns (c: PrefixSuggestions)
      requires Valid()
      ensures fresh(c) && c.Valid()
      ensures c.key == newKey
      ensures c.countedLabels == countedLabels && c.overallCount == overallCount
      ensures c.accepted == accepted
    {
      c := new PrefixSuggestions(newKey);
      c.overallCount := overallCount;
      c.countedLabels := countedLabels;
      c.accepted := accepted;
    }
  }
}
