/** The prefix index built for one initial letter (_compute_suggestions and
    _inject_prefixes_into_shorter_dict): fifteen dictionaries, the i-th
    holding one PrefixSuggestions per prefix of length i + 1. Each label
    is first filed under its name cut to MaxPrefixLength characters; the
    dictionaries are then folded from the longest prefixes to the
    shortest, so that each entry ends up ranking the labels of every
    longer prefix it starts. */
module Index {
  import opened TopK
  import opened Entry

  const MaxPrefixLength: nat := 15

  /** One item of the label-counts table: label_name and int(count). */
  datatype LabelRecord = LabelRecord(labelName: string, count: int)

  /** The records _compute_suggestions files; the others are skipped. */
  predicate ValidRecord(r: LabelRecord) {
    |r.labelName| >= 1 && r.count >= 0
  }

  function LabelOf(r: LabelRecord): CountedLabel {
    CountedLabel(r.labelName, r.count)
  }

  /** label_name[:MaxPrefixLength] */
  function Truncate(s: string): string {
    if |s| <= MaxPrefixLength then s else s[..MaxPrefixLength]
  }

  /** r belongs under prefix k: it is valid and its name cut to
      MaxPrefixLength characters starts with k. */
  predicate Under(k: string, r: LabelRecord) {
    ValidRecord(r) && |k| <= MaxPrefixLength && |k| <= |r.labelName| && r.labelName[..|k|] == k
  }

  /** The prefixes of length n that some valid record starts: the keys the
      n-th dictionary must end up with. */
  ghost function PrefixesOfLength(records: seq<LabelRecord>, n: nat): set<string>
  {
    set r | r in records && ValidRecord(r) && n <= |r.labelName| :: r.labelName[..n]
  }

  /** The keys a record is filed under before folding: its truncated name,
      when that has length n. */
  ghost function StartPrefixes(records: seq<LabelRecord>, n: nat): set<string>
  {
    set r | r in records && ValidRecord(r) && |Truncate(r.labelName)| == n :: Truncate(r.labelName)
  }

  /** The labels of the records under k. */
  ghost function LabelsUnder(records: seq<LabelRecord>, k: string): set<CountedLabel>
  {
    set r | r in records && Under(k, r) :: LabelOf(r)
  }

  /** Every record filed directly under k is covered by its entry. */
  ghost predicate CoversStart(labels: seq<CountedLabel>, k: string, records: seq<LabelRecord>)
  {
    forall r | r in records && ValidRecord(r) && Truncate(r.labelName) == k ::
      Covers(labels, LabelOf(r))
  }

  /** Every record under k is covered by its entry. */
  ghost predicate CoversAll(labels: seq<CountedLabel>, k: string, records: seq<LabelRecord>)
  {
    forall r | r in records && Under(k, r) :: Covers(labels, LabelOf(r))
  }

  /** Every record under k that is filed directly under k, or under one of
      the longer prefixes already folded in (done), is covered. */
  ghost predicate CoversVia(labels: seq<CountedLabel>, k: string, records: seq<LabelRecord>, done: set<string>)
  {
    forall r | r in records && Under(k, r) && (|r.labelName| == |k| || r.labelName[..|k| + 1] in done) ::
      Covers(labels, LabelOf(r))
  }

  /** A retained label is one the entry accepted. */
  lemma TracksRetained(labels: seq<CountedLabel>, accepted: seq<CountedLabel>, l: CountedLabel)
    requires Tracks(labels, accepted) && l in labels
    ensures l in accepted && ValidLabel(l)
  {
    assert multiset(labels)[l] > 0;
  }

  /** Cutting the last character off a prefix keeps every record under it. */
  lemma UnderShorter(p: string, r: LabelRecord)
    requires |p| >= 1 && Under(p, r)
    ensures Under(p[..|p| - 1], r)
  {
    assert r.labelName[..|p| - 1] == r.labelName[..|p|][..|p| - 1];
  }

  /** The labels under a prefix are among the labels under its parent. */
  lemma LabelsUnderShorter(records: seq<LabelRecord>, p: string)
    requires |p| >= 1
    ensures LabelsUnder(records, p) <= LabelsUnder(records, p[..|p| - 1])
  {
    forall l | l in LabelsUnder(records, p)
      ensures l in LabelsUnder(records, p[..|p| - 1])
    {
      var r :| r in records && Under(p, r) && LabelOf(r) == l;
      UnderShorter(p, r);
    }
  }

  /** The prefixes of length n are the names of exactly n characters plus
      the parents of the prefixes of length n + 1. */
  lemma {:induction false} PrefixesSplit(records: seq<LabelRecord>, n: nat)
    requires 1 <= n < MaxPrefixLength
    ensures PrefixesOfLength(records, n) ==
      StartPrefixes(records, n) + set c | c in PrefixesOfLength(records, n + 1) :: c[..n]
  {
    var parents := set c | c in PrefixesOfLength(records, n + 1) :: c[..n];
    forall k | k in PrefixesOfLength(records, n)
      ensures k in StartPrefixes(records, n) + parents
    {
      var r :| r in records && ValidRecord(r) && n <= |r.labelName| && r.labelName[..n] == k;
      if |r.labelName| == n {
        assert r.labelName == k;
      } else {
        var c := r.labelName[..n + 1];
        assert c in PrefixesOfLength(records, n + 1);
        assert c[..n] == k;
      }
    }
    forall k | k in StartPrefixes(records, n) + parents
      ensures k in PrefixesOfLength(records, n)
    {
      if k in StartPrefixes(records, n) {
        var r :| r in records && ValidRecord(r) && |Truncate(r.labelName)| == n && Truncate(r.labelName) == k;
        assert r.labelName[..n] == k;
      } else {
        var c :| c in PrefixesOfLength(records, n + 1) && c[..n] == k;
        var r :| r in records && ValidRecord(r) && n + 1 <= |r.labelName| && r.labelName[..n + 1] == c;
        assert r.labelName[..n] == k;
      }
    }
  }

  /** The longest prefixes are exactly the truncated names. */
  lemma LongestPrefixes(records: seq<LabelRecord>)
    ensures PrefixesOfLength(records, MaxPrefixLength) == StartPrefixes(records, MaxPrefixLength)
  {
    forall k | k in PrefixesOfLength(records, MaxPrefixLength)
      ensures k in StartPrefixes(records, MaxPrefixLength)
    {
      var r :| r in records && ValidRecord(r) && MaxPrefixLength <= |r.labelName| &&
        r.labelName[..MaxPrefixLength] == k;
      assert Truncate(r.labelName) == k;
    }
    forall k | k in StartPrefixes(records, MaxPrefixLength)
      ensures k in PrefixesOfLength(records, MaxPrefixLength)
    {
      var r :| r in records && ValidRecord(r) && |Truncate(r.labelName)| == MaxPrefixLength &&
        Truncate(r.labelName) == k;
      assert r.labelName[..MaxPrefixLength] == k;
    }
  }

  /** A full-length entry covering its directly filed records covers
      every record under it. */
  lemma LongestCoversAll(labels: seq<CountedLabel>, k: string, records: seq<LabelRecord>)
    requires |k| == MaxPrefixLength && CoversStart(labels, k, records)
    ensures CoversAll(labels, k, records)
  {
    forall r | r in records && Under(k, r)
      ensures Covers(labels, LabelOf(r))
    {
      assert Truncate(r.labelName) == k;
    }
  }

  /** Before folding, a shorter entry covers the names equal to its key. */
  lemma StartCoversVia(labels: seq<CountedLabel>, k: string, records: seq<LabelRecord>)
    requires |k| < MaxPrefixLength && CoversStart(labels, k, records)
    ensures CoversVia(labels, k, records, {})
  {
    forall r | r in records && Under(k, r) && |r.labelName| == |k|
      ensures Covers(labels, LabelOf(r))
    {
      assert r.labelName == k;
    }
  }

  /** Once every longer prefix has been folded in, the entry covers every
      record under its key. */
  lemma ViaAllCoversAll(labels: seq<CountedLabel>, k: string, records: seq<LabelRecord>)
    requires |k| < MaxPrefixLength
    requires CoversVia(labels, k, records, PrefixesOfLength(records, |k| + 1))
    ensures CoversAll(labels, k, records)
  {
    forall r | r in records && Under(k, r)
      ensures Covers(labels, LabelOf(r))
    {
      if |r.labelName| != |k| {
        assert r.labelName[..|k| + 1] in PrefixesOfLength(records, |k| + 1);
      }
    }
  }

  lemma TakeOneMore<T>(s: seq<T>, j: nat)
    requires j < |s|
    ensures s[..j + 1] == s[..j] + [s[j]]
  {
  }

  lemma AppendSnoc<T>(a: seq<T>, b: seq<T>, x: T)
    ensures (a + b) + [x] == a + (b + [x])
  {
  }

  /** Filing one more record adds its truncated name to the start keys of
      its length. */
  lemma StartPrefixesSnoc(records: seq<LabelRecord>, r: LabelRecord, n: nat)
    ensures StartPrefixes(records + [r], n) ==
      StartPrefixes(records, n) + (if ValidRecord(r) && |Truncate(r.labelName)| == n then {Truncate(r.labelName)} else {})
  {
  }

  /** Inserting a record's label into the entry it is filed under keeps
      every record filed there covered, the new one included. */
  lemma CoversStartInsert(labels: seq<CountedLabel>, k: string, records: seq<LabelRecord>, r: LabelRecord)
    requires |labels| <= MaxSuggestions
    requires CoversStart(labels, k, records)
    requires ValidRecord(r) && Truncate(r.labelName) == k
    ensures CoversStart(Accept(labels, LabelOf(r)), k, records + [r])
  {
    forall q | q in records + [r] && ValidRecord(q) && Truncate(q.labelName) == k
      ensures Covers(Accept(labels, LabelOf(r)), LabelOf(q))
    {
      if q == r {
        AcceptCoversNew(labels, LabelOf(r));
      } else {
        AcceptKeepsCover(labels, LabelOf(r), LabelOf(q));
      }
    }
  }

  /** A record filed under some other key does not concern this entry. */
  lemma CoversStartOther(labels: seq<CountedLabel>, k: string, records: seq<LabelRecord>, r: LabelRecord)
    requires CoversStart(labels, k, records)
    requires !(ValidRecord(r) && Truncate(r.labelName) == k)
    ensures CoversStart(labels, k, records + [r])
  {
  }

  /** A valid record lies under its own truncated name. */
  lemma UnderStart(records: seq<LabelRecord>, r: LabelRecord)
    requires r in records && ValidRecord(r)
    ensures Under(Truncate(r.labelName), r)
    ensures LabelOf(r) in LabelsUnder(records, Truncate(r.labelName))
  {
  }


  /** What one entry holds, as values: its retained labels and every
      label it accepted. */
  datatype EntryState = EntryState(labels: seq<CountedLabel>, accepted: seq<CountedLabel>)

  /** The state of PrefixSuggestions(). */
  const NewEntry := EntryState([], [])

  /** The state after insert(x) accepts x. */
  function InsertState(e: EntryState, x: CountedLabel): EntryState {
    EntryState(Accept(e.labels, x), e.accepted + [x])
  }

  /** The state after inserting each of xs in turn. */
  function MergeState(e: EntryState, xs: seq<CountedLabel>): EntryState {
    EntryState(AcceptAll(e.labels, xs), e.accepted + xs)
  }

  /** The entry under k, or a new one. */
  function Lookup(m: map<string, EntryState>, k: string): EntryState {
    if k in m then m[k] else NewEntry
  }

  /** `dicts[len(k) - 1][k] = v` */
  function Refile<V>(dicts: seq<map<string, V>>, k: string, v: V): seq<map<string, V>>
    requires 1 <= |k| <= |dicts|
  {
    dicts[|k| - 1 := dicts[|k| - 1][k := v]]
  }

  /** The entry for k keeps its invariant and accepted only labels of
      records under k. */
  ghost predicate Sound(e: EntryState, k: string, records: seq<LabelRecord>) {
    Tracks(e.labels, e.accepted) && forall l | l in e.accepted :: l in LabelsUnder(records, k)
  }

  /** A dictionary of the first phase, for the prefixes of length n, once
      the records done are filed: one entry per truncated name of that
      length, covering the records filed under it. */
  ghost predicate StartedBy(m: map<string, EntryState>, n: nat, records: seq<LabelRecord>, done: seq<LabelRecord>) {
    && m.Keys == StartPrefixes(done, n)
    && forall k | k in m :: |k| == n && Sound(m[k], k, records) && CoversStart(m[k].labels, k, done)
  }

  /** A finished dictionary for the prefixes of length n: one entry per
      prefix of length n of a record, covering every record under it. */
  ghost predicate Complete(m: map<string, EntryState>, n: nat, records: seq<LabelRecord>) {
    && m.Keys == PrefixesOfLength(records, n)
    && forall k | k in m :: |k| == n && Sound(m[k], k, records) && CoversAll(m[k].labels, k, records)
  }

  /** The fifteen dictionaries after the records done are filed. */
  ghost predicate Filed(view: seq<map<string, EntryState>>, records: seq<LabelRecord>, done: seq<LabelRecord>) {
    |view| == MaxPrefixLength && forall i | 0 <= i < MaxPrefixLength :: StartedBy(view[i], i + 1, records, done)
  }

  /** One iteration of the first loop of _compute_suggestions, on values:
      a valid record's label goes into the entry of its truncated name,
      created on first use; an invalid record is skipped. */
  function FileRecord(view: seq<map<string, EntryState>>, r: LabelRecord): seq<map<string, EntryState>>
    requires |view| == MaxPrefixLength
  {
    if !ValidRecord(r) then view
    else
      var k := Truncate(r.labelName);
      Refile(view, k, InsertState(Lookup(view[|k| - 1], k), LabelOf(r)))
  }

  /** Filing a record under its key keeps that dictionary started. */
  lemma FileIntoSlot(m: map<string, EntryState>, n: nat, records: seq<LabelRecord>, done: seq<LabelRecord>,
                     r: LabelRecord)
    requires StartedBy(m, n, records, done)
    requires r in records && ValidRecord(r) && |Truncate(r.labelName)| == n
    ensures StartedBy(m[Truncate(r.labelName) := InsertState(Lookup(m, Truncate(r.labelName)), LabelOf(r))],
                      n, records, done + [r])
  {
    var k := Truncate(r.labelName);
    var e := Lookup(m, k);
    var m' := m[k := InsertState(e, LabelOf(r))];
    StartPrefixesSnoc(done, r, n);
    assert StartPrefixes(done + [r], n) == StartPrefixes(done, n) + {k};
    assert m'.Keys == m.Keys + {k};
    if k !in m {
      assert forall q | q in done && ValidRecord(q) :: Truncate(q.labelName) != k;
    }
    AcceptTracks(e.labels, e.accepted, LabelOf(r));
    UnderStart(records, r);
    CoversStartInsert(e.labels, k, done, r);
    assert Sound(m'[k], k, records);
    forall k' | k' in m' && k' != k
      ensures |k'| == n && Sound(m'[k'], k', records) && CoversStart(m'[k'].labels, k', done + [r])
    {
      CoversStartOther(m[k'].labels, k', done, r);
    }
  }

  /** Filing a record leaves the dictionaries of the other lengths
      started. */
  lemma FileOtherSlot(m: map<string, EntryState>, n: nat, records: seq<LabelRecord>, done: seq<LabelRecord>,
                      r: LabelRecord)
    requires StartedBy(m, n, records, done)
    requires !(ValidRecord(r) && |Truncate(r.labelName)| == n)
    ensures StartedBy(m, n, records, done + [r])
  {
    StartPrefixesSnoc(done, r, n);
    forall k | k in m
      ensures CoversStart(m[k].labels, k, done + [r])
    {
      CoversStartOther(m[k].labels, k, done, r);
    }
  }

  /** The first loop's invariant: filing one more record. */
  lemma FileRecordFiled(view: seq<map<string, EntryState>>, records: seq<LabelRecord>, done: seq<LabelRecord>,
                        r: LabelRecord)
    requires Filed(view, records, done) && r in records
    ensures Filed(FileRecord(view, r), records, done + [r])
  {
    var view' := FileRecord(view, r);
    forall i | 0 <= i < MaxPrefixLength
      ensures StartedBy(view'[i], i + 1, records, done + [r])
    {
      if ValidRecord(r) && |Truncate(r.labelName)| == i + 1 {
        FileIntoSlot(view[i], i + 1, records, done, r);
      } else {
        FileOtherSlot(view[i], i + 1, records, done, r);
      }
    }
  }

  /** Before any record is filed, every dictionary is empty. */
  lemma NothingFiled(records: seq<LabelRecord>)
    ensures Filed(seq(MaxPrefixLength, _ => map[]), records, [])
  {
    forall n: nat
      ensures StartPrefixes([], n) == {}
    {
    }
  }
  /** The fifteen dictionaries once the first loop of _compute_suggestions
      has filed the records in order. */
  function FileAll(records: seq<LabelRecord>): (view: seq<map<string, EntryState>>)
    ensures |view| == MaxPrefixLength
    decreases |records|
  {
    if records == [] then seq(MaxPrefixLength, _ => map[])
    else FileRecord(FileAll(records[..|records| - 1]), records[|records| - 1])
  }

  /** Filing the first j records leaves every dictionary started by them. */
  lemma {:induction false} FileAllFiled(records: seq<LabelRecord>, j: nat)
    requires j <= |records|
    ensures Filed(FileAll(records[..j]), records, records[..j])
    decreases j
  {
    if j == 0 {
      assert records[..0] == [];
      NothingFiled(records);
    } else {
      var prev := FileAll(records[..j - 1]);
      var r := records[j - 1];
      FileAllFiled(records, j - 1);
      TakeOneMore(records, j - 1);
      assert records[..j][..j - 1] == records[..j - 1];
      assert FileAll(records[..j]) == FileRecord(prev, r);
      FileRecordFiled(prev, records, records[..j - 1], r);
    }
  }


  /** The keys one character shorter than the keys in s. */
  function Parents(s: set<string>): set<string> {
    set c | c in s && |c| >= 1 :: c[..|c| - 1]
  }

  /** The loop invariant of _inject_prefixes_into_shorter_dict, on values:
      the shorter dictionary (prefixes of length n) has absorbed the
      entries of the longer one under the keys done. */
  ghost predicate Injecting(result: map<string, EntryState>, n: nat, records: seq<LabelRecord>, done: set<string>) {
    && result.Keys == StartPrefixes(records, n) + Parents(done)
    && forall p | p in result :: |p| == n && Sound(result[p], p, records) && CoversVia(result[p].labels, p, records, done)
  }

  /** A started dictionary has absorbed nothing yet. */
  lemma InjectStart(m: map<string, EntryState>, n: nat, records: seq<LabelRecord>)
    requires 1 <= n < MaxPrefixLength && StartedBy(m, n, records, records)
    ensures Injecting(m, n, records, {})
  {
    forall p | p in m
      ensures CoversVia(m[p].labels, p, records, {})
    {
      StartCoversVia(m[p].labels, p, records);
    }
  }

  lemma AppendCons<T>(a: seq<T>, xs: seq<T>)
    requires xs != []
    ensures (a + [xs[0]]) + xs[1..] == a + xs
  {
    assert xs == [xs[0]] + xs[1..];
  }

  /** Inserting valid labels one by one keeps Tracks. */
  lemma {:induction false} AcceptAllTracks(labels: seq<CountedLabel>, accepted: seq<CountedLabel>, xs: seq<CountedLabel>)
    requires Tracks(labels, accepted)
    requires forall x | x in xs :: ValidLabel(x)
    ensures Tracks(AcceptAll(labels, xs), accepted + xs)
    decreases |xs|
  {
    if xs == [] {
      assert accepted + xs == accepted;
    } else {
      AcceptTracks(labels, accepted, xs[0]);
      AcceptAllTracks(Accept(labels, xs[0]), accepted + [xs[0]], xs[1..]);
      AppendCons(accepted, xs);
    }
  }

  /** The retained labels of a sound entry are valid labels under its key. */
  lemma RetainedUnder(e: EntryState, k: string, records: seq<LabelRecord>)
    requires Sound(e, k, records)
    ensures forall l | l in e.labels :: ValidLabel(l) && l in LabelsUnder(records, k)
  {
    forall l | l in e.labels
      ensures ValidLabel(l) && l in LabelsUnder(records, k)
    {
      TracksRetained(e.labels, e.accepted, l);
    }
  }

  /** Absorbing c adds its parent to the parents of done. */
  lemma ParentsAdd(done: set<string>, c: string)
    requires |c| >= 1
    ensures Parents(done + {c}) == Parents(done) + {c[..|c| - 1]}
  {
  }

  /** A valid record's name of at most MaxPrefixLength characters is a
      start key. */
  lemma ExactStart(records: seq<LabelRecord>, r: LabelRecord)
    requires r in records && ValidRecord(r)
    ensures |r.labelName| <= MaxPrefixLength ==> r.labelName in StartPrefixes(records, |r.labelName|)
  {
    if |r.labelName| <= MaxPrefixLength {
      assert Truncate(r.labelName) == r.labelName;
    }
  }

  /** The parent of a key in s is in Parents(s). */
  lemma ParentOf(s: set<string>, c: string)
    requires c in s && |c| >= 1
    ensures c[..|c| - 1] in Parents(s)
  {
  }

  /** A record of length n under a key without an entry is impossible:
      its name would be a start key. */
  lemma NotExact(records: seq<LabelRecord>, keys: set<string>, p: string, r: LabelRecord)
    requires StartPrefixes(records, |p|) <= keys && p !in keys
    requires r in records && Under(p, r)
    ensures |r.labelName| != |p|
  {
    ExactStart(records, r);
    assert r.labelName[..|r.labelName|] == r.labelName;
    assert r.labelName[..|p|] == p;
  }

  /** No record under a key without an entry continues a key done. */
  lemma NotViaDone(keys: set<string>, done: set<string>, p: string, r: LabelRecord)
    requires Parents(done) <= keys && p !in keys
    requires Under(p, r)
    ensures |r.labelName| > |p| ==> r.labelName[..|p| + 1] !in done
  {
    if |r.labelName| > |p| {
      var c := r.labelName[..|p| + 1];
      assert c[..|c| - 1] == p;
      if c in done {
        ParentOf(done, c);
      }
    }
  }

  /** A record under q does not continue a key c whose parent is not q. */
  lemma NotViaOther(q: string, c: string, r: LabelRecord)
    requires Under(q, r) && |c| == |q| + 1 && c[..|q|] != q
    ensures |r.labelName| > |q| ==> r.labelName[..|q| + 1] != c
  {
    if |r.labelName| > |q| {
      assert r.labelName[..|q| + 1][..|q|] == q;
    }
  }

  /** A record under p that continues c is under c. */
  lemma ViaChild(p: string, c: string, r: LabelRecord)
    requires Under(p, r) && |c| == |p| + 1 <= MaxPrefixLength
    requires |r.labelName| > |p| && r.labelName[..|p| + 1] == c
    ensures Under(c, r)
  {
  }

  /** Absorbing c does not concern the entries of the other keys. */
  lemma ViaOther(labels: seq<CountedLabel>, q: string, records: seq<LabelRecord>, done: set<string>, c: string)
    requires CoversVia(labels, q, records, done) && |c| == |q| + 1 && c[..|q|] != q
    ensures CoversVia(labels, q, records, done + {c})
  {
    forall r | r in records && Under(q, r) && (|r.labelName| == |q| || r.labelName[..|q| + 1] in done + {c})
      ensures Covers(labels, LabelOf(r))
    {
      NotViaOther(q, c, r);
    }
  }

  /** The entries Injecting does not touch when c is absorbed into p. */
  lemma InjectOthers(result: map<string, EntryState>, n: nat, records: seq<LabelRecord>, done: set<string>,
                     c: string, result': map<string, EntryState>)
    requires Injecting(result, n, records, done) && |c| == n + 1
    requires result'.Keys == result.Keys + {c[..n]}
    requires forall q | q in result && q != c[..n] :: result'[q] == result[q]
    requires Sound(result'[c[..n]], c[..n], records)
    requires CoversVia(result'[c[..n]].labels, c[..n], records, done + {c})
    ensures Injecting(result', n, records, done + {c})
  {
    var p := c[..n];
    ParentsAdd(done, c);
    assert c[..|c| - 1] == p;
    assert result'.Keys == StartPrefixes(records, n) + Parents(done + {c});
    forall q | q in result'
      ensures |q| == n && Sound(result'[q], q, records) && CoversVia(result'[q].labels, q, records, done + {c})
    {
      if q != p {
        ViaOther(result[q].labels, q, records, done, c);
      }
    }
  }

  /** The copy of the entry of c covers, for its parent p, the records
      under p that continue c, and there are no others so far. */
  lemma CopyCovers(labels: seq<CountedLabel>, p: string, c: string, records: seq<LabelRecord>, keys: set<string>,
                   done: set<string>)
    requires |c| == |p| + 1 <= MaxPrefixLength && c[..|p|] == p
    requires StartPrefixes(records, |p|) <= keys && Parents(done) <= keys && p !in keys
    requires CoversAll(labels, c, records)
    ensures CoversVia(labels, p, records, done + {c})
  {
    forall r | r in records && Under(p, r) && (|r.labelName| == |p| || r.labelName[..|p| + 1] in done + {c})
      ensures Covers(labels, LabelOf(r))
    {
      NotExact(records, keys, p, r);
      NotViaDone(keys, done, p, r);
      ViaChild(p, c, r);
    }
  }

  /** Inserting the retained labels of c into the entry of its parent p
      keeps what p covered and covers the records that continue c. */
  lemma MergeCovers(labels: seq<CountedLabel>, xs: seq<CountedLabel>, p: string, c: string, records: seq<LabelRecord>,
                    done: set<string>)
    requires |c| == |p| + 1 <= MaxPrefixLength && c[..|p|] == p && |labels| <= MaxSuggestions
    requires CoversVia(labels, p, records, done) && CoversAll(xs, c, records)
    ensures CoversVia(AcceptAll(labels, xs), p, records, done + {c})
  {
    forall r | r in records && Under(p, r) && (|r.labelName| == |p| || r.labelName[..|p| + 1] in done + {c})
      ensures Covers(AcceptAll(labels, xs), LabelOf(r))
    {
      if |r.labelName| == |p| || r.labelName[..|p| + 1] in done {
        AcceptAllKeepsCover(labels, xs, LabelOf(r));
      } else {
        ViaChild(p, c, r);
        InheritCover(labels, xs, LabelOf(r));
      }
    }
  }

  /** A sound entry for c is sound for its parent. */
  lemma SoundParent(e: EntryState, c: string, records: seq<LabelRecord>)
    requires |c| >= 1 && Sound(e, c, records)
    ensures Sound(e, c[..|c| - 1], records)
  {
    LabelsUnderShorter(records, c);
  }

  /** Merging the retained labels of a sound entry for c into a sound
      entry for its parent keeps the parent's entry sound. */
  lemma MergeSound(e: EntryState, child: EntryState, c: string, records: seq<LabelRecord>)
    requires |c| >= 1 && Sound(e, c[..|c| - 1], records) && Sound(child, c, records)
    ensures Sound(MergeState(e, child.labels), c[..|c| - 1], records)
  {
    RetainedUnder(child, c, records);
    LabelsUnderShorter(records, c);
    AcceptAllTracks(e.labels, e.accepted, child.labels);
  }

  /** A shorter prefix with no entry yet receives a copy of the longer
      entry (the deepcopy branch). */
  lemma CopyStep(result: map<string, EntryState>, cur: map<string, EntryState>, n: nat, records: seq<LabelRecord>,
                 done: set<string>, c: string)
    requires 1 <= n < MaxPrefixLength && Injecting(result, n, records, done)
    requires Complete(cur, n + 1, records) && c in cur
    requires c[..n] !in result
    ensures Injecting(result[c[..n] := cur[c]], n, records, done + {c})
  {
    var e := cur[c];
    assert |c| == n + 1 && Sound(e, c, records) && CoversAll(e.labels, c, records);
    SoundParent(e, c, records);
    assert c[..|c| - 1] == c[..n];
    CopyCovers(e.labels, c[..n], c, records, result.Keys, done);
    InjectOthers(result, n, records, done, c, result[c[..n] := e]);
  }

  /** A shorter prefix that has an entry receives the retained labels of
      the longer entry, one insert each (the merge branch). */
  lemma MergeStep(result: map<string, EntryState>, cur: map<string, EntryState>, n: nat, records: seq<LabelRecord>,
                  done: set<string>, c: string)
    requires 1 <= n < MaxPrefixLength && Injecting(result, n, records, done)
    requires Complete(cur, n + 1, records) && c in cur
    requires c[..n] in result
    ensures Injecting(result[c[..n] := MergeState(result[c[..n]], cur[c].labels)], n, records, done + {c})
  {
    var e := result[c[..n]];
    var child := cur[c];
    assert |c| == n + 1 && Sound(child, c, records) && CoversAll(child.labels, c, records);
    assert Sound(e, c[..n], records) && CoversVia(e.labels, c[..n], records, done);
    assert c[..|c| - 1] == c[..n];
    MergeSound(e, child, c, records);
    MergeCovers(e.labels, child.labels, c[..n], c, records, done);
    InjectOthers(result, n, records, done, c, result[c[..n] := MergeState(e, child.labels)]);
  }

  lemma ParentsOfLength(s: set<string>, n: nat)
    requires forall c | c in s :: |c| == n + 1
    ensures Parents(s) == set c | c in s :: c[..n]
  {
  }

  /** Once every longer key is absorbed, the shorter dictionary is
      complete. */
  lemma InjectEnd(result: map<string, EntryState>, cur: map<string, EntryState>, n: nat, records: seq<LabelRecord>)
    requires 1 <= n < MaxPrefixLength
    requires Complete(cur, n + 1, records) && Injecting(result, n, records, cur.Keys)
    ensures Complete(result, n, records)
  {
    InjectEndKeys(result.Keys, cur.Keys, n, records);
    InjectEndCovers(result, cur.Keys, n, records);
  }

  lemma InjectEndKeys(keys: set<string>, longer: set<string>, n: nat, records: seq<LabelRecord>)
    requires 1 <= n < MaxPrefixLength
    requires longer == PrefixesOfLength(records, n + 1) && forall c | c in longer :: |c| == n + 1
    requires keys == StartPrefixes(records, n) + Parents(longer)
    ensures keys == PrefixesOfLength(records, n)
  {
    PrefixesSplit(records, n);
    ParentsOfLength(longer, n);
  }

  lemma InjectEndCovers(result: map<string, EntryState>, longer: set<string>, n: nat, records: seq<LabelRecord>)
    requires n < MaxPrefixLength && longer == PrefixesOfLength(records, n + 1)
    requires forall p | p in result :: |p| == n && CoversVia(result[p].labels, p, records, longer)
    ensures forall p | p in result :: CoversAll(result[p].labels, p, records)
  {
    forall p | p in result
      ensures CoversAll(result[p].labels, p, records)
    {
      ViaAllCoversAll(result[p].labels, p, records);
    }
  }

  /** One step of the loop of _inject_prefixes_into_shorter_dict, on
      values: the child c's state e goes into the state of its parent
      c[..n], merged label by label when the parent has one, else copied. */
  function InjectKey(rv: map<string, EntryState>, e: EntryState, c: string, n: nat): map<string, EntryState>
    requires n <= |c|
  {
    var p := c[..n];
    if p in rv then rv[p := MergeState(rv[p], e.labels)] else rv[p := e]
  }

  /** The children listed in order, injected one after another into rv. */
  function InjectSeq(rv: map<string, EntryState>, cv: map<string, EntryState>, n: nat, order: seq<string>)
    : map<string, EntryState>
    requires forall c | c in order :: c in cv && n <= |c|
    decreases |order|
  {
    if order == [] then rv
    else
      var c := order[|order| - 1];
      InjectKey(InjectSeq(rv, cv, n, order[..|order| - 1]), cv[c], c, n)
  }

  /** One step of the injection keeps its loop invariant. */
  lemma InjectKeyStep(rv: map<string, EntryState>, cv: map<string, EntryState>, n: nat, records: seq<LabelRecord>,
                      done: set<string>, c: string)
    requires 1 <= n < MaxPrefixLength && Injecting(rv, n, records, done)
    requires Complete(cv, n + 1, records) && c in cv
    ensures n <= |c| && Injecting(InjectKey(rv, cv[c], c, n), n, records, done + {c})
  {
    if c[..n] in rv {
      MergeStep(rv, cv, n, records, done, c);
    } else {
      CopyStep(rv, cv, n, records, done, c);
    }
  }

  /** The keys listed in a sequence. */
  function Elements(s: seq<string>): set<string> {
    set x | x in s
  }

  /** The elements of a non-empty sequence: those of all but its last,
      and its last. */
  lemma ElementsSnoc(s: seq<string>)
    requires |s| > 0
    ensures Elements(s) == Elements(s[..|s| - 1]) + {s[|s| - 1]}
  {
    assert s == s[..|s| - 1] + [s[|s| - 1]];
  }

  /** Injecting the children of a complete dictionary, in any order and
      even with repeats, keeps the loop invariant of the injection. */
  lemma {:induction false} InjectSeqInjecting(sv: map<string, EntryState>, cv: map<string, EntryState>, n: nat,
                                              records: seq<LabelRecord>, order: seq<string>)
    requires 1 <= n < MaxPrefixLength && StartedBy(sv, n, records, records) && Complete(cv, n + 1, records)
    requires forall c | c in order :: c in cv
    ensures Injecting(InjectSeq(sv, cv, n, order), n, records, Elements(order))
    decreases |order|
  {
    if order == [] {
      InjectStart(sv, n, records);
      assert Elements(order) == {};
    } else {
      var front := order[..|order| - 1];
      var c := order[|order| - 1];
      assert forall x | x in front :: x in order;
      InjectSeqInjecting(sv, cv, n, records, front);
      InjectKeyStep(InjectSeq(sv, cv, n, front), cv, n, records, Elements(front), c);
      ElementsSnoc(order);
    }
  }

  /** Once every child has been injected, the shorter dictionary is
      complete: this is what _inject_prefixes_into_shorter_dict achieves. */
  lemma InjectSeqComplete(sv: map<string, EntryState>, cv: map<string, EntryState>, n: nat,
                          records: seq<LabelRecord>, order: seq<string>)
    requires 1 <= n < MaxPrefixLength && StartedBy(sv, n, records, records) && Complete(cv, n + 1, records)
    requires (forall c | c in order :: c in cv) && Elements(order) == cv.Keys
    ensures Complete(InjectSeq(sv, cv, n, order), n, records)
  {
    InjectSeqInjecting(sv, cv, n, records, order);
    InjectEnd(InjectSeq(sv, cv, n, order), cv, n, records);
  }

  /** The loop invariant of the second loop of _compute_suggestions: the
      dictionaries from index folded on are complete, the shorter ones are
      as the first loop left them. */
  ghost predicate Folded(view: seq<map<string, EntryState>>, records: seq<LabelRecord>, folded: nat) {
    && |view| == MaxPrefixLength && folded < MaxPrefixLength
    && (forall i | folded <= i < MaxPrefixLength :: Complete(view[i], i + 1, records))
    && (forall i | 0 <= i < folded :: StartedBy(view[i], i + 1, records, records))
  }

  /** The longest dictionary needs no folding. */
  lemma FoldStart(view: seq<map<string, EntryState>>, records: seq<LabelRecord>)
    requires Filed(view, records, records)
    ensures Folded(view, records, MaxPrefixLength - 1)
  {
    var m := view[MaxPrefixLength - 1];
    LongestPrefixes(records);
    forall k | k in m
      ensures CoversAll(m[k].labels, k, records)
    {
      LongestCoversAll(m[k].labels, k, records);
    }
  }

  /** Every key of a finished dictionary has its parent in the dictionary
      one shorter: the index is closed under dropping the last character. */
  lemma ParentPresent(records: seq<LabelRecord>, n: nat, k: string)
    requires 1 <= n && k in PrefixesOfLength(records, n + 1)
    ensures k[..n] in PrefixesOfLength(records, n)
  {
    var r :| r in records && ValidRecord(r) && n + 1 <= |r.labelName| && r.labelName[..n + 1] == k;
    assert r.labelName[..n] == k[..n];
  }
}
