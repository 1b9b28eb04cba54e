/** _compute_suggestions and _inject_prefixes_into_shorter_dict on the
    PrefixSuggestions objects themselves. Every dictionary is tied to a
    ghost map of EntryState values (Holds); what the dictionaries mean is
    proved about those values in module Index. */
module Compute {
  import opened TopK
  import opened Entry
  import opened Index

  /** An entry's fields, as a value. */
  ghost function StateOf(o: PrefixSuggestions): EntryState
    reads o
  {
    EntryState(o.countedLabels, o.accepted)
  }

  /** The entry o is filed under k and is in state e: its fields are e's
      labels and e's accepted labels, and its total is their sum. (That e
      itself Tracks is a fact about the values, kept by module Index.) */
  ghost predicate Keeps(o: PrefixSuggestions, k: string, e: EntryState)
    reads o
  {
    o.key == k && StateOf(o) == e && o.overallCount == SumCounts(e.accepted)
  }

  /** An entry whose state tracks its accepted labels keeps its invariant. */
  lemma KeepsValid(o: PrefixSuggestions, k: string, e: EntryState)
    requires Keeps(o, k, e) && Tracks(e.labels, e.accepted)
    ensures o.Valid()
  {
  }

  /** The entry for k in v, if any, tracks its accepted labels. */
  ghost predicate Tracked(v: map<string, EntryState>, k: string) {
    k in v ==> Tracks(v[k].labels, v[k].accepted)
  }

  /** The dictionary m holds the states v: the same keys, and every entry
      keeps the state v gives it. */
  ghost predicate Holds(m: map<string, PrefixSuggestions>, v: map<string, EntryState>)
    reads m.Values
  {
    m.Keys == v.Keys && forall k | k in m :: Keeps(m[k], k, v[k])
  }

  /** Every entry of a list of dictionaries. */
  ghost function Objects(dicts: seq<map<string, PrefixSuggestions>>): set<PrefixSuggestions>
  {
    set i, o | 0 <= i < |dicts| && o in dicts[i].Values :: o
  }

  ghost predicate HoldsAll(dicts: seq<map<string, PrefixSuggestions>>, view: seq<map<string, EntryState>>)
    reads Objects(dicts)
  {
    |dicts| == |view| && forall i | 0 <= i < |dicts| :: Holds(dicts[i], view[i])
  }

  /** Setting aside the entry for k: what remains holds the other states,
      and no remaining entry is filed under k. */
  lemma HoldsRemove(m: map<string, PrefixSuggestions>, v: map<string, EntryState>, k: string)
    requires Holds(m, v)
    ensures Holds(m - {k}, v - {k})
    ensures forall o | o in (m - {k}).Values :: o.key != k
  {
    forall o | o in (m - {k}).Values
      ensures o.key != k
    {
      var k' :| k' in m - {k} && (m - {k})[k'] == o;
    }
  }

  /** Filing the entry o, in state e, under k, next to the other entries. */
  lemma HoldsAdd(m: map<string, PrefixSuggestions>, v: map<string, EntryState>, o: PrefixSuggestions,
                 k: string, e: EntryState)
    requires m.Keys == v.Keys && Holds(m - {k}, v - {k}) && Keeps(o, k, e)
    ensures Holds(m[k := o], v[k := e])
  {
    forall k' | k' in m && k' != k
      ensures Keeps(m[k'], k', v[k'])
    {
      assert (m - {k})[k'] == m[k'];
    }
  }

  /** Every key of v has length n. */
  ghost predicate KeysOfLength(v: map<string, EntryState>, n: nat) {
    forall k | k in v :: |k| == n
  }

  /** Slot i of view holds keys of length i + 1. */
  ghost predicate Lengths(view: seq<map<string, EntryState>>) {
    |view| == MaxPrefixLength && forall i | 0 <= i < MaxPrefixLength :: KeysOfLength(view[i], i + 1)
  }

  lemma FiledLengths(view: seq<map<string, EntryState>>, records: seq<LabelRecord>, done: seq<LabelRecord>)
    requires Filed(view, records, done)
    ensures Lengths(view)
  {
    forall i | 0 <= i < MaxPrefixLength
      ensures KeysOfLength(view[i], i + 1)
    {
      assert StartedBy(view[i], i + 1, records, done);
    }
  }

  lemma FiledTracked(view: seq<map<string, EntryState>>, records: seq<LabelRecord>, done: seq<LabelRecord>,
                     r: LabelRecord)
    requires Filed(view, records, done)
    ensures ValidRecord(r) ==> Tracked(view[|Truncate(r.labelName)| - 1], Truncate(r.labelName))
  {
    if ValidRecord(r) {
      var k := Truncate(r.labelName);
      assert StartedBy(view[|k| - 1], |k|, records, done);
    }
  }

  /** An entry of a dictionary whose keys have length n is filed under a
      key of length n. */
  lemma KeyLength(m: map<string, PrefixSuggestions>, v: map<string, EntryState>, n: nat, o: PrefixSuggestions)
    requires Holds(m, v) && KeysOfLength(v, n) && o in m.Values
    ensures |o.key| == n
  {
    var k :| k in m && m[k] == o;
  }

  /** Dictionaries for different key lengths share no entry. */
  lemma Disjoint(m: map<string, PrefixSuggestions>, v: map<string, EntryState>, n: nat,
                 m': map<string, PrefixSuggestions>, v': map<string, EntryState>, n': nat)
    requires Holds(m, v) && KeysOfLength(v, n)
    requires Holds(m', v') && KeysOfLength(v', n') && n != n'
    ensures m.Values !! m'.Values
  {
    forall o | o in m.Values
      ensures o !in m'.Values
    {
      KeyLength(m, v, n, o);
      if o in m'.Values {
        KeyLength(m', v', n', o);
      }
    }
  }

  lemma SlotObjects(dicts: seq<map<string, PrefixSuggestions>>, i: nat)
    requires i < |dicts|
    ensures dicts[i].Values <= Objects(dicts)
  {
  }

  /** Replacing slot i adds at most the new slot's entries. */
  lemma ObjectsReplace(dicts: seq<map<string, PrefixSuggestions>>, i: nat, m: map<string, PrefixSuggestions>)
    requires i < |dicts|
    ensures Objects(dicts[i := m]) <= Objects(dicts) + m.Values
  {
    forall o | o in Objects(dicts[i := m])
      ensures o in Objects(dicts) + m.Values
    {
      var j :| 0 <= j < |dicts| && o in dicts[i := m][j].Values;
      if j != i {
        assert o in dicts[j].Values;
      }
    }
  }

  /** Slot s of dictionaries that hold a view with keys of the right
      lengths shares no entry with any other slot. */
  lemma SlotApart(dicts: seq<map<string, PrefixSuggestions>>, view: seq<map<string, EntryState>>, s: nat)
    requires HoldsAll(dicts, view) && Lengths(view) && s < MaxPrefixLength
    ensures forall i | 0 <= i < MaxPrefixLength && i != s :: dicts[i].Values !! dicts[s].Values
  {
    assert Holds(dicts[s], view[s]) && KeysOfLength(view[s], s + 1);
    forall i | 0 <= i < MaxPrefixLength && i != s
      ensures dicts[i].Values !! dicts[s].Values
    {
      assert Holds(dicts[i], view[i]) && KeysOfLength(view[i], i + 1);
      Disjoint(dicts[i], view[i], i + 1, dicts[s], view[s], s + 1);
    }
  }

  /** `if k not in m: m[k] = PrefixSuggestions()`: the entry for k, new
      and empty on first use. */
  method EntryFor(m: map<string, PrefixSuggestions>, ghost v: map<string, EntryState>, k: string)
    returns (entry: PrefixSuggestions)
    requires Holds(m, v) && Tracked(v, k)
    ensures Keeps(entry, k, Lookup(v, k)) && entry.Valid()
    ensures if k in m then entry == m[k] else fresh(entry)
  {
    if k in m {
      entry := m[k];
      KeepsValid(entry, k, v[k]);
    } else {
      entry := new PrefixSuggestions(k);
    }
  }

  /** Inserts a valid record's label into an entry in state e. */
  method InsertRecord(entry: PrefixSuggestions, ghost k: string, ghost e: EntryState, r: LabelRecord)
    requires Keeps(entry, k, e) && entry.Valid() && ValidRecord(r)
    modifies entry
    ensures Keeps(entry, k, InsertState(e, LabelOf(r)))
  {
    var _ := entry.Insert(PyStr(r.labelName), PyInt(r.count));
  }

  /** Inserts a valid record's label into the entry for k of one
      dictionary, creating the entry on first use. */
  method FileInto(m: map<string, PrefixSuggestions>, ghost v: map<string, EntryState>, k: string, r: LabelRecord)
    returns (m': map<string, PrefixSuggestions>, ghost v': map<string, EntryState>)
    requires Holds(m, v) && Tracked(v, k) && ValidRecord(r)
    modifies m.Values
    ensures v' == v[k := InsertState(Lookup(v, k), LabelOf(r))] && Holds(m', v')
    ensures fresh(m'.Values - m.Values)
  {
    var entry := EntryFor(m, v, k);
    HoldsRemove(m, v, k);
    v' := v[k := InsertState(Lookup(v, k), LabelOf(r))];
    InsertRecord(entry, k, Lookup(v, k), r);
    HoldsAdd(m, v, entry, k, v'[k]);
    m' := m[k := entry];
  }

  /** One iteration of the first loop of _compute_suggestions: a valid
      record's label is inserted into the entry of its truncated name,
      which is created on first use; an invalid record is skipped. */
  method PlaceOne(dicts: seq<map<string, PrefixSuggestions>>, ghost view: seq<map<string, EntryState>>, r: LabelRecord)
    returns (dicts': seq<map<string, PrefixSuggestions>>, ghost view': seq<map<string, EntryState>>)
    requires HoldsAll(dicts, view) && Lengths(view)
    requires ValidRecord(r) ==> Tracked(view[|Truncate(r.labelName)| - 1], Truncate(r.labelName))
    modifies Objects(dicts)
    ensures view' == FileRecord(view, r) && HoldsAll(dicts', view')
    ensures fresh(Objects(dicts') - Objects(dicts))
  {
    view' := FileRecord(view, r);
    dicts' := dicts;
    if !ValidRecord(r) {
      return;
    }
    var start := Truncate(r.labelName);
    var s := |start| - 1;
    SlotApart(dicts, view, s);
    SlotObjects(dicts, s);
    var m; ghost var v;
    m, v := FileInto(dicts[s], view[s], start, r);
    dicts' := dicts[s := m];
    ObjectsReplace(dicts, s, m);
    assert view' == view[s := v];
    forall i | 0 <= i < MaxPrefixLength
      ensures Holds(dicts'[i], view'[i])
    {
      if i != s {
        assert dicts'[i] == dicts[i] && view'[i] == view[i];
      }
    }
  }

  /** What placing record j needs to know about the records before it. */
  lemma PlaceFacts(records: seq<LabelRecord>, j: nat)
    requires j < |records|
    ensures Lengths(FileAll(records[..j]))
    ensures var r := records[j];
      ValidRecord(r) ==> Tracked(FileAll(records[..j])[|Truncate(r.labelName)| - 1], Truncate(r.labelName))
    ensures FileAll(records[..j + 1]) == FileRecord(FileAll(records[..j]), records[j])
  {
    FileAllFiled(records, j);
    FiledLengths(FileAll(records[..j]), records, records[..j]);
    FiledTracked(FileAll(records[..j]), records, records[..j], records[j]);
    assert records[..j + 1][..j] == records[..j];
  }

  /** The first loop of _compute_suggestions over all records. */
  method PlaceRecords(records: seq<LabelRecord>) returns (dicts: seq<map<string, PrefixSuggestions>>)
    ensures HoldsAll(dicts, FileAll(records))
    ensures fresh(Objects(dicts))
  {
    dicts := seq(MaxPrefixLength, _ => map[]);
    assert records[..0] == [];
    for j := 0 to |records|
      invariant HoldsAll(dicts, FileAll(records[..j]))
      invariant fresh(Objects(dicts))
    {
      PlaceFacts(records, j);
      ghost var view;
      dicts, view := PlaceOne(dicts, FileAll(records[..j]), records[j]);
    }
    assert records[..|records|] == records;
  }


  /** The inner loop of _inject_prefixes_into_shorter_dict: insert each of
      a longer entry's retained labels into an existing shorter entry. */
  method ReinsertAll(target: PrefixSuggestions, labels: seq<CountedLabel>)
    requires target.Valid()
    requires forall l | l in labels :: ValidLabel(l)
    modifies target
    ensures target.Valid() && target.key == old(target.key)
    ensures target.countedLabels == AcceptAll(old(target.countedLabels), labels)
    ensures target.accepted == old(target.accepted) + labels
  {
    ghost var labels0, accepted0 := target.countedLabels, target.accepted;
    var j := 0;
    while j < |labels|
      invariant 0 <= j <= |labels|
      invariant target.Valid() && target.key == old(target.key)
      invariant target.countedLabels == AcceptAll(labels0, labels[..j])
      invariant target.accepted == accepted0 + labels[..j]
    {
      ReinsertOne(target, labels0, accepted0, labels, j);
      j := j + 1;
    }
    assert labels[..j] == labels;
  }

  /** One iteration of ReinsertAll: the j-th label goes in. */
  method ReinsertOne(target: PrefixSuggestions, ghost labels0: seq<CountedLabel>, ghost accepted0: seq<CountedLabel>,
                     labels: seq<CountedLabel>, j: nat)
    requires j < |labels| && ValidLabel(labels[j])
    requires target.Valid()
    requires target.countedLabels == AcceptAll(labels0, labels[..j])
    requires target.accepted == accepted0 + labels[..j]
    modifies target
    ensures target.Valid() && target.key == old(target.key)
    ensures target.countedLabels == AcceptAll(labels0, labels[..j + 1])
    ensures target.accepted == accepted0 + labels[..j + 1]
  {
    var x := labels[j];
    TakeOneMore(labels, j);
    AcceptAllSnoc(labels0, labels[..j], x);
    AppendSnoc(accepted0, labels[..j], x);
    var _ := target.Insert(PyStr(x.labelName), PyInt(x.count));
  }

  /** Moving one key from the keys still to do to the keys done. */
  lemma MoveOne(todo: set<string>, order: seq<string>, c: string)
    requires todo !! Elements(order) && c in todo
    ensures (todo - {c}) + Elements(order + [c]) == todo + Elements(order)
    ensures (todo - {c}) !! Elements(order + [c])
    ensures |todo - {c}| < |todo|
  {
    ElementsSnoc(order + [c]);
    assert (order + [c])[..|order|] == order;
  }

  /** Every key of v has length n and its state tracks its accepted labels. */
  ghost predicate WellKept(v: map<string, EntryState>, n: nat) {
    forall k | k in v :: |k| == n && Tracks(v[k].labels, v[k].accepted)
  }

  lemma CompleteKept(v: map<string, EntryState>, n: nat, records: seq<LabelRecord>)
    requires Complete(v, n, records)
    ensures WellKept(v, n)
  {
  }

  lemma StartedKept(v: map<string, EntryState>, n: nat, records: seq<LabelRecord>)
    requires StartedBy(v, n, records, records)
    ensures WellKept(v, n)
  {
  }

  /** One injection step keeps the shorter dictionary well kept. */
  lemma InjectKeyKept(rv: map<string, EntryState>, e: EntryState, c: string, n: nat)
    requires WellKept(rv, n) && |c| == n + 1 && Tracks(e.labels, e.accepted)
    ensures WellKept(InjectKey(rv, e, c, n), n)
  {
    var p := c[..n];
    if p in rv {
      forall l | l in e.labels
        ensures ValidLabel(l)
      {
        TracksRetained(e.labels, e.accepted, l);
      }
      AcceptAllTracks(rv[p].labels, rv[p].accepted, e.labels);
    }
  }

  lemma InjectSeqSnoc(sv: map<string, EntryState>, cv: map<string, EntryState>, n: nat, order: seq<string>, c: string)
    requires forall x | x in order :: x in cv && n <= |x|
    requires c in cv && n <= |c|
    ensures forall x | x in order + [c] :: x in cv && n <= |x|
    ensures InjectSeq(sv, cv, n, order + [c]) == InjectKey(InjectSeq(sv, cv, n, order), cv[c], c, n)
  {
    assert (order + [c])[..|order|] == order;
  }

  /** `shorter_prefix_dict[p] = copy.deepcopy(child)`, for a parent p
      without an entry. */
  method CopyInto(result: map<string, PrefixSuggestions>, ghost rv: map<string, EntryState>,
                  child: PrefixSuggestions, p: string, ghost e: EntryState)
    returns (result': map<string, PrefixSuggestions>)
    requires Holds(result, rv) && p !in result
    requires Keeps(child, child.key, e) && child.Valid()
    ensures Holds(result', rv[p := e]) && fresh(result'.Values - result.Values)
  {
    HoldsRemove(result, rv, p);
    var copy := child.DeepCopy(p);
    HoldsAdd(result, rv, copy, p, e);
    result' := result[p := copy];
  }

  /** Inserting each retained label of child into the parent's entry
      `shorter_prefix_dict[p]`, which changes in place. */
  method MergeInto(result: map<string, PrefixSuggestions>, ghost rv: map<string, EntryState>,
                   child: PrefixSuggestions, p: string, ghost e: EntryState)
    requires Holds(result, rv) && p in result && Tracks(rv[p].labels, rv[p].accepted)
    requires Keeps(child, child.key, e) && Tracks(e.labels, e.accepted)
    requires child !in result.Values
    modifies result[p]
    ensures Holds(result, rv[p := MergeState(rv[p], e.labels)])
  {
    var target := result[p];
    KeepsValid(target, p, rv[p]);
    forall l | l in e.labels
      ensures ValidLabel(l)
    {
      TracksRetained(e.labels, e.accepted, l);
    }
    HoldsRemove(result, rv, p);
    ReinsertAll(target, child.countedLabels);
    HoldsAdd(result, rv, target, p, MergeState(rv[p], e.labels));
    assert result[p := target] == result;
  }

  /** Every order of injection leaves the shorter dictionary well kept. */
  lemma {:induction false} InjectSeqKept(sv: map<string, EntryState>, cv: map<string, EntryState>, n: nat,
                                         order: seq<string>)
    requires WellKept(sv, n) && WellKept(cv, n + 1) && forall c | c in order :: c in cv
    ensures WellKept(InjectSeq(sv, cv, n, order), n)
    decreases |order|
  {
    if order != [] {
      var front := order[..|order| - 1];
      var c := order[|order| - 1];
      assert forall x | x in front :: x in order;
      InjectSeqKept(sv, cv, n, front);
      InjectKeyKept(InjectSeq(sv, cv, n, front), cv[c], c, n);
    }
  }

  /** The child c's entry goes into its parent's entry: a deep copy when
      the parent has none, otherwise label by label. Only the parent's
      entry changes. */
  method InjectChild(current: map<string, PrefixSuggestions>, ghost cv: map<string, EntryState>,
                     result: map<string, PrefixSuggestions>, ghost rv: map<string, EntryState>, c: string, ghost n: nat)
    returns (result': map<string, PrefixSuggestions>)
    requires Holds(current, cv) && KeysOfLength(cv, n + 1) && c in current
    requires Holds(result, rv) && KeysOfLength(rv, n)
    requires Tracks(cv[c].labels, cv[c].accepted) && Tracked(rv, c[..n])
    modifies result.Values
    ensures Holds(result', InjectKey(rv, cv[c], c, n)) && Holds(current, cv)
    ensures fresh(result'.Values - result.Values)
  {
    Disjoint(current, cv, n + 1, result, rv, n);
    var child := current[c];
    KeepsValid(child, c, cv[c]);
    var p := c[..|c| - 1];
    if p !in result {
      result' := CopyInto(result, rv, child, p, cv[c]);
    } else {
      MergeInto(result, rv, child, p, cv[c]);
      result' := result;
    }
  }

  /** One iteration of _inject_prefixes_into_shorter_dict: the dictionary
      goes from the children in order injected to those and c. */
  method InjectOne(current: map<string, PrefixSuggestions>, ghost cv: map<string, EntryState>,
                   result: map<string, PrefixSuggestions>, ghost sv: map<string, EntryState>,
                   ghost order: seq<string>, c: string, ghost n: nat)
    returns (result': map<string, PrefixSuggestions>)
    requires Holds(current, cv) && WellKept(cv, n + 1) && c in current
    requires WellKept(sv, n) && forall x | x in order :: x in cv
    requires Holds(result, InjectSeq(sv, cv, n, order))
    modifies result.Values
    ensures Holds(result', InjectSeq(sv, cv, n, order + [c])) && Holds(current, cv)
    ensures fresh(result'.Values - result.Values)
  {
    ghost var rv := InjectSeq(sv, cv, n, order);
    InjectSeqKept(sv, cv, n, order);
    InjectSeqSnoc(sv, cv, n, order, c);
    assert KeysOfLength(cv, n + 1) && KeysOfLength(rv, n);
    result' := InjectChild(current, cv, result, rv, c, n);
  }

  /** No element of xs occurs twice. */
  predicate NoDups(xs: seq<string>)
    decreases |xs|
  {
    xs == [] || (xs[|xs| - 1] !in xs[..|xs| - 1] && NoDups(xs[..|xs| - 1]))
  }

  /** In a sequence without duplicates, xs[j] is not among the ones before it. */
  lemma {:induction false} NoDupsAt(xs: seq<string>, j: nat)
    requires NoDups(xs) && j < |xs|
    ensures xs[j] !in xs[..j]
    decreases |xs|
  {
    if j < |xs| - 1 {
      var front := xs[..|xs| - 1];
      NoDupsAt(front, j);
      assert front[..j] == xs[..j];
    }
  }

  /** The elements of s, each once, in some order (the iteration order of
      a Python dict or set, which the model leaves open). */
  method Enumerate(s: set<string>) returns (xs: seq<string>)
    ensures Elements(xs) == s && (forall c | c in xs :: c in s)
    ensures NoDups(xs)
  {
    var todo := s;
    xs := [];
    while todo != {}
      invariant todo + Elements(xs) == s && todo !! Elements(xs)
      invariant NoDups(xs)
      decreases |todo|
    {
      var c :| c in todo;
      assert (xs + [c])[..|xs|] == xs;
      MoveOne(todo, xs, c);
      xs := xs + [c];
      todo := todo - {c};
    }
  }


  /** _inject_prefixes_into_shorter_dict: every entry of the dictionary for
      prefixes of length n + 1 is injected, in the dictionary's own order,
      into the entry of its parent in the dictionary for length n. */
  method InjectIntoShorter(current: map<string, PrefixSuggestions>, ghost cv: map<string, EntryState>,
                           shorter: map<string, PrefixSuggestions>, ghost sv: map<string, EntryState>, ghost n: nat)
    returns (result: map<string, PrefixSuggestions>, ghost order: seq<string>)
    requires Holds(current, cv) && WellKept(cv, n + 1)
    requires Holds(shorter, sv) && WellKept(sv, n)
    modifies shorter.Values
    ensures (forall c | c in order :: c in cv && n <= |c|) && Elements(order) == cv.Keys
    ensures Holds(result, InjectSeq(sv, cv, n, order)) && Holds(current, cv)
    ensures fresh(result.Values - shorter.Values)
  {
    var keys := Enumerate(current.Keys);
    result := shorter;
    for j := 0 to |keys|
      invariant Holds(current, cv) && Holds(result, InjectSeq(sv, cv, n, keys[..j]))
      invariant fresh(result.Values - shorter.Values)
    {
      TakeOneMore(keys, j);
      result := InjectOne(current, cv, result, sv, keys[..j], keys[j], n);
    }
    order := keys;
    assert keys[..|keys|] == keys;
  }

  /** What one fold step needs to know about a view part way through the
      fold. */
  lemma FoldFacts(view: seq<map<string, EntryState>>, records: seq<LabelRecord>, folded: nat)
    requires 1 <= folded && Folded(view, records, folded)
    ensures Lengths(view)
    ensures WellKept(view[folded], folded + 1) && WellKept(view[folded - 1], folded)
  {
    forall i | 0 <= i < MaxPrefixLength
      ensures KeysOfLength(view[i], i + 1)
    {
      if i < folded {
        assert StartedBy(view[i], i + 1, records, records);
      } else {
        assert Complete(view[i], i + 1, records);
      }
    }
    CompleteKept(view[folded], folded + 1, records);
    StartedKept(view[folded - 1], folded, records);
  }

  /** Replacing the started dictionary just below the complete ones by a
      complete one moves the fold down by one. */
  lemma FoldedUpdate(view: seq<map<string, EntryState>>, records: seq<LabelRecord>, folded: nat,
                     shorter: map<string, EntryState>)
    requires 1 <= folded && Folded(view, records, folded) && Complete(shorter, folded, records)
    ensures Folded(view[folded - 1 := shorter], records, folded - 1)
  {
    var view' := view[folded - 1 := shorter];
    forall i | folded - 1 <= i < MaxPrefixLength
      ensures Complete(view'[i], i + 1, records)
    {
      if i >= folded {
        assert view'[i] == view[i];
      }
    }
    forall i | 0 <= i < folded - 1
      ensures StartedBy(view'[i], i + 1, records, records)
    {
      assert view'[i] == view[i];
    }
  }

  /** A fold step, on values, completes one more dictionary. */
  lemma FoldStep(view: seq<map<string, EntryState>>, records: seq<LabelRecord>, folded: nat, order: seq<string>)
    requires 1 <= folded && Folded(view, records, folded)
    requires (forall c | c in order :: c in view[folded] && folded <= |c|) && Elements(order) == view[folded].Keys
    ensures Folded(view[folded - 1 := InjectSeq(view[folded - 1], view[folded], folded, order)], records, folded - 1)
  {
    InjectSeqComplete(view[folded - 1], view[folded], folded, records, order);
    FoldedUpdate(view, records, folded, InjectSeq(view[folded - 1], view[folded], folded, order));
  }

  /** One iteration of the second loop of _compute_suggestions: the
      dictionary for prefixes of length `length + 1` is injected into the
      one for length `length`, in the order given by order. */
  method FoldOne(dicts: seq<map<string, PrefixSuggestions>>, ghost view: seq<map<string, EntryState>>, length: nat)
    returns (dicts': seq<map<string, PrefixSuggestions>>, ghost order: seq<string>)
    requires 1 <= length < MaxPrefixLength
    requires HoldsAll(dicts, view) && Lengths(view)
    requires WellKept(view[length], length + 1) && WellKept(view[length - 1], length)
    modifies Objects(dicts)
    ensures (forall c | c in order :: c in view[length] && length <= |c|) && Elements(order) == view[length].Keys
    ensures HoldsAll(dicts', view[length - 1 := InjectSeq(view[length - 1], view[length], length, order)])
    ensures fresh(Objects(dicts') - Objects(dicts))
  {
    SlotApart(dicts, view, length - 1);
    SlotObjects(dicts, length - 1);
    var shorter;
    shorter, order := InjectIntoShorter(dicts[length], view[length], dicts[length - 1], view[length - 1], length);
    dicts' := dicts[length - 1 := shorter];
    ObjectsReplace(dicts, length - 1, shorter);
    ghost var view' := view[length - 1 := InjectSeq(view[length - 1], view[length], length, order)];
    forall i | 0 <= i < MaxPrefixLength
      ensures Holds(dicts'[i], view'[i])
    {
      if i != length - 1 {
        assert dicts'[i] == dicts[i] && view'[i] == view[i];
      }
    }
  }

  /** _compute_suggestions: the fifteen dictionaries, the entry of every
      prefix holding the top labels of every record under it. Slot i holds
      exactly the prefixes of length i + 1 of the valid records' names,
      each with an entry that keeps its invariant, accepted only labels of
      records under it, and retains or is beaten-or-tied by a full set of
      retained labels for every record under it. */
  method ComputeSuggestions(records: seq<LabelRecord>)
    returns (dicts: seq<map<string, PrefixSuggestions>>, ghost view: seq<map<string, EntryState>>)
    ensures HoldsAll(dicts, view) && |view| == MaxPrefixLength
    ensures forall i | 0 <= i < MaxPrefixLength :: Complete(view[i], i + 1, records)
    ensures fresh(Objects(dicts))
  {
    dicts := PlaceRecords(records);
    view := FileAll(records);
    FileAllFiled(records, |records|);
    assert records[..|records|] == records;
    FoldStart(view, records);
    var length := MaxPrefixLength - 1;
    while length > 0
      invariant 0 <= length < MaxPrefixLength
      invariant HoldsAll(dicts, view) && Folded(view, records, length)
      invariant fresh(Objects(dicts))
    {
      FoldFacts(view, records, length);
      ghost var order;
      dicts, order := FoldOne(dicts, view, length);
      FoldStep(view, records, length, order);
      view := view[length - 1 := InjectSeq(view[length - 1], view[length], length, order)];
      length := length - 1;
    }
  }
}
