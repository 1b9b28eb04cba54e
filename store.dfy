/** Writing one letter's prefix index to the prefix_suggestions table
    (_batch_update_suggestions, _batch_delete_obsolete_prefixes and
    _update_prefix_suggestions_table) and the per-letter loop of
    lambda_handler. The table is a map from prefix to suggestion list;
    which writes the service rejects is an input of the model. */
module Store {
  import opened TopK
  import opened Entry
  import opened Index
  import opened Compute

  datatype Option<T> = None | Some(value: T)

  /** The prefix_suggestions table, written through a batch writer. */
  class Table {
    /** prefix -> suggestions */
    var items: map<string, seq<string>>
    /** The prefixes whose put_item or delete_item raises (network,
        throttling); the model takes them as given. */
    const failing: set<string>

    constructor (items0: map<string, seq<string>>, failing0: set<string>)
      ensures items == items0 && failing == failing0
    {
      items := items0;
      failing := failing0;
    }

    /** batch.put_item(Item={"prefix": prefix, "suggestions": suggestions}) */
    method PutItem(prefix: string, suggestions: seq<string>) returns (ok: bool)
      modifies this
      ensures ok <==> prefix !in failing
      ensures items == if ok then old(items)[prefix := suggestions] else old(items)
    {
      ok := prefix !in failing;
      if ok {
        items := items[prefix := suggestions];
      }
    }

    /** batch.delete_item(Key={"prefix": prefix}) */
    method DeleteItem(prefix: string) returns (ok: bool)
      modifies this
      ensures ok <==> prefix !in failing
      ensures items == if ok then old(items) - {prefix} else old(items)
    {
      ok := prefix !in failing;
      if ok {
        items := items - {prefix};
      }
    }
  }

  // ---------------------------------------------------------------------
  // Writing the suggestion lists
  // ---------------------------------------------------------------------

  /** The items written for the keys ks of v when the writes of failing
      are rejected: each prefix with the suggestion list of its entry. */
  ghost function Puts(v: map<string, EntryState>, ks: set<string>, failing: set<string>): (w: map<string, seq<string>>)
    ensures w.Keys == ks * v.Keys - failing
  {
    map p | p in ks && p in v && p !in failing :: SuggestionList(v[p].labels)
  }

  /** What _batch_update_suggestions writes for the dictionaries of view,
      one after another. */
  ghost function Written(view: seq<map<string, EntryState>>, failing: set<string>): map<string, seq<string>>
    decreases |view|
  {
    if view == [] then map[]
    else
      var last := view[|view| - 1];
      Written(view[..|view| - 1], failing) + Puts(last, last.Keys, failing)
  }

  /** The number of entries whose write succeeds (ok) or fails. */
  ghost function CountWrites(view: seq<map<string, EntryState>>, failing: set<string>, ok: bool): nat
    decreases |view|
  {
    if view == [] then 0
    else
      var last := view[|view| - 1].Keys;
      CountWrites(view[..|view| - 1], failing, ok) + if ok then |last - failing| else |last * failing|
  }

  /** Adding one more key to a set of keys: the counts of writes. */
  lemma CountOneMore(done: set<string>, p: string, failing: set<string>)
    requires p !in done
    ensures |(done + {p}) - failing| == |done - failing| + (if p in failing then 0 else 1)
    ensures |(done + {p}) * failing| == |done * failing| + (if p in failing then 1 else 0)
  {
    if p in failing {
      assert (done + {p}) - failing == done - failing;
      assert (done + {p}) * failing == done * failing + {p};
    } else {
      assert (done + {p}) - failing == (done - failing) + {p};
      assert (done + {p}) * failing == done * failing;
    }
  }

  /** The items written for one more key. */
  lemma PutsOneMore(v: map<string, EntryState>, done: set<string>, p: string, failing: set<string>)
    requires p in v
    ensures Puts(v, done + {p}, failing) ==
      if p in failing then Puts(v, done, failing) else Puts(v, done, failing)[p := SuggestionList(v[p].labels)]
  {
  }

  lemma UnionUpdate<V>(a: map<string, V>, b: map<string, V>, p: string, x: V)
    ensures a + b[p := x] == (a + b)[p := x]
  {
  }

  /** How many of xs are accepted (ok) or rejected writes. */
  function Tally(xs: seq<string>, failing: set<string>, ok: bool): nat
    decreases |xs|
  {
    if xs == [] then 0
    else Tally(xs[..|xs| - 1], failing, ok) + if (xs[|xs| - 1] !in failing) == ok then 1 else 0
  }

  /** Over a sequence without duplicates, the tallies are the sizes of the
      accepted and rejected parts of its set of elements. */
  lemma {:induction false} TallyCard(xs: seq<string>, failing: set<string>)
    requires NoDups(xs)
    ensures Tally(xs, failing, true) == |Elements(xs) - failing|
    ensures Tally(xs, failing, false) == |Elements(xs) * failing|
    decreases |xs|
  {
    if xs != [] {
      var front := xs[..|xs| - 1];
      TallyCard(front, failing);
      ElementsSnoc(xs);
      CountOneMore(Elements(front), xs[|xs| - 1], failing);
    }
  }

  /** One iteration of the inner loop of _batch_update_suggestions: the
      put_item for keys[j], with the names of its entry's best labels, and
      its count. */
  method PutNext(table: Table, ghost base: map<string, seq<string>>, m: map<string, PrefixSuggestions>,
                 ghost v: map<string, EntryState>, keys: seq<string>, j: nat, updates: nat, failures: nat)
    returns (updates': nat, failures': nat)
    requires Holds(m, v) && NoDups(keys) && j < |keys| && keys[j] in m
    requires table.items == base + Puts(v, Elements(keys[..j]), table.failing)
    requires updates == Tally(keys[..j], table.failing, true) && failures == Tally(keys[..j], table.failing, false)
    modifies table
    ensures table.items == base + Puts(v, Elements(keys[..j + 1]), table.failing)
    ensures updates' == Tally(keys[..j + 1], table.failing, true) && failures' == Tally(keys[..j + 1], table.failing, false)
  {
    var p := keys[j];
    ghost var done := Elements(keys[..j]);
    TakeOneMore(keys, j);
    ElementsSnoc(keys[..j + 1]);
    assert keys[..j + 1][..j] == keys[..j];
    PutsOneMore(v, done, p, table.failing);
    var suggestions := SuggestionList(m[p].countedLabels);
    UnionUpdate(base, Puts(v, done, table.failing), p, suggestions);
    var ok := table.PutItem(p, suggestions);
    if ok {
      updates', failures' := updates + 1, failures;
    } else {
      updates', failures' := updates, failures + 1;
    }
  }

  /** The inner loop of _batch_update_suggestions for one dictionary: one
      put_item per prefix, counting the writes that succeed and those that
      raise. */
  method UpdateSlot(table: Table, m: map<string, PrefixSuggestions>, ghost v: map<string, EntryState>)
    returns (updates: nat, failures: nat)
    requires Holds(m, v)
    modifies table
    ensures table.items == old(table.items) + Puts(v, v.Keys, table.failing)
    ensures updates == |v.Keys - table.failing| && failures == |v.Keys * table.failing|
  {
    var keys := Enumerate(m.Keys);
    updates, failures := 0, 0;
    for j := 0 to |keys|
      invariant Holds(m, v)
      invariant table.items == old(table.items) + Puts(v, Elements(keys[..j]), table.failing)
      invariant updates == Tally(keys[..j], table.failing, true) && failures == Tally(keys[..j], table.failing, false)
    {
      updates, failures := PutNext(table, old(table.items), m, v, keys, j, updates, failures);
    }
    assert keys[..|keys|] == keys;
    TallyCard(keys, table.failing);
  }

  /** Writing the first i + 1 dictionaries writes the first i, then the
      i-th; the counts add up the same way. */
  lemma WrittenStep(view: seq<map<string, EntryState>>, i: nat, failing: set<string>)
    requires i < |view|
    ensures Written(view[..i + 1], failing) == Written(view[..i], failing) + Puts(view[i], view[i].Keys, failing)
    ensures CountWrites(view[..i + 1], failing, true) == CountWrites(view[..i], failing, true) + |view[i].Keys - failing|
    ensures CountWrites(view[..i + 1], failing, false) == CountWrites(view[..i], failing, false) + |view[i].Keys * failing|
  {
    assert view[..i + 1][..i] == view[..i];
  }

  lemma UnionAssoc<V>(a: map<string, V>, b: map<string, V>, c: map<string, V>)
    ensures (a + b) + c == a + (b + c)
  {
  }

  /** _batch_update_suggestions: every entry of every dictionary is written
      as its prefix and suggestion list, except the rejected writes, which
      are counted as failures. */
  method BatchUpdate(table: Table, dicts: seq<map<string, PrefixSuggestions>>, ghost view: seq<map<string, EntryState>>)
    returns (updates: nat, failures: nat)
    requires HoldsAll(dicts, view)
    modifies table
    ensures table.items == old(table.items) + Written(view, table.failing)
    ensures updates == CountWrites(view, table.failing, true)
    ensures failures == CountWrites(view, table.failing, false)
  {
    updates, failures := 0, 0;
    for i := 0 to |dicts|
      invariant HoldsAll(dicts, view)
      invariant table.items == old(table.items) + Written(view[..i], table.failing)
      invariant updates == CountWrites(view[..i], table.failing, true)
      invariant failures == CountWrites(view[..i], table.failing, false)
    {
      WrittenStep(view, i, table.failing);
      UnionAssoc(old(table.items), Written(view[..i], table.failing), Puts(view[i], view[i].Keys, table.failing));
      var u, f := UpdateSlot(table, dicts[i], view[i]);
      updates, failures := updates + u, failures + f;
    }
    assert view[..|view|] == view;
  }

  // ---------------------------------------------------------------------
  // Deleting obsolete prefixes
  // ---------------------------------------------------------------------

  /** A stored prefix is obsolete when its first MaxPrefixLength characters
      are not a key of the dictionary for their length; an empty prefix is
      never obsolete (it is skipped). */
  predicate Obsolete<V>(p: string, dicts: seq<map<string, V>>)
    requires |dicts| == MaxPrefixLength
  {
    var s := Truncate(p);
    |s| > 0 && s !in dicts[|s| - 1]
  }

  /** The stored prefixes that are obsolete. */
  ghost function Doomed<V>(existing: set<string>, dicts: seq<map<string, V>>): set<string>
    requires |dicts| == MaxPrefixLength
  {
    set p | p in existing && Obsolete(p, dicts)
  }

  /** Adding one more stored prefix: it joins the obsolete ones exactly
      when it is obsolete. */
  lemma DoomedOneMore<V>(done: set<string>, p: string, dicts: seq<map<string, V>>)
    requires |dicts| == MaxPrefixLength
    ensures Obsolete(p, dicts) ==> Doomed(done + {p}, dicts) == Doomed(done, dicts) + {p}
    ensures !Obsolete(p, dicts) ==> Doomed(done + {p}, dicts) == Doomed(done, dicts)
  {
  }

  /** Appending a new element to a sequence without duplicates. */
  lemma AppendNew(xs: seq<string>, x: string, failing: set<string>)
    requires NoDups(xs) && x !in xs
    ensures NoDups(xs + [x]) && Elements(xs + [x]) == Elements(xs) + {x}
    ensures Tally(xs + [x], failing, true) == Tally(xs, failing, true) + (if x in failing then 0 else 1)
    ensures Tally(xs + [x], failing, false) == Tally(xs, failing, false) + (if x in failing then 1 else 0)
  {
    assert (xs + [x])[..|xs|] == xs;
    ElementsSnoc(xs + [x]);
  }

  lemma RemoveMore(a: map<string, seq<string>>, done: set<string>, p: string, failing: set<string>)
    ensures (a - (done - failing)) - (if p in failing then {} else {p}) == a - ((done + {p}) - failing)
  {
  }

  /** What happened to one stored prefix. */
  datatype DeleteOutcome = Kept | Deleted | Rejected

  /** One iteration of _batch_delete_obsolete_prefixes: prefixes[j] is
      deleted when it is obsolete. The obsolete prefixes seen so far are
      kept in hits (proof only). */
  method DeleteNext(table: Table, ghost base: map<string, seq<string>>, prefixes: seq<string>, j: nat,
                    dicts: seq<map<string, PrefixSuggestions>>, ghost hits: seq<string>)
    returns (outcome: DeleteOutcome, ghost hits': seq<string>)
    requires |dicts| == MaxPrefixLength && NoDups(prefixes) && j < |prefixes|
    requires NoDups(hits) && Elements(hits) == Doomed(Elements(prefixes[..j]), dicts)
    requires table.items == base - (Elements(hits) - table.failing)
    modifies table
    ensures Elements(hits') == Doomed(Elements(prefixes[..j + 1]), dicts)
    ensures table.items == base - (Elements(hits') - table.failing)
    ensures outcome == Kept ==> hits' == hits
    ensures outcome != Kept ==> hits' == hits + [prefixes[j]] && prefixes[j] !in hits
    ensures outcome == Deleted ==> prefixes[j] !in table.failing
    ensures outcome == Rejected ==> prefixes[j] in table.failing
  {
    var prefix := prefixes[j];
    ghost var seen := Elements(prefixes[..j]);
    TakeOneMore(prefixes, j);
    ElementsSnoc(prefixes[..j + 1]);
    assert prefixes[..j + 1][..j] == prefixes[..j];
    assert Elements(prefixes[..j + 1]) == seen + {prefix};
    NoDupsAt(prefixes, j);
    DoomedOneMore(seen, prefix, dicts);
    outcome, hits' := Kept, hits;
    var shortened := Truncate(prefix);
    if |shortened| == 0 {
      return;
    }
    if shortened !in dicts[|shortened| - 1] {
      outcome, hits' := DeleteObsolete(table, base, hits, prefix);
    }
  }

  /** The delete of one obsolete prefix, which the table may reject. */
  method DeleteObsolete(table: Table, ghost base: map<string, seq<string>>, ghost hits: seq<string>, prefix: string)
    returns (outcome: DeleteOutcome, ghost hits': seq<string>)
    requires NoDups(hits) && prefix !in hits
    requires table.items == base - (Elements(hits) - table.failing)
    modifies table
    ensures hits' == hits + [prefix] && Elements(hits') == Elements(hits) + {prefix}
    ensures table.items == base - (Elements(hits') - table.failing)
    ensures outcome != Kept && (outcome == Deleted <==> prefix !in table.failing)
  {
    AppendNew(hits, prefix, table.failing);
    RemoveMore(base, Elements(hits), prefix, table.failing);
    var ok := table.DeleteItem(prefix);
    outcome := if ok then Deleted else Rejected;
    hits' := hits + [prefix];
  }

  /** _batch_delete_obsolete_prefixes: every obsolete stored prefix is
      deleted, except the rejected deletes, which are counted as failures;
      nothing else is removed. */
  method BatchDelete(table: Table, existing: set<string>, dicts: seq<map<string, PrefixSuggestions>>)
    returns (deletes: nat, failures: nat)
    requires |dicts| == MaxPrefixLength
    modifies table
    ensures table.items == old(table.items) - (Doomed(existing, dicts) - table.failing)
    ensures deletes == |Doomed(existing, dicts) - table.failing|
    ensures failures == |Doomed(existing, dicts) * table.failing|
  {
    var prefixes := Enumerate(existing);
    deletes, failures := 0, 0;
    ghost var hits: seq<string> := [];
    for j := 0 to |prefixes|
      invariant NoDups(hits) && Elements(hits) == Doomed(Elements(prefixes[..j]), dicts)
      invariant table.items == old(table.items) - (Elements(hits) - table.failing)
      invariant deletes == Tally(hits, table.failing, true) && failures == Tally(hits, table.failing, false)
    {
      var outcome; ghost var hits';
      outcome, hits' := DeleteNext(table, old(table.items), prefixes, j, dicts, hits);
      if outcome != Kept {
        AppendNew(hits, prefixes[j], table.failing);
      }
      if outcome == Deleted {
        deletes := deletes + 1;
      } else if outcome == Rejected {
        failures := failures + 1;
      }
      hits := hits';
    }
    assert prefixes[..|prefixes|] == prefixes;
    TallyCard(hits, table.failing);
  }

  // ---------------------------------------------------------------------
  // One letter
  // ---------------------------------------------------------------------

  /** The existing prefixes the table scan returns for a letter:
      begins_with(prefix, letter). */
  function ExistingFor(items: map<string, seq<string>>, letter: char): set<string>
  {
    set p | p in items && |p| >= 1 && p[0] == letter
  }

  /** The table after a letter is synchronised with its index: the index
      is written, then the prefixes that were stored for the letter before
      and are obsolete are deleted. */
  ghost function SyncLetter(items: map<string, seq<string>>, letter: char, view: seq<map<string, EntryState>>,
                            failing: set<string>): map<string, seq<string>>
    requires |view| == MaxPrefixLength
  {
    (items + Written(view, failing)) - (Doomed(ExistingFor(items, letter), view) - failing)
  }

  /** The counts logged for a letter. */
  datatype Report = Report(updates: nat, updateFailures: nat, deletes: nat, deleteFailures: nat)

  /** The scan for existing prefixes raised. */
  datatype TableError = ScanFailed

  /** Dictionaries with the same keys make the same prefixes obsolete. */
  lemma SameObsolete(existing: set<string>, dicts: seq<map<string, PrefixSuggestions>>,
                     view: seq<map<string, EntryState>>)
    requires |dicts| == |view| == MaxPrefixLength
    requires forall i | 0 <= i < MaxPrefixLength :: dicts[i].Keys == view[i].Keys
    ensures Doomed(existing, dicts) == Doomed(existing, view)
  {
  }

  /** _update_prefix_suggestions_table: scan the prefixes stored for the
      letter, write the index, delete the obsolete prefixes. A failing
      scan raises before anything is written. */
  method UpdateTable(table: Table, letter: char, scanFails: bool,
                     dicts: seq<map<string, PrefixSuggestions>>, ghost view: seq<map<string, EntryState>>)
    returns (r: Result<Report, TableError>)
    requires HoldsAll(dicts, view) && |view| == MaxPrefixLength
    modifies table
    ensures r.Err? <==> scanFails
    ensures scanFails ==> table.items == old(table.items)
    ensures !scanFails ==> table.items == SyncLetter(old(table.items), letter, view, table.failing)
    ensures r.Ok? ==>
      r.value.updates == CountWrites(view, table.failing, true) &&
      r.value.updateFailures == CountWrites(view, table.failing, false) &&
      r.value.deletes == |Doomed(ExistingFor(old(table.items), letter), view) - table.failing| &&
      r.value.deleteFailures == |Doomed(ExistingFor(old(table.items), letter), view) * table.failing|
  {
    if scanFails {
      return Err(ScanFailed);
    }
    var existing := ExistingFor(table.items, letter);
    var updates, updateFailures := BatchUpdate(table, dicts, view);
    assert forall i | 0 <= i < MaxPrefixLength :: Holds(dicts[i], view[i]);
    SameObsolete(existing, dicts, view);
    var deletes, deleteFailures := BatchDelete(table, existing, dicts);
    r := Ok(Report(updates, updateFailures, deletes, deleteFailures));
  }

  // ---------------------------------------------------------------------
  // What a synchronised letter leaves in the table
  // ---------------------------------------------------------------------

  /** Slot i of view holds prefixes of length i + 1 (a prefix of an index). */
  ghost predicate Keyed(view: seq<map<string, EntryState>>) {
    forall i | 0 <= i < |view| :: KeysOfLength(view[i], i + 1)
  }

  /** p is a key of the index, in the dictionary for its length. */
  ghost predicate Indexed(view: seq<map<string, EntryState>>, p: string) {
    1 <= |p| <= |view| && p in view[|p| - 1]
  }

  /** What _batch_update_suggestions writes: exactly the indexed prefixes
      whose write is not rejected, each with its entry's suggestions. */
  lemma {:induction false} WrittenAt(view: seq<map<string, EntryState>>, failing: set<string>, p: string)
    requires Keyed(view)
    ensures p in Written(view, failing) <==> Indexed(view, p) && p !in failing
    ensures p in Written(view, failing) ==>
      Written(view, failing)[p] == SuggestionList(view[|p| - 1][p].labels)
    decreases |view|
  {
    if view != [] {
      var front := view[..|view| - 1];
      assert Keyed(front);
      WrittenAt(front, failing, p);
      if Indexed(front, p) {
        assert front[|p| - 1] == view[|p| - 1];
      }
      if Indexed(view, p) && !Indexed(front, p) {
        assert |p| == |view|;
      }
    }
  }

  /** An indexed prefix is never obsolete, and a prefix of at most
      MaxPrefixLength characters is obsolete exactly when it is not
      indexed. */
  lemma ObsoleteIffNotIndexed(view: seq<map<string, EntryState>>, p: string)
    requires |view| == MaxPrefixLength
    ensures Indexed(view, p) ==> !Obsolete(p, view)
    ensures 1 <= |p| <= MaxPrefixLength ==> (Obsolete(p, view) <==> !Indexed(view, p))
  {
  }

  /** The table after one letter, prefix by prefix: an indexed prefix whose
      write succeeds holds its entry's suggestions; an obsolete prefix of
      the letter that was stored and whose delete succeeds is gone; every
      other prefix is as it was. */
  lemma SyncLetterAt(items: map<string, seq<string>>, letter: char, view: seq<map<string, EntryState>>,
                     failing: set<string>, p: string)
    requires |view| == MaxPrefixLength && Keyed(view)
    ensures Indexed(view, p) && p !in failing ==>
      p in SyncLetter(items, letter, view, failing) &&
      SyncLetter(items, letter, view, failing)[p] == SuggestionList(view[|p| - 1][p].labels)
    ensures p in items && |p| >= 1 && p[0] == letter && Obsolete(p, view) && p !in failing ==>
      p !in SyncLetter(items, letter, view, failing)
    ensures !(Indexed(view, p) && p !in failing) &&
            !(p in items && |p| >= 1 && p[0] == letter && Obsolete(p, view) && p !in failing) ==>
      (p in SyncLetter(items, letter, view, failing) <==> p in items) &&
      (p in items ==> SyncLetter(items, letter, view, failing)[p] == items[p])
  {
    WrittenAt(view, failing, p);
    ObsoleteIffNotIndexed(view, p);
  }

  /** Synchronising a letter twice with the same index leaves the table as
      synchronising it once, whichever writes the service rejects. */
  lemma SyncIdempotent(items: map<string, seq<string>>, letter: char, view: seq<map<string, EntryState>>,
                       failing: set<string>)
    requires |view| == MaxPrefixLength && Keyed(view)
    ensures SyncLetter(SyncLetter(items, letter, view, failing), letter, view, failing) ==
            SyncLetter(items, letter, view, failing)
  {
    var once := SyncLetter(items, letter, view, failing);
    var twice := SyncLetter(once, letter, view, failing);
    forall p
      ensures (p in twice <==> p in once) && (p in once ==> twice[p] == once[p])
    {
      SyncLetterAt(items, letter, view, failing, p);
      SyncLetterAt(once, letter, view, failing, p);
    }
  }

  /** With no write rejected, the prefixes of the letter of at most
      MaxPrefixLength characters left in the table are exactly the keys of
      the index, each with its entry's suggestions. */
  lemma SyncLetterExact(items: map<string, seq<string>>, letter: char, view: seq<map<string, EntryState>>, p: string)
    requires |view| == MaxPrefixLength && Keyed(view)
    requires 1 <= |p| <= MaxPrefixLength && p[0] == letter
    ensures p in SyncLetter(items, letter, view, {}) <==> Indexed(view, p)
    ensures Indexed(view, p) ==> SyncLetter(items, letter, view, {})[p] == SuggestionList(view[|p| - 1][p].labels)
  {
    SyncLetterAt(items, letter, view, {}, p);
    ObsoleteIffNotIndexed(view, p);
  }

  // ---------------------------------------------------------------------
  // lambda_handler
  // ---------------------------------------------------------------------

  /** string.ascii_lowercase, the letters processed in turn. */
  const Letters: string := "abcdefghijklmnopqrstuvwxyz"

  /** The k-th letter is the k-th after 'a'; in particular no letter
      occurs twice. */
  lemma LetterCode(k: nat)
    requires k < |Letters|
    ensures Letters[k] as int == 'a' as int + k
  {
  }

  /** A label-counts item: label_name and int(count). The name is the
      table's string key; a missing name, and a missing count or one int()
      cannot parse, are None, and _compute_suggestions raises on such an
      item. */
  datatype Item = Item(labelName: Option<string>, count: Option<int>)

  /** The records of a letter's items, or None when one of them makes
      _compute_suggestions raise. */
  function Records(items: seq<Item>): (r: Option<seq<LabelRecord>>)
    ensures r.Some? <==> forall i | 0 <= i < |items| :: items[i].labelName.Some? && items[i].count.Some?
    ensures r.Some? ==>
      (|r.value| == |items| &&
       forall i | 0 <= i < |items| :: r.value[i] == LabelRecord(items[i].labelName.value, items[i].count.value))
    decreases |items|
  {
    if items == [] then Some([])
    else
      var last := items[|items| - 1];
      var front := Records(items[..|items| - 1]);
      if front.None? || last.labelName.None? || last.count.None? then None
      else Some(front.value + [LabelRecord(last.labelName.value, last.count.value)])
  }

  /** The letter's labels were read and form valid records. */
  predicate Parsed(scan: Option<seq<Item>>) {
    scan.Some? && Records(scan.value).Some?
  }

  /** The handler's answer: status 200 with the letters that failed, or
      status 500 when the connection to the tables cannot be set up. */
  datatype Response = Completed(failedLetters: seq<char>) | InternalError

  function StatusCode(r: Response): int {
    if r.Completed? then 200 else 500
  }

  /** The letters among the first n whose labels were read but whose
      suggestions could not be computed or whose table update raised, in
      the order processed. A letter whose label scan returned nothing is
      skipped, not failed. */
  function FailedLetters(labelScans: seq<Option<seq<Item>>>, scanFails: set<char>, n: nat): (r: seq<char>)
    requires n <= |labelScans| && n <= |Letters|
    ensures |r| <= n
    decreases n
  {
    if n == 0 then []
    else if labelScans[n - 1].Some? && (!Parsed(labelScans[n - 1]) || Letters[n - 1] in scanFails)
    then FailedLetters(labelScans, scanFails, n - 1) + [Letters[n - 1]]
    else FailedLetters(labelScans, scanFails, n - 1)
  }

  /** A letter is reported failed exactly when its labels were read and
      computing its suggestions or updating the table raised. */
  lemma {:induction false} FailedLettersExact(labelScans: seq<Option<seq<Item>>>, scanFails: set<char>,
                                              n: nat, k: nat)
    requires n <= |labelScans| && n <= |Letters| && k < n
    ensures Letters[k] in FailedLetters(labelScans, scanFails, n) <==>
      labelScans[k].Some? && (!Parsed(labelScans[k]) || Letters[k] in scanFails)
    decreases n
  {
    if k < n - 1 {
      FailedLettersExact(labelScans, scanFails, n - 1, k);
      LetterCode(k);
      LetterCode(n - 1);
    } else {
      FailedLettersBefore(labelScans, scanFails, n - 1, k);
    }
  }

  /** The letters reported among the first n are letters before n. */
  lemma {:induction false} FailedLettersBefore(labelScans: seq<Option<seq<Item>>>, scanFails: set<char>,
                                               n: nat, k: nat)
    requires n <= |labelScans| && n <= k < |Letters|
    ensures Letters[k] !in FailedLetters(labelScans, scanFails, n)
    decreases n
  {
    if n > 0 {
      FailedLettersBefore(labelScans, scanFails, n - 1, k);
      LetterCode(k);
      LetterCode(n - 1);
    }
  }

  /** The table after the first n letters, given the index computed for
      each letter whose labels were read. */
  ghost function AfterLetters(items: map<string, seq<string>>, labelScans: seq<Option<seq<Item>>>,
                              scanFails: set<char>, views: seq<seq<map<string, EntryState>>>,
                              failing: set<string>, n: nat): map<string, seq<string>>
    requires n <= |labelScans| && n <= |views| && n <= |Letters|
    requires forall k | 0 <= k < n && Parsed(labelScans[k]) :: |views[k]| == MaxPrefixLength
    decreases n
  {
    if n == 0 then items
    else
      var before := AfterLetters(items, labelScans, scanFails, views, failing, n - 1);
      if Parsed(labelScans[n - 1]) && Letters[n - 1] !in scanFails
      then SyncLetter(before, Letters[n - 1], views[n - 1], failing)
      else before
  }

  /** The table after the first n letters depends only on the indexes of
      those letters. */
  lemma {:induction false} AfterLettersFrame(items: map<string, seq<string>>, labelScans: seq<Option<seq<Item>>>,
                                             scanFails: set<char>, views: seq<seq<map<string, EntryState>>>,
                                             views': seq<seq<map<string, EntryState>>>, failing: set<string>, n: nat)
    requires n <= |labelScans| && n <= |views| && n <= |views'| && n <= |Letters|
    requires forall k | 0 <= k < n && Parsed(labelScans[k]) :: |views[k]| == MaxPrefixLength
    requires forall k | 0 <= k < n :: views'[k] == views[k]
    ensures AfterLetters(items, labelScans, scanFails, views', failing, n) ==
            AfterLetters(items, labelScans, scanFails, views, failing, n)
    decreases n
  {
    if n > 0 {
      AfterLettersFrame(items, labelScans, scanFails, views, views', failing, n - 1);
    }
  }

  /** The index computed from a letter's records: the fifteen complete
      dictionaries. */
  ghost predicate IndexOf(view: seq<map<string, EntryState>>, records: seq<LabelRecord>) {
    |view| == MaxPrefixLength && forall i | 0 <= i < MaxPrefixLength :: Complete(view[i], i + 1, records)
  }

  /** The index computed for each of the first n letters whose labels
      were read. */
  ghost predicate Indexes(labelScans: seq<Option<seq<Item>>>, views: seq<seq<map<string, EntryState>>>, n: nat)
    requires n <= |labelScans| && n <= |views|
  {
    forall k | 0 <= k < n && Parsed(labelScans[k]) :: IndexOf(views[k], Records(labelScans[k].value).value)
  }

  /** One more letter: recording its index (if its labels were read) and
      synchronising the table with it (unless its update raised). */
  lemma AfterLettersStep(items: map<string, seq<string>>, labelScans: seq<Option<seq<Item>>>,
                         scanFails: set<char>, views: seq<seq<map<string, EntryState>>>, failing: set<string>,
                         k: nat, view: seq<map<string, EntryState>>)
    requires k < |labelScans| == |views| == |Letters|
    requires Indexes(labelScans, views, k)
    requires Parsed(labelScans[k]) ==> IndexOf(view, Records(labelScans[k].value).value)
    ensures Indexes(labelScans, views[k := view], k + 1)
    ensures AfterLetters(items, labelScans, scanFails, views[k := view], failing, k + 1) ==
      var before := AfterLetters(items, labelScans, scanFails, views, failing, k);
      if Parsed(labelScans[k]) && Letters[k] !in scanFails then SyncLetter(before, Letters[k], view, failing) else before
  {
    AfterLettersFrame(items, labelScans, scanFails, views, views[k := view], failing, k);
  }

  /** One letter of lambda_handler: compute its index and synchronise the
      table with it. An item _compute_suggestions cannot read, or a raised
      table update, marks the letter failed and leaves the table as it
      was. */
  method ProcessLetter(table: Table, letter: char, scanFails: bool, items: seq<Item>)
    returns (failed: bool, ghost view: seq<map<string, EntryState>>)
    modifies table
    ensures failed <==> Records(items).None? || scanFails
    ensures Records(items).Some? ==> IndexOf(view, Records(items).value)
    ensures table.items == if failed then old(table.items) else SyncLetter(old(table.items), letter, view, table.failing)
  {
    var records := Records(items);
    if records.None? {
      return true, [];
    }
    var dicts;
    dicts, view := ComputeSuggestions(records.value);
    var r := UpdateTable(table, letter, scanFails, dicts, view);
    failed := r.Err?;
  }

  /** lambda_handler: the letters a to z in turn; a letter whose label scan
      fails is skipped, one whose suggestions cannot be computed or whose
      table update raises is reported failed, and the others are
      synchronised. A failing connection answers 500
      and writes nothing. */
  method Handler(table: Table, connectFails: bool, labelScans: seq<Option<seq<Item>>>, scanFails: set<char>)
    returns (r: Response, ghost views: seq<seq<map<string, EntryState>>>)
    requires |labelScans| == |Letters|
    modifies table
    ensures |views| == |Letters|
    ensures connectFails ==> r == InternalError && table.items == old(table.items)
    ensures !connectFails ==>
      Indexes(labelScans, views, |Letters|) &&
      r == Completed(FailedLetters(labelScans, scanFails, |Letters|)) &&
      table.items == AfterLetters(old(table.items), labelScans, scanFails, views, table.failing, |Letters|)
  {
    views := seq(|Letters|, _ => []);
    if connectFails {
      return InternalError, views;
    }
    var failedLetters := [];
    for k := 0 to |Letters|
      invariant |views| == |Letters| && Indexes(labelScans, views, k)
      invariant failedLetters == FailedLetters(labelScans, scanFails, k)
      invariant table.items == AfterLetters(old(table.items), labelScans, scanFails, views, table.failing, k)
    {
      if labelScans[k].None? {
        AfterLettersStep(old(table.items), labelScans, scanFails, views, table.failing, k, []);
        views := views[k := []];
        continue;
      }
      var failed; ghost var view;
      failed, view := ProcessLetter(table, Letters[k], Letters[k] in scanFails, labelScans[k].value);
      AfterLettersStep(old(table.items), labelScans, scanFails, views, table.failing, k, view);
      views := views[k := view];
      if failed {
        failedLetters := failedLetters + [Letters[k]];
      }
    }
    r := Completed(failedLetters);
  }
}
