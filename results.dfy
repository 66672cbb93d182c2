/**
 * The result store and the two operations on it: merging an uploaded batch
 * (the loop over new_results_data in upload_results) and looking a student up
 * (get_student_results). The store is the dict that load_results reads and
 * save_results writes back, keyed by the upper-cased student id.
 */
module Results {
  import opened Optional
  import opened Text
  import opened Ingest

  type Store = map<string, StudentRecord>

  /** The merge loop writes `record` under `key`: its id is non-empty and upper-cases to `key`. */
  predicate Writes(record: StudentRecord, key: string) {
    record.studentId != "" && Upper(record.studentId) == key
  }

  /** One step of the loop: `if student_id: all_results[student_id.upper()] = student_data`. */
  function Put(store: Store, record: StudentRecord): Store {
    if record.studentId != "" then store[Upper(record.studentId) := record] else store
  }

  /** The store after the loop has run over the whole batch, one record after the other. */
  function Merged(store: Store, batch: seq<StudentRecord>): Store {
    if batch == [] then store
    else Put(Merged(store, batch[..|batch| - 1]), batch[|batch| - 1])
  }

  /**
   * The reference for what a merge leaves under `key`: the last record of the
   * batch that writes `key`, if there is one.
   */
  function LastFor(batch: seq<StudentRecord>, key: string): (r: Option<StudentRecord>)
    ensures r.Some? ==> Writes(r.value, key) && r.value in batch
    ensures r.None? <==> forall k :: 0 <= k < |batch| ==> !Writes(batch[k], key)
  {
    if batch == [] then None
    else if Writes(batch[|batch| - 1], key) then Some(batch[|batch| - 1])
    else
      var r := LastFor(batch[..|batch| - 1], key);
      assert forall k :: 0 <= k < |batch| - 1 ==> batch[k] == batch[..|batch| - 1][k];
      r
  }

  /** The keys a batch writes. */
  function WrittenKeys(batch: seq<StudentRecord>): (keys: set<string>)
    ensures forall key :: key in keys <==> LastFor(batch, key).Some?
  {
    if batch == [] then {}
    else
      var last := batch[|batch| - 1];
      WrittenKeys(batch[..|batch| - 1]) + (if last.studentId != "" then {Upper(last.studentId)} else {})
  }

  /**
   * The merge loop: whole-record replacement, one record after the other, of
   * every record with a non-empty id under its upper-cased id.
   */
  method MergeBatch(store: Store, batch: seq<StudentRecord>) returns (merged: Store)
    ensures merged == Merged(store, batch)
  {
    merged := store;
    var i := 0;
    while i < |batch|
      invariant 0 <= i <= |batch|
      invariant merged == Merged(store, batch[..i])
    {
      var studentId := batch[i].studentId;
      if studentId != "" {
        merged := merged[Upper(studentId) := batch[i]];
      }
      assert batch[..i + 1][..i] == batch[..i];
      i := i + 1;
    }
    assert batch[..i] == batch;
  }

  /**
   * After a merge, each key holds the last record of the batch that writes it
   * (the last write wins); every key the batch does not write keeps what it
   * held before, and is present exactly when it was.
   */
  lemma {:induction false} MergedAt(store: Store, batch: seq<StudentRecord>, key: string)
    ensures key in Merged(store, batch) <==> key in store || LastFor(batch, key).Some?
    ensures LastFor(batch, key).Some? ==> Merged(store, batch)[key] == LastFor(batch, key).value
    ensures LastFor(batch, key).None? && key in store ==> Merged(store, batch)[key] == store[key]
  {
    if batch != [] {
      MergedAt(store, batch[..|batch| - 1], key);
    }
  }

  /** The keys after a merge are the old keys and the keys the batch writes. */
  lemma {:induction false} MergedKeys(store: Store, batch: seq<StudentRecord>)
    ensures Merged(store, batch).Keys == store.Keys + WrittenKeys(batch)
  {
    forall key ensures key in Merged(store, batch) <==> key in store || key in WrittenKeys(batch) {
      MergedAt(store, batch, key);
    }
  }

  /** Students the batch does not mention are untouched. */
  lemma {:induction false} MergeKeepsOthers(store: Store, batch: seq<StudentRecord>, key: string)
    requires forall k :: 0 <= k < |batch| ==> !Writes(batch[k], key)
    ensures key in Merged(store, batch) <==> key in store
    ensures key in store ==> Merged(store, batch)[key] == store[key]
  {
    MergedAt(store, batch, key);
  }

  /** Merging the same batch twice leaves the store as merging it once. */
  lemma MergeIdempotent(store: Store, batch: seq<StudentRecord>)
    ensures Merged(Merged(store, batch), batch) == Merged(store, batch)
  {
    var once := Merged(store, batch);
    var twice := Merged(once, batch);
    forall key ensures (key in twice <==> key in once) && (key in twice ==> twice[key] == once[key]) {
      MergedAt(store, batch, key);
      MergedAt(once, batch, key);
    }
  }

  /**
   * Every record a merge adds to the store comes from the batch and has a
   * non-empty id: records without an id never reach the store.
   */
  lemma {:induction false} MergedRecordsFromBatch(store: Store, batch: seq<StudentRecord>)
    ensures forall r :: r in Merged(store, batch).Values && r !in store.Values ==> r in batch && r.studentId != ""
  {
    var merged := Merged(store, batch);
    forall r | r in merged.Values && r !in store.Values ensures r in batch && r.studentId != "" {
      var key :| key in merged && merged[key] == r;
      MergedAt(store, batch, key);
    }
  }

  /** Every key a batch writes is in upper case already: Upper leaves it as it is. */
  lemma WrittenKeysAreUpper(batch: seq<StudentRecord>, key: string)
    requires key in WrittenKeys(batch)
    ensures Upper(key) == key
  {
    var r := LastFor(batch, key).value;
    UpperIdempotent(r.studentId);
  }

  /** A batch of n records writes at most n students: duplicates share a key. */
  lemma {:induction false} WrittenKeysAtMost(batch: seq<StudentRecord>)
    ensures |WrittenKeys(batch)| <= |batch|
  {
    if batch != [] {
      WrittenKeysAtMost(batch[..|batch| - 1]);
    }
  }

  /**
   * `all_results.get(student_id.upper())`: whichever letter case the id is
   * asked in, there is a result exactly when the upper-cased form of that
   * spelling is a key, and then it is the record stored there.
   */
  function Lookup(store: Store, studentId: string): (r: Option<StudentRecord>)
    ensures forall q :: SameIgnoringCase(q, studentId) ==>
      && (r.Some? <==> Upper(q) in store)
      && (r.Some? ==> r.value == store[Upper(q)])
  {
    assert forall q :: SameIgnoringCase(q, studentId) ==> Upper(q) == Upper(studentId) by {
      forall q | SameIgnoringCase(q, studentId) ensures Upper(q) == Upper(studentId) {
        UpperIgnoresCase(q, studentId);
      }
    }
    if Upper(studentId) in store then Some(store[Upper(studentId)]) else None
  }

  /** Lookup ignores ASCII case: ids that differ only in case find the same result. */
  lemma LookupIgnoresCase(store: Store, a: string, b: string)
    requires SameIgnoringCase(a, b)
    ensures Lookup(store, a) == Lookup(store, b)
  {
    UpperIgnoresCase(a, b);
  }

  /**
   * After a merge, looking a student up by the id of any record of the batch,
   * in any letter case, finds the last record of the batch with that
   * upper-cased id.
   */
  lemma LookupAfterMerge(store: Store, batch: seq<StudentRecord>, i: nat, query: string)
    requires i < |batch| && batch[i].studentId != ""
    requires SameIgnoringCase(query, batch[i].studentId)
    requires forall j :: i < j < |batch| ==> !Writes(batch[j], Upper(batch[i].studentId))
    ensures Lookup(Merged(store, batch), query) == Some(batch[i])
  {
    var key := Upper(batch[i].studentId);
    UpperIgnoresCase(query, batch[i].studentId);
    LastForIsLast(batch, i, key);
    MergedAt(store, batch, key);
  }

  /** LastFor picks the last writer: a record of the batch that no later record overwrites. */
  lemma {:induction false} LastForIsLast(batch: seq<StudentRecord>, i: nat, key: string)
    requires i < |batch| && Writes(batch[i], key)
    requires forall j :: i < j < |batch| ==> !Writes(batch[j], key)
    ensures LastFor(batch, key) == Some(batch[i])
  {
    if i < |batch| - 1 {
      var front := batch[..|batch| - 1];
      assert forall j :: i < j < |front| ==> front[j] == batch[j];
      LastForIsLast(front, i, key);
    }
  }

  /**
   * For example, ids "cs01" and "CS01" in one batch are two uploaded records
   * but one student: the second replaces the first.
   */
  lemma DuplicateIdsShareOneKey(store: Store, first: StudentRecord, second: StudentRecord)
    requires first.studentId == "cs01" && second.studentId == "CS01"
    ensures Merged(store, [first, second]) == store["CS01" := second]
  {
    assert Upper("cs01") == "CS01";
    assert Upper("CS01") == "CS01";
    assert [first, second][..1] == [first];
    assert [first][..0] == [];
    assert Merged(store, [first]) == store["CS01" := first];
    assert Merged(store, [first, second]) == store["CS01" := first]["CS01" := second];
  }
}
