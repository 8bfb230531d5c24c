/**
 * The `Companies` table as the upload's `upsert(enrichedData, { onConflict:
 * "company_name,domain", ignoreDuplicates: false })` sees it: at most one row per
 * natural key, and an incoming record replaces the row with its key.
 */
module CompanyStore {
  import opened Wrappers
  import opened Schema

  /** The keys of a batch. */
  function KeysOf(batch: seq<Company>): (ks: set<Key>)
    ensures forall i :: 0 <= i < |batch| ==> KeyOf(batch[i]) in ks
    ensures forall k :: k in ks ==> exists i :: 0 <= i < |batch| && KeyOf(batch[i]) == k
  {
    set c | c in batch :: KeyOf(c)
  }

  /** No two records of the batch share a key. */
  predicate DistinctKeys(batch: seq<Company>) {
    forall i, j :: 0 <= i < j < |batch| ==> KeyOf(batch[i]) != KeyOf(batch[j])
  }

  /** Every row is stored under its own key. */
  predicate Keyed(rows: map<Key, Company>) {
    forall k :: k in rows ==> KeyOf(rows[k]) == k
  }

  /** The table after the batch is applied record by record, each record replacing or adding
      the row with its key. */
  function Upserted(rows: map<Key, Company>, batch: seq<Company>): (r: map<Key, Company>)
    ensures r.Keys == rows.Keys + KeysOf(batch)
    ensures forall k :: k in rows && k !in KeysOf(batch) ==> r[k] == rows[k]
    ensures Keyed(rows) ==> Keyed(r)
    decreases |batch|
  {
    if batch == [] then rows
    else
      var r := Upserted(rows[KeyOf(batch[0]) := batch[0]], batch[1..]);
      assert KeysOf(batch) == {KeyOf(batch[0])} + KeysOf(batch[1..]) by {
        assert forall c :: c in batch <==> c == batch[0] || c in batch[1..];
      }
      r
  }

  /** A record no later record of the batch shares a key with is the row under its key afterwards. */
  lemma {:induction false} LastRecordWins(rows: map<Key, Company>, batch: seq<Company>, i: int)
    requires 0 <= i < |batch| && KeyOf(batch[i]) !in KeysOf(batch[i + 1..])
    ensures Upserted(rows, batch)[KeyOf(batch[i])] == batch[i]
    decreases |batch|
  {
    var next := rows[KeyOf(batch[0]) := batch[0]];
    if i == 0 {
      assert KeyOf(batch[0]) !in KeysOf(batch[1..]);
    } else {
      assert batch[i + 1..] == batch[1..][i - 1 + 1..];
      LastRecordWins(next, batch[1..], i - 1);
    }
  }

  /** With distinct keys every record of the batch ends up stored. */
  lemma {:induction false} DistinctBatchStored(rows: map<Key, Company>, batch: seq<Company>, i: int)
    requires DistinctKeys(batch) && 0 <= i < |batch|
    ensures Upserted(rows, batch)[KeyOf(batch[i])] == batch[i]
  {
    forall c | c in batch[i + 1..] ensures KeyOf(c) != KeyOf(batch[i]) {
      var j :| 0 <= j < |batch[i + 1..]| && batch[i + 1..][j] == c;
      assert batch[i + 1..][j] == batch[i + 1 + j];
    }
    LastRecordWins(rows, batch, i);
  }

  /** Submitting the same batch twice leaves the table as one submission does. */
  lemma {:induction false} UpsertIdempotent(rows: map<Key, Company>, batch: seq<Company>)
    requires DistinctKeys(batch)
    ensures Upserted(Upserted(rows, batch), batch) == Upserted(rows, batch)
  {
    var once := Upserted(rows, batch);
    var twice := Upserted(once, batch);
    forall k | k in twice ensures twice[k] == once[k] {
      if k in KeysOf(batch) {
        var i :| 0 <= i < |batch| && KeyOf(batch[i]) == k;
        DistinctBatchStored(rows, batch, i);
        DistinctBatchStored(once, batch, i);
      }
    }
  }

  /** A later batch overrides an earlier one on the keys they share; other keys of the earlier
      batch keep its records. */
  lemma {:induction false} LaterBatchWins(rows: map<Key, Company>, first: seq<Company>, second: seq<Company>, k: Key)
    requires DistinctKeys(first) && DistinctKeys(second)
    requires k in KeysOf(first) + KeysOf(second)
    ensures k in Upserted(Upserted(rows, first), second)
    ensures k in KeysOf(second) ==>
      KeyOf(Upserted(Upserted(rows, first), second)[k]) == k && Upserted(Upserted(rows, first), second)[k] in second
    ensures k !in KeysOf(second) ==>
      KeyOf(Upserted(Upserted(rows, first), second)[k]) == k && Upserted(Upserted(rows, first), second)[k] in first
  {
    var once := Upserted(rows, first);
    if k in KeysOf(second) {
      var i :| 0 <= i < |second| && KeyOf(second[i]) == k;
      DistinctBatchStored(once, second, i);
    } else {
      var i :| 0 <= i < |first| && KeyOf(first[i]) == k;
      DistinctBatchStored(rows, first, i);
    }
  }

  /** PostgreSQL refuses an `INSERT ... ON CONFLICT DO UPDATE` whose rows hit one key twice. */
  const CardinalityViolation := "ON CONFLICT DO UPDATE command cannot affect row a second time"

  class Store {
    /** The table, by natural key. */
    var rows: map<Key, Company>

    predicate Valid()
      reads this
    {
      Keyed(rows)
    }

    constructor ()
      ensures Valid() && rows == map[]
    {
      rows := map[];
    }

    /** The upsert: the whole batch, or nothing and an error when two of its records share a key. */
    method Upsert(batch: seq<Company>) returns (error: Option<string>)
      requires Valid()
      modifies this
      ensures Valid()
      ensures error.None? <==> DistinctKeys(batch)
      ensures error.Some? ==> error.value == CardinalityViolation && rows == old(rows)
      ensures error.None? ==> rows == Upserted(old(rows), batch)
    {
      if DistinctKeys(batch) {
        rows := Upserted(rows, batch);
        error := None;
      } else {
        error := Some(CardinalityViolation);
      }
    }

    /** The row stored under `key`, if there is one. */
    function Lookup(key: Key): (r: Option<Company>)
      reads this
      requires Valid()
      ensures r.Some? <==> key in rows
      ensures r.Some? ==> r.value == rows[key] && KeyOf(r.value) == key
    {
      if key in rows then Some(rows[key]) else None
    }
  }

  /** After an accepted upsert each record of the batch is the row under its key, and every
      other row is as before. */
  lemma AcceptedUpsert(before: map<Key, Company>, batch: seq<Company>, k: Key)
    requires Keyed(before) && DistinctKeys(batch)
    ensures k in KeysOf(batch) ==> exists i :: 0 <= i < |batch| && Upserted(before, batch)[k] == batch[i] && KeyOf(batch[i]) == k
    ensures k !in KeysOf(batch) ==>
      (k in Upserted(before, batch) <==> k in before) && (k in before ==> Upserted(before, batch)[k] == before[k])
  {
    if k in KeysOf(batch) {
      var i :| 0 <= i < |batch| && KeyOf(batch[i]) == k;
      DistinctBatchStored(before, batch, i);
    }
  }
}
