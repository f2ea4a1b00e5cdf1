/** One tick of the sweep: the range scan over the TTL namespace and the two
    delete batches built from the rows it yields. */
module Sweep {
  import opened Encoding
  import opened Index

  /** The rows the range scan `[START, START + now + '~']` yields at `now`. */
  function Scan(sub: map<string, string>, now: nat): (rows: set<string>)
    ensures rows <= sub.Keys
  {
    set r | r in sub && InScan(r, Pad(now))
  }

  /** The keys those rows name: a row's value is the key that expires. */
  function Expired(sub: map<string, string>, now: nat): set<string>
  {
    Names(sub, Scan(sub, now))
  }

  /** The values of the given rows. */
  function Names(sub: map<string, string>, rows: set<string>): set<string>
    requires rows <= sub.Keys
  {
    set r | r in rows :: sub[r]
  }

  lemma NamesAdd(sub: map<string, string>, rows: set<string>, r: string)
    requires rows <= sub.Keys && r in sub
    ensures Names(sub, rows + {r}) == Names(sub, rows) + {sub[r]}
  {
  }

  /** The two batches hold the deletes for the rows in `done`. */
  ghost predicate Collected(sub: map<string, string>, done: set<string>, subBatch: seq<Op>, batch: seq<Op>)
    requires done <= sub.Keys
  {
    AllDeletes(subBatch) && AllDeletes(batch)
    && OpKeys(subBatch) == done + Names(sub, done)
    && OpKeys(batch) == Names(sub, done)
    && |batch| == |done| && |subBatch| == 2 * |batch|
  }

  /** The sweep's data handler, run over every row the scan yields: the index
      batch deletes the row and the forward entry it names, the data batch
      deletes the key it names. */
  method CollectExpired(sub: map<string, string>, rows: set<string>) returns (subBatch: seq<Op>, batch: seq<Op>)
    requires rows <= sub.Keys
    ensures AllDeletes(subBatch) && AllDeletes(batch)
    ensures OpKeys(subBatch) == rows + Names(sub, rows)
    ensures OpKeys(batch) == Names(sub, rows)
    ensures |batch| == |rows| && |subBatch| == 2 * |batch|
  {
    var done := {};
    subBatch, batch := [], [];
    while done != rows
      invariant done <= rows
      invariant Collected(sub, done, subBatch, batch)
      decreases |rows - done|
    {
      var r :| r in rows - done;
      CollectStep(sub, done, r, subBatch, batch);
      subBatch := subBatch + [Del(r), Del(sub[r])];
      batch := batch + [Del(sub[r])];
      done := done + {r};
    }
  }

  /** One row's deletes added to the two batches. */
  lemma CollectStep(sub: map<string, string>, done: set<string>, r: string, subBatch: seq<Op>, batch: seq<Op>)
    requires done <= sub.Keys && r in sub && r !in done
    requires Collected(sub, done, subBatch, batch)
    ensures Collected(sub, done + {r}, subBatch + [Del(r), Del(sub[r])], batch + [Del(sub[r])])
  {
    OpKeysAppend(subBatch, Del(r), Del(sub[r]));
    OpKeysSnoc(batch, Del(sub[r]));
    NamesAdd(sub, done, r);
  }

  /** What the sweep's two batches do: the index batch, written only when
      there is something to delete, removes the rows and the keys they name
      and keeps the index consistent; the data batch removes the keys. */
  lemma SweepBatches(sub: map<string, string>, data: map<string, string>, sep: string, rows: set<string>,
                     subBatch: seq<Op>, batch: seq<Op>)
    requires Indexed(sub, sep)
    requires rows <= sub.Keys && forall r :: r in rows ==> IsIndexKey(r)
    requires AllDeletes(subBatch) && AllDeletes(batch)
    requires OpKeys(subBatch) == rows + Names(sub, rows)
    requires OpKeys(batch) == Names(sub, rows) && |batch| == |rows|
    ensures var after := if |batch| > 0 then ApplyBatch(sub, subBatch) else sub;
            after == sub - (rows + Names(sub, rows))
            && Indexed(after, sep)
            && (forall k :: Tracked(after, k) <==> Tracked(sub, k) && k !in Names(sub, rows))
    ensures ApplyBatch(data, batch) == data - Names(sub, rows)
  {
    SweepPreservesIndex(sub, sep, rows);
    ApplyDeletes(sub, subBatch);
    ApplyDeletes(data, batch);
    if |batch| == 0 {
      assert rows == {};
      assert Names(sub, rows) == {};
    }
  }

  /** The scan yields only reverse entries. */
  lemma ScanRows(sub: map<string, string>, now: nat)
    ensures forall r :: r in Scan(sub, now) ==> IsIndexKey(r)
  {
    forall r | r in Scan(sub, now)
      ensures IsIndexKey(r)
    {
      ScanOnlyIndexKeys(r, Pad(now));
    }
  }

  /** Every key a reverse entry names is a tracked key. */
  lemma NamesAreTracked(sub: map<string, string>, sep: string, rows: set<string>)
    requires Indexed(sub, sep)
    requires rows <= sub.Keys && forall r :: r in rows ==> IsIndexKey(r)
    ensures forall r :: r in rows ==> Tracked(sub, sub[r])
  {
    forall r | r in rows
      ensures Tracked(sub, sub[r])
    {
      assert EntryOk(sub, sep, r);
      assert ReverseOk(sub, sep, r);
    }
  }

  /** The sweep keeps the index consistent: deleting reverse entries together
      with the keys they name removes whole forward/reverse pairs, stops
      tracking exactly the named keys and leaves every other entry as it was. */
  lemma SweepPreservesIndex(sub: map<string, string>, sep: string, rows: set<string>)
    requires Indexed(sub, sep)
    requires rows <= sub.Keys && forall r :: r in rows ==> IsIndexKey(r)
    ensures var r := sub - (rows + Names(sub, rows));
            Indexed(r, sep)
            && (forall k :: Tracked(r, k) <==> Tracked(sub, k) && k !in Names(sub, rows))
  {
    var gone := Names(sub, rows);
    var r := sub - (rows + gone);
    NamesAreTracked(sub, sep, rows);
    forall x | x in r
      ensures EntryOk(r, sep, x)
    {
      assert EntryOk(sub, sep, x);
      if IsIndexKey(x) {
        forall y | y in rows
          ensures sub[y] != sub[x]
        {
          assert EntryOk(sub, sep, y);
          assert ReverseOk(sub, sep, y);
        }
      }
    }
  }

  /** The sweep deletes a tracked key exactly when its deadline is at or
      before `now`, the deadline equal to `now` included, provided deadlines
      and clock are rendered at the same width. */
  lemma SweepExactlyDue(sub: map<string, string>, sep: string, now: nat, k: string)
    requires Indexed(sub, sep) && GoodSeparator(sep)
    requires Tracked(sub, k) && |sub[k]| == WIDTH && now < Pow10(WIDTH)
    ensures ForwardOk(sub, sep, k)
    ensures k in Expired(sub, now) <==> Value(sub[k]) <= now
  {
    assert EntryOk(sub, sep, k);
    assert ForwardOk(sub, sep, k);
    var rk := ExpirationKey(sub[k], sep, k);
    ScanBoundary(sub[k], Pad(now), sep, k);
    if k in Expired(sub, now) {
      var r :| r in Scan(sub, now) && sub[r] == k;
      ScanOnlyIndexKeys(r, Pad(now));
      assert EntryOk(sub, sep, r);
      assert ReverseOk(sub, sep, r);
      assert r == rk;
    } else {
      assert rk !in Scan(sub, now);
    }
  }
}
