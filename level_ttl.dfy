/** A store wrapped for TTL support: the user data, the TTL namespace, and the
    sweep scheduler's fields, with the wrapped operations as methods. Each
    operation's chain of callbacks is one atomic step; the interval timer is
    the flag `timerActive`, and one timer tick is `BeginCheck`, then
    `SweepExpired` (the stream's rows and its end), then `EndCheck` (the
    stream's close). */
module LevelTtl {
  import opened Encoding
  import opened Index
  import opened Sweep
  import opened Coordinator

  /** A callback handed to `stopTtl`: a caller's function, or the one `close`
      passes, which closes the underlying store and then calls the caller's
      own callback, if one was given. */
  datatype Callback = Notify(id: nat) | CloseStore(next: Option<nat>)

  /** The caller callbacks a callback runs, in order. */
  function Fires(cb: Callback): seq<nat>
  {
    match cb
    case Notify(id) => [id]
    case CloseStore(next) => if next.Some? then [next.value] else []
  }

  /** Options of `setup` that the model keeps; each may be left out. */
  datatype SetupOptions = SetupOptions(separator: Option<string>, defaultTtl: Option<int>, checkFrequency: Option<nat>)

  /** `ttloff` as a relation between the namespace before and after. */
  ghost predicate Cleared(before: map<string, string>, after: map<string, string>, sep: string, keys: seq<string>)
  {
    after == before - ClearTargets(before, sep, keys)
  }

  /** `ttlon` as a relation: the keys are tracked with deadline `exp` and a
      reverse entry naming them, and every other tracked key keeps its entry. */
  ghost predicate Stamped(before: map<string, string>, after: map<string, string>, sep: string, keys: seq<string>, exp: string)
  {
    (forall k :: Tracked(after, k) <==> Tracked(before, k) || k in keys)
    && (forall k :: k in keys ==> after[k] == exp && ExpirationKey(exp, sep, k) in after && after[ExpirationKey(exp, sep, k)] == k)
    && (forall k :: Tracked(before, k) && k !in keys ==> after[k] == before[k])
  }

  /** `batch`'s index update as a relation: the delete keys lose their
      tracking and the put keys, deleted too or not, carry deadline `exp`;
      every tracked key named in neither list keeps its entry. */
  ghost predicate BatchStamped(before: map<string, string>, after: map<string, string>, entries: seq<Entry>, exp: string)
  {
    (forall k :: Tracked(after, k) <==> (Tracked(before, k) && k !in ClearKeys(entries)) || k in SetKeys(entries))
    && (forall k :: k in SetKeys(entries) ==> k in after && after[k] == exp)
    && (forall k :: Tracked(before, k) && k !in SetKeys(entries) && k !in ClearKeys(entries) ==>
          k in after && after[k] == before[k])
  }

  /** Writing the `ttlon` batch over the namespace that `ttloff` left for the
      same keys keeps the index consistent and stamps the keys. */
  lemma StampAfterClear(before: map<string, string>, mid: map<string, string>, ops: seq<Op>,
                        keys: seq<string>, exp: string, sep: string)
    requires GoodSeparator(sep) && Indexed(mid, sep) && IsStamp(exp)
    requires StampOps(ops, keys, exp, sep)
    requires forall k :: k in keys ==> !IsIndexKey(k)
    requires forall k :: Tracked(mid, k) <==> Tracked(before, k) && k !in keys
    requires forall k :: k in mid ==> k in before && mid[k] == before[k]
    ensures Indexed(ApplyBatch(mid, ops), sep)
    ensures Stamped(before, ApplyBatch(mid, ops), sep, keys, exp)
  {
    StampPreservesIndex(mid, ops, keys, exp, sep);
    StampEffect(mid, ops, keys, exp, sep);
    var after := ApplyBatch(mid, ops);
    forall k | Tracked(before, k) && k !in keys
      ensures after[k] == before[k]
    {
      assert k !in RevKeys(exp, sep, keys);
    }
  }

  /** `batch` clears its put keys and its delete keys, both looked up in the
      namespace as the batch found it, and then stamps its put keys: a key in
      both lists ends up tracked with the new deadline, and a tracked key it
      names in neither list keeps its deadline. */
  lemma ClearThenStamp(before: map<string, string>, mid: map<string, string>, after: map<string, string>,
                       on: seq<string>, off: seq<string>, exp: string, sep: string)
    requires forall k :: Tracked(mid, k) <==> Tracked(before, k) && k !in on && k !in off
    requires forall k :: k in mid ==> k in before && mid[k] == before[k]
    requires on != [] ==> Stamped(mid, after, sep, on, exp)
    requires on == [] ==> after == mid
    ensures forall k :: Tracked(after, k) <==> (Tracked(before, k) && k !in off) || k in on
    ensures forall k :: k in on ==> k in after && after[k] == exp
    ensures forall k :: Tracked(before, k) && k !in on && k !in off ==> k in after && after[k] == before[k]
  {
  }

  /** When none of the put keys is tracked, `ttlon` writes its put batch
      without waiting for a delete batch, so it may land before the delete
      batch of `ttloff`; the two touch different entries, and either order
      gives the same namespace. */
  lemma StampCommutesWithClear(before: map<string, string>, ops: seq<Op>,
                               on: seq<string>, off: seq<string>, exp: string, sep: string)
    requires GoodSeparator(sep) && Indexed(before, sep) && IsStamp(exp)
    requires StampOps(ops, on, exp, sep)
    requires forall k :: k in on ==> !IsIndexKey(k)
    requires forall k :: k in off ==> !IsIndexKey(k)
    requires ClearTargets(before, sep, on) == {}
    ensures ApplyBatch(before, ops) - ClearTargets(before, sep, off)
            == ApplyBatch(before - ClearTargets(before, sep, off), ops)
  {
    StampAvoidsClear(before, on, off, exp, sep);
    StampOpKeys(ops, on, exp, sep);
    BatchCommutesWithDeletes(before, ops, ClearTargets(before, sep, off));
  }

  /** The entries a `ttlon` that finds none of its keys writes are not among
      those a `ttloff` of other lookups deletes. */
  lemma StampAvoidsClear(before: map<string, string>, on: seq<string>, off: seq<string>, exp: string, sep: string)
    requires GoodSeparator(sep) && Indexed(before, sep) && IsStamp(exp)
    requires forall k :: k in on ==> !IsIndexKey(k)
    requires ClearTargets(before, sep, on) == {}
    requires forall k :: k in off ==> !IsIndexKey(k)
    ensures forall x :: x in ClearTargets(before, sep, off) ==> x !in on && x !in RevKeys(exp, sep, on)
  {
    assert forall k :: k in on && k in before && IsStamp(before[k]) ==> k in ClearTargets(before, sep, on);
    forall k, j | k in on && j in off && j in before && IsStamp(before[j])
      ensures ExpirationKey(exp, sep, k) != ExpirationKey(before[j], sep, j)
    {
      ExpirationKeyInjective(exp, before[j], sep, k, j);
    }
  }

  /** The lists `batch` builds hold only keys of its entries. */
  lemma UserKeysPartition(entries: seq<Entry>)
    requires forall i :: 0 <= i < |entries| && entries[i].Entry? && entries[i].key.Val? ==> !IsIndexKey(entries[i].key.s)
    ensures forall k :: k in SetKeys(entries) ==> !IsIndexKey(k)
    ensures forall k :: k in ClearKeys(entries) ==> !IsIndexKey(k)
  {
    PartitionMembers(entries);
  }

  class Db {
    /** The user data. */
    var primary: map<string, string>
    /** The TTL namespace: forward and reverse index entries. */
    var sub: map<string, string>
    /** `db._ttl` is set. */
    var installed: bool
    var separator: string
    var defaultTtl: int
    var checkFrequency: nat
    /** The interval is scheduled and not cleared. */
    var timerActive: bool
    var checkInProgress: bool
    var stopAfterCheck: Option<Callback>
    /** The underlying store's close has run. */
    var storeClosed: bool
    /** The caller callbacks run so far, in order. */
    var fired: seq<nat>

    ghost predicate Valid()
      reads this
    {
      (installed ==> GoodSeparator(separator) && Indexed(sub, separator))
      && (!installed ==> !timerActive && !checkInProgress)
      && (stopAfterCheck.Some? ==> checkInProgress)
    }

    /** A store holding `data`, whose TTL namespace holds `ttlSpace`, before `setup`. */
    constructor (data: map<string, string>, ttlSpace: map<string, string>)
      ensures Valid() && !installed
      ensures primary == data && sub == ttlSpace
      ensures !timerActive && !checkInProgress && stopAfterCheck == None
      ensures !storeClosed && fired == []
    {
      primary, sub := data, ttlSpace;
      installed := false;
      separator, defaultTtl, checkFrequency := DEFAULT_SEPARATOR, 0, DEFAULT_FREQUENCY;
      timerActive, checkInProgress, stopAfterCheck := false, false, None;
      storeClosed, fired := false, [];
    }

    /** `setup`: a second call is a no-op; the first fills in the option
        defaults and starts the timer. */
    method Setup(opts: SetupOptions)
      requires Valid()
      requires !installed ==> var sep := if opts.separator.Some? then opts.separator.value else DEFAULT_SEPARATOR;
                              GoodSeparator(sep) && Indexed(sub, sep)
      modifies this
      ensures Valid() && installed
      ensures old(installed) ==> unchanged(this)
      ensures !old(installed) ==>
                separator == (if opts.separator.Some? then opts.separator.value else DEFAULT_SEPARATOR)
                && defaultTtl == (if opts.defaultTtl.Some? then opts.defaultTtl.value else 0)
                && checkFrequency == (if opts.checkFrequency.Some? then opts.checkFrequency.value else DEFAULT_FREQUENCY)
                && timerActive && !checkInProgress
                && primary == old(primary) && sub == old(sub) && fired == old(fired) && storeClosed == old(storeClosed)
    {
      if installed {
        return;
      }
      separator := if opts.separator.Some? then opts.separator.value else DEFAULT_SEPARATOR;
      defaultTtl := if opts.defaultTtl.Some? then opts.defaultTtl.value else 0;
      checkFrequency := if opts.checkFrequency.Some? then opts.checkFrequency.value else DEFAULT_FREQUENCY;
      installed := true;
      timerActive := true;
    }

    // -------------------------------------------------------------------
    // Expiration index maintenance

    /** `ttloff`: looks up each key's deadline and deletes both of its index
        entries in one batch; a key that is not found adds nothing. */
    method TtlOff(keys: seq<string>)
      requires Valid() && installed
      requires forall k :: k in keys ==> !IsIndexKey(k)
      modifies this`sub
      ensures Valid()
      ensures Cleared(old(sub), sub, separator, keys)
      ensures forall k :: Tracked(sub, k) <==> Tracked(old(sub), k) && k !in keys
      ensures forall k :: k in sub ==> k in old(sub) && sub[k] == old(sub)[k]
    {
      var ops := ClearExpiryOps(sub, separator, keys);
      ClearPreservesIndex(sub, separator, keys);
      ApplyDeletes(sub, ops);
      if |ops| > 0 {
        sub := ApplyBatch(sub, ops);
      }
    }

    /** `ttlon`: one deadline `now + ttl` for all keys; clears their old
        entries, then writes a reverse and a forward entry per key. */
    method TtlOn(keys: seq<string>, ttl: nat, now: nat)
      requires Valid() && installed && ttl > 0
      requires forall k :: k in keys ==> !IsIndexKey(k)
      modifies this`sub
      ensures Valid()
      ensures Stamped(old(sub), sub, separator, keys, Pad(now + ttl))
    {
      var exp := Pad(now + ttl);
      ghost var before := sub;
      TtlOff(keys);
      var ops := SetExpiryOps(keys, exp, separator);
      StampAfterClear(before, sub, ops, keys, exp, separator);
      if |ops| > 0 {
        sub := ApplyBatch(sub, ops);
      }
    }

    // -------------------------------------------------------------------
    // The wrapped mutations

    /** `put`: applies the default TTL to the options it forwards, stamps the
        key when the TTL is positive and key and value are given, and always
        forwards the original key and value to the store. */
    method Put(key: JsVal, value: JsVal, ttl: TtlOption, now: nat) returns (forwarded: TtlOption)
      requires Valid() && installed
      requires key.Val? ==> !IsIndexKey(key.s)
      modifies this`sub, this`primary
      ensures Valid()
      ensures forwarded == WithDefault(ttl, defaultTtl)
      ensures var t := PutTtl(key, value, ttl, defaultTtl);
              if t.Some? then Stamped(old(sub), sub, separator, [key.s], Pad(now + t.value))
              else sub == old(sub)
      ensures primary == if key.Val? && value.Val? then old(primary)[key.s := value.s] else old(primary)
    {
      forwarded := WithDefault(ttl, defaultTtl);
      if forwarded.Num? && forwarded.n > 0 && key.Val? && value.Val? {
        TtlOn([key.s], forwarded.n, now);
      }
      if key.Val? && value.Val? {
        primary := primary[key.s := value.s];
      }
    }

    /** `ttl`: stamps a key, or each key of an array, without touching the data. */
    method Ttl(key: KeyArg, ttl: int, now: nat)
      requires Valid() && installed
      requires var ks := KeysOf(key); ks.Some? ==> forall k :: k in ks.value ==> !IsIndexKey(k)
      modifies this`sub
      ensures Valid()
      ensures var ks := KeysOf(key);
              if ttl > 0 && ks.Some? then Stamped(old(sub), sub, separator, ks.value, Pad(now + ttl))
              else sub == old(sub)
    {
      var ks := KeysOf(key);
      if ttl > 0 && ks.Some? {
        TtlOn(ks.value, ttl, now);
      }
    }

    /** `del`: clears the key's tracking whenever a key is given, and forwards
        the delete to the store. */
    method Del(key: JsVal)
      requires Valid() && installed
      requires key.Val? ==> !IsIndexKey(key.s)
      modifies this`sub, this`primary
      ensures Valid()
      ensures key.Val? ==> Cleared(old(sub), sub, separator, [key.s]) && !Tracked(sub, key.s)
      ensures key.Nullish? ==> sub == old(sub)
      ensures primary == if key.Val? then old(primary) - {key.s} else old(primary)
    {
      if key.Val? {
        TtlOff([key.s]);
        primary := primary - {key.s};
      }
    }

    /** The index side of `batch`: `ttlon` for the put keys and `ttloff` for
        the delete keys. Their lookups are issued before any of their batches,
        so both read the namespace as the batch found it; `ttlon`'s put batch
        waits for its own delete batch, which was issued after those lookups,
        so it is written last. */
    method BatchIndex(entries: seq<Entry>, ttl: nat, now: nat)
      requires Valid() && installed && ttl > 0
      requires forall i :: 0 <= i < |entries| && entries[i].Entry? && entries[i].key.Val? ==> !IsIndexKey(entries[i].key.s)
      modifies this`sub
      ensures Valid()
      ensures BatchStamped(old(sub), sub, entries, Pad(now + ttl))
    {
      var on, off := PartitionBatch(entries);
      UserKeysPartition(entries);
      var exp := Pad(now + ttl);
      ghost var before := sub;
      ClearBoth(on, off);
      ghost var mid := sub;
      if |on| > 0 {
        var ops := SetExpiryOps(on, exp, separator);
        StampAfterClear(mid, mid, ops, on, exp, separator);
        sub := ApplyBatch(sub, ops);
      }
      ClearThenStamp(before, mid, sub, on, off, exp, separator);
    }

    /** The delete batches of `batch`'s two `ttloff`s, the one inside `ttlon`
        for the put keys and the one for the delete keys, both built from
        lookups that read the namespace before either is written. */
    method ClearBoth(on: seq<string>, off: seq<string>)
      requires Valid() && installed
      requires forall k :: k in on ==> !IsIndexKey(k)
      requires forall k :: k in off ==> !IsIndexKey(k)
      modifies this`sub
      ensures Valid()
      ensures sub == old(sub) - ClearTargets(old(sub), separator, on) - ClearTargets(old(sub), separator, off)
      ensures forall k :: Tracked(sub, k) <==> Tracked(old(sub), k) && k !in on && k !in off
      ensures forall k :: k in sub ==> k in old(sub) && sub[k] == old(sub)[k]
    {
      var onClear := ClearExpiryOps(sub, separator, on);
      var offClear := ClearExpiryOps(sub, separator, off);
      ClearTogether(sub, separator, on, off);
      ApplyDeletes(sub, onClear);
      if |onClear| > 0 {
        sub := ApplyBatch(sub, onClear);
      }
      ApplyDeletes(sub, offClear);
      if |offClear| > 0 {
        sub := ApplyBatch(sub, offClear);
      }
    }

    /** `batch`: with a positive TTL and an array, updates the index for its
        entries; the original array goes to the store unchanged. */
    method Batch(arg: BatchArg, ttl: TtlOption, now: nat) returns (forwarded: TtlOption)
      requires Valid() && installed
      requires arg.List? ==> forall i :: 0 <= i < |arg.entries| && arg.entries[i].Entry? && arg.entries[i].key.Val?
                                         ==> !IsIndexKey(arg.entries[i].key.s)
      modifies this`sub, this`primary
      ensures Valid()
      ensures forwarded == WithDefault(ttl, defaultTtl)
      ensures var t := BatchTtl(arg, ttl, defaultTtl);
              if t.Some? then BatchStamped(old(sub), sub, arg.entries, Pad(now + t.value)) else sub == old(sub)
      ensures var ops := StoreOps(arg); primary == if ops.Some? then ApplyBatch(old(primary), ops.value) else old(primary)
    {
      forwarded := WithDefault(ttl, defaultTtl);
      if forwarded.Num? && forwarded.n > 0 && arg.List? {
        BatchIndex(arg.entries, forwarded.n, now);
      }
      StoreBatch(arg);
    }

    /** The underlying store's `batch`: applied whole, or refused whole. */
    method StoreBatch(arg: BatchArg)
      modifies this`primary
      ensures var ops := StoreOps(arg); primary == if ops.Some? then ApplyBatch(old(primary), ops.value) else old(primary)
    {
      var ops := StoreOps(arg);
      if ops.Some? {
        primary := ApplyBatch(primary, ops.value);
      }
    }

    // -------------------------------------------------------------------
    // The sweep and the lifecycle

    /** A timer tick starts a check. */
    method BeginCheck()
      requires Valid() && installed && timerActive
      modifies this`checkInProgress
      ensures Valid() && checkInProgress
    {
      checkInProgress := true;
    }

    /** The body of a check: the rows of the range scan up to `now` are
        collected into an index batch, issued only when the data batch is not
        empty, and a data batch, always issued. */
    method SweepExpired(now: nat)
      requires Valid() && installed && checkInProgress
      modifies this`sub, this`primary
      ensures Valid()
      ensures sub == old(sub) - (Scan(old(sub), now) + Expired(old(sub), now))
      ensures primary == old(primary) - Expired(old(sub), now)
      ensures forall k :: Tracked(sub, k) <==> Tracked(old(sub), k) && k !in Expired(old(sub), now)
    {
      var rows := Scan(sub, now);
      ScanRows(sub, now);
      DeleteRows(rows);
    }

    /** The stream's handlers over the rows it yields. */
    method DeleteRows(rows: set<string>)
      requires Valid() && installed
      requires rows <= sub.Keys && forall r :: r in rows ==> IsIndexKey(r)
      modifies this`sub, this`primary
      ensures Valid()
      ensures sub == old(sub) - (rows + Names(old(sub), rows))
      ensures primary == old(primary) - Names(old(sub), rows)
      ensures forall k :: Tracked(sub, k) <==> Tracked(old(sub), k) && k !in Names(old(sub), rows)
    {
      var subBatch, batch := CollectExpired(sub, rows);
      SweepBatches(sub, primary, separator, rows, subBatch, batch);
      if |batch| > 0 {
        sub := ApplyBatch(sub, subBatch);
      }
      primary := ApplyBatch(primary, batch);
    }

    /** Runs a callback. */
    method Invoke(cb: Callback)
      modifies this`fired, this`storeClosed
      ensures fired == old(fired) + Fires(cb)
      ensures storeClosed == (old(storeClosed) || cb.CloseStore?)
    {
      match cb {
        case Notify(id) =>
          fired := fired + [id];
        case CloseStore(next) =>
          storeClosed := true;
          if next.Some? {
            fired := fired + [next.value];
          }
      }
    }

    /** `stopTtl`: during a check it only records the callback (replacing
        any recorded one, even by none); otherwise it clears the timer and runs
        the callback. */
    method StopTtl(cb: Option<Callback>)
      requires Valid()
      modifies this`stopAfterCheck, this`timerActive, this`fired, this`storeClosed
      ensures Valid()
      ensures old(checkInProgress) ==>
                stopAfterCheck == cb && timerActive == old(timerActive)
                && fired == old(fired) && storeClosed == old(storeClosed)
      ensures !old(checkInProgress) ==>
                !timerActive && stopAfterCheck == old(stopAfterCheck)
                && fired == old(fired) + (if cb.Some? then Fires(cb.value) else [])
                && storeClosed == (old(storeClosed) || (cb.Some? && cb.value.CloseStore?))
    {
      if checkInProgress {
        stopAfterCheck := cb;
        return;
      }
      timerActive := false;
      if cb.Some? {
        Invoke(cb.value);
      }
    }

    /** The scan stream closes: the check is over, and a recorded stop runs
        once and is forgotten. */
    method EndCheck()
      requires Valid()
      modifies this`checkInProgress, this`stopAfterCheck, this`timerActive, this`fired, this`storeClosed
      ensures Valid() && !checkInProgress && stopAfterCheck == None
      ensures match old(stopAfterCheck)
              case Some(cb) =>
                !timerActive && fired == old(fired) + Fires(cb)
                && storeClosed == (old(storeClosed) || cb.CloseStore?)
              case None =>
                timerActive == old(timerActive) && fired == old(fired) && storeClosed == old(storeClosed)
    {
      // The recorded stop is taken before the flag drops, so that `Valid`
      // holds at the call; `StopTtl` outside a check leaves it alone.
      var pending := stopAfterCheck;
      stopAfterCheck := None;
      checkInProgress := false;
      if pending.Some? {
        StopTtl(pending);
      }
    }

    /** `close`: stops first, and closes the underlying store from the stop's
        callback, so never while a check runs. */
    method Close(cb: Option<nat>)
      requires Valid()
      modifies this`stopAfterCheck, this`timerActive, this`fired, this`storeClosed
      ensures Valid()
      ensures old(checkInProgress) ==>
                stopAfterCheck == Some(CloseStore(cb)) && storeClosed == old(storeClosed)
                && fired == old(fired) && timerActive == old(timerActive)
      ensures !old(checkInProgress) ==>
                !timerActive && storeClosed
                && fired == old(fired) + (if cb.Some? then [cb.value] else [])
    {
      StopTtl(Some(CloseStore(cb)));
    }
  }

  /** A stop requested while a check runs leaves the timer running until the
      check's stream closes; then the timer is cleared and the callback runs
      exactly once. */
  method StopDuringCheck(db: Db, now: nat, id: nat)
    requires db.Valid() && db.installed && db.timerActive && !db.checkInProgress
    modifies db
    ensures db.Valid() && !db.timerActive && !db.checkInProgress
    ensures db.fired == old(db.fired) + [id]
  {
    db.BeginCheck();
    db.StopTtl(Some(Notify(id)));
    assert db.timerActive && db.fired == old(db.fired);
    db.SweepExpired(now);
    db.EndCheck();
  }

  /** Of two stops requested during one check only the later callback runs. */
  method SecondStopReplacesFirst(db: Db, first: nat, second: nat)
    requires db.Valid() && db.installed && db.timerActive && !db.checkInProgress
    modifies db
    ensures !db.timerActive && db.fired == old(db.fired) + [second]
  {
    db.BeginCheck();
    db.StopTtl(Some(Notify(first)));
    db.StopTtl(Some(Notify(second)));
    db.EndCheck();
  }

  /** A stop without a callback during a check is recorded as no stop at all:
      once the check ends the timer is still scheduled. */
  method StopWithoutCallbackDuringCheck(db: Db)
    requires db.Valid() && db.installed && db.timerActive && !db.checkInProgress
    modifies db
    ensures db.timerActive && !db.checkInProgress && db.fired == old(db.fired)
  {
    db.BeginCheck();
    db.StopTtl(None);
    db.EndCheck();
  }

  /** A closed store was stopped first: closing outside a check clears the
      timer before the store closes, and closing during a check waits for it. */
  method CloseDuringCheck(db: Db, id: nat)
    requires db.Valid() && db.installed && db.timerActive && !db.checkInProgress && !db.storeClosed
    modifies db
    ensures !db.timerActive && db.storeClosed && db.fired == old(db.fired) + [id]
  {
    db.BeginCheck();
    db.Close(Some(id));
    assert !db.storeClosed && db.timerActive;
    db.EndCheck();
  }
}
