# level-ttl: the TTL bookkeeping engine

`level-ttl` wraps a LevelDB-style store so that keys can expire. Each key with
a time-to-live gets two entries in a separate TTL namespace:

- a forward entry `key -> exp`, where `exp` is the expiry timestamp;
- a reverse entry `"x!" + exp + separator + key -> key`.

The store keeps keys in byte order, so reverse entries sort by timestamp only
when all timestamps have the same number of digits. The source writes them
unpadded; the model pads them to one width (see Findings). A periodic sweep range-scans `["x!", "x!" + now + "~"]` and deletes
every key it finds, together with both of its index entries. The wrapped
`put`, `del`, `batch` and `ttl` operations keep the index up to date, and
`stop`/`close` make sure a sweep in progress finishes before the timer is
cleared and the store is closed.

The model has five modules:

- `Encoding`:
  - how timestamps are rendered as strings;
  - the reverse-index key;
  - the byte-wise order the store scans in;
  - the scan range.
- `Index`:
  - store batches and their effect on a map;
  - the index invariant `Indexed`: forward and reverse entries match one to one;
  - the batches `ttloff` and `ttlon` build.
- `Sweep`: the scan, the two delete batches one tick builds, and what they do
  to the index and the data.
- `Coordinator`: the pure decisions of `put`, `ttl`, `del` and `batch`, that
  is, which TTL applies and which batch entries are stamped or cleared.
- `LevelTtl`: the class `Db` holding:
  - the user data (`primary`);
  - the TTL namespace (`sub`);
  - the options;
  - the scheduler's state: `timerActive`, `checkInProgress` and `stopAfterCheck`.

  Each wrapped operation is a method of `Db`. A timer tick is the sequence
  `BeginCheck`, `SweepExpired`, `EndCheck`. The current time is a parameter
  `now` of the methods that read the clock.

The main invariant is `Db.Valid()`, which every method preserves:

- once set up, the separator is usable and the namespace is `Indexed`;
- nothing is scheduled before setup;
- a deferred stop exists only while a check runs.

## Model

| member | source | states |
|---|---|---|
| Encoding.Decimal | level-ttl.js:79 | `String(n)` for a non-negative integer: a non-empty digit string denoting `n` |
| Encoding.DecimalFits | level-ttl.js:79 | a number's decimal form fits in `w` digits exactly when the number is below 10^w |
| Encoding.Pad | level-ttl.js:79 | the corrected timestamp rendering: a digit string denoting `n`, at least WIDTH long and exactly WIDTH long for every `n` below 10^WIDTH |
| Encoding.LeadingZeros | level-ttl.js:79 | leading zeros do not change the number a digit string denotes |
| Encoding.BelowAsymmetric | level-ttl.js:18-23 | the store's key order is strict: never both ways, never between equal keys |
| Encoding.DigitOrder | level-ttl.js:18-23 | for equal-length digit strings, string order is numeric order and string equality is numeric equality |
| Encoding.ExpirationKey | level-ttl.js:8-11 | a reverse-index key starts with `x!` and ends with the key it names |
| Encoding.ExpirationKeyInjective | level-ttl.js:8-11 | two reverse-index keys built from digit timestamps are equal only for the same timestamp and the same key |
| Encoding.ScanOnlyIndexKeys | level-ttl.js:18-23 | every key in the scan range `[x!, x! + now + ~]` is a reverse-index key |
| Encoding.ScanBoundary | level-ttl.js:18-23 | with equal-width timestamps, a reverse key is in the scan range exactly when its timestamp is at or before `now` (equal included) |
| Encoding.PaddedScanBoundary | level-ttl.js:18-23 | the same boundary for padded timestamps, as numbers: in range iff `exp <= now` |
| Encoding.UnpaddedScanSweepsEarly | level-ttl.js:22 | with `String(n)` rendering, the reverse key of deadline 10 lies in the scan range at now = 9 |
| Index.ApplyDeletes | level-ttl.js:38-54 | a batch of deletes removes exactly the keys it names and nothing else |
| Index.ClearExpiryOps | level-ttl.js:131-146 | `ttloff`'s batch is all deletes, covers exactly the found keys and their reverse entries, and is empty exactly when no key is found |
| Index.ClearPreservesIndex | level-ttl.js:108-147 | applying `ttloff`'s deletes keeps the index consistent, untracks exactly the given keys and leaves every other entry's value |
| Index.ClearUntracked | level-ttl.js:139-143 | clearing keys that are not tracked deletes nothing |
| Index.ClearTogether | level-ttl.js:108-147 | two `ttloff` delete batches computed from the same namespace, written one after the other, keep the index consistent and untrack exactly the keys of both lists, leaving every other entry |
| Index.SetExpiryOps | level-ttl.js:86-91 | `ttlon`'s batch holds, per key in order, the reverse entry and then the forward entry, both with the one deadline |
| Index.StampEffect | level-ttl.js:86-104 | writing that batch gives every key the deadline and its reverse entry, and leaves every other entry as it was |
| Index.StampPreservesIndex | level-ttl.js:78-106 | writing that batch over untracked keys keeps the index consistent and tracks exactly the old keys plus the new ones |
| Sweep.Scan | level-ttl.js:18-27 | the scan yields only entries of the namespace |
| Sweep.ScanRows | level-ttl.js:18-27 | the scan yields only reverse entries |
| Sweep.CollectExpired | level-ttl.js:27-34 | the data handler builds an index batch deleting each row and the key it names, and a data batch deleting the keys; one data delete per row and two index deletes per data delete |
| Sweep.SweepBatches | level-ttl.js:36-55 | the index batch (written only if the data batch is non-empty) removes the rows and named keys and keeps the index consistent; the data batch removes exactly the named keys |
| Sweep.SweepPreservesIndex | level-ttl.js:27-55 | removing reverse entries together with the keys they name keeps the index consistent and untracks exactly those keys |
| Sweep.SweepExactlyDue | level-ttl.js:18-34 | a tracked key with a WIDTH-digit deadline is swept at `now` exactly when its deadline is at or before `now` |
| Coordinator.WithDefault | level-ttl.js:157-159 | an explicit TTL (0 included) is kept; a missing one becomes the default when the default is positive and stays missing otherwise |
| Coordinator.PutTtl | level-ttl.js:157-171 | `put` stamps exactly when key and value are given and the explicit TTL, or else the default, is positive; it stamps with that TTL |
| Coordinator.ExplicitZeroExempts | level-ttl.js:157 | `ttl: 0` exempts a `put` from the default TTL |
| Coordinator.BatchTtl | level-ttl.js:201-210 | `batch` touches the index exactly when it gets an array and the explicit or default TTL is positive, and then stamps with the explicit TTL if given, else the default |
| Coordinator.PartitionBatch | level-ttl.js:216-224 | the loop builds exactly the lists of put keys with values and of delete keys, in batch order |
| Coordinator.PartitionMembers | level-ttl.js:216-224 | a key is in the set list iff some put entry with a value names it, and in the clear list iff some delete entry names it; together the lists are no longer than the batch |
| Coordinator.StoreOps | level-ttl.js:236 | the store refuses a batch exactly when it is not an array or some entry is neither a put with key and value nor a delete with a key; otherwise entry i of the batch becomes operation i |
| LevelTtl.StampAfterClear | level-ttl.js:83-104 | writing `ttlon`'s batch after its own `ttloff` keeps the index consistent and stamps exactly the given keys |
| LevelTtl.ClearThenStamp | level-ttl.js:226-233 | clearing the put and delete keys as found before the batch, then stamping the put keys, tracks the old keys minus the delete keys plus the put keys; every put key, deleted too or not, gets the new deadline; tracked keys named in neither list keep theirs |
| LevelTtl.StampCommutesWithClear | level-ttl.js:85-96 | when no put key is tracked, `ttlon`'s put batch may land before `ttloff`'s delete batch; both orders give the same namespace |
| LevelTtl.Db.Setup | level-ttl.js:247-285 | a second `setup` changes nothing; the first fills in separator `!`, default TTL 0 and frequency 10000 where not given, and starts the timer |
| LevelTtl.Db.TtlOff | level-ttl.js:108-147 | the namespace loses exactly the found keys and their reverse entries; the index stays consistent |
| LevelTtl.Db.TtlOn | level-ttl.js:78-106 | the keys are tracked with deadline `now + ttl` and reverse entries naming them; other tracked keys keep their deadlines |
| LevelTtl.Db.Put | level-ttl.js:149-174 | returns the options with the default applied; stamps the key exactly as `PutTtl` decides; the store gets the write when key and value are given |
| LevelTtl.Db.Ttl | level-ttl.js:176-179 | stamps the key, or every key of an array, with deadline `now + ttl` exactly when a key is given and the TTL is positive; otherwise the namespace is unchanged; the data is never touched |
| Coordinator.KeysOf | level-ttl.js:82-83 | a nullish key names no keys; an array names exactly its elements and any other key exactly itself |
| LevelTtl.Db.Del | level-ttl.js:181-191 | a given key is untracked and deleted from the store; a missing key changes nothing |
| LevelTtl.Db.ClearBoth | level-ttl.js:226-233 | the two delete batches of `batch`, both built from lookups in the namespace as the batch found it: the namespace loses both lists' targets, stays consistent, and untracks exactly the keys of both lists |
| LevelTtl.Db.BatchIndex | level-ttl.js:209-233 | both lists are looked up in the namespace as the batch found it, and the put batch is written last: the tracked keys are the old ones minus the delete keys plus the put keys; every put key carries the new deadline; tracked keys the batch does not name keep their deadlines |
| LevelTtl.Db.Batch | level-ttl.js:193-237 | returns the options with the default applied; exactly when `BatchTtl` decides, updates the index as `BatchIndex` does (a key both put and deleted stays tracked with the new deadline; keys the batch does not name keep theirs), otherwise leaves it unchanged; the store applies the original entries |
| LevelTtl.Db.StoreBatch | level-ttl.js:236 | the store applies the whole batch or refuses it whole |
| LevelTtl.Db.BeginCheck | level-ttl.js:14-25 | a tick marks a check as in progress |
| LevelTtl.Db.SweepExpired | level-ttl.js:13-56 | the namespace loses the scanned rows and the keys they name, the data loses those keys, and exactly they stop being tracked |
| LevelTtl.Db.DeleteRows | level-ttl.js:27-55 | the same, for any set of reverse entries the stream yields |
| LevelTtl.Db.Invoke | level-ttl.js:75 | a stop callback runs the caller's callback, or closes the store and then runs the caller's callback |
| LevelTtl.Db.StopTtl | level-ttl.js:69-76 | during a check, the stop is only recorded (replacing any earlier one); otherwise the timer is cleared and the callback runs once |
| LevelTtl.Db.EndCheck | level-ttl.js:57-62 | the check ends; a recorded stop clears the timer and runs its callback once, and is forgotten |
| LevelTtl.Db.Close | level-ttl.js:239-245 | the store closes only through a stop: at once outside a check, after the check during one |
| LevelTtl.StopDuringCheck | level-ttl.js:57-76 | a stop requested during a check keeps the timer until the check ends, then clears it and runs the callback exactly once |
| LevelTtl.SecondStopReplacesFirst | level-ttl.js:69-73 | of two stops during one check, only the later callback runs |
| LevelTtl.StopWithoutCallbackDuringCheck | level-ttl.js:57-73 | a stop without a callback during a check is lost: the timer keeps running |
| LevelTtl.CloseDuringCheck | level-ttl.js:239-245 | closing during a check closes the store and runs the callback only after the check ends |

## Left out

- The interval timer, `unref` and `Date.now()`. The timer is the flag `timerActive`, a tick is `BeginCheck`, and the clock is the parameter `now`.
- Asynchrony. Each operation's chain of callbacks is one atomic step. The `after` counters that join parallel callbacks are not modelled.
- The store's write, which `put`, `del` and `batch` run in parallel with the index update. It is modelled as happening after the update.
- Error emission (`db.emit('error', …)`) and failed reads or writes of the store. The store's own refusals are modelled where the wrapper's arguments decide them: `put` with a nullish key or value and `del` with a nullish key leave the data unchanged, and `batch` refuses an argument that `StoreOps` rejects. Every other store operation succeeds.
- `NotFoundError` on a lookup is the absence of the key from the map.
- Sublevel creation, the `namespace`/`sublevel`/`sub` options, `methodPrefix`, and rebinding the methods onto `db`. The TTL namespace is the map `sub`.
- JavaScript coercions:
  - `toString()` of non-string keys. A key other than an array is its string form.
  - `NaN`, numeric strings and exponent forms (`"1e3"`) in a stored deadline or a TTL. A deadline the model accepts is a non-empty digit string above zero.
  - a string TTL that `Date.now() + ttl` would concatenate.
  - fractional TTLs. `ttl: 1.5` passes the `> 0` test and yields a deadline containing `.`; the model's TTL is an integer.
- The order in which the stream yields rows. Rows are a set, and the batches are specified by the keys they touch.
- Keys that start with `x!`. The operations require user keys not to be reverse-index keys, because such keys would collide with the index.
- Separators that are empty, start with a digit, or do not sort before `~`. `Setup` requires a separator that meets `GoodSeparator`.
- The validity of a batch entry in the underlying store beyond "a put with key and value, or a delete with a key". A batch with any other entry is refused whole.
- LevelTtl.Db.Batch, LevelTtl.Db.BatchIndex, LevelTtl.ClearThenStamp: `ttlon` for the put keys and `ttloff` for the delete keys run concurrently. The model takes the store to serve requests in the order they are issued. Then both lists' lookups read the namespace before the batch, and `ttlon`'s put batch lands after both delete batches, or, when no put key is tracked, touches entries the deletes do not (`StampCommutesWithClear`). A store that completes requests out of order could write `ttloff`'s deletes after `ttlon`'s put batch. A key both put and deleted would then lose its forward entry and keep an orphan reverse entry. That order is not modelled.
- LevelTtl.Db.Put, LevelTtl.Db.Del: take a single key. The source also accepts an array key: it stamps or clears each element and hands the array itself to the store, whose treatment of an array key (its key encoding) is not part of this model. `Db.Ttl`, which does not touch the store, takes arrays.
- LevelTtl.Db.TtlOn, Sweep.Scan, LevelTtl.Db.SweepExpired: deadlines and the scan's upper bound `now` use the padded rendering (see Findings), not the source's `String(n)`. Beyond 10^16 ms the padded width no longer holds, so `SweepExactlyDue` requires `now` below that bound.
- LevelTtl.Db.Setup: requires the TTL namespace to be consistent (`Indexed`) already when `setup` runs. The source assumes this without checking it; a namespace written by something else is not modelled.
- LevelTtl.Db.SweepExpired, LevelTtl.Db.EndCheck: the stream's `close` handler does not wait for the two delete batches issued in its `end` handler. So a deferred `close` can reach the store while those deletes are still pending. The model applies the deletes in `SweepExpired`, before `EndCheck`.
- LevelTtl.Db.BeginCheck: a tick can fire while the previous tick's stream is still open. The first stream's close then clears the in-progress flag while the second is still running. The model has one flag, as the source does, but its sweep is one atomic step, so it does not capture a stop or close that slips in while the second stream still runs.
- Encoding.Pad: the pad width WIDTH = 16 is a modelling choice. It holds every millisecond timestamp for about the next 300,000 years.

## Findings

| source | as written | input that shows it | evidently intended | confidence | as-written member | corrected member |
|---|---|---|---|---|---|---|
| level-ttl.js:22, level-ttl.js:79 | deadlines and the scan's upper bound are rendered with `String(n)`, so keys compare by digit string whatever the digit count | now = 9 and ttl = 1 give deadline "10", and `x!10!k` sorts before `x!9~`, so the key is swept at once. Likewise now = 1700000000000 with a ttl of 10^13 ms is swept on the next tick | a key is swept only once its deadline is at or before `now`; timestamps rendered at one fixed width give this (`Pad`) | not executed | Encoding.UnpaddedScanSweepsEarly | Encoding.PaddedScanBoundary |
