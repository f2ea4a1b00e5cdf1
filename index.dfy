/** The expiration index kept in the TTL namespace: for every tracked key a
    forward entry `key -> exp` and a reverse entry `ExpirationKey(exp, key) -> key`,
    and the batches that `ttloff` and `ttlon` build to change it. */
module Index {
  import opened Encoding

  /** One entry of a store batch. */
  datatype Op = Put(key: string, value: string) | Del(key: string)

  function Apply(m: map<string, string>, op: Op): map<string, string>
  {
    match op
    case Put(k, v) => m[k := v]
    case Del(k) => m - {k}
  }

  /** The store applying a batch: its entries take effect in list order. */
  function ApplyBatch(m: map<string, string>, ops: seq<Op>): map<string, string>
  {
    if ops == [] then m else Apply(ApplyBatch(m, ops[..|ops| - 1]), ops[|ops| - 1])
  }

  /** The keys a batch touches. */
  function OpKeys(ops: seq<Op>): set<string>
  {
    if ops == [] then {} else OpKeys(ops[..|ops| - 1]) + {ops[|ops| - 1].key}
  }

  predicate AllDeletes(ops: seq<Op>)
  {
    forall i :: 0 <= i < |ops| ==> ops[i].Del?
  }

  /** A batch of deletes removes exactly the keys it names. */
  lemma {:induction false} ApplyDeletes(m: map<string, string>, ops: seq<Op>)
    requires AllDeletes(ops)
    ensures ApplyBatch(m, ops) == m - OpKeys(ops)
  {
    if ops != [] {
      var n := |ops| - 1;
      ApplyDeletes(m, ops[..n]);
      assert m - OpKeys(ops[..n]) - {ops[n].key} == m - OpKeys(ops);
    }
  }

  /** Every key a batch touches is the key of one of its entries. */
  lemma {:induction false} OpKeysFrom(ops: seq<Op>)
    ensures forall x :: x in OpKeys(ops) ==> exists i :: 0 <= i < |ops| && ops[i].key == x
  {
    if ops != [] {
      var n := |ops| - 1;
      OpKeysFrom(ops[..n]);
      forall x | x in OpKeys(ops)
        ensures exists i :: 0 <= i < |ops| && ops[i].key == x
      {
        if x != ops[n].key {
          assert x in OpKeys(ops[..n]);
          var i :| 0 <= i < |ops[..n]| && ops[..n][i].key == x;
          assert ops[i].key == x;
        }
      }
    }
  }

  /** Deleting keys a batch does not touch gives the same map before or
      after the batch. */
  lemma {:induction false} BatchCommutesWithDeletes(m: map<string, string>, ops: seq<Op>, t: set<string>)
    requires OpKeys(ops) !! t
    ensures ApplyBatch(m, ops) - t == ApplyBatch(m - t, ops)
  {
    if ops != [] {
      var n := |ops| - 1;
      BatchCommutesWithDeletes(m, ops[..n], t);
      assert ops[n].key in OpKeys(ops);
    }
  }

  // ---------------------------------------------------------------------
  // The index invariant

  /** What `ttloff` accepts as a stored deadline: the comparison `exp > 0`
      on a non-empty decimal string. */
  predicate IsStamp(e: string)
  {
    |e| > 0 && AllDigits(e) && Value(e) > 0
  }

  /** The forward entry of `k` is a deadline, and its reverse entry exists and names `k`. */
  predicate ForwardOk(sub: map<string, string>, sep: string, k: string)
    requires k in sub
  {
    IsStamp(sub[k])
    && ExpirationKey(sub[k], sep, k) in sub
    && sub[ExpirationKey(sub[k], sep, k)] == k
  }

  /** The reverse entry `r` names a tracked key whose forward entry leads back to `r`. */
  predicate ReverseOk(sub: map<string, string>, sep: string, r: string)
    requires r in sub
  {
    sub[r] in sub
    && !IsIndexKey(sub[r])
    && ExpirationKey(sub[sub[r]], sep, sub[r]) == r
  }

  /** Forward and reverse entries are in one-to-one correspondence and every
      reverse entry's value is the key it tracks. */
  predicate Indexed(sub: map<string, string>, sep: string)
  {
    forall k {:trigger EntryOk(sub, sep, k)} :: k in sub ==> EntryOk(sub, sep, k)
  }

  /** The invariant at one entry: a reverse entry or a forward entry, each
      consistent with its partner. */
  predicate EntryOk(sub: map<string, string>, sep: string, k: string)
    requires k in sub
  {
    if IsIndexKey(k) then ReverseOk(sub, sep, k) else ForwardOk(sub, sep, k)
  }

  /** The keys that currently carry a deadline. */
  predicate Tracked(sub: map<string, string>, k: string)
  {
    k in sub && !IsIndexKey(k)
  }

  // ---------------------------------------------------------------------
  // ttloff

  /** What `ttloff` deletes for `keys`: every key whose lookup finds a deadline,
      with the reverse entry computed from that deadline. A key not found
      contributes nothing. */
  function ClearTargets(sub: map<string, string>, sep: string, keys: seq<string>): (t: set<string>)
  {
    (set k | k in keys && k in sub && IsStamp(sub[k]))
    + (set k | k in keys && k in sub && IsStamp(sub[k]) :: ExpirationKey(sub[k], sep, k))
  }

  lemma ClearTargetsSnoc(sub: map<string, string>, sep: string, keys: seq<string>, k: string)
    ensures ClearTargets(sub, sep, keys + [k])
            == ClearTargets(sub, sep, keys)
               + if k in sub && IsStamp(sub[k]) then {ExpirationKey(sub[k], sep, k), k} else {}
  {
  }

  lemma OpKeysAppend(ops: seq<Op>, a: Op, b: Op)
    ensures OpKeys(ops + [a, b]) == OpKeys(ops) + {a.key, b.key}
  {
    var s := ops + [a, b];
    assert s[..|s| - 1] == ops + [a];
    assert (ops + [a])[..|ops|] == ops;
  }

  lemma OpKeysSnoc(ops: seq<Op>, a: Op)
    ensures OpKeys(ops + [a]) == OpKeys(ops) + {a.key}
  {
    assert (ops + [a])[..|ops|] == ops;
  }

  /** The delete batch `ttloff` builds from one lookup per key (all lookups
      read the same state, before the batch is written); it is empty exactly
      when no key was found. */
  method ClearExpiryOps(sub: map<string, string>, sep: string, keys: seq<string>) returns (ops: seq<Op>)
    ensures AllDeletes(ops)
    ensures OpKeys(ops) == ClearTargets(sub, sep, keys)
    ensures ops == [] <==> ClearTargets(sub, sep, keys) == {}
  {
    ops := [];
    var i := 0;
    while i < |keys|
      invariant 0 <= i <= |keys|
      invariant AllDeletes(ops) && OpKeys(ops) == ClearTargets(sub, sep, keys[..i])
    {
      var key := keys[i];
      ClearStep(sub, sep, keys, i, ops);
      if key in sub && IsStamp(sub[key]) {
        ops := ops + [Del(ExpirationKey(sub[key], sep, key)), Del(key)];
      }
      i := i + 1;
    }
    assert keys[..i] == keys;
    OpKeysEmpty(ops);
  }

  /** One key's lookup added to the batch. */
  lemma ClearStep(sub: map<string, string>, sep: string, keys: seq<string>, i: nat, ops: seq<Op>)
    requires i < |keys|
    requires AllDeletes(ops) && OpKeys(ops) == ClearTargets(sub, sep, keys[..i])
    ensures var key := keys[i];
            var next := if key in sub && IsStamp(sub[key])
                        then ops + [Del(ExpirationKey(sub[key], sep, key)), Del(key)] else ops;
            AllDeletes(next) && OpKeys(next) == ClearTargets(sub, sep, keys[..i + 1])
  {
    var key := keys[i];
    assert keys[..i + 1] == keys[..i] + [key];
    ClearTargetsSnoc(sub, sep, keys[..i], key);
    if key in sub && IsStamp(sub[key]) {
      OpKeysAppend(ops, Del(ExpirationKey(sub[key], sep, key)), Del(key));
    }
  }

  lemma OpKeysEmpty(ops: seq<Op>)
    ensures OpKeys(ops) == {} <==> ops == []
  {
  }

  /** Clearing keeps the index consistent, stops tracking exactly the cleared
      keys and leaves every other entry as it was. */
  lemma ClearPreservesIndex(sub: map<string, string>, sep: string, keys: seq<string>)
    requires GoodSeparator(sep) && Indexed(sub, sep)
    requires forall k :: k in keys ==> !IsIndexKey(k)
    ensures var r := sub - ClearTargets(sub, sep, keys);
            Indexed(r, sep)
            && (forall k :: Tracked(r, k) <==> Tracked(sub, k) && k !in keys)
            && (forall k :: k in r ==> r[k] == sub[k])
  {
    var t := ClearTargets(sub, sep, keys);
    var r := sub - t;
    forall k | k in r
      ensures EntryOk(r, sep, k)
    {
      assert EntryOk(sub, sep, k);
      if !IsIndexKey(k) {
        forall j | j in keys && j in sub && IsStamp(sub[j]) {
          ExpirationKeyInjective(sub[k], sub[j], sep, k, j);
        }
      }
    }
    forall k | Tracked(sub, k) && k in keys
      ensures !Tracked(r, k)
    {
      assert EntryOk(sub, sep, k);
      assert ForwardOk(sub, sep, k);
    }
  }

  /** Two `ttloff`s whose lookups both read `sub`, written one after the
      other, keep the index consistent and stop tracking the keys of both. */
  lemma ClearTogether(sub: map<string, string>, sep: string, a: seq<string>, b: seq<string>)
    requires GoodSeparator(sep) && Indexed(sub, sep)
    requires forall k :: k in a ==> !IsIndexKey(k)
    requires forall k :: k in b ==> !IsIndexKey(k)
    ensures var r := sub - ClearTargets(sub, sep, a) - ClearTargets(sub, sep, b);
            Indexed(r, sep)
            && (forall k :: Tracked(r, k) <==> Tracked(sub, k) && k !in a && k !in b)
            && (forall k :: k in r ==> r[k] == sub[k])
  {
    ClearPreservesIndex(sub, sep, a + b);
    assert ClearTargets(sub, sep, a + b) == ClearTargets(sub, sep, a) + ClearTargets(sub, sep, b);
    assert sub - ClearTargets(sub, sep, a) - ClearTargets(sub, sep, b) == sub - ClearTargets(sub, sep, a + b);
  }

  /** Clearing a key that is not tracked changes nothing. */
  lemma ClearUntracked(sub: map<string, string>, sep: string, keys: seq<string>)
    requires forall k :: k in keys ==> k !in sub
    ensures ClearTargets(sub, sep, keys) == {}
    ensures sub - ClearTargets(sub, sep, keys) == sub
  {
  }

  // ---------------------------------------------------------------------
  // ttlon

  /** The reverse-index keys of `keys` under one deadline. */
  function RevKeys(exp: string, sep: string, keys: seq<string>): set<string>
  {
    set k | k in keys :: ExpirationKey(exp, sep, k)
  }

  /** The batch `ttlon` writes: for each key in order, its reverse entry then
      its forward entry, all with the one deadline `exp`. */
  predicate StampOps(ops: seq<Op>, keys: seq<string>, exp: string, sep: string)
  {
    |ops| == 2 * |keys|
    && forall i :: 0 <= i < |keys| ==>
         ops[2 * i] == Put(ExpirationKey(exp, sep, keys[i]), keys[i])
         && ops[2 * i + 1] == Put(keys[i], exp)
  }

  method SetExpiryOps(keys: seq<string>, exp: string, sep: string) returns (ops: seq<Op>)
    ensures StampOps(ops, keys, exp, sep)
  {
    ops := [];
    var i := 0;
    while i < |keys|
      invariant 0 <= i <= |keys|
      invariant StampOps(ops, keys[..i], exp, sep)
    {
      ops := ops + [Put(ExpirationKey(exp, sep, keys[i]), keys[i]), Put(keys[i], exp)];
      i := i + 1;
    }
    assert keys[..i] == keys;
  }

  /** What writing the `ttlon` batch does to a map: each key gets the deadline,
      each reverse key names its key, and every other entry is untouched. */
  lemma {:induction false} StampEffect(m: map<string, string>, ops: seq<Op>, keys: seq<string>, exp: string, sep: string)
    requires StampOps(ops, keys, exp, sep)
    requires forall k :: k in keys ==> !IsIndexKey(k)
    ensures var r := ApplyBatch(m, ops);
            (forall x :: x in r <==> x in m || x in keys || x in RevKeys(exp, sep, keys))
            && (forall k :: k in keys ==> r[k] == exp && r[ExpirationKey(exp, sep, k)] == k)
            && (forall x :: x in m && x !in keys && x !in RevKeys(exp, sep, keys) ==> r[x] == m[x])
    decreases |keys|
  {
    if keys != [] {
      var n := |keys| - 1;
      var keys', ops', k := keys[..n], ops[..2 * n], keys[n];
      StampOpsPrefix(ops, keys, exp, sep);
      StampEffect(m, ops', keys', exp, sep);
      ApplyLastTwo(m, ops);
      StampStep(ApplyBatch(m, ops'), m, keys', k, exp, sep);
    }
  }

  /** The `ttlon` batch touches only the keys and their reverse keys. */
  lemma StampOpKeys(ops: seq<Op>, keys: seq<string>, exp: string, sep: string)
    requires StampOps(ops, keys, exp, sep)
    ensures forall x :: x in OpKeys(ops) ==> x in keys || x in RevKeys(exp, sep, keys)
  {
    OpKeysFrom(ops);
    forall x | x in OpKeys(ops)
      ensures x in keys || x in RevKeys(exp, sep, keys)
    {
      var i :| 0 <= i < |ops| && ops[i].key == x;
      var j := i / 2;
      if i % 2 == 0 {
        assert i == 2 * j;
      } else {
        assert i == 2 * j + 1;
      }
    }
  }

  /** The `ttlon` batch for all but the last key is a prefix of the whole one,
      and ends in the last key's two writes. */
  lemma StampOpsPrefix(ops: seq<Op>, keys: seq<string>, exp: string, sep: string)
    requires StampOps(ops, keys, exp, sep) && keys != []
    ensures var n := |keys| - 1;
            StampOps(ops[..2 * n], keys[..n], exp, sep)
            && keys == keys[..n] + [keys[n]]
            && ops[..|ops| - 2] == ops[..2 * n]
            && ops[|ops| - 2] == Put(ExpirationKey(exp, sep, keys[n]), keys[n])
            && ops[|ops| - 1] == Put(keys[n], exp)
  {
    var n := |keys| - 1;
    var keys', ops' := keys[..n], ops[..2 * n];
    forall i | 0 <= i < n
      ensures ops'[2 * i] == Put(ExpirationKey(exp, sep, keys'[i]), keys'[i])
      ensures ops'[2 * i + 1] == Put(keys'[i], exp)
    {
      assert keys'[i] == keys[i];
    }
    assert keys == keys' + [keys[n]];
  }

  /** The batch's last two entries are applied last. */
  lemma ApplyLastTwo(m: map<string, string>, ops: seq<Op>)
    requires |ops| >= 2
    ensures ApplyBatch(m, ops) == Apply(Apply(ApplyBatch(m, ops[..|ops| - 2]), ops[|ops| - 2]), ops[|ops| - 1])
  {
    var n := |ops|;
    assert ops[..n - 1][..n - 2] == ops[..n - 2];
  }

  /** One key's two `ttlon` writes, on top of the writes for the keys before it. */
  lemma StampStep(r': map<string, string>, m: map<string, string>, keys': seq<string>, k: string, exp: string, sep: string)
    requires !IsIndexKey(k) && forall j :: j in keys' ==> !IsIndexKey(j)
    requires forall x :: x in r' <==> x in m || x in keys' || x in RevKeys(exp, sep, keys')
    requires forall j :: j in keys' ==> j in r' && r'[j] == exp && ExpirationKey(exp, sep, j) in r' && r'[ExpirationKey(exp, sep, j)] == j
    requires forall x :: x in m && x !in keys' && x !in RevKeys(exp, sep, keys') ==> r'[x] == m[x]
    ensures var r := r'[ExpirationKey(exp, sep, k) := k][k := exp];
            var keys := keys' + [k];
            (forall x :: x in r <==> x in m || x in keys || x in RevKeys(exp, sep, keys))
            && (forall j :: j in keys ==> r[j] == exp && r[ExpirationKey(exp, sep, j)] == j)
            && (forall x :: x in m && x !in keys && x !in RevKeys(exp, sep, keys) ==> r[x] == m[x])
  {
    var r := r'[ExpirationKey(exp, sep, k) := k][k := exp];
    var keys := keys' + [k];
    assert RevKeys(exp, sep, keys) == RevKeys(exp, sep, keys') + {ExpirationKey(exp, sep, k)};
    forall j | j in keys
      ensures r[j] == exp && r[ExpirationKey(exp, sep, j)] == j
    {
      if j != k {
        assert j in keys';
        if ExpirationKey(exp, sep, j) == ExpirationKey(exp, sep, k) {
          SameStampInjective(exp, sep, j, k);
        }
      }
    }
  }

  lemma SameStampInjective(exp: string, sep: string, k1: string, k2: string)
    requires ExpirationKey(exp, sep, k1) == ExpirationKey(exp, sep, k2)
    ensures k1 == k2
  {
    var p := START + (exp + sep);
    assert ExpirationKey(exp, sep, k1) == p + k1;
    assert ExpirationKey(exp, sep, k2) == p + k2;
    assert k1 == (p + k1)[|p|..];
  }

  /** Writing the `ttlon` batch for keys that are no longer tracked keeps
      the index consistent and tracks exactly the old keys plus `keys`. */
  lemma StampPreservesIndex(m: map<string, string>, ops: seq<Op>, keys: seq<string>, exp: string, sep: string)
    requires GoodSeparator(sep) && Indexed(m, sep) && IsStamp(exp)
    requires StampOps(ops, keys, exp, sep)
    requires forall k :: k in keys ==> !IsIndexKey(k) && k !in m
    ensures var r := ApplyBatch(m, ops);
            Indexed(r, sep)
            && (forall k :: Tracked(r, k) <==> Tracked(m, k) || k in keys)
  {
    StampEffect(m, ops, keys, exp, sep);
    var r := ApplyBatch(m, ops);
    var revs := RevKeys(exp, sep, keys);
    forall x | x in r
      ensures EntryOk(r, sep, x)
    {
      if x in keys {
        assert ForwardOk(r, sep, x);
      } else if x in revs {
        var k :| k in keys && x == ExpirationKey(exp, sep, k);
        assert r[x] == k;
      } else {
        assert x in m;
        assert EntryOk(m, sep, x);
        if IsIndexKey(x) {
          var j := m[x];
          assert j !in keys;
          assert j !in revs;
        } else {
          var rk := ExpirationKey(m[x], sep, x);
          assert rk !in keys;
          forall k | k in keys {
            ExpirationKeyInjective(m[x], exp, sep, x, k);
          }
        }
      }
    }
  }
}
