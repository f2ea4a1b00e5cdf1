/** The decisions the wrapped `put`, `ttl`, `del` and `batch` make before they
    touch the index: which TTL applies, whether a key is tracked, and how a
    batch splits into keys to stamp and keys to clear. */
module Coordinator {
  import opened Index

  datatype Option<T> = None | Some(value: T)

  /** A caller-supplied key or value: `null`/`undefined`, or a value whose
      string form (`toString()`) is `s`. */
  datatype JsVal = Nullish | Val(s: string)

  /** The key argument of `ttl`: `null`/`undefined`, one key, or an array of keys. */
  datatype KeyArg = NoKey | OneKey(s: string) | KeyArray(ks: seq<string>)

  /** The keys `ttlon` works on: an array stands for its elements, any other
      key for itself; a nullish key names none. */
  function KeysOf(key: KeyArg): (r: Option<seq<string>>)
    ensures r.None? <==> key.NoKey?
    ensures r.Some? ==> forall k :: k in r.value <==> (key.OneKey? && k == key.s) || (key.KeyArray? && k in key.ks)
  {
    match key
    case NoKey => None
    case OneKey(s) => Some([s])
    case KeyArray(ks) => Some(ks)
  }

  /** `options.ttl`: not given (`undefined`/`null`), or a number of milliseconds. */
  datatype TtlOption = Absent | Num(n: int)

  /** `type` of a batch entry. */
  datatype EntryType = PutType | DelType | OtherType

  /** An element of the array passed to `batch`; `Missing` is a falsy element. */
  datatype Entry = Missing | Entry(kind: EntryType, key: JsVal, value: JsVal)

  /** The first argument of `batch`: an array, or anything else. */
  datatype BatchArg = List(entries: seq<Entry>) | NotList

  /** The defaulting rule of `put` and `batch`: `options.ttl` becomes the
      configured default only when the default is positive and no TTL was
      given; an explicit number, `0` included, is kept. */
  function WithDefault(ttl: TtlOption, defaultTtl: int): (r: TtlOption)
    ensures ttl.Num? ==> r == ttl
    ensures ttl.Absent? && defaultTtl > 0 ==> r == Num(defaultTtl)
    ensures ttl.Absent? && defaultTtl <= 0 ==> r == Absent
  {
    if defaultTtl > 0 && ttl.Absent? then Num(defaultTtl) else ttl
  }

  /** The TTL `put` stamps its key with, if any. */
  function PutTtl(key: JsVal, value: JsVal, ttl: TtlOption, defaultTtl: int): (r: Option<nat>)
    ensures r.Some? <==> key.Val? && value.Val?
                         && ((ttl.Num? && ttl.n > 0) || (ttl.Absent? && defaultTtl > 0))
    ensures r.Some? ==> r.value > 0 && r.value == (if ttl.Num? then ttl.n else defaultTtl)
  {
    var eff := WithDefault(ttl, defaultTtl);
    if eff.Num? && eff.n > 0 && key.Val? && value.Val? then Some(eff.n) else None
  }

  /** An explicit `ttl: 0` exempts a write from the default TTL. */
  lemma ExplicitZeroExempts(key: JsVal, value: JsVal, defaultTtl: int)
    ensures PutTtl(key, value, Num(0), defaultTtl) == None
  {
  }

  /** The TTL under which `batch` updates the index, if it does at all. */
  function BatchTtl(arg: BatchArg, ttl: TtlOption, defaultTtl: int): (r: Option<nat>)
    ensures r.Some? <==> arg.List? && ((ttl.Num? && ttl.n > 0) || (ttl.Absent? && defaultTtl > 0))
    ensures r.Some? ==> r.value > 0 && r.value == (if ttl.Num? then ttl.n else defaultTtl)
  {
    var eff := WithDefault(ttl, defaultTtl);
    if eff.Num? && eff.n > 0 && arg.List? then Some(eff.n) else None
  }

  /** A batch entry that sets a TTL: a put with a key and a value. */
  predicate IsSetEntry(e: Entry)
  {
    e.Entry? && e.key.Val? && e.kind == PutType && e.value.Val?
  }

  /** A batch entry that clears a TTL: a delete with a key. */
  predicate IsClearEntry(e: Entry)
  {
    e.Entry? && e.key.Val? && e.kind == DelType
  }

  /** The keys of the set-TTL entries, in batch order. */
  function SetKeys(entries: seq<Entry>): seq<string>
  {
    if entries == [] then []
    else
      var last := entries[|entries| - 1];
      SetKeys(entries[..|entries| - 1]) + if IsSetEntry(last) then [last.key.s] else []
  }

  /** The keys of the clear-TTL entries, in batch order. */
  function ClearKeys(entries: seq<Entry>): seq<string>
  {
    if entries == [] then []
    else
      var last := entries[|entries| - 1];
      ClearKeys(entries[..|entries| - 1]) + if IsClearEntry(last) then [last.key.s] else []
  }

  /** The loop of `batch` that fills the `on` and `off` lists. */
  method PartitionBatch(entries: seq<Entry>) returns (on: seq<string>, off: seq<string>)
    ensures on == SetKeys(entries) && off == ClearKeys(entries)
  {
    on, off := [], [];
    var i := 0;
    while i < |entries|
      invariant 0 <= i <= |entries|
      invariant on == SetKeys(entries[..i]) && off == ClearKeys(entries[..i])
    {
      var entry := entries[i];
      assert entries[..i + 1][..i] == entries[..i];
      if entry.Entry? && entry.key.Val? {
        if entry.kind == PutType && entry.value.Val? {
          on := on + [entry.key.s];
        }
        if entry.kind == DelType {
          off := off + [entry.key.s];
        }
      }
      i := i + 1;
    }
    assert entries[..i] == entries;
  }

  /** A key is in the set list exactly when some put entry with a value names
      it, and in the clear list exactly when some delete entry names it; no
      entry lands in both lists, so together they are no longer than the batch. */
  lemma {:induction false} PartitionMembers(entries: seq<Entry>)
    ensures forall k :: k in SetKeys(entries) <==>
              exists i :: 0 <= i < |entries| && IsSetEntry(entries[i]) && entries[i].key.s == k
    ensures forall k :: k in ClearKeys(entries) <==>
              exists i :: 0 <= i < |entries| && IsClearEntry(entries[i]) && entries[i].key.s == k
    ensures |SetKeys(entries)| + |ClearKeys(entries)| <= |entries|
  {
    if entries != [] {
      var n := |entries| - 1;
      var init := entries[..n];
      PartitionMembers(init);
      forall k | k in SetKeys(entries)
        ensures exists i :: 0 <= i < |entries| && IsSetEntry(entries[i]) && entries[i].key.s == k
      {
        if k in SetKeys(init) {
          var i :| 0 <= i < n && IsSetEntry(init[i]) && init[i].key.s == k;
          assert entries[i] == init[i];
        }
      }
      forall k | k in ClearKeys(entries)
        ensures exists i :: 0 <= i < |entries| && IsClearEntry(entries[i]) && entries[i].key.s == k
      {
        if k in ClearKeys(init) {
          var i :| 0 <= i < n && IsClearEntry(init[i]) && init[i].key.s == k;
          assert entries[i] == init[i];
        }
      }
      forall k, i | 0 <= i < |entries| && IsSetEntry(entries[i]) && entries[i].key.s == k
        ensures k in SetKeys(entries)
      {
        if i < n {
          assert init[i] == entries[i];
        }
      }
      forall k, i | 0 <= i < |entries| && IsClearEntry(entries[i]) && entries[i].key.s == k
        ensures k in ClearKeys(entries)
      {
        if i < n {
          assert init[i] == entries[i];
        }
      }
    }
  }

  /** The batch the underlying store applies for `arg`, or `None` when it
      refuses it: an array whose every entry is a put with key and value or a
      delete with a key. */
  function StoreOps(arg: BatchArg): (r: Option<seq<Op>>)
    ensures r.None? <==> arg.NotList? || exists i :: 0 <= i < |arg.entries| && !WellFormed(arg.entries[i])
    ensures r.Some? ==> arg.List? && |r.value| == |arg.entries|
                        && forall i :: 0 <= i < |r.value| ==> WellFormed(arg.entries[i]) && r.value[i] == ToOp(arg.entries[i])
  {
    if arg.NotList? then None
    else if exists i :: 0 <= i < |arg.entries| && !WellFormed(arg.entries[i]) then None
    else Some(seq(|arg.entries|, i requires 0 <= i < |arg.entries| && WellFormed(arg.entries[i]) =>
                  ToOp(arg.entries[i])))
  }

  predicate WellFormed(e: Entry)
  {
    IsSetEntry(e) || IsClearEntry(e)
  }

  function ToOp(e: Entry): Op
    requires WellFormed(e)
  {
    if e.kind == PutType then Put(e.key.s, e.value.s) else Del(e.key.s)
  }
}
