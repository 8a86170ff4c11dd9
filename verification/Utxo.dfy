/** The UTXO set (rusty-consensus/src/utxo_set.rs): a map from outpoints to outputs, changed only by
    applying an ordered batch of writes. The database and its encoding are that map. */
module Utxo {
  import opened Wrappers

  datatype OutPoint = OutPoint(txid: int, vout: nat)

  datatype Output = Output(value: nat, opReturn: bool, script: int)

  /** What the set stores: the output, the height of its block and whether a coinbase made it. */
  datatype Entry = Entry(output: Output, height: nat, coinbase: bool)

  type Entries = map<OutPoint, Entry>

  datatype WriteOp = Put(key: OutPoint, entry: Entry) | Delete(key: OutPoint)

  function Write(m: Entries, op: WriteOp): Entries {
    match op
    case Put(key, entry) => m[key := entry]
    case Delete(key) => m - {key}
  }

  /** The writes of a batch, in order. */
  function WriteAll(m: Entries, batch: seq<WriteOp>): Entries
    decreases |batch|
  {
    if batch == [] then m else WriteAll(Write(m, batch[0]), batch[1..])
  }

  class UtxoSet {
    var entries: Entries

    constructor ()
      ensures entries == map[]
    {
      entries := map[];
    }

    function GetUtxo(key: OutPoint): (r: Option<Entry>)
      reads this
      ensures r.Some? <==> key in entries
      ensures r.Some? ==> r.value == entries[key]
    {
      if key in entries then Some(entries[key]) else None
    }

    /** apply_batch: all writes, in order, at once. */
    method ApplyBatch(batch: seq<WriteOp>)
      modifies this
      ensures entries == WriteAll(old(entries), batch)
    {
      ghost var before := entries;
      for i := 0 to |batch|
        invariant WriteAll(entries, batch[i..]) == WriteAll(before, batch)
      {
        assert batch[i..][1..] == batch[i + 1..];
        entries := Write(entries, batch[i]);
      }
    }
  }

  // ------------------------------------------------------------------ total value

  /** The value held by a set of entries. */
  ghost function Total(m: Entries): nat
    decreases |m|
  {
    if m == map[] then 0
    else
      var k :| k in m;
      assert |m - {k}| < |m| by { RemoveShrinks(m, k); }
      m[k].output.value + Total(m - {k})
  }

  lemma RemoveShrinks(m: Entries, k: OutPoint)
    requires k in m
    ensures |m - {k}| < |m|
  {
    assert (m - {k}).Keys == m.Keys - {k};
  }

  lemma {:induction false} TotalRemove(m: Entries, k: OutPoint)
    requires k in m
    ensures Total(m) == m[k].output.value + Total(m - {k})
    decreases |m|
  {
    var j :| j in m && Total(m) == m[j].output.value + Total(m - {j});
    if j != k {
      RemoveShrinks(m, j);
      RemoveShrinks(m, k);
      TotalRemove(m - {j}, k);
      TotalRemove(m - {k}, j);
      assert m - {j} - {k} == m - {k} - {j};
    }
  }

  lemma TotalPut(m: Entries, k: OutPoint, e: Entry)
    ensures Total(m[k := e]) == Total(m - {k}) + e.output.value
  {
    TotalRemove(m[k := e], k);
    assert m[k := e] - {k} == m - {k};
  }

  lemma TotalWithout(m: Entries, k: OutPoint)
    ensures Total(m - {k}) == Total(m) - if k in m then m[k].output.value else 0
  {
    if k in m {
      TotalRemove(m, k);
    } else {
      assert m - {k} == m;
    }
  }

  lemma {:induction false} TotalSubset(m: Entries, s: set<OutPoint>, t: set<OutPoint>)
    requires s <= t
    ensures Total(m - t) <= Total(m - s)
    decreases t - s
  {
    if s != t {
      var k :| k in t && k !in s;
      TotalWithout(m - s, k);
      assert m - s - {k} == m - (s + {k});
      TotalSubset(m, s + {k}, t);
    }
  }

  lemma {:induction false} TotalUnion(m: Entries, n: Entries)
    requires m.Keys !! n.Keys
    ensures Total(m + n) == Total(m) + Total(n)
    decreases |n|
  {
    if n == map[] {
      assert m + n == m;
    } else {
      var k :| k in n;
      UnionStep(m, n, k);
      RemoveShrinks(n, k);
      TotalUnion(m, n - {k});
    }
  }

  lemma UnionStep(m: Entries, n: Entries, k: OutPoint)
    requires m.Keys !! n.Keys && k in n
    ensures Total(m + n) - Total(m + (n - {k})) == Total(n) - Total(n - {k})
  {
    hide Total;
    TotalRemove(n, k);
    TotalRemove(m + n, k);
    assert m + n - {k} == m + (n - {k});
  }

  // ----------------------------------------------------------------- batch meaning

  function Touched(batch: seq<WriteOp>): set<OutPoint> {
    set i | 0 <= i < |batch| :: batch[i].key
  }

  function PutValue(batch: seq<WriteOp>): nat {
    if batch == [] then 0
    else (if batch[0].Put? then batch[0].entry.output.value else 0) + PutValue(batch[1..])
  }

  lemma {:induction false} WriteAllConcat(m: Entries, a: seq<WriteOp>, b: seq<WriteOp>)
    ensures WriteAll(m, a + b) == WriteAll(WriteAll(m, a), b)
    decreases |a|
  {
    if a == [] {
      assert a + b == b;
    } else {
      assert (a + b)[1..] == a[1..] + b;
      WriteAllConcat(Write(m, a[0]), a[1..], b);
    }
  }

  /** Whatever a batch does, and even where its keys collide with each other or with old keys, the
      value afterwards is at most the value of the untouched entries plus the value put. */
  lemma {:induction false} BatchValueBound(m: Entries, batch: seq<WriteOp>)
    ensures Total(WriteAll(m, batch)) <= Total(m - Touched(batch)) + PutValue(batch)
    decreases |batch|
  {
    if batch == [] {
      assert Touched(batch) == {};
      assert m - Touched(batch) == m;
    } else {
      var k, rest := batch[0].key, batch[1..];
      var m1 := Write(m, batch[0]);
      BatchValueBound(m1, rest);
      TouchedCons(batch);
      if batch[0].Put? && k !in Touched(rest) {
        assert m1 - Touched(rest) == (m - Touched(rest))[k := batch[0].entry];
        TotalPut(m - Touched(rest), k, batch[0].entry);
        assert m - Touched(rest) - {k} == m - Touched(batch);
      } else {
        assert m1 - Touched(rest) == m - Touched(batch);
      }
    }
  }

  lemma TouchedCons(batch: seq<WriteOp>)
    requires batch != []
    ensures Touched(batch) == {batch[0].key} + Touched(batch[1..])
  {
    forall k | k in Touched(batch) ensures k in {batch[0].key} + Touched(batch[1..]) {
      var i :| 0 <= i < |batch| && batch[i].key == k;
      if i > 0 { assert batch[1..][i - 1].key == k; }
    }
    forall k | k in Touched(batch[1..]) ensures k in Touched(batch) {
      var i :| 0 <= i < |batch[1..]| && batch[1..][i].key == k;
      assert batch[i + 1].key == k;
    }
    assert batch[0].key in Touched(batch);
  }

  lemma {:induction false} PutValueConcat(a: seq<WriteOp>, b: seq<WriteOp>)
    ensures PutValue(a + b) == PutValue(a) + PutValue(b)
  {
    if a == [] {
      assert a + b == b;
    } else {
      assert (a + b)[1..] == a[1..] + b;
      PutValueConcat(a[1..], b);
    }
  }

  lemma TouchedConcat(a: seq<WriteOp>, b: seq<WriteOp>)
    ensures Touched(a + b) == Touched(a) + Touched(b)
  {
    forall k | k in Touched(a) ensures k in Touched(a + b) {
      var i :| 0 <= i < |a| && a[i].key == k;
      assert (a + b)[i].key == k;
    }
    forall k | k in Touched(b) ensures k in Touched(a + b) {
      var i :| 0 <= i < |b| && b[i].key == k;
      assert (a + b)[|a| + i].key == k;
    }
  }
}
