/**
 * CTL::HashTable<K, V> with K = string: separate chaining over a vector of
 * bucket lists, a Horner-rule hash with base 31 reduced modulo the bucket
 * count, and doubling of the bucket count once the integer load factor
 * reaches 3.
 */
module Hashing {
  import opened Wrappers

  /** The base every caller passes to horner_hash. */
  const Base: nat := 31

  /** One (key, value) pair of a bucket list. */
  datatype Entry<V> = Entry(key: string, value: V)

  type Bucket<V> = seq<Entry<V>>

  // ---------------------------------------------------------------------
  // The hash
  // ---------------------------------------------------------------------

  /** horner_hash: h := (h * 31 + c) % m for each character c, left to right. */
  function Horner(key: string, m: nat): (h: nat)
    requires m > 0
    ensures h < m
    decreases |key|
  {
    if key == [] then 0
    else (Horner(key[..|key| - 1], m) * Base + key[|key| - 1] as int) % m
  }

  /** The base-31 polynomial of the character codes, never reduced. */
  ghost function Poly(key: string): nat
    decreases |key|
  {
    if key == [] then 0 else Poly(key[..|key| - 1]) * Base + key[|key| - 1] as int
  }

  /** Euclidean remainders are unique: x == d * m + r with 0 <= r < m fixes x % m. */
  lemma ModUnique(x: int, d: int, r: int, m: int)
    requires m > 0 && 0 <= r < m && x == d * m + r
    ensures x % m == r
  {
    var e := x / m - d;
    assert e * m == r - x % m;
  }

  lemma ModOfMultiplePlus(q: int, y: int, m: int)
    requires m > 0
    ensures (q * m + y) % m == y % m
  {
    var z := y / m;
    assert q * m + y == (q + z) * m + y % m;
    ModUnique(q * m + y, q + z, y % m, m);
  }

  /** One Horner step commutes with reduction: reducing x first does not change (x * 31 + c) % m. */
  lemma StepMod(x: int, c: int, m: int)
    requires m > 0
    ensures (x * Base + c) % m == ((x % m) * Base + c) % m
  {
    var q, r := x / m, x % m;
    assert x == q * m + r;
    assert x * Base + c == (q * Base) * m + (r * Base + c) by {
      assert x * Base == (q * m + r) * Base == q * m * Base + r * Base;
    }
    ModOfMultiplePlus(q * Base, r * Base + c, m);
  }

  /**
   * Reducing after every step gives the same bucket as reducing the whole
   * polynomial once, so the slot of a key under any bucket count depends
   * only on the key's polynomial.
   */
  lemma {:induction false} HornerIsPolyMod(key: string, m: nat)
    requires m > 0
    ensures Horner(key, m) == Poly(key) % m
    decreases |key|
  {
    if key != [] {
      var p := key[..|key| - 1];
      HornerIsPolyMod(p, m);
      StepMod(Poly(p), key[|key| - 1] as int, m);
    }
  }

  /** horner_hash as the source computes it: one pass over the characters. */
  method HornerHash(key: string, m: int) returns (h: int)
    requires m > 0
    ensures 0 <= h < m
    ensures h == Horner(key, m)
  {
    h := 0;
    var i := 0;
    while i < |key|
      invariant 0 <= i <= |key|
      invariant h == Horner(key[..i], m)
    {
      assert key[..i + 1][..i] == key[..i];
      h := (h * Base + key[i] as int) % m;
      i := i + 1;
    }
    assert key[..|key|] == key;
  }

  // ---------------------------------------------------------------------
  // Buckets
  // ---------------------------------------------------------------------

  /** Position of the first entry of `b` whose key is `k`, or -1. */
  function IndexOf<V>(b: Bucket<V>, k: string): (i: int)
    ensures -1 <= i < |b|
    ensures 0 <= i ==> b[i].key == k
    ensures forall j :: 0 <= j < |b| && (i < 0 || j < i) ==> b[j].key != k
  {
    if b == [] then -1
    else if b[0].key == k then 0
    else
      var r := IndexOf(b[1..], k);
      if r < 0 then -1 else r + 1
  }

  /** The value the scan of a bucket list finds for `k`: the first match. */
  ghost function Lookup<V>(b: Bucket<V>, k: string): Option<V>
  {
    var i := IndexOf(b, k);
    if i < 0 then None else Some(b[i].value)
  }

  ghost function MapGet<V>(m: map<string, V>, k: string): Option<V>
  {
    if k in m then Some(m[k]) else None
  }

  ghost predicate NoDupKeys<V>(b: Bucket<V>)
  {
    forall i, j :: 0 <= i < j < |b| ==> b[i].key != b[j].key
  }

  /** Every entry of `b` hashes to bucket `g` under `m` buckets. */
  ghost predicate Placed<V>(b: Bucket<V>, g: nat, m: nat)
    requires m > 0
  {
    forall i :: 0 <= i < |b| ==> Horner(b[i].key, m) == g
  }

  /** get_table()'s iteration order: bucket 0 first, each bucket front to back. */
  ghost function Scan<V>(t: seq<Bucket<V>>): seq<Entry<V>>
    decreases |t|
  {
    if t == [] then [] else Scan(t[..|t| - 1]) + t[|t| - 1]
  }

  /** Sum of the bucket lengths. */
  ghost function SumLengths<V>(t: seq<Bucket<V>>): nat
    decreases |t|
  {
    if t == [] then 0 else SumLengths(t[..|t| - 1]) + |t[|t| - 1]|
  }

  /** The entries of `es` that hash to `g` under `m` buckets, in their order in `es`. */
  ghost function Select<V>(es: seq<Entry<V>>, g: nat, m: nat): (r: seq<Entry<V>>)
    requires m > 0
    ensures Placed(r, g, m)
    ensures |r| <= |es|
    decreases |es|
  {
    if es == [] then []
    else
      var e := es[|es| - 1];
      Select(es[..|es| - 1], g, m) + (if Horner(e.key, m) == g then [e] else [])
  }

  /** `nt` is the table resize builds from `t`: one bucket per slot of `m`, scan order kept. */
  ghost predicate RehashOf<V>(nt: seq<Bucket<V>>, t: seq<Bucket<V>>, m: nat)
    requires m > 0
  {
    |nt| == m && forall g :: 0 <= g < m ==> nt[g] == Select(Scan(t), g, m)
  }

  /** The bucket shape: `m` buckets, each entry in its hashed bucket, no key twice in a bucket. */
  ghost predicate Wellformed<V>(t: seq<Bucket<V>>, m: nat)
  {
    m > 0 && |t| == m &&
    forall g :: 0 <= g < m ==> Placed(t[g], g, m) && NoDupKeys(t[g])
  }

  /** Looking `k` up in its hashed bucket agrees with the map `c`, for every key. */
  ghost predicate Abstracts<V>(t: seq<Bucket<V>>, m: nat, c: map<string, V>)
  {
    m > 0 && |t| == m &&
    forall k :: Lookup(t[Horner(k, m)], k) == MapGet(c, k)
  }

  /** The class invariant on values: bucket shape, the map represented, and the entry count. */
  ghost predicate Represents<V>(t: seq<Bucket<V>>, m: nat, e: nat, c: map<string, V>)
  {
    Wellformed(t, m) && Abstracts(t, m, c) && e == SumLengths(t) && e == |c|
  }

  // ---------------------------------------------------------------------
  // Lemmas about buckets
  // ---------------------------------------------------------------------

  lemma IndexOfIs<V>(b: Bucket<V>, k: string, i: int)
    requires 0 <= i < |b| && b[i].key == k
    requires forall j :: 0 <= j < i ==> b[j].key != k
    ensures IndexOf(b, k) == i
  {
  }

  lemma IndexOfAbsent<V>(b: Bucket<V>, k: string)
    requires forall j :: 0 <= j < |b| ==> b[j].key != k
    ensures IndexOf(b, k) == -1
  {
  }

  /** Looking up in a concatenation: the left part is scanned first. */
  lemma LookupConcat<V>(a: Bucket<V>, b: Bucket<V>, k: string)
    ensures Lookup(a + b, k) == if Lookup(a, k).Some? then Lookup(a, k) else Lookup(b, k)
  {
    var i := IndexOf(a, k);
    var j := IndexOf(b, k);
    if 0 <= i {
      IndexOfIs(a + b, k, i);
    } else if 0 <= j {
      IndexOfIs(a + b, k, |a| + j);
    } else {
      IndexOfAbsent(a + b, k);
    }
  }

  /** A bucket placed at `g` has no entry for a key hashing elsewhere. */
  lemma LookupElsewhere<V>(b: Bucket<V>, g: nat, m: nat, k: string)
    requires m > 0 && Placed(b, g, m) && Horner(k, m) != g
    ensures Lookup(b, k) == None
  {
  }

  /** A bucket that holds no entry for `k` (by Lookup) holds no entry with key `k` at all. */
  lemma LookupNoneMeans<V>(b: Bucket<V>, k: string)
    requires Lookup(b, k) == None
    ensures forall j :: 0 <= j < |b| ==> b[j].key != k
  {
  }

  lemma {:induction false} ScanPrefix<V>(t: seq<Bucket<V>>, n: nat)
    requires n < |t|
    ensures Scan(t[..n + 1]) == Scan(t[..n]) + t[n]
  {
    assert t[..n + 1][..n] == t[..n];
  }

  lemma {:induction false} SelectSnoc<V>(es: seq<Entry<V>>, e: Entry<V>, g: nat, m: nat)
    requires m > 0
    ensures Select(es + [e], g, m) == Select(es, g, m) + (if Horner(e.key, m) == g then [e] else [])
  {
    assert (es + [e])[..|es|] == es;
  }

  /**
   * Scanning a table whose buckets are placed finds for `k` exactly what
   * the bucket `k` hashes to holds, or nothing when that bucket is beyond
   * the scanned prefix.
   */
  lemma {:induction false} LookupScan<V>(t: seq<Bucket<V>>, m: nat, k: string)
    requires m > 0 && |t| <= m
    requires forall g :: 0 <= g < |t| ==> Placed(t[g], g, m)
    ensures Lookup(Scan(t), k) == if Horner(k, m) < |t| then Lookup(t[Horner(k, m)], k) else None
    decreases |t|
  {
    if t != [] {
      var n := |t| - 1;
      var p := t[..n];
      assert forall g :: 0 <= g < |p| ==> p[g] == t[g];
      LookupScan(p, m, k);
      LookupConcat(Scan(p), t[n], k);
      if Horner(k, m) != n {
        LookupElsewhere(t[n], n, m, k);
      }
    }
  }

  /** Selecting the bucket of `k` keeps what a lookup of `k` finds. */
  lemma {:induction false} LookupSelect<V>(es: seq<Entry<V>>, g: nat, m: nat, k: string)
    requires m > 0 && Horner(k, m) == g
    ensures Lookup(Select(es, g, m), k) == Lookup(es, k)
    decreases |es|
  {
    if es != [] {
      var p := es[..|es| - 1];
      var e := es[|es| - 1];
      assert es == p + [e];
      LookupSelect(p, g, m, k);
      SelectSnoc(p, e, g, m);
      LookupConcat(p, [e], k);
      LookupConcat(Select(p, g, m), if Horner(e.key, m) == g then [e] else [], k);
    }
  }

  lemma NoDupConcat<V>(a: Bucket<V>, b: Bucket<V>)
    requires NoDupKeys(a) && NoDupKeys(b)
    requires forall j :: 0 <= j < |b| ==> Lookup(a, b[j].key) == None
    ensures NoDupKeys(a + b)
  {
    forall i, j | 0 <= i < j < |a + b|
      ensures (a + b)[i].key != (a + b)[j].key
    {
      if i < |a| <= j {
        LookupNoneMeans(a, b[j - |a|].key);
      }
    }
  }

  /** No key occurs twice in the scan of a well-placed table. */
  lemma {:induction false} ScanNoDup<V>(t: seq<Bucket<V>>, m: nat)
    requires m > 0 && |t| <= m
    requires forall g :: 0 <= g < |t| ==> Placed(t[g], g, m) && NoDupKeys(t[g])
    ensures NoDupKeys(Scan(t))
    decreases |t|
  {
    if t != [] {
      var n := |t| - 1;
      var p := t[..n];
      assert forall g :: 0 <= g < |p| ==> p[g] == t[g];
      ScanNoDup(p, m);
      forall j | 0 <= j < |t[n]|
        ensures Lookup(Scan(p), t[n][j].key) == None
      {
        LookupScan(p, m, t[n][j].key);
      }
      NoDupConcat(Scan(p), t[n]);
    }
  }

  /** Selecting from a sequence without duplicate keys keeps it free of duplicates. */
  lemma {:induction false} SelectNoDup<V>(es: seq<Entry<V>>, g: nat, m: nat)
    requires m > 0 && NoDupKeys(es)
    ensures NoDupKeys(Select(es, g, m))
    decreases |es|
  {
    if es != [] {
      var p := es[..|es| - 1];
      var e := es[|es| - 1];
      assert es == p + [e];
      SelectNoDup(p, g, m);
      SelectSnoc(p, e, g, m);
      if Horner(e.key, m) == g {
        IndexOfAbsent(p, e.key);
        LookupSelect(p, g, m, e.key);
        NoDupConcat(Select(p, g, m), [e]);
      }
    }
  }

  lemma {:induction false} SumLengthsUpdate<V>(t: seq<Bucket<V>>, g: nat, b: Bucket<V>)
    requires g < |t|
    ensures SumLengths(t[g := b]) == SumLengths(t) - |t[g]| + |b|
    decreases |t|
  {
    var n := |t| - 1;
    assert t[g := b][..n] == if g < n then t[..n][g := b] else t[..n];
    if g < n {
      SumLengthsUpdate(t[..n], g, b);
    }
  }

  lemma {:induction false} SumLengthsEmpty<V>(t: seq<Bucket<V>>)
    requires forall g :: 0 <= g < |t| ==> t[g] == []
    ensures SumLengths(t) == 0
    decreases |t|
  {
    if t != [] {
      SumLengthsEmpty(t[..|t| - 1]);
    }
  }

  lemma {:induction false} SumLengthsIsScanLength<V>(t: seq<Bucket<V>>)
    ensures SumLengths(t) == |Scan(t)|
    decreases |t|
  {
    if t != [] {
      SumLengthsIsScanLength(t[..|t| - 1]);
    }
  }

  /**
   * The table resize builds keeps the bucket shape and every key's value:
   * each entry lands in the bucket its hash selects under the new count.
   */
  lemma RehashPreserves<V>(t: seq<Bucket<V>>, m: nat, e: nat, c: map<string, V>, nt: seq<Bucket<V>>, m2: nat)
    requires Represents(t, m, e, c)
    requires m2 > 0 && RehashOf(nt, t, m2) && SumLengths(nt) == |Scan(t)|
    ensures Represents(nt, m2, e, c)
  {
    SumLengthsIsScanLength(t);
    ScanNoDup(t, m);
    forall g | 0 <= g < m2
      ensures Placed(nt[g], g, m2) && NoDupKeys(nt[g])
    {
      SelectNoDup(Scan(t), g, m2);
    }
    forall k
      ensures Lookup(nt[Horner(k, m2)], k) == MapGet(c, k)
    {
      LookupSelect(Scan(t), Horner(k, m2), m2, k);
      LookupScan(t, m, k);
    }
  }

  /** For every key, looking up in the scan equals looking up in the key's own bucket. */
  lemma LookupScanAll<V>(t: seq<Bucket<V>>, m: nat)
    requires Wellformed(t, m)
    ensures forall k :: Lookup(Scan(t), k) == Lookup(t[Horner(k, m)], k)
  {
    forall k
      ensures Lookup(Scan(t), k) == Lookup(t[Horner(k, m)], k)
    {
      LookupScan(t, m, k);
    }
  }

  lemma IndexOfSameKeys<V>(b: Bucket<V>, b': Bucket<V>, k: string)
    requires |b| == |b'| && forall j :: 0 <= j < |b| ==> b[j].key == b'[j].key
    ensures IndexOf(b, k) == IndexOf(b', k)
  {
    var i := IndexOf(b, k);
    if 0 <= i {
      IndexOfIs(b', k, i);
    } else {
      IndexOfAbsent(b', k);
    }
  }

  /** e / h < 3 is the source's test for "no resize"; for h > 0 it means e < 3 * h. */
  lemma LoadFactorBelow3(e: nat, h: nat)
    requires h > 0
    ensures (e / h < 3) == (e < 3 * h)
  {
    var q := e / h;
    assert e == q * h + e % h;
    if q < 3 {
      assert q * h <= 2 * h;
    } else {
      assert q * h >= 3 * h;
    }
  }

  /** Replacing bucket g by a bucket placed at g without duplicate keys keeps the bucket shape. */
  lemma WellformedUpdate<V>(t: seq<Bucket<V>>, m: nat, g: nat, b: Bucket<V>)
    requires Wellformed(t, m) && g < m && Placed(b, g, m) && NoDupKeys(b)
    ensures Wellformed(t[g := b], m)
  {
  }

  /** Replacing bucket g can change what the table represents only at the keys that hash to g. */
  lemma AbstractsUpdate<V>(t: seq<Bucket<V>>, m: nat, c: map<string, V>, g: nat, b: Bucket<V>, c': map<string, V>)
    requires Abstracts(t, m, c) && g < m
    requires forall k :: Horner(k, m) == g ==> Lookup(b, k) == MapGet(c', k)
    requires forall k :: Horner(k, m) != g ==> MapGet(c, k) == MapGet(c', k)
    ensures Abstracts(t[g := b], m, c')
  {
  }

  /** The map holds `key` exactly when the key's bucket has an entry for it. */
  lemma PresentIffFound<V>(t: seq<Bucket<V>>, m: nat, c: map<string, V>, key: string)
    requires Abstracts(t, m, c)
    ensures key in c <==> 0 <= IndexOf(t[Horner(key, m)], key)
  {
    assert Lookup(t[Horner(key, m)], key) == MapGet(c, key);
  }

  lemma CardinalityAdd<V>(c: map<string, V>, key: string, value: V)
    ensures key in c ==> |c[key := value]| == |c|
    ensures key !in c ==> |c[key := value]| == |c| + 1
  {
    if key in c {
      assert c[key := value].Keys == c.Keys;
    } else {
      assert c[key := value].Keys == c.Keys + {key};
    }
  }

  lemma CardinalityRemove<V>(c: map<string, V>, key: string)
    requires key in c
    ensures |c - {key}| + 1 == |c|
  {
    assert (c - {key}).Keys + {key} == c.Keys;
  }

  /** After overwriting the value of the entry found at i, a lookup finds the new value for that key and the old results elsewhere. */
  lemma LookupOverwrite<V>(b: Bucket<V>, i: int, value: V, k: string)
    requires 0 <= i < |b| && IndexOf(b, b[i].key) == i
    ensures Lookup(b[i := Entry(b[i].key, value)], k) == if k == b[i].key then Some(value) else Lookup(b, k)
  {
    var b' := b[i := Entry(b[i].key, value)];
    if k == b[i].key {
      IndexOfIs(b', k, i);
    } else {
      IndexOfSameKeys(b, b', k);
    }
  }

  /** Overwriting the value of the entry found for `key` (insert of a present key). */
  lemma OverwriteKeeps<V>(t: seq<Bucket<V>>, m: nat, e: nat, c: map<string, V>, key: string, value: V)
    requires Represents(t, m, e, c)
    requires 0 <= IndexOf(t[Horner(key, m)], key)
    ensures key in c
    ensures var g := Horner(key, m);
      Represents(t[g := t[g][IndexOf(t[g], key) := Entry(key, value)]], m, e, c[key := value])
  {
    var g := Horner(key, m);
    var b := t[g];
    var b' := b[IndexOf(b, key) := Entry(key, value)];
    PresentIffFound(t, m, c, key);
    CardinalityAdd(c, key, value);
    SumLengthsUpdate(t, g, b');
    OverwriteShape(t, m, key, value);
    OverwriteAbstracts(t, m, c, key, value);
  }

  lemma OverwriteShape<V>(t: seq<Bucket<V>>, m: nat, key: string, value: V)
    requires Wellformed(t, m) && 0 <= IndexOf(t[Horner(key, m)], key)
    ensures var g := Horner(key, m);
      Wellformed(t[g := t[g][IndexOf(t[g], key) := Entry(key, value)]], m)
  {
    var g := Horner(key, m);
    var b := t[g];
    var b' := b[IndexOf(b, key) := Entry(key, value)];
    assert forall j :: 0 <= j < |b'| ==> b'[j].key == b[j].key;
    WellformedUpdate(t, m, g, b');
  }

  lemma OverwriteAbstracts<V>(t: seq<Bucket<V>>, m: nat, c: map<string, V>, key: string, value: V)
    requires Abstracts(t, m, c) && 0 <= IndexOf(t[Horner(key, m)], key)
    ensures var g := Horner(key, m);
      Abstracts(t[g := t[g][IndexOf(t[g], key) := Entry(key, value)]], m, c[key := value])
  {
    var g := Horner(key, m);
    var b := t[g];
    var i := IndexOf(b, key);
    var b' := b[i := Entry(key, value)];
    forall k | Horner(k, m) == g
      ensures Lookup(b', k) == MapGet(c[key := value], k)
    {
      LookupOverwrite(b, i, value, k);
      assert Lookup(t[Horner(k, m)], k) == MapGet(c, k);
    }
    AbstractsUpdate(t, m, c, g, b', c[key := value]);
  }

  /** Appending a new entry to the bucket of a key that is absent (insert of a new key). */
  lemma AppendKeeps<V>(t: seq<Bucket<V>>, m: nat, e: nat, c: map<string, V>, key: string, value: V)
    requires Represents(t, m, e, c)
    requires IndexOf(t[Horner(key, m)], key) < 0
    ensures key !in c
    ensures var g := Horner(key, m);
      Represents(t[g := t[g] + [Entry(key, value)]], m, e + 1, c[key := value])
  {
    var g := Horner(key, m);
    var b' := t[g] + [Entry(key, value)];
    PresentIffFound(t, m, c, key);
    CardinalityAdd(c, key, value);
    SumLengthsUpdate(t, g, b');
    AppendShape(t, m, key, value);
    AppendAbstracts(t, m, c, key, value);
  }

  lemma AppendShape<V>(t: seq<Bucket<V>>, m: nat, key: string, value: V)
    requires Wellformed(t, m) && IndexOf(t[Horner(key, m)], key) < 0
    ensures var g := Horner(key, m);
      Wellformed(t[g := t[g] + [Entry(key, value)]], m)
  {
    var g := Horner(key, m);
    var b := t[g];
    NoDupConcat(b, [Entry(key, value)]);
    WellformedUpdate(t, m, g, b + [Entry(key, value)]);
  }

  lemma AppendAbstracts<V>(t: seq<Bucket<V>>, m: nat, c: map<string, V>, key: string, value: V)
    requires Abstracts(t, m, c) && IndexOf(t[Horner(key, m)], key) < 0
    ensures var g := Horner(key, m);
      Abstracts(t[g := t[g] + [Entry(key, value)]], m, c[key := value])
  {
    var g := Horner(key, m);
    var b := t[g];
    var b' := b + [Entry(key, value)];
    forall k | Horner(k, m) == g
      ensures Lookup(b', k) == MapGet(c[key := value], k)
    {
      LookupConcat(b, [Entry(key, value)], k);
      assert Lookup(t[Horner(k, m)], k) == MapGet(c, k);
    }
    AbstractsUpdate(t, m, c, g, b', c[key := value]);
  }

  /** Deleting position `i` of a bucket moves every later entry one place down. */
  lemma LookupRemoveAt<V>(b: Bucket<V>, i: int, k: string)
    requires 0 <= i < |b| && b[i].key != k
    ensures Lookup(b[..i] + b[i + 1..], k) == Lookup(b, k)
  {
    var b' := b[..i] + b[i + 1..];
    var j := IndexOf(b, k);
    if j < 0 {
      IndexOfAbsent(b', k);
    } else if j < i {
      IndexOfIs(b', k, j);
    } else {
      IndexOfIs(b', k, j - 1);
    }
  }

  /** Deleting position `i` of a placed bucket without duplicate keys leaves one. */
  lemma RemoveAtShape<V>(b: Bucket<V>, i: int, g: nat, m: nat)
    requires m > 0 && 0 <= i < |b| && Placed(b, g, m) && NoDupKeys(b)
    ensures Placed(b[..i] + b[i + 1..], g, m) && NoDupKeys(b[..i] + b[i + 1..])
  {
    var b' := b[..i] + b[i + 1..];
    assert forall j :: 0 <= j < |b'| ==> b'[j] == if j < i then b[j] else b[j + 1];
  }

  /** Erasing the entry found for `key` (remove of a present key). */
  lemma EraseKeeps<V>(t: seq<Bucket<V>>, m: nat, e: nat, c: map<string, V>, key: string)
    requires Represents(t, m, e, c)
    requires 0 <= IndexOf(t[Horner(key, m)], key)
    ensures key in c && e >= 1
    ensures var g := Horner(key, m);
      var i := IndexOf(t[g], key);
      Represents(t[g := t[g][..i] + t[g][i + 1..]], m, e - 1, c - {key})
  {
    var g := Horner(key, m);
    var b := t[g];
    var i := IndexOf(b, key);
    PresentIffFound(t, m, c, key);
    CardinalityRemove(c, key);
    SumLengthsUpdate(t, g, b[..i] + b[i + 1..]);
    EraseShape(t, m, key);
    assert NoDupKeys(t[g]);
    EraseAbstracts(t, m, c, key);
  }

  lemma EraseShape<V>(t: seq<Bucket<V>>, m: nat, key: string)
    requires Wellformed(t, m) && 0 <= IndexOf(t[Horner(key, m)], key)
    ensures var g := Horner(key, m);
      var i := IndexOf(t[g], key);
      Wellformed(t[g := t[g][..i] + t[g][i + 1..]], m)
  {
    var g := Horner(key, m);
    var b := t[g];
    var i := IndexOf(b, key);
    RemoveAtShape(b, i, g, m);
    WellformedUpdate(t, m, g, b[..i] + b[i + 1..]);
  }

  /** Deleting position `i` of a bucket without duplicate keys: its key is gone, every other lookup is unchanged. */
  lemma LookupErased<V>(b: Bucket<V>, i: int, k: string)
    requires 0 <= i < |b| && NoDupKeys(b)
    ensures Lookup(b[..i] + b[i + 1..], k) == if k == b[i].key then None else Lookup(b, k)
  {
    var b' := b[..i] + b[i + 1..];
    if k == b[i].key {
      forall j | 0 <= j < |b'|
        ensures b'[j].key != k
      {
        if j < i {
          assert b'[j] == b[j];
        } else {
          assert b'[j] == b[j + 1];
        }
      }
      IndexOfAbsent(b', k);
    } else {
      LookupRemoveAt(b, i, k);
    }
  }

  lemma EraseAbstracts<V>(t: seq<Bucket<V>>, m: nat, c: map<string, V>, key: string)
    requires Abstracts(t, m, c) && NoDupKeys(t[Horner(key, m)]) && 0 <= IndexOf(t[Horner(key, m)], key)
    ensures var g := Horner(key, m);
      var i := IndexOf(t[g], key);
      Abstracts(t[g := t[g][..i] + t[g][i + 1..]], m, c - {key})
  {
    var g := Horner(key, m);
    var b := t[g];
    var i := IndexOf(b, key);
    var b' := b[..i] + b[i + 1..];
    forall k | Horner(k, m) == g
      ensures Lookup(b', k) == MapGet(c - {key}, k)
    {
      LookupErased(b, i, k);
      assert Lookup(t[Horner(k, m)], k) == MapGet(c, k);
    }
    AbstractsUpdate(t, m, c, g, b', c - {key});
  }

  /** Extending a prefix of `ys` by one cell appends that cell. */
  lemma SnocPrefix<T>(xs: seq<T>, ys: seq<T>, i: int)
    requires 0 <= i < |ys|
    ensures xs + ys[..i + 1] == (xs + ys[..i]) + [ys[i]]
  {
    assert ys[..i + 1] == ys[..i] + [ys[i]];
  }

  /** Appending one more entry to its bucket extends the distribution by that entry. */
  lemma PlaceStep<V>(nt: seq<Bucket<V>>, done: seq<Entry<V>>, e: Entry<V>, m: nat)
    requires m > 0 && |nt| == m
    requires forall g :: 0 <= g < m ==> nt[g] == Select(done, g, m)
    ensures var ng := Horner(e.key, m);
      var nt' := nt[ng := nt[ng] + [e]];
      SumLengths(nt') == SumLengths(nt) + 1 &&
      forall g :: 0 <= g < m ==> nt'[g] == Select(done + [e], g, m)
  {
    var ng := Horner(e.key, m);
    SumLengthsUpdate(nt, ng, nt[ng] + [e]);
    forall g | 0 <= g < m
      ensures nt[ng := nt[ng] + [e]][g] == Select(done + [e], g, m)
    {
      SelectSnoc(done, e, g, m);
      if g != ng {
        assert Select(done, g, m) + [] == Select(done, g, m);
      }
    }
  }

  /**
   * The inner loop of resize: append each entry of one old bucket, front to
   * back, to the new bucket its hash selects under `m` buckets.
   */
  method PlaceBucket<V>(nt: seq<Bucket<V>>, bucket: Bucket<V>, m: nat, ghost done: seq<Entry<V>>)
    returns (nt': seq<Bucket<V>>)
    requires m > 0 && |nt| == m
    requires forall g :: 0 <= g < m ==> nt[g] == Select(done, g, m)
    ensures |nt'| == m
    ensures forall g :: 0 <= g < m ==> nt'[g] == Select(done + bucket, g, m)
    ensures SumLengths(nt') == SumLengths(nt) + |bucket|
  {
    nt' := nt;
    var i := 0;
    assert done + bucket[..0] == done;
    while i < |bucket|
      invariant 0 <= i <= |bucket|
      invariant |nt'| == m
      invariant forall g :: 0 <= g < m ==> nt'[g] == Select(done + bucket[..i], g, m)
      invariant SumLengths(nt') == SumLengths(nt) + i
    {
      var e := bucket[i];
      var ng := HornerHash(e.key, m);
      PlaceStep(nt', done + bucket[..i], e, m);
      SnocPrefix(done, bucket, i);
      nt' := nt'[ng := nt'[ng] + [e]];
      i := i + 1;
    }
    assert bucket[..|bucket|] == bucket;
  }

  /**
   * The outer loop of resize: visit the old buckets in order, so that the
   * entries arrive in get_table()'s scan order.
   */
  method Rehash<V>(t: seq<Bucket<V>>, m: nat) returns (nt: seq<Bucket<V>>)
    requires m > 0
    ensures RehashOf(nt, t, m)
    ensures SumLengths(nt) == |Scan(t)|
  {
    nt := seq(m, _ => []);
    SumLengthsEmpty(nt);
    var b := 0;
    while b < |t|
      invariant 0 <= b <= |t|
      invariant |nt| == m
      invariant forall g :: 0 <= g < m ==> nt[g] == Select(Scan(t[..b]), g, m)
      invariant SumLengths(nt) == |Scan(t[..b])|
    {
      nt := PlaceBucket(nt, t[b], m, Scan(t[..b]));
      ScanPrefix(t, b);
      b := b + 1;
    }
    assert t[..|t|] == t;
  }

  /**
   * The scan insert, remove and get share: walk the bucket front to back
   * and stop at the first entry with key `key`; -1 when there is none.
   */
  method FindKey<V>(bucket: Bucket<V>, key: string) returns (i: int)
    ensures i == IndexOf(bucket, key)
  {
    i := 0;
    while i < |bucket|
      invariant 0 <= i <= |bucket|
      invariant forall j :: 0 <= j < i ==> bucket[j].key != key
    {
      if bucket[i].key == key {
        IndexOfIs(bucket, key, i);
        return;
      }
      i := i + 1;
    }
    IndexOfAbsent(bucket, key);
    i := -1;
  }

  // ---------------------------------------------------------------------
  // The class
  // ---------------------------------------------------------------------

  /**
   * CTL::HashTable<string, V>. `table` is the vector of bucket lists,
   * `hashGroups` its length and `elements` the number of entries;
   * `Contents` is the key -> value map they represent.
   */
  class HashTable<V> {
    var table: seq<Bucket<V>>
    var hashGroups: nat
    var elements: nat
    /** V(): what get returns for an absent key. */
    const Default: V
    ghost var Contents: map<string, V>

    /** The invariant without the load-factor bound; resize starts from this. */
    ghost predicate Coherent()
      reads this
    {
      Represents(table, hashGroups, elements, Contents)
    }

    ghost predicate Valid()
      reads this
    {
      Coherent() && elements < 3 * hashGroups
    }

    constructor (hashGroups: int, zero: V)
      requires hashGroups > 0
      ensures Valid() && Contents == map[] && Default == zero
      ensures this.hashGroups == hashGroups && elements == 0
      ensures forall g :: 0 <= g < |table| ==> table[g] == []
    {
      this.hashGroups := hashGroups;
      elements := 0;
      table := seq(hashGroups, _ => []);
      Default := zero;
      Contents := map[];
      new;
      SumLengthsEmpty(table);
    }

    /**
     * resize: when elements / hashGroups >= 3, double the bucket count and
     * re-place every entry, visiting the old buckets in scan order.
     */
    method Resize()
      requires Coherent() && elements <= 3 * hashGroups
      modifies this
      ensures Valid()
      ensures Contents == old(Contents) && elements == old(elements)
      ensures old(elements) / old(hashGroups) < 3 ==>
        hashGroups == old(hashGroups) && table == old(table)
      ensures old(elements) / old(hashGroups) >= 3 ==>
        hashGroups == 2 * old(hashGroups) && RehashOf(table, old(table), hashGroups)
    {
      LoadFactorBelow3(elements, hashGroups);
      if elements / hashGroups < 3 {
        return;
      }
      var newGroups := hashGroups * 2;
      var newTable := Rehash(table, newGroups);
      RehashPreserves(table, hashGroups, elements, Contents, newTable, newGroups);
      table := newTable;
      hashGroups := newGroups;
    }

    /** Stores a new bucket vector, entry count and represented map for the same number of buckets. */
    method Install(t: seq<Bucket<V>>, e: nat, ghost c: map<string, V>)
      requires Represents(t, hashGroups, e, c)
      modifies this
      ensures Coherent()
      ensures table == t && elements == e && Contents == c && hashGroups == old(hashGroups)
    {
      table, elements, Contents := t, e, c;
    }

    /**
     * insert: overwrite the value of an existing key in place, or append a
     * new entry to the key's bucket and then resize. Either way the result
     * is (key, value).
     */
    method Insert(key: string, value: V) returns (ret: Entry<V>)
      requires Valid()
      modifies this
      ensures Valid()
      ensures ret == Entry(key, value)
      ensures Contents == old(Contents)[key := value]
      ensures var g := Horner(key, old(hashGroups));
        key in old(Contents) ==>
          elements == old(elements) && hashGroups == old(hashGroups) &&
          table == old(table)[g := old(table)[g][IndexOf(old(table)[g], key) := Entry(key, value)]]
      ensures var g := Horner(key, old(hashGroups));
        var grown := old(table)[g := old(table)[g] + [Entry(key, value)]];
        key !in old(Contents) ==>
          elements == old(elements) + 1 &&
          if (old(elements) + 1) / old(hashGroups) < 3 then
            hashGroups == old(hashGroups) && table == grown
          else
            hashGroups == 2 * old(hashGroups) && RehashOf(table, grown, hashGroups)
    {
      var g := HornerHash(key, hashGroups);
      var bucket := table[g];
      ret := Entry(key, value);
      var i := FindKey(bucket, key);
      PresentIffFound(table, hashGroups, Contents, key);
      if i >= 0 {
        OverwriteKeeps(table, hashGroups, elements, Contents, key, value);
        Install(table[g := bucket[i := Entry(key, value)]], elements, Contents[key := value]);
        return;
      }
      Append(key, value, g);
    }

    /** The second path of insert: `key` has no entry, so it joins the end of its bucket and the table may grow. */
    method Append(key: string, value: V, g: nat)
      requires Valid() && g == Horner(key, hashGroups) && IndexOf(table[g], key) < 0
      modifies this
      ensures Valid() && key !in old(Contents) && Contents == old(Contents)[key := value]
      ensures elements == old(elements) + 1
      ensures var grown := old(table)[g := old(table)[g] + [Entry(key, value)]];
        if (old(elements) + 1) / old(hashGroups) < 3 then
          hashGroups == old(hashGroups) && table == grown
        else
          hashGroups == 2 * old(hashGroups) && RehashOf(table, grown, hashGroups)
    {
      AppendKeeps(table, hashGroups, elements, Contents, key, value);
      Install(table[g := table[g] + [Entry(key, value)]], elements + 1, Contents[key := value]);
      Resize();
    }

    /** remove: erase the entry for `key` if its bucket has one; otherwise change nothing. */
    method Remove(key: string)
      requires Valid()
      modifies this
      ensures Valid()
      ensures Contents == old(Contents) - {key}
      ensures hashGroups == old(hashGroups)
      ensures var g := Horner(key, old(hashGroups));
        var i := IndexOf(old(table)[g], key);
        if key in old(Contents) then
          elements == old(elements) - 1 && table == old(table)[g := old(table)[g][..i] + old(table)[g][i + 1..]]
        else
          elements == old(elements) && table == old(table)
    {
      var g := HornerHash(key, hashGroups);
      var bucket := table[g];
      var i := FindKey(bucket, key);
      PresentIffFound(table, hashGroups, Contents, key);
      if i >= 0 {
        EraseKeeps(table, hashGroups, elements, Contents, key);
        Install(table[g := bucket[..i] + bucket[i + 1..]], elements - 1, Contents - {key});
      } else {
        assert Contents - {key} == Contents;
      }
    }

    /** get: the value stored for `key`, or V() when its bucket has no entry for it. */
    method Get(key: string) returns (v: V)
      requires Valid()
      ensures v == if key in Contents then Contents[key] else Default
    {
      var g := HornerHash(key, hashGroups);
      var bucket := table[g];
      var i := FindKey(bucket, key);
      assert MapGet(Contents, key) == Lookup(bucket, key);
      v := if i >= 0 then bucket[i].value else Default;
    }

    /** empty: whether the table holds no entry. */
    function Empty(): (r: bool)
      reads this
      requires Valid()
      ensures r <==> Contents == map[]
    {
      elements == 0
    }

    /**
     * get_table: a copy of the bucket vector. Its scan visits every stored
     * key exactly once, with its stored value.
     */
    function GetTable(): (t: seq<Bucket<V>>)
      reads this
      requires Valid()
      ensures |t| == hashGroups
      ensures NoDupKeys(Scan(t)) && |Scan(t)| == |Contents|
      ensures forall k :: Lookup(Scan(t), k) == MapGet(Contents, k)
    {
      ScanNoDup(table, hashGroups);
      SumLengthsIsScanLength(table);
      LookupScanAll(table, hashGroups);
      table
    }
  }
}
