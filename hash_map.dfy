// A separate-chaining hash map: an array of buckets, each a list of key-value entries,
// an entry counter, and a rehash that doubles the number of buckets once the counter
// exceeds the load factor times the bucket count.  Its abstract value is a map.

module HashMaps {
  import opened Options
  import opened Arithmetic

  // ---------------------------------------------------------------------------
  // Entries
  // ---------------------------------------------------------------------------

  /** A key with its value, as stored in a bucket. */
  datatype Entry<K, V> = Entry(key: K, value: V)
  {
    /** `setValue`: the entry holding `newValue` under the same key, and the value it held before. */
    function SetValue(newValue: V): (r: (Entry<K, V>, V))
      ensures r.0.key == key && r.0.value == newValue && r.1 == value
    {
      (Entry(key, newValue), value)
    }
  }

  // ---------------------------------------------------------------------------
  // Bucket indices: the formula the model uses, and the three the source writes
  // ---------------------------------------------------------------------------

  const INT_MASK := 0x7fff_ffff     // the largest 32-bit Int, used as a mask that clears the sign bit
  const WORD := 0x1_0000_0000       // the number of 32-bit patterns

  /** A value of Kotlin's 32-bit `Int`. */
  predicate IsInt32(h: int) {
    -0x8000_0000 <= h < 0x8000_0000
  }

  /**
   * The bucket of hash code `h` among `n` buckets: the floor remainder, which is what
   * `hashCode().mod(n)` computes.  It is the residue of `h` in `[0, n)`.
   */
  function BucketIndex(h: int, n: int): (i: int)
    requires n > 0
    ensures 0 <= i < n
    ensures (h - i) % n == 0
  {
    ModUnique(h - h % n, n, h / n, 0);
    h % n
  }

  /** Bitwise `and` of two non-negative numbers, taken bit by bit from the lowest. */
  function And(a: nat, b: nat): (r: nat)
    ensures r <= a && r <= b
  {
    if a == 0 || b == 0 then 0
    else 2 * And(a / 2, b / 2) + (if a % 2 == 1 && b % 2 == 1 then 1 else 0)
  }

  /**
   * Kotlin's `h and mask` for an `Int` h and a mask without the sign bit: the and of
   * h's two's-complement bit pattern with the mask, which is never negative.
   */
  function AndInt(h: int, mask: nat): (r: nat)
    requires IsInt32(h) && mask <= INT_MASK
    ensures r <= mask
  {
    And(h % WORD, mask)
  }

  /** The index `put` computes: `hashCode() and 0x7fffffff % n`, which groups as `h and (0x7fffffff % n)`. */
  function PutIndexAsWritten(h: int, n: int): (i: int)
    requires IsInt32(h) && n > 0
    ensures 0 <= i < n
  {
    AndInt(h, INT_MASK % n)
  }

  /** The index `remove` computes: `(hashCode() and 0x7fffffff) % n`. */
  function RemoveIndexAsWritten(h: int, n: int): (i: int)
    requires IsInt32(h) && n > 0
    ensures 0 <= i < n
  {
    AndInt(h, INT_MASK) % n
  }

  function Pow2(k: nat): (p: nat)
    ensures p >= 1
  {
    if k == 0 then 1 else 2 * Pow2(k - 1)
  }

  lemma {:induction false} Pow2Split(j: nat, k: nat)
    requires j <= k
    ensures Pow2(k) == Pow2(j) * Pow2(k - j)
  {
    if j < k {
      Pow2Split(j, k - 1);
    }
  }

  /** Reducing modulo a multiple of `m` first does not change the remainder modulo `m`. */
  lemma ModMod(a: int, m: int, c: int)
    requires m > 0 && c > 0
    ensures (a % (m * c)) % m == a % m
  {
    var q, r := a / (m * c), a % (m * c);
    var q2, r2 := r / m, r % m;
    assert a == (m * c) * q + r;
    assert r == m * q2 + r2;
    assert a == m * (c * q + q2) + r2;
    ModUnique(a, m, c * q + q2, r2);
  }

  lemma ModHalf(a: nat, k: nat)
    requires k > 0
    ensures a % Pow2(k) == 2 * ((a / 2) % Pow2(k - 1)) + a % 2
  {
    var p := Pow2(k - 1);
    var q, r := a / 2, a % 2;
    var t, s := q / p, q % p;
    assert a == 2 * q + r;
    assert q == p * t + s;
    assert a == Pow2(k) * t + (2 * s + r);
    ModUnique(a, Pow2(k), t, 2 * s + r);
  }

  /** Masking with the `k` lowest bits keeps the remainder modulo `2^k`. */
  lemma {:induction false} AndLowBits(a: nat, k: nat)
    ensures And(a, Pow2(k) - 1) == a % Pow2(k)
  {
    if k == 0 {
      assert a % 1 == 0;
    } else if a > 0 {
      var mask := Pow2(k) - 1;
      ModUnique(mask, 2, Pow2(k - 1) - 1, 1);
      assert And(a, mask) == 2 * And(a / 2, Pow2(k - 1) - 1) + a % 2;
      AndLowBits(a / 2, k - 1);
      ModHalf(a, k);
    } else {
      ModUnique(0, Pow2(k), 0, 0);
    }
  }

  lemma Pow2Word()
    ensures Pow2(31) == INT_MASK + 1 && Pow2(32) == WORD
  {
    assert Pow2(4) == 16;
    Pow2Split(4, 8);
    Pow2Split(8, 16);
    Pow2Split(16, 32);
  }

  /** `0x7fffffff` is one less than a multiple of every power of two up to `2^31`. */
  lemma MaskMod(k: nat)
    requires k <= 31
    ensures INT_MASK % Pow2(k) == Pow2(k) - 1
  {
    Pow2Word();
    Pow2Split(k, 31);
    MaskModFactors(Pow2(k), Pow2(31 - k));
  }

  lemma MaskModFactors(n: int, c: int)
    requires n >= 1 && c >= 1 && n * c == INT_MASK + 1
    ensures INT_MASK % n == n - 1
  {
    assert n * (c - 1) == n * c - n;
    ModUnique(INT_MASK, n, c - 1, n - 1);
  }

  /** The 32-bit pattern of `h` has the low bits of `h`. */
  lemma PatternLowBits(h: int, k: nat)
    requires k <= 32
    ensures (h % WORD) % Pow2(k) == h % Pow2(k)
  {
    Pow2Word();
    Pow2Split(k, 32);
    ModMod(h, Pow2(k), Pow2(32 - k));
  }

  /**
   * For a power-of-two bucket count up to `2^31` the three index formulas of the
   * source agree with the floor remainder.
   */
  lemma IndexFormulasAgree(h: int, k: nat)
    requires IsInt32(h) && k <= 31
    ensures PutIndexAsWritten(h, Pow2(k)) == BucketIndex(h, Pow2(k))
    ensures RemoveIndexAsWritten(h, Pow2(k)) == BucketIndex(h, Pow2(k))
  {
    MaskMod(k);
    AndLowBits(h % WORD, k);
    PatternLowBits(h, k);
    Pow2Word();
    AndLowBits(h % WORD, 31);
    PatternLowBits(h, 31);
    Pow2Split(k, 31);
    ModMod(h, Pow2(k), Pow2(31 - k));
  }

  /**
   * With ten buckets the formulas part: hash code 9 goes to bucket 1 in `put` but is
   * looked up in bucket 9 by both `remove` and `get`, so neither finds it; hash code -1
   * goes to bucket 7 in `put` and `remove`, but `get` looks in bucket 9.
   */
  lemma IndexFormulasDisagree()
    ensures PutIndexAsWritten(9, 10) == 1 && RemoveIndexAsWritten(9, 10) == 9 && BucketIndex(9, 10) == 9
    ensures PutIndexAsWritten(-1, 10) == 7 && RemoveIndexAsWritten(-1, 10) == 7 && BucketIndex(-1, 10) == 9
  {
    assert And(9, 7) == 1;
    Pow2Word();
    AndLowBits(9, 31);
    assert Pow2(3) == 8;
    AndLowBits(WORD - 1, 3);
    MinusOnePattern();
  }

  /** The 32-bit pattern of -1 with its sign bit cleared is the largest `Int`. */
  lemma MinusOnePattern()
    ensures AndInt(-1, INT_MASK) == INT_MASK
  {
    Pow2Word();
    AndLowBits(WORD - 1, 31);
    ModUnique(WORD - 1, Pow2(31), 1, INT_MASK);
  }

  // ---------------------------------------------------------------------------
  // Buckets and the map they hold
  // ---------------------------------------------------------------------------

  /** The value under key `k` in bucket `b`: the first entry with that key, as each scan finds it. */
  function BucketLookup<K(==, !new), V(!new)>(b: seq<Entry<K, V>>, k: K): (r: Option<V>)
    ensures r.Some? <==> exists j :: 0 <= j < |b| && b[j].key == k
    ensures r.Some? ==> Entry(k, r.value) in b
  {
    if b == [] then None
    else if b[0].key == k then Some(b[0].value)
    else
      var r := BucketLookup(b[1..], k);
      assert forall j :: 0 < j < |b| ==> b[j] == b[1..][j - 1];
      r
  }

  /** No two entries of `b` share a key. */
  ghost predicate UniqueKeys<K(!new), V(!new)>(b: seq<Entry<K, V>>) {
    forall p, q :: 0 <= p < q < |b| ==> b[p].key != b[q].key
  }

  /** Bucket `b` is bucket number `i` of `n`: its keys are unique and all hash there. */
  ghost predicate BucketOk<K(!new), V(!new)>(hash: K -> int, b: seq<Entry<K, V>>, i: int, n: int)
    requires n > 0
  {
    UniqueKeys(b) && forall p :: 0 <= p < |b| ==> BucketIndex(hash(b[p].key), n) == i
  }

  /** The entries of all buckets, bucket after bucket (`flatMap`). */
  function Flatten<K(!new), V(!new)>(B: seq<seq<Entry<K, V>>>): (r: seq<Entry<K, V>>)
    ensures forall e :: e in r <==> exists i :: 0 <= i < |B| && e in B[i]
  {
    if B == [] then []
    else
      var r := Flatten(B[..|B| - 1]) + B[|B| - 1];
      assert forall i :: 0 <= i < |B| - 1 ==> B[i] == B[..|B| - 1][i];
      r
  }

  /**
   * The buckets `B` hold exactly the map `m`: each bucket has unique keys that all hash
   * to it, every key's value is the one its bucket's scan finds, and the buckets hold
   * as many entries as `m` has keys.
   */
  ghost predicate Represents<K(!new), V(!new)>(hash: K -> int, B: seq<seq<Entry<K, V>>>, m: map<K, V>) {
    && |B| >= 1
    && (forall i :: 0 <= i < |B| ==> BucketOk(hash, B[i], i, |B|))
    && (forall k :: Lookup(m, k) == BucketLookup(B[BucketIndex(hash(k), |B|)], k))
    && |Flatten(B)| == |m|
  }

  /** A scan that passes entries with other keys and stops at `j` finds `b[j]`'s value. */
  lemma {:induction false} LookupFirst<K(!new), V(!new)>(b: seq<Entry<K, V>>, j: int, k: K)
    requires 0 <= j < |b| && b[j].key == k
    requires forall p :: 0 <= p < j ==> b[p].key != k
    ensures BucketLookup(b, k) == Some(b[j].value)
  {
    if j > 0 {
      LookupFirst(b[1..], j - 1, k);
    }
  }

  /** In a bucket with unique keys the scan finds a key's one entry. */
  lemma LookupUnique<K(!new), V(!new)>(b: seq<Entry<K, V>>, j: int)
    requires UniqueKeys(b) && 0 <= j < |b|
    ensures BucketLookup(b, b[j].key) == Some(b[j].value)
  {
    LookupFirst(b, j, b[j].key);
  }

  /** In a bucket with unique keys, the scan for `k` finds `v` exactly when `Entry(k, v)` is stored. */
  lemma LookupMember<K(!new), V(!new)>(b: seq<Entry<K, V>>, k: K, v: V)
    requires UniqueKeys(b)
    ensures BucketLookup(b, k) == Some(v) <==> Entry(k, v) in b
  {
    if Entry(k, v) in b {
      var j :| 0 <= j < |b| && b[j] == Entry(k, v);
      LookupUnique(b, j);
    }
  }

  lemma {:induction false} FlattenLength<K(!new), V(!new)>(B: seq<seq<Entry<K, V>>>, i: int, b: seq<Entry<K, V>>)
    requires 0 <= i < |B|
    ensures |Flatten(B[i := b])| == |Flatten(B)| - |B[i]| + |b|
    decreases |B|
  {
    var n := |B| - 1;
    if i < n {
      assert B[i := b][..n] == B[..n][i := b];
      FlattenLength(B[..n], i, b);
    } else {
      assert B[i := b][..n] == B[..n];
    }
  }

  lemma {:induction false} FlattenEmpty<K(!new), V(!new)>(B: seq<seq<Entry<K, V>>>)
    requires forall i :: 0 <= i < |B| ==> B[i] == []
    ensures Flatten(B) == []
    decreases |B|
  {
    if B != [] {
      FlattenEmpty(B[..|B| - 1]);
    }
  }

  /** Empty buckets hold the empty map. */
  lemma RepresentsEmpty<K(!new), V(!new)>(hash: K -> int, B: seq<seq<Entry<K, V>>>)
    requires |B| >= 1 && forall i :: 0 <= i < |B| ==> B[i] == []
    ensures Represents(hash, B, map[])
  {
    FlattenEmpty(B);
  }

  /** Two unique-key buckets holding the same entries for `k` give the same answer for `k`. */
  lemma LookupSame<K(!new), V(!new)>(b: seq<Entry<K, V>>, b': seq<Entry<K, V>>, k: K)
    requires UniqueKeys(b) && UniqueKeys(b')
    requires forall v :: Entry(k, v) in b <==> Entry(k, v) in b'
    ensures BucketLookup(b, k) == BucketLookup(b', k)
  {
    if BucketLookup(b, k).Some? {
      LookupMember(b, k, BucketLookup(b, k).value);
      LookupMember(b', k, BucketLookup(b, k).value);
    } else if BucketLookup(b', k).Some? {
      LookupMember(b, k, BucketLookup(b', k).value);
      LookupMember(b', k, BucketLookup(b', k).value);
    }
  }

  /** Overwriting the value of entry `j`: its key now finds the new value, other keys what they found before. */
  lemma LookupReplaced<K(!new), V(!new)>(b: seq<Entry<K, V>>, j: int, value: V)
    requires UniqueKeys(b) && 0 <= j < |b|
    ensures UniqueKeys(b[j := Entry(b[j].key, value)])
    ensures forall k :: BucketLookup(b[j := Entry(b[j].key, value)], k)
                        == if k == b[j].key then Some(value) else BucketLookup(b, k)
  {
    var key := b[j].key;
    var b' := b[j := Entry(key, value)];
    assert forall p :: 0 <= p < |b| ==> b'[p].key == b[p].key;
    LookupUnique(b', j);
    forall k | k != key
      ensures BucketLookup(b', k) == BucketLookup(b, k)
    {
      forall v ensures Entry(k, v) in b <==> Entry(k, v) in b' {
        if Entry(k, v) in b' {
          var p :| 0 <= p < |b'| && b'[p] == Entry(k, v);
          assert b[p] == Entry(k, v);
        }
        if Entry(k, v) in b {
          var p :| 0 <= p < |b| && b[p] == Entry(k, v);
          assert b'[p] == Entry(k, v);
        }
      }
      LookupSame(b, b', k);
    }
  }

  /** Appending an entry: the scan still stops at any earlier entry for the key. */
  lemma {:induction false} LookupAppended<K(!new), V(!new)>(b: seq<Entry<K, V>>, e: Entry<K, V>, k: K)
    ensures BucketLookup(b + [e], k)
            == if BucketLookup(b, k).Some? then BucketLookup(b, k) else if e.key == k then Some(e.value) else None
  {
    if b != [] {
      assert (b + [e])[1..] == b[1..] + [e];
      LookupAppended(b[1..], e, k);
    }
  }

  /** Dropping entry `j`: its key is no longer found, other keys find what they found before. */
  lemma LookupDeleted<K(!new), V(!new)>(b: seq<Entry<K, V>>, j: int)
    requires UniqueKeys(b) && 0 <= j < |b|
    ensures UniqueKeys(b[..j] + b[j + 1..])
    ensures forall k :: BucketLookup(b[..j] + b[j + 1..], k) == if k == b[j].key then None else BucketLookup(b, k)
  {
    var b' := b[..j] + b[j + 1..];
    assert forall p :: 0 <= p < |b'| ==> b'[p] == b[if p < j then p else p + 1];
    forall k ensures BucketLookup(b', k) == if k == b[j].key then None else BucketLookup(b, k) {
      LookupDeletedAt(b, j, k);
    }
  }

  lemma LookupDeletedAt<K(!new), V(!new)>(b: seq<Entry<K, V>>, j: int, k: K)
    requires UniqueKeys(b) && 0 <= j < |b| && UniqueKeys(b[..j] + b[j + 1..])
    ensures BucketLookup(b[..j] + b[j + 1..], k) == if k == b[j].key then None else BucketLookup(b, k)
  {
    var b' := b[..j] + b[j + 1..];
    if k != b[j].key {
      assert b == b[..j] + [b[j]] + b[j + 1..];
      LookupSame(b, b', k);
    }
  }

  /**
   * Replacing bucket `i` by `b'` leaves buckets that hold `m'`, when `b'` is a proper bucket
   * `i` whose scans give `m'` on the keys hashing there, and `m'` agrees with `m` elsewhere.
   */
  lemma RepresentsUpdate<K(!new), V(!new)>(hash: K -> int, B: seq<seq<Entry<K, V>>>, m: map<K, V>, i: int, b': seq<Entry<K, V>>, m': map<K, V>)
    requires Represents(hash, B, m) && 0 <= i < |B|
    requires BucketOk(hash, b', i, |B|)
    requires forall k :: Lookup(m', k) == if BucketIndex(hash(k), |B|) == i then BucketLookup(b', k) else Lookup(m, k)
    requires |m'| == |m| - |B[i]| + |b'|
    ensures Represents(hash, B[i := b'], m')
  {
    var B' := B[i := b'];
    forall k ensures Lookup(m', k) == BucketLookup(B'[BucketIndex(hash(k), |B|)], k) {
      assert Lookup(m, k) == BucketLookup(B[BucketIndex(hash(k), |B|)], k);
    }
    FlattenLength(B, i, b');
  }

  /** Overwriting the value of the entry found for `key` stores `value` under `key`. */
  lemma RepresentsReplace<K(!new), V(!new)>(hash: K -> int, B: seq<seq<Entry<K, V>>>, m: map<K, V>, key: K, value: V, j: int)
    requires Represents(hash, B, m)
    requires 0 <= j < |B[BucketIndex(hash(key), |B|)]|
    requires B[BucketIndex(hash(key), |B|)][j].key == key
    ensures key in m && m[key] == B[BucketIndex(hash(key), |B|)][j].value
    ensures Represents(hash, B[BucketIndex(hash(key), |B|) := B[BucketIndex(hash(key), |B|)][j := Entry(key, value)]], m[key := value])
  {
    var i := BucketIndex(hash(key), |B|);
    var b := B[i];
    var b' := b[j := Entry(key, value)];
    LookupUnique(b, j);
    assert Lookup(m, key) == BucketLookup(b, key);
    LookupReplaced(b, j, value);
    assert forall p :: 0 <= p < |b| ==> b'[p].key == b[p].key;
    forall k ensures Lookup(m[key := value], k) == if BucketIndex(hash(k), |B|) == i then BucketLookup(b', k) else Lookup(m, k) {
      assert Lookup(m, k) == BucketLookup(B[BucketIndex(hash(k), |B|)], k);
    }
    RepresentsUpdate(hash, B, m, i, b', m[key := value]);
  }

  /** Appending an entry for a key its bucket lacks adds that key. */
  lemma RepresentsAppend<K(!new), V(!new)>(hash: K -> int, B: seq<seq<Entry<K, V>>>, m: map<K, V>, key: K, value: V)
    requires Represents(hash, B, m)
    requires forall p :: 0 <= p < |B[BucketIndex(hash(key), |B|)]| ==> B[BucketIndex(hash(key), |B|)][p].key != key
    ensures key !in m
    ensures Represents(hash, B[BucketIndex(hash(key), |B|) := B[BucketIndex(hash(key), |B|)] + [Entry(key, value)]], m[key := value])
  {
    var i := BucketIndex(hash(key), |B|);
    var b := B[i];
    var b' := b + [Entry(key, value)];
    assert Lookup(m, key) == BucketLookup(b, key);
    forall k ensures Lookup(m[key := value], k) == if BucketIndex(hash(k), |B|) == i then BucketLookup(b', k) else Lookup(m, k) {
      LookupAppended(b, Entry(key, value), k);
      assert Lookup(m, k) == BucketLookup(B[BucketIndex(hash(k), |B|)], k);
    }
    assert BucketOk(hash, b', i, |B|);
    RepresentsUpdate(hash, B, m, i, b', m[key := value]);
  }

  /** Dropping the entry found for `key` removes that key. */
  lemma RepresentsDelete<K(!new), V(!new)>(hash: K -> int, B: seq<seq<Entry<K, V>>>, m: map<K, V>, key: K, j: int)
    requires Represents(hash, B, m)
    requires 0 <= j < |B[BucketIndex(hash(key), |B|)]|
    requires B[BucketIndex(hash(key), |B|)][j].key == key
    ensures key in m && m[key] == B[BucketIndex(hash(key), |B|)][j].value && |m - {key}| == |m| - 1
    ensures Represents(hash, B[BucketIndex(hash(key), |B|) := B[BucketIndex(hash(key), |B|)][..j] + B[BucketIndex(hash(key), |B|)][j + 1..]], m - {key})
  {
    var i := BucketIndex(hash(key), |B|);
    var b := B[i];
    var b' := b[..j] + b[j + 1..];
    LookupUnique(b, j);
    assert Lookup(m, key) == BucketLookup(b, key);
    LookupDeleted(b, j);
    assert forall p :: 0 <= p < |b'| ==> b'[p] == b[if p < j then p else p + 1];
    assert BucketOk(hash, b', i, |B|);
    forall k ensures Lookup(m - {key}, k) == if BucketIndex(hash(k), |B|) == i then BucketLookup(b', k) else Lookup(m, k) {
      assert Lookup(m, k) == BucketLookup(B[BucketIndex(hash(k), |B|)], k);
    }
    assert (m - {key}).Keys == m.Keys - {key};
    RepresentsUpdate(hash, B, m, i, b', m - {key});
  }

  /** The entries of all buckets are exactly the map's key-value pairs. */
  lemma RepresentsEntries<K(!new), V(!new)>(hash: K -> int, B: seq<seq<Entry<K, V>>>, m: map<K, V>)
    requires Represents(hash, B, m)
    ensures forall e :: e in Flatten(B) <==> Lookup(m, e.key) == Some(e.value)
  {
    forall e ensures e in Flatten(B) <==> Lookup(m, e.key) == Some(e.value) {
      var i := BucketIndex(hash(e.key), |B|);
      LookupMember(B[i], e.key, e.value);
      if e in Flatten(B) {
        var i' :| 0 <= i' < |B| && e in B[i'];
        var p :| 0 <= p < |B[i']| && B[i'][p] == e;
        assert BucketIndex(hash(B[i'][p].key), |B|) == i';
      }
    }
  }

  /** No key has two entries, in one bucket or across buckets. */
  lemma RepresentsUnique<K(!new), V(!new)>(hash: K -> int, B: seq<seq<Entry<K, V>>>, m: map<K, V>)
    requires Represents(hash, B, m)
    ensures UniqueKeys(Flatten(B))
  {
    FlattenUnique(hash, B, |B|);
  }

  lemma {:induction false} FlattenUnique<K(!new), V(!new)>(hash: K -> int, B: seq<seq<Entry<K, V>>>, n: int)
    requires n > 0
    requires forall i :: 0 <= i < |B| ==> BucketOk(hash, B[i], i, n)
    ensures UniqueKeys(Flatten(B))
    decreases |B|
  {
    if B != [] {
      var B0, b := B[..|B| - 1], B[|B| - 1];
      assert forall i :: 0 <= i < |B0| ==> B0[i] == B[i];
      FlattenUnique(hash, B0, n);
      var f0 := Flatten(B0);
      var f := f0 + b;
      forall p, q | 0 <= p < q < |f| ensures f[p].key != f[q].key {
        if p < |f0| <= q {
          assert f[p] in f0;
          var i :| 0 <= i < |B0| && f[p] in B0[i];
          var x :| 0 <= x < |B0[i]| && B0[i][x] == f[p];
          assert BucketIndex(hash(B[i][x].key), n) == i;
          assert f[q] == b[q - |f0|];
        }
      }
    }
  }

  /** The keys and the values of a set of entries that holds exactly the pairs of `m`. */
  lemma EntriesProject<K(!new), V(!new)>(es: set<Entry<K, V>>, m: map<K, V>)
    requires forall e :: e in es <==> Lookup(m, e.key) == Some(e.value)
    ensures (set e | e in es :: e.key) == m.Keys
    ensures (set e | e in es :: e.value) == m.Values
  {
    forall k | k in m ensures k in (set e | e in es :: e.key) {
      assert Entry(k, m[k]) in es;
    }
    forall v | v in m.Values ensures v in (set e | e in es :: e.value) {
      var k :| k in m && m[k] == v;
      assert Entry(k, v) in es;
    }
  }

  /** The entries of the first `i + 1` buckets are those of the first `i`, then bucket `i`. */
  lemma FlattenStep<K(!new), V(!new)>(B: seq<seq<Entry<K, V>>>, i: int)
    requires 0 <= i < |B|
    ensures Flatten(B[..i + 1]) == Flatten(B[..i]) + B[i]
  {
    assert B[..i + 1][..i] == B[..i];
  }

  /** The buckets before `i`, and bucket `i`, hold no more entries than all buckets. */
  lemma {:induction false} FlattenPrefix<K(!new), V(!new)>(B: seq<seq<Entry<K, V>>>, i: int)
    requires 0 <= i < |B|
    ensures |Flatten(B[..i])| + |B[i]| <= |Flatten(B)|
    decreases |B|
  {
    var n := |B| - 1;
    if i < n {
      assert B[..n][..i] == B[..i];
      FlattenPrefix(B[..n], i);
    } else {
      assert B[..n] == B[..i];
    }
  }

  lemma Double(a: int, b: int)
    ensures a * (2 * b) == 2 * (a * b)
  {
  }

  /**
   * What a rehash has put so far, having gone through the old buckets `B` (holding `C`)
   * before bucket `bi` and the first `j` entries of bucket `bi`.
   */
  ghost function Processed<K(!new), V(!new)>(hash: K -> int, B: seq<seq<Entry<K, V>>>, C: map<K, V>, bi: int, j: int, k: K): Option<V>
    requires 1 <= |B| && 0 <= bi <= |B| && (bi < |B| ==> 0 <= j <= |B[bi]|)
  {
    var i := BucketIndex(hash(k), |B|);
    if i < bi then Lookup(C, k) else if i == bi then BucketLookup(B[bi][..j], k) else None
  }

  /** Putting entry `j` of old bucket `bi` extends what has been put by that entry. */
  lemma ProcessedPut<K(!new), V(!new)>(hash: K -> int, B: seq<seq<Entry<K, V>>>, C: map<K, V>, bi: int, j: int, m: map<K, V>, m': map<K, V>)
    requires 0 <= bi < |B| && 0 <= j < |B[bi]| && BucketOk(hash, B[bi], bi, |B|)
    requires forall k :: Lookup(m, k) == Processed(hash, B, C, bi, j, k)
    requires m' == m[B[bi][j].key := B[bi][j].value]
    ensures forall k :: Lookup(m', k) == Processed(hash, B, C, bi, j + 1, k)
  {
    var b := B[bi];
    assert b[..j + 1] == b[..j] + [b[j]];
    assert forall p :: 0 <= p < j ==> b[..j][p].key != b[j].key;
    forall k ensures Lookup(m', k) == Processed(hash, B, C, bi, j + 1, k) {
      LookupAppended(b[..j], b[j], k);
      assert Lookup(m, k) == Processed(hash, B, C, bi, j, k);
    }
  }

  /** A whole old bucket put is the same as the next bucket not yet begun. */
  lemma ProcessedNext<K(!new), V(!new)>(hash: K -> int, B: seq<seq<Entry<K, V>>>, C: map<K, V>, bi: int, m: map<K, V>)
    requires Represents(hash, B, C) && 0 <= bi < |B|
    requires forall k :: Lookup(m, k) == Processed(hash, B, C, bi, |B[bi]|, k)
    ensures forall k :: Lookup(m, k) == Processed(hash, B, C, bi + 1, 0, k)
  {
    assert B[bi][..|B[bi]|] == B[bi];
  }

  /** Once every old bucket is put, the map put is the old one. */
  lemma ProcessedAll<K(!new), V(!new)>(hash: K -> int, B: seq<seq<Entry<K, V>>>, C: map<K, V>, m: map<K, V>)
    requires |B| >= 1
    requires forall k :: Lookup(m, k) == Processed(hash, B, C, |B|, 0, k)
    ensures m == C
  {
    LookupEqual(m, C);
  }

  // ---------------------------------------------------------------------------
  // The hash map object
  // ---------------------------------------------------------------------------

  /**
   * The hash map.  `initialCapacity` is the current number of buckets (a rehash doubles
   * it), `hash` stands for the keys' `hashCode`, and the load factor is a whole number.
   * The ghost field `contents` is the map the buckets hold.
   */
  class HashMap<K(==, !new), V(==, !new)> {
    const hash: K -> int
    const loadFactor: int
    var initialCapacity: int
    var buckets: array<seq<Entry<K, V>>>
    var numberOfEntries: int
    ghost var contents: map<K, V>

    /** One bucket per unit of capacity, the buckets hold `contents`, and the counter counts its keys. */
    ghost predicate Sound()
      reads this, buckets
    {
      && loadFactor >= 1
      && buckets.Length == initialCapacity
      && Represents(hash, buckets[..], contents)
      && numberOfEntries == |contents|
    }

    /** The class invariant: sound, and the counter within the load bound `put` restores. */
    ghost predicate Valid()
      reads this, buckets
    {
      Sound() && numberOfEntries <= loadFactor * buckets.Length
    }

    /** An empty map with `initialCapacity` empty buckets. */
    constructor (hash: K -> int, initialCapacity: int := 32, loadFactor: int := 1)
      requires initialCapacity >= 1 && loadFactor >= 1
      ensures Valid() && contents == map[] && fresh(buckets)
      ensures this.hash == hash && this.initialCapacity == initialCapacity && this.loadFactor == loadFactor
    {
      this.hash := hash;
      this.loadFactor := loadFactor;
      this.initialCapacity := initialCapacity;
      buckets := new seq<Entry<K, V>>[initialCapacity](_ => []);
      numberOfEntries := 0;
      contents := map[];
      new;
      RepresentsEmpty(hash, buckets[..]);
    }

    /** `size`: the counter, which is both the number of keys and the number of stored entries. */
    function Size(): (n: int)
      reads this, buckets
      requires Sound()
      ensures n == |contents| && n == |Flatten(buckets[..])|
    {
      numberOfEntries
    }

    function IsEmpty(): (r: bool)
      reads this, buckets
      requires Sound()
      ensures r <==> contents == map[]
    {
      numberOfEntries == 0
    }

    /** `get`: scan the key's bucket for an entry with that key. */
    method Get(key: K) returns (r: Option<V>)
      requires Valid()
      ensures r == Lookup(contents, key)
    {
      var bucket := buckets[BucketIndex(hash(key), buckets.Length)];
      for j := 0 to |bucket|
        invariant forall p :: 0 <= p < j ==> bucket[p].key != key
      {
        if bucket[j].key == key {
          LookupFirst(bucket, j, key);
          return Some(bucket[j].value);
        }
      }
      return None;
    }

    method ContainsKey(key: K) returns (r: bool)
      requires Valid()
      ensures r <==> key in contents
    {
      var v := Get(key);
      return v.Some?;
    }

    /**
     * The bucket work of `put`: overwrite the value of the entry with `key`, or append a
     * new entry and count it.
     */
    method PutEntry(key: K, value: V) returns (r: Option<V>)
      requires Sound()
      modifies buckets, this`numberOfEntries, this`contents
      ensures Sound()
      ensures r == Lookup(old(contents), key) && contents == old(contents)[key := value]
      ensures numberOfEntries == old(numberOfEntries) + (if r.None? then 1 else 0)
    {
      var i := BucketIndex(hash(key), buckets.Length);
      var bucket := buckets[i];
      ghost var B := buckets[..];
      for j := 0 to |bucket|
        invariant forall p :: 0 <= p < j ==> bucket[p].key != key
      {
        if bucket[j].key == key {
          var oldValue := bucket[j].value;
          var updated := bucket[j].SetValue(value).0;
          RepresentsReplace(hash, B, contents, key, value, j);
          buckets[i] := bucket[j := updated];
          assert buckets[..] == B[i := bucket[j := updated]];
          contents := contents[key := value];
          return Some(oldValue);
        }
      }
      RepresentsAppend(hash, B, contents, key, value);
      buckets[i] := bucket + [Entry(key, value)];
      assert buckets[..] == B[i := bucket + [Entry(key, value)]];
      numberOfEntries := numberOfEntries + 1;
      contents := contents[key := value];
      return None;
    }

    /**
     * `put`: store `value` under `key` and answer the value it replaces; a new entry that
     * takes the counter past the load bound triggers a rehash.
     */
    method Put(key: K, value: V) returns (r: Option<V>)
      requires Valid()
      modifies this, buckets
      ensures Valid()
      ensures r == Lookup(old(contents), key) && contents == old(contents)[key := value]
      ensures numberOfEntries == old(numberOfEntries) + (if r.None? then 1 else 0)
      ensures initialCapacity == if r.None? && old(numberOfEntries) + 1 > loadFactor * old(initialCapacity)
                                 then 2 * old(initialCapacity) else old(initialCapacity)
      ensures buckets == old(buckets) || fresh(buckets)
    {
      r := PutEntry(key, value);
      if r.None? && numberOfEntries > loadFactor * buckets.Length {
        Rehash();
      }
    }

    /**
     * `rehash`: twice as many empty buckets, then every old entry put again, bucket after
     * bucket.  The re-puts never reach the load bound, so none of them rehashes again.
     */
    method Rehash()
      requires Sound() && numberOfEntries <= loadFactor * buckets.Length + 1
      modifies this
      ensures Valid() && fresh(buckets)
      ensures contents == old(contents) && numberOfEntries == old(numberOfEntries)
      ensures initialCapacity == 2 * old(initialCapacity)
    {
      var oldBuckets := buckets;
      ghost var B, C := buckets[..], contents;
      ghost var L := loadFactor;
      MulAtLeast(L, |B|);
      Double(L, |B|);
      FlattenStep(B, |B| - 1);
      assert B[..|B|] == B;
      initialCapacity := initialCapacity * 2;
      buckets := new seq<Entry<K, V>>[initialCapacity](_ => []);
      numberOfEntries := 0;
      contents := map[];
      RepresentsEmpty(hash, buckets[..]);
      for bi := 0 to oldBuckets.Length
        invariant fresh(buckets) && buckets.Length == initialCapacity == 2 * |B|
        invariant Sound()
        invariant numberOfEntries <= |Flatten(B[..bi])|
        invariant forall k :: Lookup(contents, k) == Processed(hash, B, C, bi, 0, k)
      {
        PutBucket(oldBuckets[bi], B, C, bi);
      }
      ProcessedAll(hash, B, C, contents);
    }

    /** The inner loop of `rehash`: put every entry of old bucket `bi` again. */
    method PutBucket(bucket: seq<Entry<K, V>>, ghost B: seq<seq<Entry<K, V>>>, ghost C: map<K, V>, ghost bi: int)
      requires Sound() && Represents(hash, B, C) && 0 <= bi < |B| && bucket == B[bi]
      requires numberOfEntries <= |Flatten(B[..bi])| && |Flatten(B)| <= loadFactor * buckets.Length
      requires forall k :: Lookup(contents, k) == Processed(hash, B, C, bi, 0, k)
      modifies buckets, this`numberOfEntries, this`contents
      ensures Sound()
      ensures numberOfEntries <= |Flatten(B[..bi + 1])|
      ensures forall k :: Lookup(contents, k) == Processed(hash, B, C, bi + 1, 0, k)
    {
      FlattenPrefix(B, bi);
      for j := 0 to |bucket|
        invariant Sound()
        invariant numberOfEntries <= |Flatten(B[..bi])| + j
        invariant forall k :: Lookup(contents, k) == Processed(hash, B, C, bi, j, k)
      {
        var entry := bucket[j];
        ghost var before := contents;
        var _ := PutEntry(entry.key, entry.value);
        ProcessedPut(hash, B, C, bi, j, before, contents);
        // the load check of this nested `put` does not fire
        assert numberOfEntries <= loadFactor * buckets.Length;
      }
      ProcessedNext(hash, B, C, bi, contents);
      FlattenStep(B, bi);
    }

    /** `remove`: unlink the entry with `key` from its bucket, uncount it and answer its value. */
    method Remove(key: K) returns (r: Option<V>)
      requires Valid()
      modifies buckets, this`numberOfEntries, this`contents
      ensures Valid()
      ensures r == Lookup(old(contents), key) && contents == old(contents) - {key}
      ensures numberOfEntries == old(numberOfEntries) - (if r.Some? then 1 else 0)
      ensures r.None? ==> buckets[..] == old(buckets[..])
    {
      var i := BucketIndex(hash(key), buckets.Length);
      var bucket := buckets[i];
      ghost var B := buckets[..];
      var j := 0;
      while j < |bucket|
        invariant 0 <= j <= |bucket|
        invariant forall p :: 0 <= p < j ==> bucket[p].key != key
      {
        var entry := bucket[j];
        if entry.key == key {
          RepresentsDelete(hash, B, contents, key, j);
          buckets[i] := bucket[..j] + bucket[j + 1..];
          assert buckets[..] == B[i := bucket[..j] + bucket[j + 1..]];
          numberOfEntries := numberOfEntries - 1;
          contents := contents - {key};
          return Some(entry.value);
        }
        j := j + 1;
      }
      assert contents - {key} == contents;
      return None;
    }

    /** `clear`: fresh empty buckets, as many as the current capacity, and a zero counter. */
    method Clear()
      requires Valid()
      modifies this
      ensures Valid() && fresh(buckets)
      ensures contents == map[] && numberOfEntries == 0
      ensures initialCapacity == old(initialCapacity) && buckets.Length == initialCapacity
    {
      buckets := new seq<Entry<K, V>>[initialCapacity](_ => []);
      numberOfEntries := 0;
      contents := map[];
      RepresentsEmpty(hash, buckets[..]);
    }

    /** `entries`: the entries of all buckets as a set, which are exactly the pairs of `contents`. */
    function Entries(): (es: set<Entry<K, V>>)
      reads this, buckets
      requires Sound()
      ensures forall e :: e in es <==> Lookup(contents, e.key) == Some(e.value)
    {
      RepresentsEntries(hash, buckets[..], contents);
      set e | e in Flatten(buckets[..])
    }

    /** `keys`: the keys of the entries. */
    function Keys(): (ks: set<K>)
      reads this, buckets
      requires Sound()
      ensures ks == contents.Keys
    {
      EntriesProject(Entries(), contents);
      set e | e in Entries() :: e.key
    }

    /** `values`: the values of the entries, collected into a set. */
    function Values(): (vs: set<V>)
      reads this, buckets
      requires Sound()
      ensures vs == contents.Values
    {
      EntriesProject(Entries(), contents);
      set e | e in Entries() :: e.value
    }

    /** `containsValue`: some entry holds `value`. */
    function ContainsValue(value: V): (r: bool)
      reads this, buckets
      requires Sound()
      ensures r <==> value in contents.Values
    {
      EntriesProject(Entries(), contents);
      exists e | e in Entries() :: e.value == value
    }

    /** `putAll`: put the pairs one after the other (a map argument given as its sequence of entries). */
    method PutAll(from: seq<(K, V)>)
      requires Valid()
      modifies this, buckets
      ensures Valid()
      ensures contents == old(contents) + PairsToMap(from)
      ensures buckets == old(buckets) || fresh(buckets)
    {
      for n := 0 to |from|
        invariant Valid()
        invariant contents == old(contents) + PairsToMap(from[..n])
        invariant buckets == old(buckets) || fresh(buckets)
      {
        var (key, value) := from[n];
        var _ := Put(key, value);
        MergeStep(old(contents), from, n);
      }
      assert from[..|from|] == from;
    }

    /** `from`: a map with the default capacity and load factor, holding the given pairs. */
    static method From(hash: K -> int, pairs: seq<(K, V)>) returns (m: HashMap<K, V>)
      ensures fresh(m) && m.Valid() && m.hash == hash
      ensures m.contents == PairsToMap(pairs)
    {
      m := new HashMap(hash);
      m.PutAll(pairs);
    }
  }
}
