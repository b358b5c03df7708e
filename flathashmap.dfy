/** The open-addressing hash table `FlatHashMap<Key, Value, Size, Hash>`: a
    power-of-two array of slots probed linearly from the key's home bucket,
    with tombstones for erased entries and doubling when the load factor would
    pass 0.875. The ghost map `contents` is the dictionary the table stands for. */
module HashMap {
  import opened Bitmask
  import opened FlatHashMapImpl

  /** `findIndex`'s "not found" answer. The source uses `size_t(-1)`, which no
      index of a vector can reach; -1 is likewise outside every array. */
  const OUT_OF_RANGE: int := -1

  /** The default `Size` template argument. */
  const DEFAULT_SIZE: nat := 1024

  /** The default capacity satisfies the `PowerOfTwo` concept. */
  lemma DefaultSizeIsPowerOfTwo()
    ensures PowerOfTwo(DEFAULT_SIZE)
  {
    assert IsPow2(1) && IsPow2(2) && IsPow2(4) && IsPow2(8) && IsPow2(16) && IsPow2(32);
    assert IsPow2(64) && IsPow2(128) && IsPow2(256) && IsPow2(512) && IsPow2(1024);
    PowerOfTwoIsPow2(DEFAULT_SIZE);
  }

  /** `LOAD_FACTOR`: the largest ratio of entries to capacity the table allows. */
  const LOAD_FACTOR: real := 0.875

  /** The test `insert` and `operator[]` make before adding an entry: whether
      `loadFactor()` would pass LOAD_FACTOR once one more entry is counted.
      It is decided on integers, `8 * (count + 1) > 7 * size`. */
  function NeedsRehash(count: nat, size: nat): (b: bool)
    requires size > 0
    ensures b <==> (count + 1) as real / size as real > LOAD_FACTOR
  {
    LoadRatio(count + 1, size);
    8 * (count + 1) > 7 * size
  }

  /** A ratio `c / n` of naturals exceeds 0.875 exactly when `8c > 7n`. */
  lemma LoadRatio(c: nat, n: nat)
    requires n > 0
    ensures c as real / n as real > LOAD_FACTOR <==> 8 * c > 7 * n
  {
    assert (c as real / n as real) * n as real == c as real;
  }

  /** What `at` produces: the stored value, or the `std::out_of_range` it throws. */
  datatype AtResult<V> = Found(value: V) | OutOfRange

  // Probe arithmetic on a ring of n slots.

  /** The slot probed at attempt `d` from the home bucket `home`. */
  function Probe(home: nat, d: nat, n: nat): (r: nat)
    requires home < n && d < n
    ensures r < n && r == (home + d) % n
  {
    if home + d < n then
      ModOfDecomposition(home + d, n, 0, home + d);
      home + d
    else
      ModOfDecomposition(home + d, n, 1, home + d - n);
      home + d - n
  }

  /** The attempt at which the probe sequence from `home` reaches slot `j`. */
  function Dist(home: nat, j: nat, n: nat): (d: nat)
    requires home < n && j < n
    ensures d < n && Probe(home, d, n) == j
  {
    if home <= j then j - home else j + n - home
  }

  /** Each attempt number names a different slot: the probe sequence visits
      every slot of the ring exactly once in its first `n` attempts. */
  lemma ProbeDist(home: nat, d: nat, n: nat)
    requires home < n && d < n
    ensures Dist(home, Probe(home, d, n), n) == d
  {
  }

  // The representation invariant, stated on the slot sequence.

  /** No slot on the probe path from `home` to `j` (excluded) is FREE, so a
      lookup that starts at `home` walks on until it reaches `j`. */
  ghost predicate NoFreeBefore<K, V>(s: seq<Element<K, V>>, home: nat, j: nat)
    requires home < |s| && j < |s|
  {
    forall d :: 0 <= d < Dist(home, j, |s|) ==> s[Probe(home, d, |s|)].status != FREE
  }

  /** No two OCCUPIED slots hold equal keys. */
  ghost predicate UniqueKeys<K, V>(s: seq<Element<K, V>>)
  {
    forall i, j ::
      (0 <= i < |s| && 0 <= j < |s| && s[i].status == OCCUPIED && s[j].status == OCCUPIED &&
       s[i].kv.key == s[j].kv.key) ==> i == j
  }

  /** The OCCUPIED slots hold exactly the entries of `m`. */
  ghost predicate Abstracts<K, V>(s: seq<Element<K, V>>, m: map<K, V>)
  {
    (forall i :: 0 <= i < |s| && s[i].status == OCCUPIED ==>
       s[i].kv.key in m && m[s[i].kv.key] == s[i].kv.value) &&
    (forall k :: k in m ==> exists i :: 0 <= i < |s| && s[i].status == OCCUPIED && s[i].kv.key == k)
  }

  /** Every live key can be reached from its home bucket without crossing a FREE slot. */
  ghost predicate Reachable<K, V>(s: seq<Element<K, V>>, hasher: K -> nat)
    requires |s| > 0
  {
    forall j :: 0 <= j < |s| && s[j].status == OCCUPIED ==> NoFreeBefore(s, hasher(s[j].kv.key) % |s|, j)
  }

  /** No slot is a tombstone. */
  ghost predicate NoTombstones<K, V>(s: seq<Element<K, V>>)
  {
    forall i :: 0 <= i < |s| ==> s[i].status != DELETED
  }

  ghost predicate TableInv<K, V>(s: seq<Element<K, V>>, m: map<K, V>, hasher: K -> nat)
  {
    |s| > 0 && UniqueKeys(s) && Abstracts(s, m) && Reachable(s, hasher)
  }

  // What the invariant lets a probe conclude.

  /** The first `n` probes from `home` all land on OCCUPIED slots. */
  ghost predicate OccupiedRun<K, V>(s: seq<Element<K, V>>, home: nat, n: nat)
    requires home < |s| && n <= |s|
  {
    forall d :: 0 <= d < n ==> s[Probe(home, d, |s|)].status == OCCUPIED
  }

  /** None of the first `n` probes from `home` lands on a FREE slot. */
  ghost predicate NoFreeRun<K, V>(s: seq<Element<K, V>>, home: nat, n: nat)
    requires home < |s| && n <= |s|
  {
    forall d :: 0 <= d < n ==> s[Probe(home, d, |s|)].status != FREE
  }

  /** None of the first `n` probes from `home` finds `k` in an OCCUPIED slot. */
  ghost predicate MissesKey<K, V>(s: seq<Element<K, V>>, home: nat, n: nat, k: K)
    requires home < |s| && n <= |s|
  {
    forall d :: 0 <= d < n ==> !(s[Probe(home, d, |s|)].status == OCCUPIED && s[Probe(home, d, |s|)].kv.key == k)
  }

  /** A lookup for `k` that meets a FREE slot before meeting `k` proves `k` absent. */
  lemma AbsentWhenFree<K, V>(s: seq<Element<K, V>>, m: map<K, V>, hasher: K -> nat, k: K, shift: nat)
    requires TableInv(s, m, hasher) && shift < |s|
    requires s[Probe(hasher(k) % |s|, shift, |s|)].status == FREE
    requires MissesKey(s, hasher(k) % |s|, shift, k)
    ensures k !in m
  {
    var home := hasher(k) % |s|;
    forall j | 0 <= j < |s| && s[j].status == OCCUPIED ensures s[j].kv.key != k {
      var dj := Dist(home, j, |s|);
      assert NoFreeBefore(s, hasher(s[j].kv.key) % |s|, j);
      assert Probe(home, dj, |s|) == j;
    }
  }

  /** A lookup for `k` that probes all slots without meeting `k` proves `k` absent. */
  lemma AbsentWhenExhausted<K, V>(s: seq<Element<K, V>>, m: map<K, V>, hasher: K -> nat, k: K)
    requires TableInv(s, m, hasher)
    requires MissesKey(s, hasher(k) % |s|, |s|, k)
    ensures k !in m
  {
    var home := hasher(k) % |s|;
    forall j | 0 <= j < |s| && s[j].status == OCCUPIED ensures s[j].kv.key != k {
      assert Probe(home, Dist(home, j, |s|), |s|) == j;
    }
  }

  /** When every slot is OCCUPIED, the table is full. */
  lemma {:induction false} AllOccupiedCard<K, V>(s: seq<Element<K, V>>)
    requires forall i :: 0 <= i < |s| ==> s[i].status == OCCUPIED
    ensures |OccupiedIndices(s)| == |s|
  {
    if s != [] {
      var init := s[..|s| - 1];
      AllOccupiedCard(init);
      assert OccupiedIndices(s) == OccupiedIndices(init) + {|s| - 1};
    }
  }

  /** Under the load bound, every probe sequence meets a slot that is not
      OCCUPIED within its first `|s|` attempts. */
  lemma PathMeetsVacancy<K, V>(s: seq<Element<K, V>>, home: nat)
    requires home < |s| && 8 * |OccupiedIndices(s)| <= 7 * |s|
    ensures !OccupiedRun(s, home, |s|)
  {
    if OccupiedRun(s, home, |s|) {
      forall j | 0 <= j < |s| ensures s[j].status == OCCUPIED {
        assert Probe(home, Dist(home, j, |s|), |s|) == j;
      }
      AllOccupiedCard(s);
    }
  }

  /** The slot reached after a run of `d0` OCCUPIED probes is at distance `d0`
      from the home bucket, and no FREE slot lies before it. */
  lemma AfterOccupiedRun<K, V>(s: seq<Element<K, V>>, home: nat, d0: nat)
    requires home < |s| && d0 < |s| && OccupiedRun(s, home, d0)
    ensures Dist(home, Probe(home, d0, |s|), |s|) == d0
    ensures OccupiedRun(s, home, Dist(home, Probe(home, d0, |s|), |s|))
    ensures NoFreeBefore(s, home, Probe(home, d0, |s|))
  {
    ProbeDist(home, d0, |s|);
  }

  // How the three slot writes of the table keep the invariant.

  /** Writing an absent key into a non-OCCUPIED slot whose probe path holds no
      FREE slot keeps the invariant and adds the entry to the dictionary. */
  lemma OccupyKeepsInv<K, V>(s: seq<Element<K, V>>, m: map<K, V>, hasher: K -> nat, pos: nat, k: K, v: V)
    requires TableInv(s, m, hasher) && k !in m
    requires pos < |s| && s[pos].status != OCCUPIED
    requires NoFreeBefore(s, hasher(k) % |s|, pos)
    ensures TableInv(s[pos := Element(KeyValue(k, v), OCCUPIED)], m[k := v], hasher)
    ensures OccupiedIndices(s[pos := Element(KeyValue(k, v), OCCUPIED)]) == OccupiedIndices(s) + {pos}
    ensures pos !in OccupiedIndices(s) && |m[k := v]| == |m| + 1
  {
    var s' := s[pos := Element(KeyValue(k, v), OCCUPIED)];
    OccupyKeepsUnique(s, m, pos, k, v);
    OccupyKeepsAbstracts(s, m, pos, k, v);
    OccupyKeepsReachable(s, hasher, pos, k, v);
    assert OccupiedIndices(s') == OccupiedIndices(s) + {pos};
    assert m[k := v].Keys == m.Keys + {k};
  }

  lemma OccupyKeepsUnique<K, V>(s: seq<Element<K, V>>, m: map<K, V>, pos: nat, k: K, v: V)
    requires UniqueKeys(s) && Abstracts(s, m) && k !in m && pos < |s|
    ensures UniqueKeys(s[pos := Element(KeyValue(k, v), OCCUPIED)])
  {
  }

  lemma OccupyKeepsAbstracts<K, V>(s: seq<Element<K, V>>, m: map<K, V>, pos: nat, k: K, v: V)
    requires Abstracts(s, m) && k !in m && pos < |s| && s[pos].status != OCCUPIED
    ensures Abstracts(s[pos := Element(KeyValue(k, v), OCCUPIED)], m[k := v])
  {
    var s' := s[pos := Element(KeyValue(k, v), OCCUPIED)];
    var m' := m[k := v];
    forall k' | k' in m' ensures exists i :: 0 <= i < |s'| && s'[i].status == OCCUPIED && s'[i].kv.key == k' {
      if k' == k {
        assert s'[pos].kv.key == k';
      } else {
        var i :| 0 <= i < |s| && s[i].status == OCCUPIED && s[i].kv.key == k';
        assert s'[i] == s[i];
      }
    }
  }

  lemma OccupyKeepsReachable<K, V>(s: seq<Element<K, V>>, hasher: K -> nat, pos: nat, k: K, v: V)
    requires |s| > 0 && Reachable(s, hasher) && pos < |s|
    requires NoFreeBefore(s, hasher(k) % |s|, pos)
    ensures Reachable(s[pos := Element(KeyValue(k, v), OCCUPIED)], hasher)
  {
    var s' := s[pos := Element(KeyValue(k, v), OCCUPIED)];
    forall j | 0 <= j < |s'| && s'[j].status == OCCUPIED
      ensures NoFreeBefore(s', hasher(s'[j].kv.key) % |s'|, j)
    {
      assert NoFreeBefore(s, hasher(s'[j].kv.key) % |s|, j);
    }
  }

  /** Turning the OCCUPIED slot of `k` into a tombstone keeps the invariant and
      removes `k` from the dictionary. */
  lemma VacateKeepsInv<K, V>(s: seq<Element<K, V>>, m: map<K, V>, hasher: K -> nat, pos: nat, blank: K)
    requires TableInv(s, m, hasher)
    requires pos < |s| && s[pos].status == OCCUPIED
    ensures TableInv(s[pos := Element(KeyValue(blank, s[pos].kv.value), DELETED)], m - {s[pos].kv.key}, hasher)
    ensures OccupiedIndices(s[pos := Element(KeyValue(blank, s[pos].kv.value), DELETED)]) == OccupiedIndices(s) - {pos}
    ensures pos in OccupiedIndices(s) && s[pos].kv.key in m && |m - {s[pos].kv.key}| == |m| - 1
  {
    var k := s[pos].kv.key;
    var s' := s[pos := Element(KeyValue(blank, s[pos].kv.value), DELETED)];
    VacateKeepsAbstracts(s, m, pos, blank);
    KeepsReachable(s, s', hasher);
    assert OccupiedIndices(s') == OccupiedIndices(s) - {pos};
    assert m.Keys == (m - {k}).Keys + {k};
  }

  lemma VacateKeepsAbstracts<K, V>(s: seq<Element<K, V>>, m: map<K, V>, pos: nat, blank: K)
    requires UniqueKeys(s) && Abstracts(s, m)
    requires pos < |s| && s[pos].status == OCCUPIED
    ensures Abstracts(s[pos := Element(KeyValue(blank, s[pos].kv.value), DELETED)], m - {s[pos].kv.key})
  {
    var s' := s[pos := Element(KeyValue(blank, s[pos].kv.value), DELETED)];
    var m' := m - {s[pos].kv.key};
    forall k' | k' in m' ensures exists i :: 0 <= i < |s'| && s'[i].status == OCCUPIED && s'[i].kv.key == k' {
      var i :| 0 <= i < |s| && s[i].status == OCCUPIED && s[i].kv.key == k';
      assert s'[i] == s[i];
    }
  }

  /** A write that frees no slot on any path and moves no live key keeps
      every live key reachable: the slots that were not FREE stay so, and
      every slot OCCUPIED afterwards was OCCUPIED by the same key before. */
  lemma KeepsReachable<K, V>(s: seq<Element<K, V>>, s': seq<Element<K, V>>, hasher: K -> nat)
    requires |s| > 0 && |s'| == |s| && Reachable(s, hasher)
    requires forall j :: 0 <= j < |s| && s[j].status != FREE ==> s'[j].status != FREE
    requires forall j :: 0 <= j < |s| && s'[j].status == OCCUPIED ==>
      s[j].status == OCCUPIED && s[j].kv.key == s'[j].kv.key
    ensures Reachable(s', hasher)
  {
    forall j | 0 <= j < |s'| && s'[j].status == OCCUPIED
      ensures NoFreeBefore(s', hasher(s'[j].kv.key) % |s'|, j)
    {
      assert NoFreeBefore(s, hasher(s[j].kv.key) % |s|, j);
    }
  }

  /** Replacing the value in the OCCUPIED slot of `k` keeps the invariant and
      updates the dictionary at `k`. */
  lemma OverwriteKeepsInv<K, V>(s: seq<Element<K, V>>, m: map<K, V>, hasher: K -> nat, pos: nat, v: V)
    requires TableInv(s, m, hasher)
    requires pos < |s| && s[pos].status == OCCUPIED
    ensures TableInv(s[pos := Element(KeyValue(s[pos].kv.key, v), OCCUPIED)], m[s[pos].kv.key := v], hasher)
    ensures OccupiedIndices(s[pos := Element(KeyValue(s[pos].kv.key, v), OCCUPIED)]) == OccupiedIndices(s)
    ensures |m[s[pos].kv.key := v]| == |m|
  {
    var k := s[pos].kv.key;
    var s' := s[pos := Element(KeyValue(k, v), OCCUPIED)];
    OverwriteKeepsAbstracts(s, m, pos, v);
    KeepsReachable(s, s', hasher);
    assert OccupiedIndices(s') == OccupiedIndices(s);
    assert m[k := v].Keys == m.Keys;
  }

  lemma OverwriteKeepsAbstracts<K, V>(s: seq<Element<K, V>>, m: map<K, V>, pos: nat, v: V)
    requires UniqueKeys(s) && Abstracts(s, m)
    requires pos < |s| && s[pos].status == OCCUPIED
    ensures Abstracts(s[pos := Element(KeyValue(s[pos].kv.key, v), OCCUPIED)], m[s[pos].kv.key := v])
  {
    var k := s[pos].kv.key;
    var s' := s[pos := Element(KeyValue(k, v), OCCUPIED)];
    var m' := m[k := v];
    forall k' | k' in m' ensures exists i :: 0 <= i < |s'| && s'[i].status == OCCUPIED && s'[i].kv.key == k' {
      var i :| 0 <= i < |s| && s[i].status == OCCUPIED && s[i].kv.key == k';
      assert s'[i].kv.key == k';
    }
  }

  /** The keys of the OCCUPIED slots among the first `i`. */
  ghost function LiveKeys<K, V>(s: seq<Element<K, V>>, i: nat): set<K>
    requires i <= |s|
  {
    set j | 0 <= j < i && s[j].status == OCCUPIED :: s[j].kv.key
  }

  /** Scanning one more slot adds its key when it is OCCUPIED, and that key is
      new because keys are unique. */
  lemma LiveKeysStep<K, V>(s: seq<Element<K, V>>, i: nat)
    requires UniqueKeys(s) && i < |s|
    ensures s[i].status == OCCUPIED ==>
      s[i].kv.key !in LiveKeys(s, i) && LiveKeys(s, i + 1) == LiveKeys(s, i) + {s[i].kv.key}
    ensures s[i].status != OCCUPIED ==> LiveKeys(s, i + 1) == LiveKeys(s, i)
  {
    assert LiveKeys(s, i + 1) == LiveKeys(s, i) + (if s[i].status == OCCUPIED then {s[i].kv.key} else {});
  }

  /** All slots scanned, the live keys are the dictionary's keys. */
  lemma LiveKeysAll<K, V>(s: seq<Element<K, V>>, m: map<K, V>)
    requires Abstracts(s, m)
    ensures LiveKeys(s, |s|) == m.Keys
  {
    forall k | k in m ensures k in LiveKeys(s, |s|) {
      var i :| 0 <= i < |s| && s[i].status == OCCUPIED && s[i].kv.key == k;
    }
  }

  /** The dictionary rebuilt from the first `i` slots of `s`: exactly their
      live keys, each bound to its value in `m`. */
  ghost predicate RebuiltUpTo<K, V>(c: map<K, V>, m: map<K, V>, s: seq<Element<K, V>>, i: nat)
    requires i <= |s|
  {
    c.Keys == LiveKeys(s, i) && forall k :: k in c ==> k in m && c[k] == m[k]
  }

  /** Re-inserting slot `i` extends the rebuilt prefix by one slot; an OCCUPIED
      slot brings a key the rebuilt dictionary does not hold yet. */
  lemma RebuildStep<K, V>(c: map<K, V>, m: map<K, V>, s: seq<Element<K, V>>, i: nat)
    requires UniqueKeys(s) && Abstracts(s, m) && i < |s| && RebuiltUpTo(c, m, s, i)
    ensures s[i].status == OCCUPIED ==>
      s[i].kv.key !in c && RebuiltUpTo(c[s[i].kv.key := s[i].kv.value], m, s, i + 1)
    ensures s[i].status != OCCUPIED ==> RebuiltUpTo(c, m, s, i + 1)
  {
    LiveKeysStep(s, i);
  }

  /** Once every slot has been re-inserted, the rebuilt dictionary is `m`. */
  lemma RebuildComplete<K, V>(c: map<K, V>, m: map<K, V>, s: seq<Element<K, V>>)
    requires Abstracts(s, m) && RebuiltUpTo(c, m, s, |s|)
    ensures c == m
  {
    LiveKeysAll(s, m);
  }

  /** Iterating a table from `begin` to `end` yields one pair per entry of the
      dictionary: every pair it yields is an entry, every entry is yielded, and
      no key comes twice. */
  lemma IterationYieldsContents<K, V>(s: seq<Element<K, V>>, m: map<K, V>, hasher: K -> nat)
    requires TableInv(s, m, hasher)
    ensures forall n :: 0 <= n < |Visits(s, 0)| ==>
      Visits(s, 0)[n] < |s| && s[Visits(s, 0)[n]].kv.key in m && m[s[Visits(s, 0)[n]].kv.key] == s[Visits(s, 0)[n]].kv.value
    ensures forall k :: k in m ==> exists n :: 0 <= n < |Visits(s, 0)| && s[Visits(s, 0)[n]].kv.key == k
    ensures forall a, b :: 0 <= a < b < |Visits(s, 0)| ==> s[Visits(s, 0)[a]].kv.key != s[Visits(s, 0)[b]].kv.key
  {
    var q := Visits(s, 0);
    VisitsExactlyOccupied(s, 0);
    YieldsEntries(s, m, q);
    YieldsEveryKey(s, m, q);
    YieldsKeysOnce(s, q);
  }

  lemma YieldsEntries<K, V>(s: seq<Element<K, V>>, m: map<K, V>, q: seq<nat>)
    requires Abstracts(s, m)
    requires forall n :: 0 <= n < |q| ==> q[n] < |s| && s[q[n]].status == OCCUPIED
    ensures forall n :: 0 <= n < |q| ==> s[q[n]].kv.key in m && m[s[q[n]].kv.key] == s[q[n]].kv.value
  {
  }

  lemma YieldsEveryKey<K, V>(s: seq<Element<K, V>>, m: map<K, V>, q: seq<nat>)
    requires Abstracts(s, m)
    requires forall n :: 0 <= n < |q| ==> q[n] < |s|
    requires forall j :: 0 <= j < |s| ==> (s[j].status == OCCUPIED <==> j in q)
    ensures forall k :: k in m ==> exists n :: 0 <= n < |q| && s[q[n]].kv.key == k
  {
    forall k | k in m ensures exists n :: 0 <= n < |q| && s[q[n]].kv.key == k {
      var i :| 0 <= i < |s| && s[i].status == OCCUPIED && s[i].kv.key == k;
      var n :| 0 <= n < |q| && q[n] == i;
    }
  }

  lemma YieldsKeysOnce<K, V>(s: seq<Element<K, V>>, q: seq<nat>)
    requires UniqueKeys(s) && StrictlyIncreasing(q)
    requires forall n :: 0 <= n < |q| ==> q[n] < |s| && s[q[n]].status == OCCUPIED
    ensures forall a, b :: 0 <= a < b < |q| ==> s[q[a]].kv.key != s[q[b]].kv.key
  {
  }

  /** Slots that are not OCCUPIED add no key: the rebuilt prefix may be
      extended to the next OCCUPIED slot. */
  lemma RebuiltSkip<K, V>(c: map<K, V>, m: map<K, V>, s: seq<Element<K, V>>, i: nat)
    requires i <= |s| && RebuiltUpTo(c, m, s, i)
    ensures RebuiltUpTo(c, m, s, NextOccupied(s, i))
  {
    assert LiveKeys(s, NextOccupied(s, i)) == LiveKeys(s, i);
  }

  /** Writing `v` at `k` after an upsert of `k` is the same as writing `v` at
      `k` directly. */
  lemma UpsertThenWrite<K, V>(m: map<K, V>, u: map<K, V>, k: K, init: V, v: V)
    requires u == if k in m then m else m[k := init]
    ensures u[k := v] == m[k := v]
  {
    assert u[k := v].Keys == m[k := v].Keys;
  }

  class FlatHashMap<K(==), V> {
    var data: array<Element<K, V>>
    var count: nat
    var size: nat
    const hasher: K -> nat
    /** `Key{}`: what `erase` resets a key to. */
    const keyInit: K
    /** `Value{}`: what `operator[]` stores for a new key. */
    const valueInit: V
    ghost var contents: map<K, V>

    ghost predicate Valid()
      reads this, data
    {
      size == data.Length && PowerOfTwo(size) &&
      count == |OccupiedIndices(data[..])| && count == |contents| &&
      8 * count <= 7 * size &&
      TableInv(data[..], contents, hasher)
    }

    /** The table of `capacity` FREE slots; the capacity is the `Size` template
        argument, which the concept requires to be a power of two. */
    constructor (capacity: nat, hasher: K -> nat, keyInit: K, valueInit: V)
      requires PowerOfTwo(capacity)
      ensures Valid() && fresh(data)
      ensures size == capacity && contents == map[]
      ensures count == 0 && forall i :: 0 <= i < size ==> data[i].status == FREE
      ensures this.hasher == hasher && this.keyInit == keyInit && this.valueInit == valueInit
    {
      this.hasher := hasher;
      this.keyInit := keyInit;
      this.valueInit := valueInit;
      data := new Element<K, V>[capacity](_ => NewElement(keyInit, valueInit));
      count := 0;
      size := capacity;
      contents := map[];
      new;
      assert OccupiedIndices(data[..]) == {};
    }

    /** `hash`: the home bucket of `k`, the hasher's value masked to the capacity. */
    function Hash(k: K): (h: nat)
      reads this
      requires PowerOfTwo(size)
      ensures h < size && h == hasher(k) % size
    {
      MaskIsMod(hasher(k), size);
      BitAnd(hasher(k), size - 1)
    }

    /** `nextCell`: the slot `shift` steps after `index`, wrapping around the array. */
    function NextCell(index: nat, shift: nat): (r: nat)
      reads this
      requires PowerOfTwo(size)
      ensures r < size && r == (index + shift) % size
    {
      MaskIsMod(index + shift, size);
      BitAnd(index + shift, size - 1)
    }

    /** The probe loop of `findIndex` and `getNextPosition`: walks the probe
        path of `k` with `nextCell` until it meets `k` or a FREE slot, or has
        taken `size` steps, and remembers the first DELETED slot on the way. */
    method ProbeScan(k: K) returns (shift: nat, firstDeleted: int, ghost deletedAt: nat)
      requires size == data.Length && PowerOfTwo(size)
      requires 8 * |OccupiedIndices(data[..])| <= 7 * size
      ensures shift <= size && MissesKey(data[..], Hash(k), shift, k)
      ensures NoFreeRun(data[..], Hash(k), shift)
      ensures shift == size ==> firstDeleted != OUT_OF_RANGE
      ensures shift < size ==>
        (data[Probe(Hash(k), shift, size)].status == FREE ||
         (data[Probe(Hash(k), shift, size)].status == OCCUPIED && data[Probe(Hash(k), shift, size)].kv.key == k))
      ensures firstDeleted == OUT_OF_RANGE ==> OccupiedRun(data[..], Hash(k), shift)
      ensures firstDeleted != OUT_OF_RANGE ==>
        deletedAt < shift && firstDeleted == Probe(Hash(k), deletedAt, size) &&
        data[firstDeleted].status == DELETED && OccupiedRun(data[..], Hash(k), deletedAt)
    {
      var home := Hash(k);
      firstDeleted, deletedAt := OUT_OF_RANGE, 0;
      shift := 0;
      while shift < size
        invariant shift <= size && MissesKey(data[..], home, shift, k)
        invariant NoFreeRun(data[..], home, shift)
        invariant firstDeleted == OUT_OF_RANGE ==> OccupiedRun(data[..], home, shift)
        invariant firstDeleted != OUT_OF_RANGE ==>
          deletedAt < shift && firstDeleted == Probe(home, deletedAt, size) &&
          data[firstDeleted].status == DELETED && OccupiedRun(data[..], home, deletedAt)
      {
        var index := NextCell(home, shift);
        assert index == Probe(home, shift, size);
        var status := data[index].status;
        if status == FREE || (status == OCCUPIED && data[index].kv.key == k) {
          return;
        }
        if status == DELETED && firstDeleted == OUT_OF_RANGE {
          firstDeleted, deletedAt := index, shift;
        }
        shift := shift + 1;
      }
      PathMeetsVacancy(data[..], home);
    }

    /** `findIndex`: the slot holding `k`, or OUT_OF_RANGE when `k` is absent.
        The probe stops at a FREE slot, steps over DELETED ones and never takes
        more than `size` steps. */
    method FindIndex(k: K) returns (r: int)
      requires Valid()
      ensures r == OUT_OF_RANGE <==> k !in contents
      ensures r != OUT_OF_RANGE ==> 0 <= r < size && data[r].status == OCCUPIED && data[r].kv.key == k
    {
      var home := Hash(k);
      var shift, _, _ := ProbeScan(k);
      if shift == size {
        AbsentWhenExhausted(data[..], contents, hasher, k);
        return OUT_OF_RANGE;
      }
      var index := NextCell(home, shift);
      if data[index].status == FREE {
        AbsentWhenFree(data[..], contents, hasher, k, shift);
        return OUT_OF_RANGE;
      }
      return index;
    }

    /** `getNextPosition`: where `k` lives or goes. A slot already holding `k`
        is returned as is; otherwise the answer is the first slot on the probe
        path that is not OCCUPIED: the first DELETED slot met before the first
        FREE one, or that FREE slot. */
    method GetNextPosition(k: K) returns (r: nat)
      requires Valid()
      ensures r < size
      ensures k in contents ==> data[r].status == OCCUPIED && data[r].kv.key == k
      ensures k !in contents ==> data[r].status != OCCUPIED
      ensures k !in contents ==> OccupiedRun(data[..], Hash(k), Dist(Hash(k), r, size))
      ensures k !in contents ==> NoFreeBefore(data[..], Hash(k), r)
    {
      var home := Hash(k);
      var shift, firstDeleted, deletedAt := ProbeScan(k);
      if shift < size {
        var index := NextCell(home, shift);
        if data[index].status == OCCUPIED {
          return index;
        }
        AbsentWhenFree(data[..], contents, hasher, k, shift);
        if firstDeleted != OUT_OF_RANGE {
          AfterOccupiedRun(data[..], home, deletedAt);
          return firstDeleted;
        }
        AfterOccupiedRun(data[..], home, shift);
        return index;
      }
      AbsentWhenExhausted(data[..], contents, hasher, k);
      AfterOccupiedRun(data[..], home, deletedAt);
      return firstDeleted;
    }

    /** Stores the absent key `k` with value `v` in slot `pos`, as found by
        GetNextPosition. */
    method Occupy(pos: nat, k: K, v: V)
      requires Valid() && k !in contents && 8 * (count + 1) <= 7 * size
      requires pos < size && data[pos].status != OCCUPIED
      requires NoFreeBefore(data[..], Hash(k), pos)
      modifies this, data
      ensures Valid() && data == old(data) && size == old(size) && count == old(count) + 1
      ensures contents == old(contents)[k := v]
      ensures data[..] == old(data[..])[pos := Element(KeyValue(k, v), OCCUPIED)]
    {
      OccupyKeepsInv(data[..], contents, hasher, pos, k, v);
      data[pos] := Element(KeyValue(k, v), OCCUPIED);
      count := count + 1;
      contents := contents[k := v];
    }

    /** `rehash`: moves every OCCUPIED slot into a fresh array of twice the
        capacity; FREE and DELETED slots are dropped. */
    method Rehash()
      requires Valid()
      modifies this
      ensures Valid() && fresh(data)
      ensures size == 2 * old(size) && contents == old(contents)
      ensures NoTombstones(data[..])
    {
      var previous := data;
      ghost var oldContents := contents;
      assert UniqueKeys(previous[..]) && Abstracts(previous[..], oldContents);
      DoublingKeepsPowerOfTwo(size);
      var newSize := 2 * size;
      data := new Element<K, V>[newSize](_ => NewElement(keyInit, valueInit));
      size := newSize;
      count := 0;
      contents := map[];
      assert OccupiedIndices(data[..]) == {};
      assert NoTombstones(data[..]);
      ReinsertFrom(previous, oldContents);
    }

    /** The loop of `rehash`: re-inserts, in index order, the entries of the
        OCCUPIED slots of the array the table has just let go of. */
    method ReinsertFrom(previous: array<Element<K, V>>, ghost oldContents: map<K, V>)
      requires Valid() && contents == map[] && previous != data && 2 * previous.Length <= size
      requires UniqueKeys(previous[..]) && Abstracts(previous[..], oldContents)
      requires NoTombstones(data[..])
      modifies this, data
      ensures Valid() && data == old(data) && size == old(size)
      ensures contents == oldContents
      ensures NoTombstones(data[..])
    {
      ghost var oldSlots := previous[..];
      for i := 0 to previous.Length
        invariant Valid() && data == old(data) && size == old(size)
        invariant previous[..] == oldSlots
        invariant count <= i
        invariant RebuiltUpTo(contents, oldContents, oldSlots, i)
        invariant NoTombstones(data[..])
      {
        var e := previous[i];
        RebuildStep(contents, oldContents, oldSlots, i);
        if e.status == OCCUPIED {
          Place(e.kv.key, e.kv.value);
        }
      }
      RebuildComplete(contents, oldContents, oldSlots);
    }

    /** Re-inserts one entry during `rehash`: the key is known to be absent, so
        it goes to the first non-OCCUPIED slot of its probe path. */
    method Place(k: K, v: V)
      requires Valid() && k !in contents && 8 * (count + 1) <= 7 * size
      modifies this, data
      ensures Valid() && data == old(data) && size == old(size) && count == old(count) + 1
      ensures contents == old(contents)[k := v]
      ensures NoTombstones(old(data[..])) ==> NoTombstones(data[..])
    {
      var pos := GetNextPosition(k);
      Occupy(pos, k, v);
    }

    /** `insert`: adds `k` with `v` when `k` is absent; never overwrites. */
    method Insert(k: K, v: V) returns (inserted: bool)
      requires Valid()
      modifies this, data
      ensures Valid() && (data == old(data) || fresh(data))
      ensures inserted <==> k !in old(contents)
      ensures contents == if inserted then old(contents)[k := v] else old(contents)
    {
      if NeedsRehash(count, size) {
        Rehash();
      }
      var pos := GetNextPosition(k);
      if data[pos].status == OCCUPIED {
        return false;
      }
      Occupy(pos, k, v);
      return true;
    }

    /** `operator[]`: the slot whose value the returned reference designates;
        an absent key is first added with the value `Value{}`. */
    method Subscript(k: K) returns (slot: nat)
      requires Valid()
      modifies this, data
      ensures Valid() && (data == old(data) || fresh(data))
      ensures contents == if k in old(contents) then old(contents) else old(contents)[k := valueInit]
      ensures slot < size && data[slot].status == OCCUPIED
      ensures data[slot].kv.key == k && data[slot].kv.value == contents[k]
    {
      if NeedsRehash(count, size) {
        Rehash();
      }
      slot := GetNextPosition(k);
      if data[slot].status != OCCUPIED {
        Occupy(slot, k, valueInit);
      }
    }

    /** Writes `v` into the OCCUPIED slot `slot`: an assignment through the
        reference that `operator[]` returns. */
    method WriteValue(slot: nat, v: V)
      requires Valid() && slot < size && data[slot].status == OCCUPIED
      modifies data, this`contents
      ensures Valid() && data[slot].kv == KeyValue(old(data[slot].kv.key), v)
      ensures contents == old(contents)[old(data[slot].kv.key) := v]
    {
      ghost var before := data[..];
      var k := data[slot].kv.key;
      OverwriteKeepsInv(before, contents, hasher, slot, v);
      data[slot] := Element(KeyValue(k, v), OCCUPIED);
      assert data[..] == before[slot := Element(KeyValue(k, v), OCCUPIED)];
      contents := contents[k := v];
    }

    /** `map[k] = v`: upserts `k` and writes `v` through the returned reference. */
    method Store(k: K, v: V)
      requires Valid()
      modifies this, data
      ensures Valid() && (data == old(data) || fresh(data))
      ensures contents == old(contents)[k := v]
    {
      ghost var before := contents;
      var slot := Subscript(k);
      ghost var upserted := contents;
      WriteValue(slot, v);
      UpsertThenWrite(before, upserted, k, valueInit, v);
    }

    /** `at`: the value stored for `k`; `std::out_of_range` when `k` is absent. */
    method At(k: K) returns (r: AtResult<V>)
      requires Valid()
      ensures r == if k in contents then Found(contents[k]) else OutOfRange
    {
      var index := FindIndex(k);
      if index == OUT_OF_RANGE {
        return OutOfRange;
      }
      return Found(data[index].kv.value);
    }

    /** `contains`: whether `k` has an entry. */
    method Contains(k: K) returns (b: bool)
      requires Valid()
      ensures b <==> k in contents
    {
      var index := FindIndex(k);
      b := index != OUT_OF_RANGE;
    }

    /** `erase`: turns the slot of `k` into a tombstone with the key reset to
        `Key{}`; erasing an absent key changes nothing. */
    method Erase(k: K) returns (erased: bool)
      requires Valid()
      modifies this, data
      ensures Valid() && data == old(data) && size == old(size)
      ensures erased <==> k in old(contents)
      ensures contents == old(contents) - {k}
    {
      var index := FindIndex(k);
      if index == OUT_OF_RANGE {
        return false;
      }
      Vacate(index);
      return true;
    }

    /** Turns the OCCUPIED slot `pos` into a tombstone whose key is reset to
        `Key{}` and whose value is left in place. */
    method Vacate(pos: nat)
      requires Valid() && pos < size && data[pos].status == OCCUPIED
      modifies this, data
      ensures Valid() && data == old(data) && size == old(size)
      ensures contents == old(contents) - {old(data[pos].kv.key)}
      ensures data[pos] == Element(KeyValue(keyInit, old(data[pos].kv.value)), DELETED)
    {
      VacateKeepsInv(data[..], contents, hasher, pos, keyInit);
      contents := contents - {data[pos].kv.key};
      data[pos] := Element(KeyValue(keyInit, data[pos].kv.value), DELETED);
      count := count - 1;
    }

    /** `clear`: every slot back to a default FREE element, at the same capacity. */
    method Clear()
      requires Valid()
      modifies this, data
      ensures Valid() && data == old(data) && size == old(size)
      ensures contents == map[]
      ensures forall i :: 0 <= i < size ==> data[i].status == FREE
    {
      for i := 0 to data.Length
        invariant data == old(data) && size == old(size)
        invariant forall j :: 0 <= j < i ==> data[j] == NewElement(keyInit, valueInit)
      {
        data[i] := NewElement(keyInit, valueInit);
      }
      count := 0;
      contents := map[];
      assert OccupiedIndices(data[..]) == {};
    }

    /** `begin`: a cursor on the first OCCUPIED slot, or the end one. */
    method Begin() returns (it: IteratorBase<K, V>)
      requires Valid()
      ensures fresh(it) && it.data == data && it.Valid()
      ensures it.index == NextOccupied(data[..], 0)
    {
      it := new IteratorBase(data, 0);
    }

    /** `end`: the cursor one past the last slot. */
    method End() returns (it: IteratorBase<K, V>)
      requires Valid()
      ensures fresh(it) && it.data == data && it.Valid()
      ensures it.index == size
    {
      it := new IteratorBase(data, size);
    }

    /** A range-for over the table, `for (auto& [k, v] : map)`: walks from
        `begin` to `end` with `!=`, `*` and `++` and collects every pair it
        dereferences; what it collects is the whole dictionary. */
    method Entries() returns (m: map<K, V>)
      requires Valid()
      ensures m == contents
    {
      ghost var slots := data[..];
      var it := Begin();
      var e := End();
      m := map[];
      RebuiltSkip(m, contents, slots, 0);
      while it.NotEqual(e)
        invariant fresh(it) && it.data == data && it.Valid() && it.index <= size
        invariant e.index == size
        invariant RebuiltUpTo(m, contents, slots, it.index)
        decreases size - it.index
      {
        var kv := it.Deref();
        RebuildStep(m, contents, slots, it.index);
        m := m[kv.key := kv.value];
        RebuiltSkip(m, contents, slots, it.index + 1);
        it.Next();
      }
      RebuildComplete(m, contents, slots);
    }

    /** `find`: a cursor on the slot of `k`, or the end cursor when `k` is absent. */
    method Find(k: K) returns (it: IteratorBase<K, V>)
      requires Valid()
      ensures fresh(it) && it.data == data && it.Valid()
      ensures k in contents ==> it.index < size && it.Deref() == KeyValue(k, contents[k])
      ensures k !in contents ==> it.index == size
    {
      var index := FindIndex(k);
      if index == OUT_OF_RANGE {
        it := End();
      } else {
        it := new IteratorBase(data, index);
      }
    }
  }
}
