/** The nested objects of the table: slot status, the key/value record, the
    slot itself, and the forward iterator that scans a slot array. */
module FlatHashMapImpl {

  /** A slot is FREE until it is first written, OCCUPIED while it holds a live
      entry and DELETED (a tombstone) after that entry is erased. */
  datatype Status = FREE | OCCUPIED | DELETED

  /** The key/value pair stored in a slot and handed out by iterators. */
  datatype KeyValue<K, V> = KeyValue(key: K, value: V)
  {
    /** `get<0>`: the key (read-only through structured bindings). */
    function Get0(): K { key }

    /** `get<1>`: the value. */
    function Get1(): V { value }

    /** A structured binding `auto [k, v] = kv` reads `get<0>` and `get<1>`;
        the two components rebuild the pair they came from. */
    function Bind(): (p: (K, V))
      ensures KeyValue(p.0, p.1) == this
    {
      (Get0(), Get1())
    }
  }

  /** One cell of the table's slot array. */
  datatype Element<K, V> = Element(kv: KeyValue<K, V>, status: Status)

  /** Both constructors of `Element` (the default one, and the one from a key
      and a value) build a FREE slot; only the table marks a slot OCCUPIED. */
  function NewElement<K, V>(key: K, value: V): (e: Element<K, V>)
    ensures e.status == FREE
    ensures e.kv.Get0() == key && e.kv.Get1() == value
  {
    Element(KeyValue(key, value), FREE)
  }

  /** The indices of the OCCUPIED slots of `s`. */
  ghost function OccupiedIndices<K, V>(s: seq<Element<K, V>>): set<nat>
  {
    set i: nat | i < |s| && s[i].status == OCCUPIED
  }

  /** Where `skipToOccupied` stops when it starts at `i`: the first OCCUPIED
      slot at or after `i`, or `|s|` when there is none; an index already past
      the end is left where it is. */
  function NextOccupied<K, V>(s: seq<Element<K, V>>, i: nat): (r: nat)
    ensures i <= r
    ensures i <= |s| ==> r <= |s|
    ensures i >= |s| ==> r == i
    ensures r < |s| ==> s[r].status == OCCUPIED
    ensures forall j :: i <= j < r && j < |s| ==> s[j].status != OCCUPIED
    decreases |s| - i
  {
    if i >= |s| || s[i].status == OCCUPIED then i else NextOccupied(s, i + 1)
  }

  /** The indices an iterator started at `i` dereferences, in order, before it
      compares equal to the end iterator (index `|s|`). */
  ghost function Visits<K, V>(s: seq<Element<K, V>>, i: nat): seq<nat>
    decreases |s| - i
  {
    var j := NextOccupied(s, i);
    if j >= |s| then [] else [j] + Visits(s, j + 1)
  }

  ghost predicate StrictlyIncreasing(q: seq<nat>)
  {
    forall m, n :: 0 <= m < n < |q| ==> q[m] < q[n]
  }

  /** Iterating from index `i` visits exactly the OCCUPIED slots at or after
      `i`, each once, in increasing index order. */
  lemma {:induction false} VisitsExactlyOccupied<K, V>(s: seq<Element<K, V>>, i: nat)
    ensures StrictlyIncreasing(Visits(s, i))
    ensures forall n :: 0 <= n < |Visits(s, i)| ==> i <= Visits(s, i)[n] < |s|
    ensures forall j :: i <= j < |s| ==> (s[j].status == OCCUPIED <==> j in Visits(s, i))
    decreases |s| - i
  {
    var j := NextOccupied(s, i);
    if j < |s| {
      VisitsExactlyOccupied(s, j + 1);
    }
  }

  /** The OCCUPIED indices at or after `i`. */
  ghost function OccupiedFrom<K, V>(s: seq<Element<K, V>>, i: nat): set<nat>
  {
    set j | j in OccupiedIndices(s) && i <= j
  }

  /** Iterating from index `i` yields one item per OCCUPIED slot at or after `i`. */
  lemma {:induction false} VisitsCount<K, V>(s: seq<Element<K, V>>, i: nat)
    ensures |Visits(s, i)| == |OccupiedFrom(s, i)|
    decreases |s| - i
  {
    var j := NextOccupied(s, i);
    VisitsStep(s, i);
    OccupiedFromStep(s, i);
    if j < |s| {
      VisitsCount(s, j + 1);
    }
  }

  lemma VisitsStep<K, V>(s: seq<Element<K, V>>, i: nat)
    ensures NextOccupied(s, i) < |s| ==> |Visits(s, i)| == 1 + |Visits(s, NextOccupied(s, i) + 1)|
    ensures NextOccupied(s, i) >= |s| ==> |Visits(s, i)| == 0
  {
  }

  /** The OCCUPIED indices from `i` are the next OCCUPIED one and those after it. */
  lemma OccupiedFromStep<K, V>(s: seq<Element<K, V>>, i: nat)
    ensures NextOccupied(s, i) < |s| ==>
      |OccupiedFrom(s, i)| == 1 + |OccupiedFrom(s, NextOccupied(s, i) + 1)|
    ensures NextOccupied(s, i) >= |s| ==> |OccupiedFrom(s, i)| == 0
  {
    var j := NextOccupied(s, i);
    if j < |s| {
      var rest := OccupiedFrom(s, j + 1);
      assert OccupiedFrom(s, i) == {j} + rest;
      assert j !in rest;
    } else {
      assert OccupiedFrom(s, i) == {};
    }
  }

  /** Iteration completeness: a walk from `begin` (index 0) to `end` visits
      every OCCUPIED slot once, in increasing order, and nothing else. */
  lemma IterationCompleteness<K, V>(s: seq<Element<K, V>>)
    ensures StrictlyIncreasing(Visits(s, 0))
    ensures forall j :: j in Visits(s, 0) <==> j in OccupiedIndices(s)
    ensures |Visits(s, 0)| == |OccupiedIndices(s)|
  {
    VisitsExactlyOccupied(s, 0);
    VisitsCount(s, 0);
    assert OccupiedFrom(s, 0) == OccupiedIndices(s);
  }

  /** A forward cursor over a slot array; it holds the array by reference and
      does not own it. */
  class IteratorBase<K, V> {
    const data: array<Element<K, V>>
    var index: nat

    /** A cursor rests on an OCCUPIED slot or at/after the end. This holds as long
        as the array is not changed after the cursor was made or advanced. */
    ghost predicate Valid()
      reads this, data
    {
      index < data.Length ==> data[index].status == OCCUPIED
    }

    constructor (data: array<Element<K, V>>, index: nat)
      ensures this.data == data
      ensures this.index == NextOccupied(data[..], index)
      ensures Valid()
    {
      this.data := data;
      this.index := index;
      new;
      SkipToOccupied();
    }

    /** `operator++`: the next OCCUPIED slot strictly after the current one. */
    method Next()
      modifies this
      ensures index == NextOccupied(data[..], old(index) + 1)
      ensures old(index) < index
      ensures Valid()
    {
      index := index + 1;
      SkipToOccupied();
    }

    /** `operator*`: the pair in the slot under the cursor. */
    function Deref(): (kv: KeyValue<K, V>)
      reads this, data
      requires Valid() && index < data.Length
      ensures data[index].status == OCCUPIED && kv == data[index].kv
    {
      data[index].kv
    }

    /** `operator!=`: two cursors differ exactly when their indices do. */
    predicate NotEqual(other: IteratorBase<K, V>)
      reads this, other
    {
      index != other.index
    }

    /** A loop `for (it = begin(); it != end(); ++it)` dereferences `it`
        exactly when it rests on an OCCUPIED slot: comparing with the end
        cursor is the test that makes `operator*` safe. */
    lemma NotEndIsDereferenceable(end: IteratorBase<K, V>)
      requires Valid() && index <= data.Length && end.index == data.Length
      ensures NotEqual(end) <==> (index < data.Length && data[index].status == OCCUPIED)
    {
    }

    /** Advances past slots that are not OCCUPIED, stopping at the end. */
    method SkipToOccupied()
      modifies this
      ensures index == NextOccupied(data[..], old(index))
      ensures Valid()
    {
      while index < data.Length && data[index].status != OCCUPIED
        invariant old(index) <= index
        invariant NextOccupied(data[..], index) == NextOccupied(data[..], old(index))
        decreases data.Length - index
      {
        index := index + 1;
      }
    }
  }
}
