/** The behaviour the repository's test driver asserts, replayed against the
    model: each method below builds tables, runs the same operations in the
    same order, and proves the asserted outcomes from the operations' contracts.
    The hasher is a parameter: the outcomes hold for every hash function. */
module Scenarios {
  import opened HashMap

  /** `map[k]` used as an rvalue: the value in the slot `operator[]` designates. */
  method Read<K, V>(m: FlatHashMap<K, V>, k: K) returns (v: V)
    requires m.Valid()
    modifies m, m.data
    ensures m.Valid() && (m.data == old(m.data) || fresh(m.data))
    ensures m.contents == if k in old(m.contents) then old(m.contents) else old(m.contents)[k := m.valueInit]
    ensures v == m.contents[k]
  {
    var slot := m.Subscript(k);
    v := m.data[slot].kv.value;
  }

  /** The entries after the three upserts of the test. */
  function ThreeEntries(): map<string, int>
  {
    map["one" := 1, "two" := 2, "three" := 3]
  }

  /** Three upserts on an empty table. */
  method Upserts(m: FlatHashMap<string, int>)
    requires m.Valid() && m.contents == map[]
    modifies m, m.data
    ensures m.Valid() && (m.data == old(m.data) || fresh(m.data))
    ensures m.contents == ThreeEntries()
  {
    m.Store("one", 1);
    m.Store("two", 2);
    m.Store("three", 3);
  }

  /** Each of the three upserted values reads back unchanged. */
  method ReadBack(m: FlatHashMap<string, int>)
    requires m.Valid() && m.contents == ThreeEntries()
    modifies m, m.data
    ensures m.Valid() && (m.data == old(m.data) || fresh(m.data)) && m.contents == old(m.contents)
  {
    var x := Read(m, "one");
    assert x == 1;
    x := Read(m, "two");
    assert x == 2;
    x := Read(m, "three");
    assert x == 3;
  }

  /** A second write through `operator[]` replaces the value. */
  method Overwrite(m: FlatHashMap<string, int>)
    requires m.Valid() && m.contents == ThreeEntries()
    modifies m, m.data
    ensures m.Valid() && (m.data == old(m.data) || fresh(m.data))
    ensures m.contents == ThreeEntries()["one" := 10]
  {
    m.Store("one", 10);
    var x := Read(m, "one");
    assert x == 10;
  }

  /** `insert` adds an absent key and refuses to overwrite a present one. */
  method InsertNoOverwrite(m: FlatHashMap<string, int>)
    requires m.Valid() && m.contents == ThreeEntries()["one" := 10]
    modifies m, m.data
    ensures m.Valid() && (m.data == old(m.data) || fresh(m.data))
    ensures m.contents == ThreeEntries()["one" := 10]["four" := 4]
  {
    var ok := m.Insert("four", 4);
    assert ok;
    var x := Read(m, "four");
    assert x == 4;
    ok := m.Insert("four", 44);
    assert !ok;
    x := Read(m, "four");
    assert x == 4;
  }

  /** `contains` and `at` on present and absent keys. */
  method Lookups(m: FlatHashMap<string, int>)
    requires m.Valid() && m.contents == ThreeEntries()["one" := 10]["four" := 4]
  {
    var b := m.Contains("one");
    assert b;
    b := m.Contains("two");
    assert b;
    b := m.Contains("three");
    assert b;
    b := m.Contains("four");
    assert b;
    b := m.Contains("five");
    assert !b;
    var r := m.At("one");
    assert r == Found(10);
    r := m.At("five");
    assert r == OutOfRange;
  }

  /** `erase` of a present key, then of an absent one. */
  method Erasures(m: FlatHashMap<string, int>)
    requires m.Valid() && m.contents == ThreeEntries()["one" := 10]["four" := 4]
    modifies m, m.data
  {
    assert "nonexistent" !in m.contents;
    var ok := m.Erase("one");
    var b := m.Contains("one");
    assert !b;
    ok := m.Erase("nonexistent");
    assert !ok;
  }

  /** The test of basic operations: upserts, read-backs, an overwrite,
      `insert`, lookups and erasures, in the test's order. */
  method BasicOperations(hasher: string -> nat)
  {
    DefaultSizeIsPowerOfTwo();
    var m := new FlatHashMap<string, int>(DEFAULT_SIZE, hasher, "", 0);
    Upserts(m);
    ReadBack(m);
    Overwrite(m);
    InsertNoOverwrite(m);
    Lookups(m);
    Erasures(m);
  }

  /** An empty table answers every lookup with "absent"; erasing its only key
      empties a table; `operator[]` on a new key stores `Value{}`. */
  method EdgeCases(hasher: string -> nat)
  {
    DefaultSizeIsPowerOfTwo();
    var empty := new FlatHashMap<string, int>(DEFAULT_SIZE, hasher, "", 0);
    var b := empty.Contains("key");
    assert !b;
    var r := empty.At("key");
    assert r == OutOfRange;
    var ok := empty.Erase("key");
    assert !ok && empty.contents == map[];

    var single := new FlatHashMap<string, int>(DEFAULT_SIZE, hasher, "", 0);
    single.Store("key", 42);
    b := single.Contains("key");
    assert b;
    var x := Read(single, "key");
    assert x == 42;
    ok := single.Erase("key");
    b := single.Contains("key");
    assert !b;
    x := Read(single, "newkey");
    assert x == 0;
    b := single.Contains("newkey");
    assert b;
  }

  /** The record key of the complex-types test, compared field by field. */
  datatype Person = Person(name: string, age: int)

  /** The entries after the three upserts of the complex-types test. */
  function Staff(): map<Person, string>
  {
    map[Person("Alice", 30) := "Developer"][Person("Bob", 25) := "Designer"][Person("Charlie", 35) := "Manager"]
  }

  /** Three upserts with record keys on an empty table. */
  method StaffUpserts(m: FlatHashMap<Person, string>)
    requires m.Valid() && m.contents == map[]
    modifies m, m.data
    ensures m.Valid() && (m.data == old(m.data) || fresh(m.data))
    ensures m.contents == Staff()
  {
    m.Store(Person("Alice", 30), "Developer");
    m.Store(Person("Bob", 25), "Designer");
    m.Store(Person("Charlie", 35), "Manager");
  }

  /** Each of the three values reads back unchanged. */
  method StaffReadBack(m: FlatHashMap<Person, string>)
    requires m.Valid() && m.contents == Staff()
    modifies m, m.data
    ensures m.Valid() && (m.data == old(m.data) || fresh(m.data)) && m.contents == old(m.contents)
  {
    var x := Read(m, Person("Alice", 30));
    assert x == "Developer";
    x := Read(m, Person("Bob", 25));
    assert x == "Designer";
    x := Read(m, Person("Charlie", 35));
    assert x == "Manager";
  }

  /** Erasing the middle record key leaves the other two. */
  method StaffErase(m: FlatHashMap<Person, string>)
    requires m.Valid() && m.contents == Staff()
    modifies m, m.data
  {
    assert Person("Alice", 30) != Person("Bob", 25) && Person("Charlie", 35) != Person("Bob", 25);
    assert Person("Alice", 30) in m.contents && Person("Charlie", 35) in m.contents;
    var ok := m.Erase(Person("Bob", 25));
    var b := m.Contains(Person("Bob", 25));
    assert !b;
    b := m.Contains(Person("Alice", 30));
    assert b;
    b := m.Contains(Person("Charlie", 35));
    assert b;
  }

  /** The complex-types test: record keys with a user-supplied hasher. The
      test names the hasher as the third template argument, where the class
      expects `Size`; here it is given as the hasher, at the default capacity. */
  method ComplexTypes(hasher: Person -> nat)
  {
    DefaultSizeIsPowerOfTwo();
    var m := new FlatHashMap<Person, string>(DEFAULT_SIZE, hasher, Person("", 0), "");
    StaffUpserts(m);
    StaffReadBack(m);
    StaffErase(m);
  }
}
