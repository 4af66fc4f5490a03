/**
 * The id index: a separate-chaining hash table from student id to student.
 *
 * Each bucket is a chain of entries, head first.  A new id is prepended to
 * its chain; an id already present has its entry's value overwritten where
 * it stands.  Before every insert the table doubles its capacity and
 * re-inserts every entry when the load factor size/capacity exceeds 0.75.
 */
module HashIndex {
  import opened Students

  const DefaultCapacity: nat := 100

  /** Largest capacity for which `hash * 31 + char` stays within a Java int: (69,271,553 - 1) * 31 + 0xFFFF is 2^31 - 1. */
  const MaxSafeCapacity: nat := 69_271_553

  const IntMax: int := 0x7FFF_FFFF

  /** One link of a chain: the id it is filed under and the stored student. */
  datatype Entry = Entry(key: string, value: Student)

  function Pow2(k: nat): (p: nat)
    ensures p >= 1
  {
    if k == 0 then 1 else 2 * Pow2(k - 1)
  }

  /**
   * The bucket index of `key`: a polynomial hash with multiplier 31 over the
   * key's character codes, reduced modulo `cap` after every character.
   */
  function HashOf(key: string, cap: nat): (h: nat)
    requires cap > 0
    ensures h < cap
    ensures key == [] ==> h == 0
    decreases |key|
  {
    if key == [] then 0
    else (HashOf(key[..|key| - 1], cap) * 31 + key[|key| - 1] as int) % cap
  }

  /**
   * With a capacity of at most MaxSafeCapacity and 16-bit characters, no
   * intermediate value of the hash loop exceeds the largest Java int, so the
   * unbounded arithmetic above is the arithmetic of the source.
   */
  lemma HashFitsInInt(key: string, cap: nat)
    requires 0 < cap <= MaxSafeCapacity
    requires forall i :: 0 <= i < |key| ==> key[i] as int < 0x1_0000
    ensures forall i :: 0 <= i < |key| ==> 0 <= HashOf(key[..i], cap) * 31 + key[i] as int <= IntMax
  {
    forall i | 0 <= i < |key|
      ensures 0 <= HashOf(key[..i], cap) * 31 + key[i] as int <= IntMax
    {
      var h := HashOf(key[..i], cap);
      assert h <= MaxSafeCapacity - 1;
      assert h * 31 <= (MaxSafeCapacity - 1) * 31;
    }
  }

  /** The students of one chain, head first. */
  function ChainValues(c: seq<Entry>): (r: seq<Student>)
    ensures |r| == |c|
    ensures forall j :: 0 <= j < |c| ==> r[j] == c[j].value
  {
    seq(|c|, j requires 0 <= j < |c| => c[j].value)
  }

  /** The values of a chain's first j + 1 entries extend those of its first j. */
  lemma ChainValuesExtend(c: seq<Entry>, j: nat)
    requires j < |c|
    ensures ChainValues(c[..j + 1]) == ChainValues(c[..j]) + [c[j].value]
  {
  }

  /** Re-listing one more entry of a chain adds its id. */
  lemma IdsExtend(before: seq<Student>, c: seq<Entry>, j: nat)
    requires j < |c|
    ensures Ids(before + ChainValues(c[..j + 1])) == Ids(before + ChainValues(c[..j])) + {c[j].value.id}
  {
    ChainValuesExtend(c, j);
    assert before + ChainValues(c[..j + 1]) == (before + ChainValues(c[..j])) + [c[j].value];
  }

  /** The students of all buckets in bucket order, each chain head first. */
  function Listing(b: seq<seq<Entry>>): seq<Student>
  {
    if b == [] then [] else Listing(b[..|b| - 1]) + ChainValues(b[|b| - 1])
  }

  /** The ids of a sequence of students. */
  function Ids(s: seq<Student>): set<string>
  {
    set x | x in s :: x.id
  }

  /** The part of `m` whose keys lie in `keys`. */
  function Restrict(m: map<string, Student>, keys: set<string>): (r: map<string, Student>)
    ensures r.Keys == m.Keys * keys
    ensures forall k :: k in r ==> r[k] == m[k]
  {
    map k | k in m && k in keys :: m[k]
  }

  /** Every entry sits in the bucket its key hashes to and is filed under its student's id. */
  ghost predicate Placed(b: seq<seq<Entry>>)
  {
    && |b| > 0
    && forall i, j :: 0 <= i < |b| && 0 <= j < |b[i]| ==>
         HashOf(b[i][j].key, |b|) == i && b[i][j].value.id == b[i][j].key
  }

  /** No chain holds the same key twice. */
  ghost predicate ChainsDistinct(b: seq<seq<Entry>>)
  {
    forall i, j1, j2 :: 0 <= i < |b| && 0 <= j1 < |b[i]| && 0 <= j2 < |b[i]| && b[i][j1].key == b[i][j2].key ==> j1 == j2
  }

  /** Every entry is a pair of `m`. */
  ghost predicate Stored(b: seq<seq<Entry>>, m: map<string, Student>)
  {
    forall i, j :: 0 <= i < |b| && 0 <= j < |b[i]| ==> b[i][j].key in m && m[b[i][j].key] == b[i][j].value
  }

  /**
   * The buckets `b` hold exactly the map `m`: entries are placed, chains are
   * free of duplicates, every entry is a pair of `m`, and there are as many
   * entries as keys (so every key of `m` has its entry; see Coverage).
   */
  ghost predicate TableInv(b: seq<seq<Entry>>, m: map<string, Student>)
  {
    Placed(b) && ChainsDistinct(b) && Stored(b, m) && |Listing(b)| == |m|
  }

  lemma {:induction false} ListingOfEmpty(b: seq<seq<Entry>>)
    requires forall i :: 0 <= i < |b| ==> b[i] == []
    ensures Listing(b) == []
  {
    if b != [] {
      ListingOfEmpty(b[..|b| - 1]);
    }
  }

  /** Empty buckets represent the empty map. */
  lemma EmptyTable(b: seq<seq<Entry>>)
    requires |b| > 0 && forall i :: 0 <= i < |b| ==> b[i] == []
    ensures TableInv(b, map[])
  {
    ListingOfEmpty(b);
  }

  /** Each entry of a chain of a table is filed under its student's id, which the map holds. */
  lemma ChainStored(b: seq<seq<Entry>>, m: map<string, Student>, i: nat)
    requires TableInv(b, m) && i < |b|
    ensures forall j :: 0 <= j < |b[i]| ==> b[i][j].value.id in m && m[b[i][j].value.id] == b[i][j].value
  {
  }

  /** Replacing one chain changes the listing's length by the difference in chain lengths. */
  lemma {:induction false} ListingLengthUpdate(b: seq<seq<Entry>>, h: nat, c: seq<Entry>)
    requires h < |b|
    ensures |Listing(b[h := c])| == |Listing(b)| - |b[h]| + |c|
    decreases |b|
  {
    var n := |b| - 1;
    var b': seq<seq<Entry>> := b[h := c];
    assert b'[..n] == if h == n then b[..n] else b[..n][h := c];
    if h < n {
      ListingLengthUpdate(b[..n], h, c);
    }
  }

  /** The chains of the first `n` buckets and the whole of bucket `n` fit inside the listing. */
  lemma {:induction false} ListingPrefixLength(b: seq<seq<Entry>>, n: nat)
    requires n < |b|
    ensures |Listing(b[..n])| + |b[n]| <= |Listing(b)|
    decreases |b|
  {
    var last := |b| - 1;
    assert b[..|b|] == b;
    if n < last {
      ListingPrefixLength(b[..last], n);
      assert b[..last][..n] == b[..n];
      assert b[..last][n] == b[n];
    } else {
      assert b[..n] == b[..last];
    }
  }

  /** Every student in the listing of the first `n` buckets comes from an entry of one of them. */
  lemma {:induction false} ListingMembers(b: seq<seq<Entry>>, n: nat, p: nat)
    requires n <= |b|
    requires p < |Listing(b[..n])|
    ensures exists i, j :: 0 <= i < n && 0 <= j < |b[i]| && Listing(b[..n])[p] == b[i][j].value
    decreases n
  {
    assert b[..n][..n - 1] == b[..n - 1];
    var front := Listing(b[..n - 1]);
    if p < |front| {
      ListingMembers(b, n - 1, p);
    } else {
      assert Listing(b[..n])[p] == b[n - 1][p - |front|].value;
    }
  }

  /** The students of the listing have pairwise distinct ids. */
  lemma {:induction false} ListingIdsDistinct(b: seq<seq<Entry>>, n: nat)
    requires Placed(b) && ChainsDistinct(b) && n <= |b|
    ensures forall p, q :: 0 <= p < q < |Listing(b[..n])| ==> Listing(b[..n])[p].id != Listing(b[..n])[q].id
    decreases n
  {
    if n > 0 {
      ListingIdsDistinct(b, n - 1);
      assert b[..n][..n - 1] == b[..n - 1];
      var front := Listing(b[..n - 1]);
      var all := Listing(b[..n]);
      assert all == front + ChainValues(b[n - 1]);
      forall p, q | 0 <= p < q < |all|
        ensures all[p].id != all[q].id
      {
        if q >= |front| {
          var jq := q - |front|;
          assert all[q] == b[n - 1][jq].value;
          assert HashOf(all[q].id, |b|) == n - 1;
          if p >= |front| {
            assert all[p] == b[n - 1][p - |front|].value;
          } else {
            ListingMembers(b, n - 1, p);
            var i, j :| 0 <= i < n - 1 && 0 <= j < |b[i]| && front[p] == b[i][j].value;
            assert HashOf(all[p].id, |b|) == i;
          }
        }
      }
    }
  }

  lemma {:induction false} SubsetCard<T>(a: set<T>, b: set<T>)
    requires a <= b
    ensures |a| <= |b|
    decreases |b|
  {
    if a != {} {
      var x :| x in a;
      SubsetCard(a - {x}, b - {x});
    }
  }

  /** A sequence of students with distinct ids has as many ids as students. */
  lemma {:induction false} DistinctIdsCount(s: seq<Student>)
    requires forall p, q :: 0 <= p < q < |s| ==> s[p].id != s[q].id
    ensures |Ids(s)| == |s|
  {
    if s != [] {
      var front := s[..|s| - 1];
      DistinctIdsCount(front);
      assert Ids(s) == Ids(front) + {s[|s| - 1].id};
      assert s[|s| - 1].id !in Ids(front);
    }
  }

  /** Every student of the listing is a pair of the map its entries are stored from. */
  lemma ListingStored(b: seq<seq<Entry>>, m: map<string, Student>)
    requires Placed(b) && Stored(b, m)
    ensures forall p :: 0 <= p < |Listing(b)| ==> Listing(b)[p].id in m && m[Listing(b)[p].id] == Listing(b)[p]
  {
    assert b[..|b|] == b;
    var l := Listing(b);
    forall p | 0 <= p < |l|
      ensures l[p].id in m && m[l[p].id] == l[p]
    {
      ListingMembers(b, |b|, p);
      var i, j :| 0 <= i < |b| && 0 <= j < |b[i]| && l[p] == b[i][j].value;
    }
  }

  /** Distinct ids drawn from the keys of `m`, as many as `m` has keys, are all of its keys. */
  lemma IdsFillKeys(l: seq<Student>, m: map<string, Student>)
    requires forall p :: 0 <= p < |l| ==> l[p].id in m
    requires forall p, q :: 0 <= p < q < |l| ==> l[p].id != l[q].id
    requires |l| == |m|
    ensures Ids(l) == m.Keys
  {
    DistinctIdsCount(l);
    assert Ids(l) <= m.Keys;
    if Ids(l) != m.Keys {
      assert Ids(l) < m.Keys;
      var k :| k in m.Keys && k !in Ids(l);
      SubsetCard(Ids(l), m.Keys - {k});
    }
  }

  /**
   * The listing of a table holds every stored student exactly once: each
   * element is a pair of the map, no id occurs twice, and every key of the
   * map is the id of some element.
   */
  lemma ListingIsContents(b: seq<seq<Entry>>, m: map<string, Student>)
    requires TableInv(b, m)
    ensures forall p :: 0 <= p < |Listing(b)| ==> Listing(b)[p].id in m && m[Listing(b)[p].id] == Listing(b)[p]
    ensures forall p, q :: 0 <= p < q < |Listing(b)| ==> Listing(b)[p].id != Listing(b)[q].id
    ensures Ids(Listing(b)) == m.Keys
  {
    assert b[..|b|] == b;
    ListingIdsDistinct(b, |b|);
    ListingStored(b, m);
    IdsFillKeys(Listing(b), m);
  }

  /** Every value of the map occurs in the listing. */
  lemma ListingHasValues(b: seq<seq<Entry>>, m: map<string, Student>)
    requires TableInv(b, m)
    ensures forall k :: k in m ==> m[k] in Listing(b)
  {
    ListingIsContents(b, m);
    forall k | k in m
      ensures m[k] in Listing(b)
    {
      assert k in Ids(Listing(b));
      var x :| x in Listing(b) && x.id == k;
    }
  }

  /** Every key of the map has its entry in the bucket it hashes to. */
  lemma Coverage(b: seq<seq<Entry>>, m: map<string, Student>, k: string) returns (j: nat)
    requires TableInv(b, m) && k in m
    ensures j < |b[HashOf(k, |b|)]| && b[HashOf(k, |b|)][j].key == k
  {
    ListingIsContents(b, m);
    var l := Listing(b);
    assert k in Ids(l);
    var x :| x in l && x.id == k;
    var p :| 0 <= p < |l| && l[p] == x;
    assert b[..|b|] == b;
    ListingMembers(b, |b|, p);
    var i, j' :| 0 <= i < |b| && 0 <= j' < |b[i]| && l[p] == b[i][j'].value;
    j := j';
  }

  /** A key missing from the chain it hashes to is not in the map. */
  lemma Absent(b: seq<seq<Entry>>, m: map<string, Student>, k: string)
    requires TableInv(b, m)
    requires forall q :: 0 <= q < |b[HashOf(k, |b|)]| ==> b[HashOf(k, |b|)][q].key != k
    ensures k !in m
  {
    if k in m {
      var j := Coverage(b, m, k);
    }
  }

  /** Overwriting the value of the entry for `s.id` in its chain gives the buckets of `m[s.id := s]`. */
  lemma OverwriteKeepsInvariants(b: seq<seq<Entry>>, m: map<string, Student>, h: nat, j: nat, s: Student)
    requires TableInv(b, m)
    requires h == HashOf(s.id, |b|) && j < |b[h]| && b[h][j].key == s.id
    ensures s.id in m
    ensures TableInv(b[h := b[h][j := Entry(s.id, s)]], m[s.id := s])
  {
    ListingLengthUpdate(b, h, b[h][j := Entry(s.id, s)]);
  }

  /** Prepending an entry for an id absent from its chain gives the buckets of `m[s.id := s]`. */
  lemma PrependKeepsInvariants(b: seq<seq<Entry>>, m: map<string, Student>, h: nat, s: Student)
    requires TableInv(b, m)
    requires h == HashOf(s.id, |b|)
    requires forall q :: 0 <= q < |b[h]| ==> b[h][q].key != s.id
    ensures s.id !in m
    ensures TableInv(b[h := [Entry(s.id, s)] + b[h]], m[s.id := s])
  {
    Absent(b, m, s.id);
    var c: seq<Entry> := [Entry(s.id, s)] + b[h];
    var b': seq<seq<Entry>> := b[h := c];
    var m': map<string, Student> := m[s.id := s];
    ListingLengthUpdate(b, h, c);
    forall i, j | 0 <= i < |b'| && 0 <= j < |b'[i]|
      ensures HashOf(b'[i][j].key, |b'|) == i && b'[i][j].value.id == b'[i][j].key
      ensures b'[i][j].key in m' && m'[b'[i][j].key] == b'[i][j].value
    {
      if i == h && j > 0 {
        assert b'[i][j] == b[h][j - 1];
      }
    }
    forall i, j1, j2 | 0 <= i < |b'| && 0 <= j1 < |b'[i]| && 0 <= j2 < |b'[i]| && b'[i][j1].key == b'[i][j2].key
      ensures j1 == j2
    {
      if i == h && j1 > 0 && j2 > 0 {
        assert b'[i][j1] == b[h][j1 - 1] && b'[i][j2] == b[h][j2 - 1];
      }
    }
  }

  /** Adding a pair of `m` to its restriction to `keys` restricts it to one more key. */
  lemma RestrictExtend(m: map<string, Student>, keys: set<string>, v: Student)
    requires v.id in m && m[v.id] == v
    ensures Restrict(m, keys)[v.id := v] == Restrict(m, keys + {v.id})
  {
  }

  /** Restricting a map to all of its keys leaves it as it is. */
  lemma RestrictAll(m: map<string, Student>, keys: set<string>)
    requires keys == m.Keys
    ensures Restrict(m, keys) == m
  {
  }

  class StudentHashTable {
    var table: array<seq<Entry>>
    var size: nat
    var capacity: nat
    /** The id-to-student map the table represents. */
    ghost var Contents: map<string, Student>
    /** How many times the table has doubled. */
    ghost var Doublings: nat

    ghost predicate Valid()
      reads this, table
    {
      && table.Length == capacity
      && capacity == DefaultCapacity * Pow2(Doublings)
      && TableInv(table[..], Contents)
      && size == |Contents|
      && 4 * size <= 3 * capacity + 4
    }

    constructor ()
      ensures Valid() && fresh(table)
      ensures Contents == map[] && size == 0 && capacity == DefaultCapacity
    {
      capacity := DefaultCapacity;
      table := new seq<Entry>[DefaultCapacity](_ => []);
      size := 0;
      Contents := map[];
      Doublings := 0;
      new;
      ListingOfEmpty(table[..]);
    }

    /** The bucket index of `key` for the current capacity. */
    method Hash(key: string) returns (h: nat)
      requires capacity > 0
      ensures h == HashOf(key, capacity)
    {
      var acc := 0;
      for i := 0 to |key|
        invariant acc == HashOf(key[..i], capacity)
      {
        assert key[..i + 1][..i] == key[..i];
        acc := (acc * 31 + key[i] as int) % capacity;
      }
      assert key[..|key|] == key;
      // Math.abs leaves the non-negative remainder as it is
      h := acc;
    }

    /**
     * Files `s` under its id.  A resize happens exactly when the load factor
     * exceeds 0.75 on entry, whether or not the id is already present.
     */
    method Insert(s: Student)
      requires Valid()
      modifies this, table
      ensures Valid()
      ensures Contents == old(Contents)[s.id := s]
      ensures size == if s.id in old(Contents) then old(size) else old(size) + 1
      ensures capacity == if old(4 * size > 3 * capacity) then 2 * old(capacity) else old(capacity)
      ensures old(4 * size <= 3 * capacity) ==> table == old(table)
      ensures old(4 * size > 3 * capacity) ==> fresh(table)
      decreases if 4 * size > 3 * capacity then 1 else 0, 1
    {
      if 4 * size > 3 * capacity {
        Resize();
      }
      var key := s.id;
      var index := Hash(key);
      var chain := table[index];
      // walk the chain to the first entry filed under `key`, if any
      var j := 0;
      while j < |chain| && chain[j].key != key
        invariant 0 <= j <= |chain|
        invariant forall q :: 0 <= q < j ==> chain[q].key != key
      {
        j := j + 1;
      }
      if j < |chain| {
        // update the existing entry in place
        OverwriteKeepsInvariants(table[..], Contents, index, j, s);
        table[index] := chain[j := Entry(key, s)];
        Contents := Contents[key := s];
        return;
      }
      // a new id goes to the head of its chain
      PrependKeepsInvariants(table[..], Contents, index, s);
      table[index] := [Entry(key, s)] + chain;
      size := size + 1;
      Contents := Contents[key := s];
    }

    /** The student filed under `key`, or None. */
    method Search(key: string) returns (r: Option<Student>)
      requires Valid()
      ensures r == Lookup(Contents, key)
    {
      var index := Hash(key);
      var chain := table[index];
      var j := 0;
      while j < |chain| && chain[j].key != key
        invariant 0 <= j <= |chain|
        invariant forall q :: 0 <= q < j ==> chain[q].key != key
      {
        j := j + 1;
      }
      if j < |chain| {
        return Some(chain[j].value);
      }
      Absent(table[..], Contents, key);
      return None;
    }

    /**
     * Doubles the capacity and re-inserts every entry, bucket by bucket and
     * chain by chain, through Insert.  None of those inserts resizes again.
     */
    method Resize()
      requires Valid()
      modifies this, table
      ensures Valid() && fresh(table)
      ensures Contents == old(Contents) && size == old(size)
      ensures capacity == 2 * old(capacity)
      decreases 0, 4
    {
      var oldTable := table;
      ghost var oldContents := Contents;

      capacity := capacity * 2;
      table := new seq<Entry>[capacity](_ => []);
      size := 0;
      Contents := map[];
      Doublings := Doublings + 1;
      EmptyTable(table[..]);
      ReinsertAll(oldTable, oldContents);
    }

    /**
     * The outer loop of Resize: re-inserts the chains of `oldTable`, which
     * holds `source`, bucket by bucket into this (empty) table.
     */
    method ReinsertAll(oldTable: array<seq<Entry>>, ghost source: map<string, Student>)
      requires Valid() && oldTable != table
      requires TableInv(oldTable[..], source)
      requires 4 * |source| <= 3 * capacity
      requires Contents == map[]
      modifies this, table
      ensures Valid() && table == old(table) && capacity == old(capacity)
      ensures Contents == source
      decreases 0, 3
    {
      ghost var oldBuckets: seq<seq<Entry>> := oldTable[..];
      ghost var newTable := table;
      // the students re-inserted so far, in the order of the old table
      ghost var done: seq<Student> := [];

      var i := 0;
      while i < oldTable.Length
        invariant 0 <= i <= oldTable.Length
        invariant Valid() && table == newTable && capacity == old(capacity)
        invariant oldTable[..] == oldBuckets
        invariant done == Listing(oldBuckets[..i])
        invariant Ids(done) <= source.Keys
        invariant Contents == Restrict(source, Ids(done))
      {
        var chain := oldTable[i];
        ChainStored(oldBuckets, source, i);
        SubsetCard(Contents.Keys, source.Keys);
        ReinsertChain(chain, source, done);
        done := done + ChainValues(chain);
        assert oldBuckets[..i + 1][..i] == oldBuckets[..i];
        i := i + 1;
      }
      assert oldBuckets[..oldTable.Length] == oldBuckets;
      ListingIsContents(oldBuckets, source);
      RestrictAll(source, Ids(done));
    }

    /**
     * The inner loop of Resize: re-inserts the students of one old chain,
     * head first, into a table with room for all of `source`, so that none
     * of these inserts resizes.
     */
    method ReinsertChain(chain: seq<Entry>, ghost source: map<string, Student>, ghost before: seq<Student>)
      requires Valid()
      requires 4 * |source| <= 3 * capacity
      requires forall j :: 0 <= j < |chain| ==> chain[j].value.id in source && source[chain[j].value.id] == chain[j].value
      requires Ids(before) <= source.Keys
      requires Contents == Restrict(source, Ids(before))
      modifies this, table
      ensures Valid() && table == old(table) && capacity == old(capacity)
      ensures Ids(before + ChainValues(chain)) <= source.Keys
      ensures Contents == Restrict(source, Ids(before + ChainValues(chain)))
      decreases 0, 2
    {
      var j := 0;
      while j < |chain|
        invariant 0 <= j <= |chain|
        invariant Valid() && table == old(table) && capacity == old(capacity)
        invariant Ids(before + ChainValues(chain[..j])) <= source.Keys
        invariant Contents == Restrict(source, Ids(before + ChainValues(chain[..j])))
      {
        var v := chain[j].value;
        ghost var done := before + ChainValues(chain[..j]);
        SubsetCard(Contents.Keys, source.Keys);
        Insert(v);
        RestrictExtend(source, Ids(done), v);
        IdsExtend(before, chain, j);
        j := j + 1;
      }
      assert chain[..j] == chain;
    }

    /**
     * The loop of GetAllStudents: writes the listing of the buckets to the
     * front of `students`, bucket by bucket and chain by chain.
     */
    method CopyListing(students: array<Student>)
      requires students.Length >= |Listing(table[..])|
      modifies students
      ensures students[..|Listing(table[..])|] == Listing(table[..])
    {
      var index := 0;
      for i := 0 to table.Length
        invariant index == |Listing(table[..i])| <= |Listing(table[..])|
        invariant students[..index] == Listing(table[..i])
      {
        var chain := table[i];
        ListingPrefixLength(table[..], i);
        assert table[..][..i] == table[..i];
        ghost var front := Listing(table[..i]);
        var j := 0;
        while j < |chain|
          invariant 0 <= j <= |chain|
          invariant index == |front| + j
          invariant students[..index] == front + ChainValues(chain[..j])
        {
          ghost var filled := students[..index];
          students[index] := chain[j].value;
          assert students[..index + 1] == filled + [chain[j].value];
          ChainValuesExtend(chain, j);
          index := index + 1;
          j := j + 1;
        }
        assert chain[..j] == chain;
        assert table[..i + 1][..i] == table[..i];
      }
      assert table[..table.Length] == table[..];
    }

    /** The number of distinct ids stored. */
    function GetSize(): (n: nat)
      reads this, table
      requires Valid()
      ensures n == |Contents|
    {
      size
    }

    /**
     * Every stored student exactly once, in bucket order and, within a
     * bucket, in chain order.
     */
    method GetAllStudents() returns (students: array<Student>)
      requires Valid()
      ensures fresh(students) && students.Length == size
      ensures students[..] == Listing(table[..])
      ensures forall p :: 0 <= p < students.Length ==> students[p].id in Contents && Contents[students[p].id] == students[p]
      ensures forall k :: k in Contents ==> Contents[k] in students[..]
      ensures forall p, q :: 0 <= p < q < students.Length ==> students[p].id != students[q].id
    {
      students := new Student[size];
      CopyListing(students);
      assert students[..] == Listing(table[..]);
      ListingIsContents(table[..], Contents);
      ListingHasValues(table[..], Contents);
    }
  }
}
