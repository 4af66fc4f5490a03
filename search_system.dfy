/**
 * The search system: one object holding a hash table keyed by student id
 * and a name trie, and indexing every added student in both.
 *
 * Its state is described by the trie's insertion history: the hash table
 * holds, for each id, the last student added with it (LatestById), and the
 * trie answers prefix queries over the whole history (PrefixQuery).
 */
module SearchSystem {
  import opened Students
  import opened HashIndex
  import opened NameTrie

  /** The id map a sequence of insertions leaves: each id bound to the last student added with it. */
  function LatestById(h: seq<Student>): map<string, Student>
  {
    if h == [] then map[] else LatestById(h[..|h| - 1])[h[|h| - 1].id := h[|h| - 1]]
  }

  /** The ids bound are exactly the ids ever added. */
  lemma {:induction false} LatestByIdKeys(h: seq<Student>)
    ensures LatestById(h).Keys == Ids(h)
  {
    if h != [] {
      var front := h[..|h| - 1];
      LatestByIdKeys(front);
      assert h == front + [h[|h| - 1]];
      assert Ids(h) == Ids(front) + {h[|h| - 1].id};
    }
  }

  /**
   * The student bound to an id is the one at the last position of the
   * history holding that id.
   */
  lemma {:induction false} LatestIsLast(h: seq<Student>, id: string) returns (i: nat)
    requires id in LatestById(h)
    ensures i < |h| && h[i].id == id && LatestById(h)[id] == h[i]
    ensures forall j :: i < j < |h| ==> h[j].id != id
  {
    var front := h[..|h| - 1];
    if h[|h| - 1].id == id {
      i := |h| - 1;
    } else {
      i := LatestIsLast(front, id);
    }
  }

  /** After adding `s`, its id finds `s`, and every other id finds what it found before. */
  lemma AddThenSearchById(h: seq<Student>, s: Student, id: string)
    ensures Lookup(LatestById(h + [s]), s.id) == Some(s)
    ensures id != s.id ==> Lookup(LatestById(h + [s]), id) == Lookup(LatestById(h), id)
  {
    assert (h + [s])[..|h|] == h;
  }

  /** Adding a student grows the number of distinct ids by one exactly when its id is new. */
  lemma AddSize(h: seq<Student>, s: Student)
    ensures |Ids(h + [s])| == if s.id in Ids(h) then |Ids(h)| else |Ids(h)| + 1
  {
    assert Ids(h + [s]) == Ids(h) + {s.id};
  }

  /**
   * Adding a student under an id already in use replaces the id's entry but
   * leaves the earlier student in the name index: searching for the old name
   * still finds the old record.
   */
  lemma StaleNameEntry(h: seq<Student>, a: Student, b: Student)
    requires a.id == b.id && !IsBlank(a.name) && Key(a.name) != []
    ensures Lookup(LatestById(h + [a, b]), a.id) == Some(b)
    ensures a in PrefixQuery(h + [a, b], a.name)
  {
    assert (h + [a, b])[..|h| + 1] == h + [a];
    assert (h + [a])[..|h|] == h;
    MatchingSnoc(h, a, Key(a.name));
    MatchingSnoc(h + [a], b, Key(a.name));
  }

  /** The ten students the demonstration adds, in order. */
  const Demo: seq<Student> := [
    Student("S001", "Alice Johnson", 3.85),
    Student("S002", "Bob Smith", 3.92),
    Student("S003", "Alice Williams", 3.67),
    Student("S004", "Charlie Brown", 3.45),
    Student("S005", "David Miller", 3.78),
    Student("S006", "Alice Davis", 3.91),
    Student("S007", "Eve Anderson", 3.56),
    Student("S008", "Frank Wilson", 3.73),
    Student("S009", "Grace Lee", 3.88),
    Student("S010", "Henry Martinez", 3.62)
  ]

  /** An id no added student has finds nobody. */
  lemma {:induction false} NeverAddedNotFound(h: seq<Student>, id: string)
    requires forall i :: 0 <= i < |h| ==> h[i].id != id
    ensures Lookup(LatestById(h), id) == None
  {
    if h != [] {
      NeverAddedNotFound(h[..|h| - 1], id);
    }
  }

  /** After the demonstration's insertions, "S999" finds nobody and "" finds nobody. */
  lemma DemoMisses()
    ensures Lookup(LatestById(Demo), "S999") == None
    ensures PrefixQuery(Demo, "") == []
  {
    forall i | 0 <= i < |Demo|
      ensures Demo[i].id != "S999"
    {
      assert Demo[i].id[2] != '9';
    }
    NeverAddedNotFound(Demo, "S999");
  }

  class StudentSearchSystem {
    const hashTable: StudentHashTable
    const nameTrie: StudentNameTrie

    /** Both indexes are well formed and agree: the table binds each id to its last insertion. */
    ghost predicate Valid()
      reads this, hashTable, hashTable.table, nameTrie
    {
      hashTable.Valid() && nameTrie.Valid() && hashTable.Contents == LatestById(nameTrie.History)
    }

    /** The students added so far, in order. */
    ghost function Added(): seq<Student>
      reads this, nameTrie
    {
      nameTrie.History
    }

    /** A system with both indexes empty. */
    constructor ()
      ensures Valid() && Added() == []
      ensures fresh(hashTable) && fresh(hashTable.table) && fresh(nameTrie)
    {
      hashTable := new StudentHashTable();
      nameTrie := new StudentNameTrie();
    }

    /** Indexes `s` by id, replacing any student with the same id, and by name. */
    method AddStudent(s: Student)
      requires Valid()
      modifies hashTable, hashTable.table, nameTrie
      ensures Valid()
      ensures Added() == old(Added()) + [s]
      ensures hashTable.Contents == old(hashTable.Contents)[s.id := s]
      ensures hashTable.table == old(hashTable.table) || fresh(hashTable.table)
    {
      hashTable.Insert(s);
      nameTrie.Insert(s);
      assert (nameTrie.History)[..|nameTrie.History| - 1] == old(nameTrie.History);
    }

    /** The last student added with id `id`, or None when no student has it. */
    method SearchById(id: string) returns (r: Option<Student>)
      requires Valid()
      ensures r == Lookup(LatestById(Added()), id)
    {
      r := hashTable.Search(id);
    }

    /** The students added so far whose names start with the letters of `prefix`, in the order added. */
    method SearchByName(prefix: string) returns (r: array<Student>)
      requires Valid()
      ensures fresh(r) && r[..] == PrefixQuery(Added(), prefix)
    {
      r := nameTrie.SearchByPrefix(prefix);
    }

    /** One student per id ever added, each the last added with that id. */
    method GetAllStudents() returns (r: array<Student>)
      requires Valid()
      ensures fresh(r) && r.Length == |Ids(Added())|
      ensures forall p :: 0 <= p < r.Length ==> r[p].id in LatestById(Added()) && LatestById(Added())[r[p].id] == r[p]
      ensures forall id :: id in LatestById(Added()) ==> LatestById(Added())[id] in r[..]
      ensures forall p, q :: 0 <= p < q < r.Length ==> r[p].id != r[q].id
    {
      r := hashTable.GetAllStudents();
      LatestByIdKeys(Added());
    }

    /** The number of distinct ids added. */
    function GetSize(): (n: nat)
      reads this, hashTable, hashTable.table, nameTrie
      requires Valid()
      ensures n == |Ids(Added())|
    {
      LatestByIdKeys(nameTrie.History);
      hashTable.GetSize()
    }
  }
}
