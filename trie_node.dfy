/**
 * One node of the 26-way name trie: a child slot per lowercase ASCII
 * letter, the list of students whose letter path passes through the node,
 * and an end-of-word marker.
 *
 * Nodes are values kept in the trie's node store (see NameTrie); a child
 * slot holds the position of the child in that store, or None where the
 * node has no child for that letter.
 */
module TrieNodes {
  import opened Students

  const AlphabetSize: nat := 26

  /** The characters the trie branches on: 'a' through 'z'. */
  predicate IsLetter(c: char)
  {
    'a' <= c <= 'z'
  }

  /** The child slot of a letter. */
  function SlotOf(c: char): (k: nat)
    requires IsLetter(c)
    ensures k < AlphabetSize
  {
    (c - 'a') as nat
  }

  /** The letter of a child slot. */
  function LetterAt(k: nat): (c: char)
    requires k < AlphabetSize
    ensures IsLetter(c) && SlotOf(c) == k
  {
    ('a' as int + k) as char
  }

  /** Slots and letters are in one-to-one correspondence. */
  lemma SlotRoundTrip(c: char)
    requires IsLetter(c)
    ensures LetterAt(SlotOf(c)) == c
  {
  }

  /**
   * The students gathered at one node, in the order they were added; `size`
   * counts them.
   */
  datatype StudentList = StudentList(items: seq<Student>, size: nat)
  {
    ghost predicate Valid()
    {
      size == |items|
    }

    /** The list with `s` appended at the tail. */
    function Add(s: Student): (r: StudentList)
      requires Valid()
      ensures r.Valid() && r.size == size + 1
      ensures r.items[..size] == items && r.items[size] == s
    {
      StudentList(items + [s], size + 1)
    }

    /** A new array with the students in the order they were added. */
    method ToArray() returns (r: array<Student>)
      requires Valid()
      ensures fresh(r) && r.Length == size && r[..] == items
    {
      r := new Student[size];
      var index := 0;
      while index < size
        invariant 0 <= index <= size
        invariant r[..index] == items[..index]
      {
        r[index] := items[index];
        index := index + 1;
      }
    }

    /** The number of students added. */
    function GetSize(): (n: nat)
      requires Valid()
      ensures n == |items|
    {
      size
    }
  }

  /** The list of a new node. */
  const EmptyList := StudentList([], 0)

  datatype TrieNode = TrieNode(children: seq<Option<nat>>, students: StudentList, endOfWord: bool)
  {
    ghost predicate Valid()
    {
      |children| == AlphabetSize && students.Valid()
    }

    /** The child for letter `c`; none for a character outside 'a'..'z'. */
    function GetChild(c: char): (r: Option<nat>)
      requires |children| == AlphabetSize
      ensures !IsLetter(c) ==> r == None
      ensures IsLetter(c) ==> r == children[SlotOf(c)]
    {
      if !IsLetter(c) then None else children[SlotOf(c)]
    }

    /** The node with `node` as the child for letter `c`; a character outside 'a'..'z' changes nothing. */
    function SetChild(c: char, node: Option<nat>): (r: TrieNode)
      requires Valid()
      ensures r.Valid() && r.students == students && r.endOfWord == endOfWord
      ensures r.GetChild(c) == if IsLetter(c) then node else None
      ensures forall d :: d != c ==> r.GetChild(d) == GetChild(d)
    {
      if IsLetter(c) then TrieNode(children[SlotOf(c) := node], students, endOfWord) else this
    }

    /** The list of students whose letter path passes through this node. */
    function GetStudents(): (r: StudentList)
      ensures r == students && (Valid() ==> r.Valid())
    {
      students
    }

    /** The node with `s` appended to its list, exactly as StudentList.Add does. */
    function AddStudent(s: Student): (r: TrieNode)
      requires Valid()
      ensures r.Valid() && r.children == children && r.endOfWord == endOfWord
      ensures r.students == students.Add(s)
    {
      TrieNode(children, students.Add(s), endOfWord)
    }

    /** Whether a stored name ends at this node. */
    function IsEndOfWord(): (b: bool)
      ensures b == endOfWord
    {
      endOfWord
    }

    /** The node with its end-of-word marker set to `b`. */
    function SetEndOfWord(b: bool): (r: TrieNode)
      ensures r.IsEndOfWord() == b && r.children == children && r.students == students
    {
      TrieNode(children, students, b)
    }
  }

  /** A node with no children, no students and the end-of-word marker off. */
  function NewNode(): (n: TrieNode)
    ensures n.Valid() && n.students.items == [] && !n.IsEndOfWord()
    ensures forall c :: n.GetChild(c) == None
  {
    TrieNode(seq(AlphabetSize, _ => None), EmptyList, false)
  }
}
