/**
 * The name index: a trie over the lowercase letters of student names.
 *
 * Inserting a student walks the letters of its normalized name from the
 * root, creating missing nodes and appending the student to the list of
 * every node on the way, so that the students under a prefix are read off
 * one node.  Its observable behaviour is a filter over the insertion
 * history, defined here by Matching and PrefixQuery.
 */
module NameTrie {
  import opened Students
  import opened TrieNodes

  // ---------------------------------------------------------------------
  // Normalization and the letter key of a name

  /** ASCII lowercasing: 'A'..'Z' become 'a'..'z', every other character stays. */
  function ToLower(c: char): char
  {
    if 'A' <= c <= 'Z' then (c as int - 'A' as int + 'a' as int) as char else c
  }

  function Lower(s: string): string
  {
    seq(|s|, i requires 0 <= i < |s| => ToLower(s[i]))
  }

  /** The characters of the regular-expression class `\s`: space, tab, newline, vertical tab, form feed, carriage return. */
  predicate IsWhitespace(c: char)
  {
    c == ' ' || c == '\t' || c == '\n' || c as int == 0x0B || c as int == 0x0C || c == '\r'
  }

  function StripWhitespace(s: string): string
  {
    if s == [] then []
    else StripWhitespace(s[..|s| - 1]) + (if IsWhitespace(s[|s| - 1]) then [] else [s[|s| - 1]])
  }

  /** A name or query lowercased, with all whitespace removed: no longer than `s`, with neither whitespace nor uppercase letters. */
  function Normalize(s: string): (r: string)
    ensures |r| <= |s|
    ensures forall i :: 0 <= i < |r| ==> !IsWhitespace(r[i]) && !('A' <= r[i] <= 'Z')
  {
    StripLowered(Lower(s));
    StripWhitespace(Lower(s))
  }

  /** The characters of `s` that are lowercase letters, in order. */
  function Letters(s: string): string
  {
    if s == [] then []
    else Letters(s[..|s| - 1]) + (if IsLetter(s[|s| - 1]) then [s[|s| - 1]] else [])
  }

  /** The letter path of a name or query: its normalized form with every non-letter dropped. */
  function Key(s: string): string
  {
    Letters(Normalize(s))
  }

  /** `s` without its leading characters at or below U+0020. */
  function TrimStart(s: string): (r: string)
    ensures r == [] <==> forall i :: 0 <= i < |s| ==> s[i] <= ' '
    ensures r != [] ==> r[0] > ' '
    decreases |s|
  {
    if s != [] && s[0] <= ' ' then TrimStart(s[1..]) else s
  }

  /** `s` without its trailing characters at or below U+0020. */
  function TrimEnd(s: string): (r: string)
    ensures r == [] <==> forall i :: 0 <= i < |s| ==> s[i] <= ' '
    decreases |s|
  {
    if s != [] && s[|s| - 1] <= ' ' then TrimEnd(s[..|s| - 1]) else s
  }

  /** Java's `trim()`: both ends stripped of characters at or below U+0020. */
  function Trim(s: string): string
  {
    TrimEnd(TrimStart(s))
  }

  /** `trim().isEmpty()`: true exactly when every character is at most U+0020. */
  predicate IsBlank(s: string)
    ensures IsBlank(s) <==> forall i :: 0 <= i < |s| ==> s[i] <= ' '
  {
    Trim(s) == []
  }

  // ---------------------------------------------------------------------
  // The observable behaviour: filters over the insertion history

  /** The students of `h`, in order and with repetitions, whose key starts with `w`. */
  function Matching(h: seq<Student>, w: string): seq<Student>
  {
    if h == [] then []
    else Matching(h[..|h| - 1], w) + (if w <= Key(h[|h| - 1].name) then [h[|h| - 1]] else [])
  }

  /** The list a node at letter path `w` holds: the root's stays empty. */
  function ListAt(h: seq<Student>, w: string): seq<Student>
  {
    if w == [] then [] else Matching(h, w)
  }

  /** The answer to a prefix query after inserting `h` in order. */
  function PrefixQuery(h: seq<Student>, p: string): seq<Student>
  {
    if IsBlank(p) then [] else ListAt(h, Key(p))
  }

  /** The students of `r` whose normalized name is `n`, in order. */
  function Exact(r: seq<Student>, n: string): seq<Student>
  {
    if r == [] then []
    else Exact(r[..|r| - 1], n) + (if Normalize(r[|r| - 1].name) == n then [r[|r| - 1]] else [])
  }

  // ---------------------------------------------------------------------
  // Lemmas about the specification

  lemma {:induction false} StripLowered(s: string)
    requires forall i :: 0 <= i < |s| ==> !('A' <= s[i] <= 'Z')
    ensures |StripWhitespace(s)| <= |s|
    ensures forall i :: 0 <= i < |StripWhitespace(s)| ==> !IsWhitespace(StripWhitespace(s)[i]) && !('A' <= StripWhitespace(s)[i] <= 'Z')
  {
    if s != [] {
      StripLowered(s[..|s| - 1]);
    }
  }

  lemma {:induction false} StripKeepsLetters(s: string)
    ensures Letters(StripWhitespace(s)) == Letters(s)
  {
    if s != [] {
      var front := s[..|s| - 1];
      StripKeepsLetters(front);
      var last := s[|s| - 1];
      assert s[..|s| - 1] == front;
      assert Letters(s) == Letters(front) + (if IsLetter(last) then [last] else []);
      if !IsWhitespace(last) {
        var t := StripWhitespace(front) + [last];
        assert StripWhitespace(s) == t;
        assert t[..|t| - 1] == StripWhitespace(front);
        assert Letters(t) == Letters(StripWhitespace(front)) + (if IsLetter(last) then [last] else []);
      } else {
        assert StripWhitespace(s) == StripWhitespace(front);
        assert Letters(s) == Letters(front);
      }
    }
  }

  /** Whitespace is never a letter, so the key of a name is the letters of its lowercased form. */
  lemma KeyIsLettersOfLower(s: string)
    ensures Key(s) == Letters(Lower(s))
  {
    StripKeepsLetters(Lower(s));
  }

  lemma {:induction false} StripIdempotent(s: string)
    ensures StripWhitespace(StripWhitespace(s)) == StripWhitespace(s)
  {
    if s != [] {
      var front := s[..|s| - 1];
      StripIdempotent(front);
      var last := s[|s| - 1];
      assert s[..|s| - 1] == front;
      if !IsWhitespace(last) {
        var t := StripWhitespace(front) + [last];
        assert StripWhitespace(s) == t;
        assert t[..|t| - 1] == StripWhitespace(front);
        assert StripWhitespace(t) == StripWhitespace(StripWhitespace(front)) + [last];
      } else {
        assert StripWhitespace(s) == StripWhitespace(front);
      }
    }
  }

  /** Normalizing twice is normalizing once. */
  lemma NormalizeIdempotent(s: string)
    ensures Normalize(Normalize(s)) == Normalize(s)
  {
    var n := Normalize(s);
    assert Lower(n) == n;
    StripIdempotent(Lower(s));
  }

  /** Lowercasing leaves the characters at most U+0020 where they are. */
  lemma BlankIgnoresCase(p: string, q: string)
    requires Lower(p) == Lower(q)
    ensures IsBlank(p) <==> IsBlank(q)
  {
    assert |p| == |q|;
    forall i | 0 <= i < |p|
      ensures p[i] <= ' ' <==> q[i] <= ' '
    {
      assert Lower(p)[i] == ToLower(p[i]) && Lower(q)[i] == ToLower(q[i]);
    }
  }

  /** Queries that agree once lowercased have the same answer, e.g. "alice" and "ALICE". */
  lemma PrefixQueryIgnoresCase(h: seq<Student>, p: string, q: string)
    requires Lower(p) == Lower(q)
    ensures PrefixQuery(h, p) == PrefixQuery(h, q)
  {
    BlankIgnoresCase(p, q);
  }

  /** The two spellings the demonstration compares. */
  lemma AliceQueries(h: seq<Student>)
    ensures PrefixQuery(h, "alice") == PrefixQuery(h, "ALICE")
  {
    assert Lower("ALICE") == "alice";
    assert Lower("alice") == "alice";
    PrefixQueryIgnoresCase(h, "alice", "ALICE");
  }

  /** The empty query, and any blank one, has no answer. */
  lemma BlankQueryIsEmpty(h: seq<Student>, p: string)
    requires IsBlank(p)
    ensures PrefixQuery(h, p) == []
  {
  }

  /** Appending a student to the history appends it to the matches of each of its key's prefixes. */
  lemma MatchingSnoc(h: seq<Student>, s: Student, w: string)
    ensures Matching(h + [s], w) == Matching(h, w) + (if w <= Key(s.name) then [s] else [])
  {
    assert (h + [s])[..|h|] == h;
  }

  /** A student matches `w` exactly when it was inserted and its key starts with `w`. */
  lemma {:induction false} MatchingMembers(h: seq<Student>, w: string, x: Student)
    ensures x in Matching(h, w) <==> x in h && w <= Key(x.name)
  {
    if h != [] {
      var front := h[..|h| - 1];
      MatchingMembers(front, w, x);
      assert h == front + [h[|h| - 1]];
    }
  }

  /** Each match occurs as often as it was inserted: repetitions are kept, nothing else is dropped. */
  lemma {:induction false} MatchingMultiplicity(h: seq<Student>, w: string, x: Student)
    ensures multiset(Matching(h, w))[x] == if w <= Key(x.name) then multiset(h)[x] else 0
  {
    if h != [] {
      var front := h[..|h| - 1];
      MatchingMultiplicity(front, w, x);
      assert h == front + [h[|h| - 1]];
    }
  }

  /** The answer to a prefix query, as a membership condition on the history. */
  lemma PrefixQueryMembers(h: seq<Student>, p: string, x: Student)
    ensures x in PrefixQuery(h, p) <==> !IsBlank(p) && Key(p) != [] && x in h && Key(p) <= Key(x.name)
  {
    MatchingMembers(h, Key(p), x);
  }

  /** A student just inserted answers every non-blank query whose letters start its name's letters. */
  lemma InsertedIsFound(h: seq<Student>, s: Student, p: string)
    requires !IsBlank(p) && Key(p) != [] && Key(p) <= Key(s.name)
    ensures s in PrefixQuery(h + [s], p)
  {
    MatchingSnoc(h, s, Key(p));
  }

  /** In a prefix-closed set of paths, every prefix of a member is a member. */
  lemma {:induction false} PrefixesPresent(paths: set<string>, k: string, u: string)
    requires PrefixClosed(paths) && k in paths && u <= k
    ensures u in paths
    decreases |k|
  {
    if |u| < |k| {
      var front := k[..|k| - 1];
      assert k == front + [k[|k| - 1]];
      assert u <= front;
      PrefixesPresent(paths, front, u);
    } else {
      assert u == k;
    }
  }

  /** When some prefix `u` of `w` is not a path, while every inserted key is, nothing matches `w`. */
  lemma {:induction false} NoMatchBeyond(h: seq<Student>, paths: set<string>, u: string, w: string)
    requires PrefixClosed(paths) && forall x :: x in h ==> Key(x.name) in paths
    requires u <= w && u !in paths
    ensures Matching(h, w) == []
  {
    if h != [] {
      var front := h[..|h| - 1];
      var last := h[|h| - 1];
      assert forall x :: x in front ==> x in h;
      NoMatchBeyond(front, paths, u, w);
      if w <= Key(last.name) {
        PrefixesPresent(paths, Key(last.name), u);
      }
    }
  }

  lemma {:induction false} LettersSnoc(s: string, i: nat)
    requires i < |s|
    ensures Letters(s[..i + 1]) == Letters(s[..i]) + (if IsLetter(s[i]) then [s[i]] else [])
  {
    assert s[..i + 1][..i] == s[..i];
  }

  /** The letters of a prefix are a prefix of the letters. */
  lemma {:induction false} LettersPrefix(s: string, i: nat)
    requires i <= |s|
    ensures Letters(s[..i]) <= Letters(s)
    decreases |s|
  {
    if i < |s| {
      var front := s[..|s| - 1];
      assert s[..i] == front[..i];
      LettersPrefix(front, i);
    } else {
      assert s[..i] == s;
    }
  }

  /** The exact matches of a prefix of a sequence are a prefix of its exact matches. */
  lemma {:induction false} ExactPrefix(r: seq<Student>, i: nat, n: string)
    requires i <= |r|
    ensures Exact(r[..i], n) <= Exact(r, n)
    decreases |r|
  {
    if i < |r| {
      var front := r[..|r| - 1];
      assert r[..i] == front[..i];
      ExactPrefix(front, i, n);
    } else {
      assert r[..i] == r;
    }
  }

  /** A student with the same normalized name as `n` has the same key, so it matches `n`'s key. */
  lemma {:induction false} ExactWithinMatching(h: seq<Student>, n: string)
    ensures Exact(Matching(h, Key(n)), Normalize(n)) == Exact(h, Normalize(n))
  {
    if h != [] {
      var front := h[..|h| - 1];
      var last := h[|h| - 1];
      ExactWithinMatching(front, n);
      var m := Matching(front, Key(n));
      assert Exact(h, Normalize(n)) == Exact(front, Normalize(n)) + (if Normalize(last.name) == Normalize(n) then [last] else []);
      if Key(n) <= Key(last.name) {
        assert Matching(h, Key(n)) == m + [last];
        assert (m + [last])[..|m|] == m;
      } else {
        assert Matching(h, Key(n)) == m;
        assert Normalize(last.name) != Normalize(n);
      }
    }
  }

  /**
   * For a query with letters, the exact-name answer is every inserted student
   * whose normalized name equals the query's, in insertion order.
   */
  lemma ExactQueryIsFilter(h: seq<Student>, n: string)
    requires !IsBlank(n) && Key(n) != []
    ensures Exact(PrefixQuery(h, n), Normalize(n)) == Exact(h, Normalize(n))
  {
    ExactWithinMatching(h, n);
  }

  /** A non-blank query with no letters, such as "123", has no answer even when a name is spelled exactly so. */
  lemma NoLetterQueryIsEmpty(h: seq<Student>, n: string)
    requires !IsBlank(n) && Key(n) == []
    ensures PrefixQuery(h, n) == [] && Exact(PrefixQuery(h, n), Normalize(n)) == []
  {
  }

  lemma PrefixOfSnoc(w: string, p: string, c: char)
    ensures w <= p + [c] <==> w <= p || w == p + [c]
  {
    if w <= p + [c] && |w| <= |p| {
      assert w == (p + [c])[..|w|] == p[..|w|];
    }
  }

  /** A set of letter paths closed under dropping the last letter. */
  ghost predicate PrefixClosed(paths: set<string>)
  {
    forall w, c :: w + [c] in paths ==> w in paths
  }

  /** What child slot `k` of the node at path `w` must hold: the position of the node at `w` + letter k, if present. */
  ghost function KidAt(index: map<string, nat>, w: string, k: nat): Option<nat>
    requires k < AlphabetSize
  {
    if w + [LetterAt(k)] in index then Some(index[w + [LetterAt(k)]]) else None
  }

  lemma SnocInjective(w: string, a: char, p: string, c: char)
    requires w + [a] == p + [c]
    ensures w == p && a == c
  {
    assert w == (w + [a])[..|w|];
    assert p == (p + [c])[..|p|];
  }

  /** Adding a path whose parent is present keeps a set of paths prefix-closed. */
  lemma PrefixClosedExtend(index: map<string, nat>, path: string, c: char, n: nat)
    requires PrefixClosed(index.Keys) && path in index
    ensures PrefixClosed(index[path + [c] := n].Keys)
  {
    var paths := index[path + [c] := n].Keys;
    forall w, d | w + [d] in paths
      ensures w in paths
    {
      if w + [d] == path + [c] {
        SnocInjective(w, d, path, c);
      }
    }
  }

  /** Adding the node at `path` + [c] fills slot c of `path` and no slot of any other path. */
  lemma KidsAfterGrow(index: map<string, nat>, path: string, c: char, n: nat, w: string, k: nat)
    requires IsLetter(c) && path + [c] !in index && PrefixClosed(index.Keys)
    requires w in index || w == path + [c]
    requires k < AlphabetSize
    ensures KidAt(index[path + [c] := n], w, k) ==
              if w == path && k == SlotOf(c) then Some(n)
              else if w == path + [c] then None
              else KidAt(index, w, k)
  {
    SlotRoundTrip(c);
    if w + [LetterAt(k)] == path + [c] {
      SnocInjective(w, LetterAt(k), path, c);
    }
  }

  /** The first pass of the exact-name search: how many students of `a` have normalized name `n`. */
  method CountExact(a: array<Student>, n: string) returns (count: nat)
    ensures count == |Exact(a[..], n)|
  {
    count := 0;
    for i := 0 to a.Length
      invariant count == |Exact(a[..i], n)|
    {
      assert a[..i + 1][..i] == a[..i];
      if Normalize(a[i].name) == n {
        count := count + 1;
      }
    }
    assert a[..a.Length] == a[..];
  }

  /** The second pass: a new array of the `count` students of `a` with normalized name `n`, in order. */
  method CollectExact(a: array<Student>, n: string, count: nat) returns (r: array<Student>)
    requires count == |Exact(a[..], n)|
    ensures fresh(r) && r[..] == Exact(a[..], n)
  {
    r := new Student[count];
    var index := 0;
    for i := 0 to a.Length
      invariant index == |Exact(a[..i], n)| <= count
      invariant r[..index] == Exact(a[..i], n)
    {
      assert a[..i + 1][..i] == a[..i];
      ExactPrefix(a[..], i + 1, n);
      if Normalize(a[i].name) == n {
        r[index] := a[i];
        index := index + 1;
      }
    }
    assert a[..a.Length] == a[..];
    assert r[..] == r[..index];
  }

  /** `b` keeps every path of `a` at the same position. */
  ghost predicate Keeps(a: map<string, nat>, b: map<string, nat>)
  {
    forall w :: w in a ==> w in b && b[w] == a[w]
  }

  /** Every path of `b` missing from `a` is a prefix of `k`. */
  ghost predicate NewWithin(a: map<string, nat>, b: map<string, nat>, k: string)
  {
    forall w :: w in b && w !in a ==> w <= k
  }

  /** Recording the node at `path` + [c] (a new one, or the one already there) keeps the paths grown along `path` + [c]. */
  lemma GrowAlong(a: map<string, nat>, b: map<string, nat>, path: string, c: char, child: nat)
    requires Keeps(a, b) && NewWithin(a, b, path)
    requires path + [c] in b ==> child == b[path + [c]]
    requires path + [c] in a ==> path + [c] in b
    ensures Keeps(a, b[path + [c] := child]) && NewWithin(a, b[path + [c] := child], path + [c])
  {
    forall w | w in b[path + [c] := child] && w !in a
      ensures w <= path + [c]
    {
      PrefixOfSnoc(w, path, c);
    }
  }

  /**
   * A node store with its path index: every path names a node of the store,
   * and no two paths the same one; the root has the empty path; the paths
   * are prefix-closed.
   */
  ghost predicate ShapeOf(nodes: seq<TrieNode>, index: map<string, nat>, pathOf: seq<string>)
  {
    && |pathOf| == |nodes|
    && [] in index && index[[]] == Root
    && (forall w :: w in index ==> index[w] < |nodes| && pathOf[index[w]] == w)
    && (forall i :: 0 <= i < |nodes| ==> nodes[i].Valid())
    && PrefixClosed(index.Keys)
  }

  /** The child in slot k of the node at path w is the node at path w + [letter k], if present. */
  ghost predicate EdgesOf(nodes: seq<TrieNode>, index: map<string, nat>, pathOf: seq<string>)
    requires ShapeOf(nodes, index, pathOf)
  {
    forall w, k :: w in index && 0 <= k < AlphabetSize ==> nodes[index[w]].children[k] == KidAt(index, w, k)
  }

  /** The child for letter `c` of the node at `path` is the node at `path` + [c], if there is one. */
  lemma ChildOf(nodes: seq<TrieNode>, index: map<string, nat>, pathOf: seq<string>, path: string, c: char)
    requires ShapeOf(nodes, index, pathOf) && EdgesOf(nodes, index, pathOf)
    requires path in index && IsLetter(c)
    ensures |nodes[index[path]].children| == AlphabetSize
    ensures nodes[index[path]].GetChild(c) == if path + [c] in index then Some(index[path + [c]]) else None
  {
    SlotRoundTrip(c);
    assert nodes[index[path]].children[SlotOf(c)] == KidAt(index, path, SlotOf(c));
  }

  /** Replacing a node by one with the same children keeps the shape and the edges. */
  lemma TouchKeeps(nodes: seq<TrieNode>, index: map<string, nat>, pathOf: seq<string>, i: nat, n: TrieNode)
    requires ShapeOf(nodes, index, pathOf) && EdgesOf(nodes, index, pathOf)
    requires i < |nodes| && n.Valid() && n.children == nodes[i].children
    ensures ShapeOf(nodes[i := n], index, pathOf) && EdgesOf(nodes[i := n], index, pathOf)
  {
    var after := nodes[i := n];
    forall w, k | w in index && 0 <= k < AlphabetSize
      ensures after[index[w]].children[k] == KidAt(index, w, k)
    {
      assert after[index[w]].children == nodes[index[w]].children;
    }
  }

  /** Adding a new node for the missing path `path` + [c] as the child of the node at `path` keeps the shape and the edges. */
  lemma GrowKeeps(nodes: seq<TrieNode>, index: map<string, nat>, pathOf: seq<string>, path: string, c: char)
    requires ShapeOf(nodes, index, pathOf) && EdgesOf(nodes, index, pathOf)
    requires path in index && IsLetter(c) && path + [c] !in index
    ensures var after := nodes[index[path] := nodes[index[path]].SetChild(c, Some(|nodes|))] + [NewNode()];
            var index' := index[path + [c] := |nodes|];
            ShapeOf(after, index', pathOf + [path + [c]]) && EdgesOf(after, index', pathOf + [path + [c]])
  {
    var p := path + [c];
    var child := |nodes|;
    var after := nodes[index[path] := nodes[index[path]].SetChild(c, Some(child))] + [NewNode()];
    var index' := index[p := child];
    PrefixClosedExtend(index, path, c, child);
    assert ShapeOf(after, index', pathOf + [p]);
    forall w, k | w in index' && 0 <= k < AlphabetSize
      ensures after[index'[w]].children[k] == KidAt(index', w, k)
    {
      KidsAfterGrow(index, path, c, child, w, k);
      assert after[index'[w]].children[k] == after[index'[w]].GetChild(LetterAt(k));
    }
  }

  /** The nodes of `a` keep their end-of-word flags in `b`, and the nodes `b` adds have it off. */
  ghost predicate FlagsKept(a: seq<TrieNode>, b: seq<TrieNode>)
  {
    |a| <= |b| && forall k :: 0 <= k < |b| ==> b[k].endOfWord == (k < |a| && a[k].endOfWord)
  }

  lemma FlagsTrans(a: seq<TrieNode>, b: seq<TrieNode>, c: seq<TrieNode>)
    requires FlagsKept(a, b) && FlagsKept(b, c)
    ensures FlagsKept(a, c)
  {
  }

  /**
   * Setting the flag of the node at `i` after a walk that kept the flags of
   * `before`: that node is marked, every other node of `before` keeps its
   * flag, and every other new node has it off.
   */
  lemma MarkedFlags(before: seq<TrieNode>, mid: seq<TrieNode>, i: nat)
    requires FlagsKept(before, mid) && i < |mid|
    ensures var after := mid[i := mid[i].SetEndOfWord(true)];
            |before| <= |after| && after[i].IsEndOfWord()
            && forall k :: 0 <= k < |after| && k != i ==> after[k].IsEndOfWord() == (k < |before| && before[k].IsEndOfWord())
  {
  }

  /** The position form of MarkedFlags read by path: every path other than `key` already present keeps its flag. */
  lemma FlagsByPath(before: seq<TrieNode>, after: seq<TrieNode>, index: map<string, nat>, index': map<string, nat>, pathOf: seq<string>, key: string)
    requires ShapeOf(after, index', pathOf) && Keeps(index, index') && key in index'
    requires forall w :: w in index ==> index[w] < |before|
    requires forall k :: 0 <= k < |after| && k != index'[key] ==> after[k].IsEndOfWord() == (k < |before| && before[k].IsEndOfWord())
    ensures forall w :: w in index && w != key ==> after[index'[w]].IsEndOfWord() == before[index[w]].IsEndOfWord()
  {
    forall w | w in index && w != key
      ensures after[index'[w]].IsEndOfWord() == before[index[w]].IsEndOfWord()
    {
      assert pathOf[index'[w]] == w && pathOf[index'[key]] == key;
    }
  }

  /**
   * The lists part way through inserting `s` after history `h`, once the
   * walk has gone `d` letters deep: the nodes up to that depth hold their
   * matches in `h` + [s] (only those on the letter path of `s` gain it),
   * the deeper ones their matches in `h`.
   */
  ghost predicate StageOf(nodes: seq<TrieNode>, index: map<string, nat>, h: seq<Student>, s: Student, d: nat)
  {
    forall w :: w in index && index[w] < |nodes| ==>
      nodes[index[w]].students.items == if |w| <= d then ListAt(h + [s], w) else ListAt(h, w)
  }

  /** A new node at a path no inserted key reaches leaves the stage as it is. */
  lemma StageAfterGrow(nodes: seq<TrieNode>, index: map<string, nat>, h: seq<Student>, s: Student, d: nat,
                       parent: nat, c: char, p: string)
    requires StageOf(nodes, index, h, s, d)
    requires forall w :: w in index ==> index[w] < |nodes|
    requires parent < |nodes| && nodes[parent].Valid()
    requires p !in index && d < |p| && Matching(h, p) == []
    ensures StageOf(nodes[parent := nodes[parent].SetChild(c, Some(|nodes|))] + [NewNode()], index[p := |nodes|], h, s, d)
  {
    var after := nodes[parent := nodes[parent].SetChild(c, Some(|nodes|))] + [NewNode()];
    var index' := index[p := |nodes|];
    forall w | w in index' && index'[w] < |after|
      ensures after[index'[w]].students.items == if |w| <= d then ListAt(h + [s], w) else ListAt(h, w)
    {
      if w != p {
        assert index'[w] == index[w] < |nodes|;
        assert after[index[w]].students == nodes[index[w]].students;
      }
    }
  }

  /** Appending `s` at the node of `path` + [c], the next on its letter path, takes the stage one level deeper. */
  lemma StageAfterAppend(nodes: seq<TrieNode>, index: map<string, nat>, pathOf: seq<string>, h: seq<Student>, s: Student,
                         path: string, c: char)
    requires StageOf(nodes, index, h, s, |path|)
    requires forall w :: w in index ==> index[w] < |nodes| && index[w] < |pathOf| && pathOf[index[w]] == w
    requires path + [c] in index && nodes[index[path + [c]]].Valid()
    requires path + [c] <= Key(s.name)
    ensures StageOf(nodes[index[path + [c]] := nodes[index[path + [c]]].AddStudent(s)], index, h, s, |path| + 1)
  {
    var p := path + [c];
    var child := index[p];
    var after := nodes[child := nodes[child].AddStudent(s)];
    forall w | w in index && index[w] < |after|
      ensures after[index[w]].students.items == if |w| <= |p| then ListAt(h + [s], w) else ListAt(h, w)
    {
      StageStep(h, s, path, c, w);
      if w != p {
        assert index[w] != child;
      }
    }
  }

  /** Of the paths one letter longer than `path`, only `path` + [c], the next on the letter path of `s`, gains `s`. */
  lemma StageStep(h: seq<Student>, s: Student, path: string, c: char, w: string)
    requires path + [c] <= Key(s.name)
    ensures |w| == |path| + 1 && w != path + [c] ==> ListAt(h + [s], w) == ListAt(h, w)
    ensures ListAt(h + [s], path + [c]) == ListAt(h, path + [c]) + [s]
  {
    MatchingSnoc(h, s, w);
    MatchingSnoc(h, s, path + [c]);
    if |w| == |path| + 1 && w <= Key(s.name) {
      assert w == Key(s.name)[..|w|] == path + [c];
    }
  }

  // ---------------------------------------------------------------------
  // The trie

  /** The position of the root in the node store. */
  const Root: nat := 0

  class StudentNameTrie {
    /** The node store; the root is at position Root. */
    var nodes: seq<TrieNode>
    /** The students inserted so far, in order. */
    ghost var History: seq<Student>
    /** The position of the node at each letter path present in the trie. */
    ghost var Index: map<string, nat>
    /** The letter path of the node at each position. */
    ghost var PathOf: seq<string>

    /** See ShapeOf. */
    ghost predicate Shape()
      reads this
    {
      ShapeOf(nodes, Index, PathOf)
    }

    /** See EdgesOf. */
    ghost predicate Edges()
      requires Shape()
      reads this
    {
      EdgesOf(nodes, Index, PathOf)
    }

    /** Each node holds the history's matches of its path. */
    ghost predicate Lists(h: seq<Student>)
      requires Shape()
      reads this
    {
      forall w :: w in Index ==> nodes[Index[w]].students.items == ListAt(h, w)
    }

    /** Every inserted key has its node (and so, the paths being prefix-closed, does each of its prefixes). */
    ghost predicate Covered(h: seq<Student>)
      reads this
    {
      forall x :: x in h ==> Key(x.name) in Index
    }

    ghost predicate Valid()
      reads this
    {
      Shape() && Edges() && Lists(History) && Covered(History)
    }

    /** A trie holding only a root with no children and no students. */
    constructor ()
      ensures Valid() && History == []
      ensures nodes == [NewNode()] && Index == map[[] := Root]
    {
      nodes := [NewNode()];
      History := [];
      Index := map[[] := Root];
      PathOf := [[]];
      new;
      forall w, k | w in Index && 0 <= k < AlphabetSize
        ensures nodes[Index[w]].children[k] == KidAt(Index, w, k)
      {
        assert nodes[Root].GetChild(LetterAt(k)) == None;
      }
    }

    /** Adds a new node as the child for letter `c` of the node at `path`, which has none. */
    method Grow(parent: nat, ghost path: string, c: char) returns (child: nat)
      requires Shape() && Edges() && path in Index && parent == Index[path] && IsLetter(c)
      requires path + [c] !in Index
      modifies this
      ensures Shape() && Edges()
      ensures child == |old(nodes)| && Index == old(Index)[path + [c] := child]
      ensures nodes == old(nodes)[parent := old(nodes)[parent].SetChild(c, Some(child))] + [NewNode()]
      ensures FlagsKept(old(nodes), nodes) && History == old(History)
    {
      child := |nodes|;
      GrowKeeps(nodes, Index, PathOf, path, c);
      nodes := nodes[parent := nodes[parent].SetChild(c, Some(child))] + [NewNode()];
      Index := Index[path + [c] := child];
      PathOf := PathOf + [path + [c]];
    }

    /** The lists part way through inserting `s` after `h`, `d` letters deep (see StageOf). */
    ghost predicate Stage(h: seq<Student>, s: Student, d: nat)
      reads this
    {
      StageOf(nodes, Index, h, s, d)
    }

    /**
     * One step of the walk of Insert: moves from the node at `path` to its
     * child for letter `c`, creating the child if it is missing, and appends
     * `s` to the child's list.
     */
    method Descend(current: nat, ghost path: string, c: char, s: Student, ghost h: seq<Student>, ghost index: map<string, nat>) returns (child: nat)
      requires Shape() && Edges() && path in Index && current == Index[path] && IsLetter(c)
      requires path + [c] <= Key(s.name)
      requires Stage(h, s, |path|) && Covered(h)
      requires Keeps(index, Index) && NewWithin(index, Index, path)
      modifies this
      ensures Shape() && Edges() && Stage(h, s, |path| + 1) && Covered(h)
      ensures Index == old(Index)[path + [c] := child]
      ensures path + [c] in old(Index) ==> child == old(Index)[path + [c]]
      ensures Keeps(index, Index) && NewWithin(index, Index, path + [c])
      ensures FlagsKept(old(nodes), nodes) && History == old(History)
    {
      ChildOf(nodes, Index, PathOf, path, c);
      var next := nodes[current].GetChild(c);
      if next == None {
        child := Sprout(current, path, c, s, h);
      } else {
        child := next.value;
        assert Index == Index[path + [c] := child];
      }
      GrowAlong(index, old(Index), path, c, child);
      ghost var mid := nodes;
      Append(child, path, c, s, h);
      FlagsTrans(old(nodes), mid, nodes);
    }

    /** Grows the missing child for letter `c` of the node at `path`; no inserted key reaches the new node yet. */
    method Sprout(current: nat, ghost path: string, c: char, s: Student, ghost h: seq<Student>) returns (child: nat)
      requires Shape() && Edges() && path in Index && current == Index[path] && IsLetter(c)
      requires path + [c] !in Index
      requires Stage(h, s, |path|) && Covered(h)
      modifies this
      ensures Shape() && Edges() && Stage(h, s, |path|) && Covered(h)
      ensures Index == old(Index)[path + [c] := child] && History == old(History)
      ensures FlagsKept(old(nodes), nodes)
    {
      NoMatchBeyond(h, Index.Keys, path + [c], path + [c]);
      StageAfterGrow(nodes, Index, h, s, |path|, current, c, path + [c]);
      child := Grow(current, path, c);
    }

    /** Appends `s` to the list of the node at `path` + [c], the node the walk has just reached. */
    method Append(child: nat, ghost path: string, c: char, s: Student, ghost h: seq<Student>)
      requires Shape() && Edges() && path + [c] in Index && child == Index[path + [c]]
      requires path + [c] <= Key(s.name)
      requires Stage(h, s, |path|)
      modifies this
      ensures Shape() && Edges() && Stage(h, s, |path| + 1)
      ensures Index == old(Index) && |nodes| == |old(nodes)| && History == old(History)
      ensures nodes == old(nodes)[child := old(nodes)[child].AddStudent(s)]
      ensures FlagsKept(old(nodes), nodes)
    {
      StageAfterAppend(nodes, Index, PathOf, h, s, path, c);
      TouchKeeps(nodes, Index, PathOf, child, nodes[child].AddStudent(s));
      nodes := nodes[child := nodes[child].AddStudent(s)];
    }

    /**
     * Appends `s` to the list of every node on the letter path of its
     * normalized name, creating the nodes that are missing, and marks the
     * last node of that path (the root for a name with no letters) as the
     * end of a word.
     */
    method Insert(s: Student)
      requires Valid()
      modifies this
      ensures Valid()
      ensures History == old(History) + [s]
      ensures Key(s.name) in Index && nodes[Index[Key(s.name)]].IsEndOfWord()
      ensures Key(s.name) == [] ==> nodes[Root].IsEndOfWord()
      ensures Keeps(old(Index), Index) && NewWithin(old(Index), Index, Key(s.name))
      ensures |old(nodes)| <= |nodes|
      ensures forall k :: 0 <= k < |nodes| && k != Index[Key(s.name)] ==> nodes[k].IsEndOfWord() == (k < |old(nodes)| && old(nodes)[k].IsEndOfWord())
      ensures forall w :: w in old(Index) && w != Key(s.name) ==> nodes[Index[w]].IsEndOfWord() == old(nodes)[old(Index)[w]].IsEndOfWord()
    {
      var name := Normalize(s.name);
      var current := Root;
      ghost var h := History;
      ghost var index := Index;
      ghost var before := nodes;
      ghost var path: string := [];
      for i := 0 to |name|
        invariant Walked(name, i, current, path, s, h, index, before)
      {
        current, path := Step(name, i, current, path, s, h, index, before);
      }
      assert name[..|name|] == name;
      ghost var mid := nodes;
      Finish(current, s, h);
      MarkedFlags(before, mid, current);
      FlagsByPath(before, nodes, index, Index, PathOf, Key(s.name));
    }

    /**
     * Where the walk of Insert stands after the first `i` characters of the
     * normalized name: at the node of their letters, with the lists at stage
     * |path| and the paths grown only along `path`.
     */
    ghost predicate Walked(name: string, i: nat, current: nat, path: string, s: Student, h: seq<Student>, index: map<string, nat>, before: seq<TrieNode>)
      reads this
    {
      && name == Normalize(s.name) && i <= |name|
      && path == Letters(name[..i]) && path <= Key(s.name)
      && Shape() && Edges() && path in Index && current == Index[path]
      && Stage(h, s, |path|) && Covered(h) && History == h
      && Keeps(index, Index) && NewWithin(index, Index, path)
      && FlagsKept(before, nodes)
    }

    /** One iteration of the walk of Insert: a non-letter is skipped, a letter descends one level. */
    method Step(name: string, i: nat, current: nat, ghost path: string, s: Student, ghost h: seq<Student>, ghost index: map<string, nat>, ghost before: seq<TrieNode>)
      returns (next: nat, ghost path': string)
      requires i < |name| && Walked(name, i, current, path, s, h, index, before)
      modifies this
      ensures Walked(name, i + 1, next, path', s, h, index, before)
    {
      var c := name[i];
      LettersSnoc(name, i);
      LettersPrefix(name, i + 1);
      if !IsLetter(c) {
        next, path' := current, path;
        return;
      }
      next := Descend(current, path, c, s, h, index);
      FlagsTrans(before, old(nodes), nodes);
      path' := path + [c];
    }

    /** Completes Insert once the walk has reached the node of `s`'s key: marks it and records `s`. */
    method Finish(current: nat, s: Student, ghost h: seq<Student>)
      requires Shape() && Edges() && Key(s.name) in Index && current == Index[Key(s.name)]
      requires Stage(h, s, |Key(s.name)|) && Covered(h)
      modifies this
      ensures Valid() && History == h + [s]
      ensures Key(s.name) in Index && nodes[Index[Key(s.name)]].IsEndOfWord()
      ensures Index == old(Index) && nodes == old(nodes)[current := old(nodes)[current].SetEndOfWord(true)]
    {
      StageDone(h, s);
      MarkEnd(current, Key(s.name), h + [s]);
      History := h + [s];
    }

    /** Sets the end-of-word marker of the node at `path`, the last node of the walk of Insert. */
    method MarkEnd(current: nat, ghost path: string, ghost h: seq<Student>)
      requires Shape() && Edges() && Lists(h) && path in Index && current == Index[path]
      modifies this
      ensures Shape() && Edges() && Lists(h) && Index == old(Index) && History == old(History)
      ensures nodes == old(nodes)[current := old(nodes)[current].SetEndOfWord(true)]
    {
      ghost var before := nodes;
      TouchKeeps(nodes, Index, PathOf, current, nodes[current].SetEndOfWord(true));
      nodes := nodes[current := nodes[current].SetEndOfWord(true)];
      assert forall w :: w in Index ==> nodes[Index[w]].students == before[Index[w]].students;
    }

    /** Once the walk has reached the end of `s`'s key, the lists are those of the history extended by `s`. */
    lemma StageDone(h: seq<Student>, s: Student)
      requires Shape() && Stage(h, s, |Key(s.name)|)
      ensures Lists(h + [s])
    {
      forall w | w in Index
        ensures nodes[Index[w]].students.items == ListAt(h + [s], w)
      {
        MatchingSnoc(h, s, w);
      }
    }

    /**
     * The students inserted so far whose letter key starts with the letters
     * of `prefix`, in insertion order; none for a blank prefix or one with no
     * letters.  The walk only reads the trie.
     */
    method SearchByPrefix(prefix: string) returns (r: array<Student>)
      requires Valid()
      ensures fresh(r) && r[..] == PrefixQuery(History, prefix)
    {
      if IsBlank(prefix) {
        r := new Student[0];
        return;
      }
      var name := Normalize(prefix);
      var current := Root;
      ghost var path: string := [];
      for i := 0 to |name|
        invariant path == Letters(name[..i]) && path in Index && current == Index[path]
      {
        var c := name[i];
        LettersSnoc(name, i);
        if !IsLetter(c) {
          continue;
        }
        SlotRoundTrip(c);
        var next := nodes[current].GetChild(c);
        if next == None {
          LettersPrefix(name, i + 1);
          NoMatchBeyond(History, Index.Keys, path + [c], Key(prefix));
          r := new Student[0];
          return;
        }
        current := next.value;
        path := path + [c];
      }
      assert name[..|name|] == name;
      r := nodes[current].GetStudents().ToArray();
    }

    /**
     * The students of the prefix answer for `name` whose normalized name
     * equals the normalized `name`, in the same order: one pass counts them,
     * a second fills an array of that size.
     */
    method SearchByExactName(name: string) returns (r: array<Student>)
      requires Valid()
      ensures fresh(r) && r[..] == Exact(PrefixQuery(History, name), Normalize(name))
    {
      var prefixMatches := SearchByPrefix(name);
      var normalizedName := Normalize(name);
      var count := CountExact(prefixMatches, normalizedName);
      r := CollectExact(prefixMatches, normalizedName, count);
    }

    /**
     * Whether the root's list is empty.  Insert appends only to the nodes
     * below the root, so the answer is true in every state.
     */
    function IsEmpty(): (b: bool)
      reads this
      requires Valid()
      ensures b
    {
      nodes[Root].GetStudents().GetSize() == 0
    }
  }
}
