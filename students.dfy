/**
 * The record held by both indexes: an immutable student with an id, a
 * display name and a grade point average.  The average is carried as an
 * opaque payload; nothing in the store inspects it.
 */
module Students {

  type Gpa = real

  datatype Student = Student(id: string, name: string, gpa: Gpa)

  /** The absent-or-present result of a key lookup (Java's null or a value). */
  datatype Option<T> = None | Some(value: T)

  /** The value stored under `k` in `m`, or None when `k` has no entry. */
  function Lookup(m: map<string, Student>, k: string): (r: Option<Student>)
    ensures r.Some? <==> k in m
    ensures r.Some? ==> r.value == m[k]
  {
    if k in m then Some(m[k]) else None
  }
}
