/** The employee record and the in-memory store that the HTTP handlers share
    (backend/src/server.ts). */
module Employees {

  /** One employee. `id` is the server-assigned opaque identifier (a UUID in
      the running service); `age` is a JavaScript number, modelled as an integer. */
  datatype Employee = Employee(
    id: string,
    firstname: string,
    lastname: string,
    age: int,
    isMarried: bool
  )

  /** The store: records in insertion order. */
  type Store = seq<Employee>

  /** Some record in `s` carries `id`. */
  ghost predicate HasId(s: Store, id: string) {
    exists k :: 0 <= k < |s| && s[k].id == id
  }

  /** No two records share an id. */
  ghost predicate UniqueIds(s: Store) {
    forall i, j :: 0 <= i < j < |s| ==> s[i].id != s[j].id
  }

  /** Both names of every record are non-empty. */
  ghost predicate NamesNonEmpty(s: Store) {
    forall k :: 0 <= k < |s| ==> s[k].firstname != "" && s[k].lastname != ""
  }

  /** The store invariant the service relies on. */
  ghost predicate WellFormed(s: Store) {
    UniqueIds(s) && NamesNonEmpty(s)
  }

  /** `i` is the first index of `s` whose record carries `id`. */
  ghost predicate FirstMatch(s: Store, id: string, i: int) {
    && 0 <= i < |s|
    && s[i].id == id
    && forall k :: 0 <= k < i ==> s[k].id != id
  }

  /** There is at most one first match. */
  lemma LemmaFirstMatchUnique(s: Store, id: string, i: int, j: int)
    requires FirstMatch(s, id, i) && FirstMatch(s, id, j)
    ensures i == j
  {
  }

  /** `Array.prototype.findIndex` with the predicate `emp.id === id`:
      the first matching index, or -1 when no record matches. */
  function FindIndex(s: Store, id: string): (r: int)
    ensures -1 <= r < |s|
    ensures r == -1 <==> !HasId(s, id)
    ensures r != -1 ==> FirstMatch(s, id, r)
    decreases |s|
  {
    if |s| == 0 then -1
    else if s[0].id == id then 0
    else
      var k := FindIndex(s[1..], id);
      if k == -1 then -1 else k + 1
  }

  /** The three sample employees the store starts with. Their ids come from
      `uuidv4()` and are therefore parameters here. */
  function Seed(id1: string, id2: string, id3: string): (s: Store)
    requires id1 != id2 && id1 != id3 && id2 != id3
    ensures |s| == 3 && WellFormed(s)
    ensures s[0].firstname == "John" && s[1].firstname == "Jane" && s[2].firstname == "Alice"
  {
    [ Employee(id1, "John", "Doe", 30, false),
      Employee(id2, "Jane", "Smith", 25, true),
      Employee(id3, "Alice", "Johnson", 28, false) ]
  }
}
