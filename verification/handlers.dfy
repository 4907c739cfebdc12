/** The five request handlers of backend/src/server.ts (plus the list
    handler), each a pure function from the current store and the request
    to the reply and the next store.

    Routing is not modelled: in the source the search route is registered
    after `/employees/:id`, so under first-match dispatch a GET to
    `/employees/search` would reach the get-by-id handler. `Search` below is
    the search handler's body called directly. */
module Handlers {
  import opened Optional
  import opened Text
  import opened Employees

  /** The HTTP status the handler sets: 200, 201, 204, 404 or 400. */
  datatype Status = Ok | Created | NoContent | NotFound | Invalid

  /** The JSON body sent back. */
  datatype Body = NoBody | One(employee: Employee) | Many(employees: seq<Employee>) | Message(text: string)

  datatype Reply = Reply(status: Status, body: Body)

  /** A reply together with the store after the request. */
  datatype Handled = Handled(reply: Reply, store: Store)

  const NotFoundMessage := "Employee not found"
  const InvalidEmployeeMessage := "Invalid employee data"
  const InvalidQueryMessage := "Invalid or missing firstname query parameter"

  /** The fields of a create or update request body; each may be missing. */
  datatype Input = Input(
    firstname: Option<string>,
    lastname: Option<string>,
    age: Option<int>,
    isMarried: Option<bool>
  )

  /** JavaScript truthiness of a string field that may be `undefined`. */
  predicate Truthy(o: Option<string>) {
    o.Some? && o.value != ""
  }

  /** GET /employees: the whole store, in insertion order. */
  function List(s: Store): (r: Handled)
    ensures r.store == s
    ensures r.reply.status == Ok && r.reply.body.Many?
    ensures r.reply.body.employees == s
  {
    Handled(Reply(Ok, Many(s)), s)
  }

  /** GET /employees/:id: the first record with that id, or 404. */
  function Get(s: Store, id: string): (r: Handled)
    ensures r.store == s
    ensures r.reply.status == NotFound <==> !HasId(s, id)
    ensures r.reply.status == NotFound ==> r.reply.body == Message(NotFoundMessage)
    ensures r.reply.status != NotFound ==>
              r.reply.status == Ok && r.reply.body.One? &&
              exists i :: FirstMatch(s, id, i) && r.reply.body.employee == s[i]
  {
    var i := FindIndex(s, id);
    if i == -1 then Handled(Reply(NotFound, Message(NotFoundMessage)), s)
    else Handled(Reply(Ok, One(s[i])), s)
  }

  /** Create's validation: both names truthy, age and isMarried defined
      (so `0` and `false` pass). */
  predicate ValidForCreate(d: Input) {
    Truthy(d.firstname) && Truthy(d.lastname) && d.age.Some? && d.isMarried.Some?
  }

  /** POST /employees: validate, then append a record with the id `newId`
      (the value `uuidv4()` produced for this request). */
  function Create(s: Store, d: Input, newId: string): (r: Handled)
    ensures r.reply.status == Invalid <==>
              d.firstname == None || d.firstname == Some("") ||
              d.lastname == None || d.lastname == Some("") ||
              d.age == None || d.isMarried == None
    ensures r.reply.status == Invalid ==>
              r.store == s && r.reply.body == Message(InvalidEmployeeMessage)
    ensures r.reply.status != Invalid ==>
              && r.reply.status == Created
              && r.reply.body.One?
              && var e := r.reply.body.employee;
              && e.id == newId
              && Some(e.firstname) == d.firstname && Some(e.lastname) == d.lastname
              && Some(e.age) == d.age && Some(e.isMarried) == d.isMarried
              && |r.store| == |s| + 1
              && r.store[..|s|] == s
              && r.store[|s|] == e
  {
    if !ValidForCreate(d) then
      Handled(Reply(Invalid, Message(InvalidEmployeeMessage)), s)
    else
      var e := Employee(newId, d.firstname.value, d.lastname.value, d.age.value, d.isMarried.value);
      Handled(Reply(Created, One(e)), s + [e])
  }

  /** The object spread of the update handler: names are replaced only by a
      truthy value, age and isMarried by any defined value; the id is kept. */
  function Merge(e: Employee, p: Input): (r: Employee)
    ensures r.id == e.id
    ensures Truthy(p.firstname) ==> r.firstname == p.firstname.value
    ensures p.firstname == None || p.firstname == Some("") ==> r.firstname == e.firstname
    ensures Truthy(p.lastname) ==> r.lastname == p.lastname.value
    ensures p.lastname == None || p.lastname == Some("") ==> r.lastname == e.lastname
    ensures p.age.Some? ==> r.age == p.age.value
    ensures p.age == None ==> r.age == e.age
    ensures p.isMarried.Some? ==> r.isMarried == p.isMarried.value
    ensures p.isMarried == None ==> r.isMarried == e.isMarried
  {
    e.(firstname := if Truthy(p.firstname) then p.firstname.value else e.firstname,
       lastname := if Truthy(p.lastname) then p.lastname.value else e.lastname,
       age := p.age.GetOr(e.age),
       isMarried := p.isMarried.GetOr(e.isMarried))
  }

  /** PUT /employees/:id: merge the body into the first record with that id. */
  function Update(s: Store, id: string, p: Input): (r: Handled)
    ensures r.reply.status == NotFound <==> !HasId(s, id)
    ensures r.reply.status == NotFound ==>
              r.store == s && r.reply.body == Message(NotFoundMessage)
    ensures r.reply.status != NotFound ==>
              && r.reply.status == Ok
              && |r.store| == |s|
              && exists i :: && FirstMatch(s, id, i)
                             && r.store == s[i := Merge(s[i], p)]
                             && r.store[i].id == id
                             && r.reply.body == One(r.store[i])
  {
    var i := FindIndex(s, id);
    if i == -1 then Handled(Reply(NotFound, Message(NotFoundMessage)), s)
    else
      var e := Merge(s[i], p);
      Handled(Reply(Ok, One(e)), s[i := e])
  }

  /** DELETE /employees/:id: splice out the first record with that id. */
  function Delete(s: Store, id: string): (r: Handled)
    ensures r.reply.status == NotFound <==> !HasId(s, id)
    ensures r.reply.status == NotFound ==>
              r.store == s && r.reply.body == Message(NotFoundMessage)
    ensures r.reply.status != NotFound ==>
              && r.reply.status == NoContent
              && r.reply.body == NoBody
              && |r.store| == |s| - 1
              && exists i :: FirstMatch(s, id, i) && r.store == s[..i] + s[i + 1..]
  {
    var i := FindIndex(s, id);
    if i == -1 then Handled(Reply(NotFound, Message(NotFoundMessage)), s)
    else Handled(Reply(NoContent, NoBody), s[..i] + s[i + 1..])
  }

  /** The search predicate: the lower-cased firstname contains the
      (already lower-cased) query. */
  function Matches(e: Employee, lowerQuery: string): (r: bool)
    ensures r <==> exists i :: OccursAt(Lower(e.firstname), lowerQuery, i)
  {
    var r := Includes(Lower(e.firstname), lowerQuery);
    assert r ==> exists i :: OccursAt(Lower(e.firstname), lowerQuery, i);
    r
  }

  /** `a` can be obtained from `b` by deleting elements, keeping the order. */
  ghost predicate IsSubsequence(a: seq<Employee>, b: seq<Employee>)
    decreases |b|
  {
    if |a| == 0 then true
    else if |b| == 0 then false
    else if a[0] == b[0] then IsSubsequence(a[1..], b[1..])
    else IsSubsequence(a, b[1..])
  }

  /** `Array.prototype.filter` with `Matches`. */
  function Filter(s: Store, lowerQuery: string): (r: seq<Employee>)
    ensures |r| <= |s|
    ensures forall k :: 0 <= k < |r| ==> Matches(r[k], lowerQuery)
    ensures forall e :: e in s && Matches(e, lowerQuery) ==> e in r
    ensures forall e :: e in r ==> e in s
    ensures IsSubsequence(r, s)
    ensures forall e :: multiset(r)[e] == if Matches(e, lowerQuery) then multiset(s)[e] else 0
    decreases |s|
  {
    assert |s| > 0 ==> s == [s[0]] + s[1..];
    if |s| == 0 then []
    else if Matches(s[0], lowerQuery) then [s[0]] + Filter(s[1..], lowerQuery)
    else Filter(s[1..], lowerQuery)
  }

  /** GET /employees/search?firstname=q: reject a missing or empty query,
      otherwise return the matching records in store order. */
  function Search(s: Store, q: Option<string>): (r: Handled)
    ensures r.store == s
    ensures r.reply.status == Invalid <==> q == None || q == Some("")
    ensures r.reply.status == Invalid ==> r.reply.body == Message(InvalidQueryMessage)
    ensures r.reply.status != Invalid ==>
              && r.reply.status == Ok
              && r.reply.body.Many?
              && var rs := r.reply.body.employees;
              && IsSubsequence(rs, s)
              && (forall e :: e in rs ==> Includes(Lower(e.firstname), Lower(q.value)))
              && (forall e :: e in s && Includes(Lower(e.firstname), Lower(q.value)) ==> e in rs)
              && (forall e :: multiset(rs)[e] ==
                    if Includes(Lower(e.firstname), Lower(q.value)) then multiset(s)[e] else 0)
  {
    if !Truthy(q) then Handled(Reply(Invalid, Message(InvalidQueryMessage)), s)
    else Handled(Reply(Ok, Many(Filter(s, Lower(q.value)))), s)
  }
}
