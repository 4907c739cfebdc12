/** Properties that relate several handler calls: the store invariant each
    mutating handler keeps, round trips between handlers, idempotence of
    update, and the behaviour on the seed store. */
module Properties {
  import opened Optional
  import opened Text
  import opened Employees
  import opened Handlers

  /** A create with an id not yet in the store keeps ids unique. */
  lemma LemmaCreateKeepsUniqueIds(s: Store, d: Input, newId: string)
    requires UniqueIds(s) && !HasId(s, newId)
    ensures UniqueIds(Create(s, d, newId).store)
  {
    var t := Create(s, d, newId).store;
    if ValidForCreate(d) {
      forall i, j | 0 <= i < j < |t| ensures t[i].id != t[j].id {
        if j == |s| {
          assert t[i] == s[i];
        }
      }
    }
  }

  /** A create with an id not yet in the store keeps the store well formed:
      validation admits only non-empty names. */
  lemma LemmaCreateKeepsWellFormed(s: Store, d: Input, newId: string)
    requires WellFormed(s) && !HasId(s, newId)
    ensures WellFormed(Create(s, d, newId).store)
  {
    LemmaCreateKeepsUniqueIds(s, d, newId);
    var t := Create(s, d, newId).store;
    if ValidForCreate(d) {
      assert forall k :: 0 <= k < |s| ==> t[k] == s[k];
    }
  }

  /** `age: 0` and `isMarried: false` are present values, not missing ones. */
  lemma LemmaCreateAcceptsFalsyAgeAndMarried(s: Store, first: string, last: string, newId: string)
    requires first != "" && last != ""
    ensures var r := Create(s, Input(Some(first), Some(last), Some(0), Some(false)), newId);
            r.reply == Reply(Created, One(Employee(newId, first, last, 0, false)))
  {
  }

  /** Get-by-id after a successful create with a fresh id returns the created
      record: the new id is found first at the appended position. */
  lemma LemmaCreateThenGet(s: Store, d: Input, newId: string)
    requires !HasId(s, newId) && ValidForCreate(d)
    ensures var c := Create(s, d, newId);
            Get(c.store, newId).reply == Reply(Ok, c.reply.body)
  {
    var c := Create(s, d, newId);
    var t := c.store;
    assert FirstMatch(t, newId, |s|);
    var g := Get(t, newId);
    var i :| FirstMatch(t, newId, i) && g.reply.body.employee == t[i];
    LemmaFirstMatchUnique(t, newId, i, |s|);
  }

  /** Applying the same merge twice gives what applying it once gives. */
  lemma LemmaMergeIdempotent(e: Employee, p: Input)
    ensures Merge(Merge(e, p), p) == Merge(e, p)
  {
  }

  /** A merge with an all-missing body, or with empty names and missing
      age and isMarried, changes nothing. */
  lemma LemmaMergeNothingSupplied(e: Employee, first: Option<string>, last: Option<string>)
    requires !Truthy(first) && !Truthy(last)
    ensures Merge(e, Input(first, last, None, None)) == e
  {
  }

  /** Replaying an update gives the same store and the same reply. */
  lemma LemmaUpdateIdempotent(s: Store, id: string, p: Input)
    ensures var once := Update(s, id, p);
            Update(once.store, id, p) == once
  {
    var i := FindIndex(s, id);
    if i != -1 {
      var t := s[i := Merge(s[i], p)];
      assert FirstMatch(t, id, i);
      LemmaFirstMatchUnique(t, id, i, FindIndex(t, id));
      LemmaMergeIdempotent(s[i], p);
      assert t[i := Merge(t[i], p)] == t;
    }
  }

  /** Update leaves the id at every position as it was. */
  lemma LemmaUpdateKeepsIds(s: Store, id: string, p: Input)
    ensures var t := Update(s, id, p).store;
            |t| == |s| && forall k :: 0 <= k < |s| ==> t[k].id == s[k].id
  {
    var t := Update(s, id, p).store;
    if HasId(s, id) {
      var i :| FirstMatch(s, id, i) && t == s[i := Merge(s[i], p)];
    }
  }

  /** Update keeps ids unique and never empties a name. */
  lemma LemmaUpdateKeepsWellFormed(s: Store, id: string, p: Input)
    requires WellFormed(s)
    ensures WellFormed(Update(s, id, p).store)
  {
    LemmaUpdateKeepsIds(s, id, p);
    var t := Update(s, id, p).store;
    if HasId(s, id) {
      var i :| FirstMatch(s, id, i) && t == s[i := Merge(s[i], p)];
    }
  }

  /** A get after an update replies what the update replied: the updated
      record, or 404 when the id is absent. Update only touches the first
      match, so no assumption about duplicate ids is needed. */
  lemma LemmaUpdateThenGet(s: Store, id: string, p: Input)
    ensures var u := Update(s, id, p);
            Get(u.store, id).reply == u.reply
  {
    var u := Update(s, id, p);
    if !HasId(s, id) {
      return;
    }
    var i :| FirstMatch(s, id, i) && u.store == s[i := Merge(s[i], p)] && u.reply.body == One(u.store[i]);
    LemmaUpdateKeepsIds(s, id, p);
    assert FirstMatch(u.store, id, i);
    var g := Get(u.store, id);
    var j :| FirstMatch(u.store, id, j) && g.reply.body.employee == u.store[j];
    LemmaFirstMatchUnique(u.store, id, i, j);
  }

  /** An empty firstname in an update body is ignored, while `age: 0` and
      `isMarried: false` are applied. */
  lemma LemmaUpdateFalsyValues(s: Store, id: string, last: Option<string>)
    requires HasId(s, id)
    ensures var u := Update(s, id, Input(Some(""), last, Some(0), Some(false)));
            exists i :: && FirstMatch(s, id, i)
                        && u.reply.body.employee.firstname == s[i].firstname
                        && u.reply.body.employee.age == 0
                        && !u.reply.body.employee.isMarried
  {
  }

  /** Removing the record at `i` keeps every other record, in order. */
  lemma LemmaRemoveAt(s: Store, i: int, k: int)
    requires 0 <= i < |s| && 0 <= k < |s| - 1
    ensures (s[..i] + s[i + 1..])[k] == if k < i then s[k] else s[k + 1]
  {
  }

  /** Delete keeps ids unique and names non-empty. */
  lemma LemmaDeleteKeepsWellFormed(s: Store, id: string)
    requires WellFormed(s)
    ensures WellFormed(Delete(s, id).store)
  {
    var t := Delete(s, id).store;
    if HasId(s, id) {
      var i :| FirstMatch(s, id, i) && t == s[..i] + s[i + 1..];
      forall a, b | 0 <= a < b < |t| ensures t[a].id != t[b].id {
        LemmaRemoveAt(s, i, a);
        LemmaRemoveAt(s, i, b);
      }
      forall k | 0 <= k < |t| ensures t[k].firstname != "" && t[k].lastname != "" {
        LemmaRemoveAt(s, i, k);
      }
    }
  }

  /** With unique ids, a get after a delete of the same id is 404, whether
      the delete removed a record or the id was absent already. */
  lemma LemmaDeleteThenGetNotFound(s: Store, id: string)
    requires UniqueIds(s)
    ensures Get(Delete(s, id).store, id).reply == Reply(NotFound, Message(NotFoundMessage))
  {
    var t := Delete(s, id).store;
    if !HasId(s, id) {
      return;
    }
    var i :| FirstMatch(s, id, i) && t == s[..i] + s[i + 1..];
    forall k | 0 <= k < |t| ensures t[k].id != id {
      LemmaRemoveAt(s, i, k);
    }
  }

  /** Filtering distributes over concatenation: the result keeps store order. */
  lemma {:induction false} LemmaFilterAppend(a: Store, b: Store, lowerQuery: string)
    ensures Filter(a + b, lowerQuery) == Filter(a, lowerQuery) + Filter(b, lowerQuery)
    decreases |a|
  {
    if |a| == 0 {
      assert a + b == b;
    } else {
      assert (a + b)[1..] == a[1..] + b;
      LemmaFilterAppend(a[1..], b, lowerQuery);
    }
  }

  /** A record is returned by a valid search exactly when the lower-cased
      query occurs somewhere in its lower-cased firstname. */
  lemma LemmaSearchMembership(s: Store, q: string, e: Employee)
    requires q != "" && e in s
    ensures e in Search(s, Some(q)).reply.body.employees <==>
            exists i :: OccursAt(Lower(e.firstname), Lower(q), i)
  {
    var r := Search(s, Some(q)).reply.body.employees;
    assert e in r <==> Includes(Lower(e.firstname), Lower(q));
  }

  /** The update step of the lifecycle: Bob, stored last, gets age 41. */
  lemma LemmaLifecycleUpdate(t: Store, newId: string)
    requires UniqueIds(t) && |t| > 0
    requires t[|t| - 1] == Employee(newId, "Bob", "Lee", 40, true)
    ensures var u := Update(t, newId, Input(None, None, Some(41), None));
            && u.reply == Reply(Ok, One(Employee(newId, "Bob", "Lee", 41, true)))
            && UniqueIds(u.store) && HasId(u.store, newId)
  {
    var p := Input(None, None, Some(41), None);
    assert FirstMatch(t, newId, |t| - 1);
    var u := Update(t, newId, p);
    var i :| FirstMatch(t, newId, i) && u.store == t[i := Merge(t[i], p)] && u.reply.body == One(u.store[i]);
    LemmaFirstMatchUnique(t, newId, i, |t| - 1);
    LemmaUpdateKeepsIds(t, newId, p);
    assert u.store[i].id == newId;
  }

  /** The round trip of a fresh record: create, read, update its age, delete,
      read again. */
  lemma LemmaLifecycle(s: Store, newId: string)
    requires UniqueIds(s) && !HasId(s, newId)
    ensures var bob := Employee(newId, "Bob", "Lee", 40, true);
            var c := Create(s, Input(Some("Bob"), Some("Lee"), Some(40), Some(true)), newId);
            var u := Update(c.store, newId, Input(None, None, Some(41), None));
            var d := Delete(u.store, newId);
            && c.reply == Reply(Created, One(bob))
            && Get(c.store, newId).reply == Reply(Ok, One(bob))
            && u.reply == Reply(Ok, One(bob.(age := 41)))
            && d.reply == Reply(NoContent, NoBody)
            && Get(d.store, newId).reply.status == NotFound
  {
    var d0 := Input(Some("Bob"), Some("Lee"), Some(40), Some(true));
    LemmaCreateThenGet(s, d0, newId);
    LemmaCreateKeepsUniqueIds(s, d0, newId);
    var t := Create(s, d0, newId).store;
    LemmaLifecycleUpdate(t, newId);
    var u := Update(t, newId, Input(None, None, Some(41), None));
    LemmaDeleteThenGetNotFound(u.store, newId);
  }

  /** A string in which the needle's first character never appears does
      not include the needle. */
  lemma {:induction false} LemmaNotIncludesMissingFirstChar(hay: string, needle: string)
    requires |needle| > 0
    requires forall k :: 0 <= k < |hay| ==> hay[k] != needle[0]
    ensures !Includes(hay, needle)
    decreases |hay|
  {
    if |hay| > 0 {
      assert !StartsWith(hay, needle) by {
        if |needle| <= |hay| { assert hay[..|needle|][0] == hay[0]; }
      }
      LemmaNotIncludesMissingFirstChar(hay[1..], needle);
    }
  }

  /** "john" contains "jo" at position 0. */
  lemma LemmaJohnIncludesJo()
    ensures Includes(Lower("John"), "jo")
  {
    var l := Lower("John");
    assert l[0] == 'j' && l[1] == 'o';
    assert l[..2] == "jo";
  }

  /** "jane" does not contain "jo": it starts "ja" and has no other 'j'. */
  lemma LemmaJaneExcludesJo()
    ensures !Includes(Lower("Jane"), "jo")
  {
    var l := Lower("Jane");
    assert l[0] == 'j' && l[1] == 'a' && l[2] == 'n' && l[3] == 'e';
    assert l[..2] != "jo" by { assert l[..2][1] == 'a'; }
    LemmaNotIncludesMissingFirstChar(l[1..], "jo");
  }

  /** "alice" does not contain "jo": it has no 'j'. */
  lemma LemmaAliceExcludesJo()
    ensures !Includes(Lower("Alice"), "jo")
  {
    var l := Lower("Alice");
    assert forall k :: 0 <= k < |l| ==> l[k] == LowerChar("Alice"[k]);
    LemmaNotIncludesMissingFirstChar(l, "jo");
  }

  /** One step of the filter: the head is kept exactly when it matches. */
  lemma LemmaFilterCons(s: Store, lowerQuery: string)
    requires |s| > 0
    ensures Filter(s, lowerQuery) ==
              (if Matches(s[0], lowerQuery) then [s[0]] else []) + Filter(s[1..], lowerQuery)
  {
  }

  /** The query "jo" is already lower case. */
  lemma LemmaLowerJo()
    ensures Lower("jo") == "jo"
  {
    assert Lower("jo")[0] == 'j';
  }

  /** Of the three seed records only John's firstname contains "jo". */
  lemma LemmaFilterSeedJo(s: Store)
    requires |s| == 3
    requires s[0].firstname == "John" && s[1].firstname == "Jane" && s[2].firstname == "Alice"
    ensures Filter(s, "jo") == [s[0]]
  {
    assert Matches(s[0], "jo") by { LemmaJohnIncludesJo(); }
    assert !Matches(s[1], "jo") by { LemmaJaneExcludesJo(); }
    assert !Matches(s[2], "jo") by { LemmaAliceExcludesJo(); }
    assert Filter(s[2..], "jo") == [] by {
      LemmaFilterCons(s[2..], "jo");
      assert s[2..][1..] == [];
    }
    assert Filter(s[1..], "jo") == [] by {
      LemmaFilterCons(s[1..], "jo");
      assert s[1..][1..] == s[2..];
    }
    LemmaFilterCons(s, "jo");
  }

  /** On the seed store, searching "jo" finds John only: the match is on the
      firstname, so Alice Johnson is not returned. */
  lemma LemmaSeedSearchJo(id1: string, id2: string, id3: string)
    requires id1 != id2 && id1 != id3 && id2 != id3
    ensures var s := Seed(id1, id2, id3);
            Search(s, Some("jo")).reply == Reply(Ok, Many([s[0]]))
  {
    var s := Seed(id1, id2, id3);
    LemmaLowerJo();
    LemmaFilterSeedJo(s);
  }
}
