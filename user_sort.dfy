/**
  The sort step of the user query: the key a field name selects, the
  comparator the handler passes to Array.prototype.sort, the stable sort that
  the comparator induces (written as an insertion sort over sequences), and
  the in-place insertion sort on an array that computes it.
 */
module UserSort {
  import opened Optional
  import opened JsString
  import opened JsNumber
  import opened Api

  /** The names of the fields of User. */
  const FieldNames: set<string> := {"id", "name", "email", "role", "status", "createdAt"}

  /** `user[field]?.toString()`: the text of the named field; None (undefined) when User has no such field. */
  function FieldText(u: User, field: string): (t: Option<string>)
    ensures t.Some? <==> field in FieldNames
  {
    if field == "id" then Some(IntToString(u.id))
    else if field == "name" then Some(u.name)
    else if field == "email" then Some(u.email)
    else if field == "role" then Some(RoleName(u.role))
    else if field == "status" then Some(StatusName(u.status))
    else if field == "createdAt" then Some(u.createdAt)
    else None
  }

  /**
    The value the comparator compares:
    `a[sortBy]?.toString().toLowerCase() || a[sortBy]?.toString()`.
   */
  function SortKey(u: User, sortBy: string): (k: Option<string>)
    ensures k.Some? <==> sortBy in FieldNames
    ensures k.Some? ==> k.value == ToLowerCase(FieldText(u, sortBy).value)
  {
    match FieldText(u, sortBy)
    case None => None
    case Some(t) =>
      var lower := ToLowerCase(t);
      Some(if lower != "" then lower else t)
  }

  /** The key function the handler sorts by. */
  function KeyOf(sortBy: string): User -> Option<string>
  {
    u => SortKey(u, sortBy)
  }

  /** `valA < valB` on the keys; undefined is never less nor greater than anything. */
  predicate KeyLess(a: Option<string>, b: Option<string>)
  {
    a.Some? && b.Some? && Less(a.value, b.value)
  }

  /** The comparator of the sort on the two keys: negative when the first goes first. */
  function Compare(valA: Option<string>, valB: Option<string>, sortOrder: string): (c: int)
    ensures -1 <= c <= 1
  {
    if KeyLess(valA, valB) then (if sortOrder == "asc" then -1 else 1)
    else if KeyLess(valB, valA) then (if sortOrder == "asc" then 1 else -1)
    else 0
  }

  /** The comparator puts a record with key `ka` strictly before one with key `kb`. */
  predicate Before(ka: Option<string>, kb: Option<string>, sortOrder: string)
  {
    Compare(ka, kb, sortOrder) < 0
  }

  /** Either every record has a key or none has: the field named either exists on all of them or on none. */
  ghost predicate Uniform(key: User -> Option<string>)
  {
    forall a, b :: key(a).Some? ==> key(b).Some?
  }

  lemma KeyOfUniform(sortBy: string)
    ensures Uniform(KeyOf(sortBy))
  {
  }

  /**
    The comparator is consistent: swapping the arguments negates it, and it
    answers 0 exactly for records with the same key.
   */
  lemma CompareConsistent(ka: Option<string>, kb: Option<string>, sortOrder: string)
    requires ka.Some? <==> kb.Some?
    ensures Compare(kb, ka, sortOrder) == -Compare(ka, kb, sortOrder)
    ensures Compare(ka, kb, sortOrder) == 0 <==> ka == kb
  {
    if ka.Some? {
      LessTrichotomous(ka.value, kb.value);
      LessIrreflexive(ka.value);
      if Less(ka.value, kb.value) {
        LessAsymmetric(ka.value, kb.value);
      }
      if Less(kb.value, ka.value) {
        LessAsymmetric(kb.value, ka.value);
      }
    }
  }

  /** Ascending, a record goes first when its key is smaller; in any other order, when it is larger. */
  lemma BeforeMeans(ka: Option<string>, kb: Option<string>, sortOrder: string)
    ensures Before(ka, kb, sortOrder) <==> if sortOrder == "asc" then KeyLess(ka, kb) else KeyLess(kb, ka)
  {
    if KeyLess(ka, kb) {
      LessAsymmetric(ka.value, kb.value);
    }
  }

  /** `Before` is asymmetric, and it separates only different keys. */
  lemma BeforeAsymmetric(ka: Option<string>, kb: Option<string>, sortOrder: string)
    requires Before(ka, kb, sortOrder)
    ensures !Before(kb, ka, sortOrder)
    ensures ka != kb
  {
    BeforeMeans(ka, kb, sortOrder);
    BeforeMeans(kb, ka, sortOrder);
    if sortOrder == "asc" {
      LessAsymmetric(ka.value, kb.value);
    } else {
      LessAsymmetric(kb.value, ka.value);
    }
    LessIrreflexive(ka.value);
  }

  /** "Not before" is transitive on keys that are all defined or all undefined. */
  lemma NotBeforeTransitive(ka: Option<string>, kb: Option<string>, kc: Option<string>, sortOrder: string)
    requires ka.Some? == kb.Some? == kc.Some?
    requires !Before(ka, kb, sortOrder) && !Before(kb, kc, sortOrder)
    ensures !Before(ka, kc, sortOrder)
  {
    BeforeMeans(ka, kb, sortOrder);
    BeforeMeans(kb, kc, sortOrder);
    BeforeMeans(ka, kc, sortOrder);
    if ka.Some? {
      NotLessIsLessOrEqual(ka.value, kb.value);
      NotLessIsLessOrEqual(kb.value, ka.value);
      NotLessIsLessOrEqual(kb.value, kc.value);
      NotLessIsLessOrEqual(kc.value, kb.value);
      NotLessIsLessOrEqual(ka.value, kc.value);
      NotLessIsLessOrEqual(kc.value, ka.value);
      if sortOrder == "asc" {
        LessOrEqualTransitive(kc.value, kb.value, ka.value);
      } else {
        LessOrEqualTransitive(ka.value, kb.value, kc.value);
      }
    }
  }

  /**
    One step of insertion sort: `x` moves left past the records of `t` it
    goes strictly before, and stops after the first one it does not.
   */
  function Insert(t: seq<User>, x: User, key: User -> Option<string>, sortOrder: string): seq<User>
  {
    if t == [] || !Before(key(x), key(t[|t| - 1]), sortOrder) then t + [x]
    else Insert(t[..|t| - 1], x, key, sortOrder) + [t[|t| - 1]]
  }

  /**
    A stable sort by the comparator on the keys: the records inserted one
    after another, from the first to the last.
   */
  function SortByKey(s: seq<User>, key: User -> Option<string>, sortOrder: string): seq<User>
  {
    if s == [] then [] else Insert(SortByKey(s[..|s| - 1], key, sortOrder), s[|s| - 1], key, sortOrder)
  }

  /** `users.sort(comparator)` for the field `sortBy`. */
  function SortUsers(s: seq<User>, sortBy: string, sortOrder: string): seq<User>
  {
    SortByKey(s, KeyOf(sortBy), sortOrder)
  }

  /** No record is before one that precedes it: the sequence is sorted by the comparator. */
  predicate InOrder(s: seq<User>, key: User -> Option<string>, sortOrder: string)
  {
    forall i, j :: 0 <= i < j < |s| ==> !Before(key(s[j]), key(s[i]), sortOrder)
  }

  /** The records of `s` whose key is `k`, in the order of `s`. */
  function WithKey(s: seq<User>, key: User -> Option<string>, k: Option<string>): seq<User>
  {
    if s == [] then []
    else WithKey(s[..|s| - 1], key, k) + (if key(s[|s| - 1]) == k then [s[|s| - 1]] else [])
  }

  lemma {:induction false} WithKeyAppend(a: seq<User>, b: seq<User>, key: User -> Option<string>, k: Option<string>)
    ensures WithKey(a + b, key, k) == WithKey(a, key, k) + WithKey(b, key, k)
    decreases |b|
  {
    if b == [] {
      assert a + b == a;
    } else {
      assert (a + b)[..|a + b| - 1] == a + b[..|b| - 1];
      WithKeyAppend(a, b[..|b| - 1], key, k);
    }
  }

  lemma WithKeySingle(u: User, key: User -> Option<string>, k: Option<string>)
    ensures WithKey([u], key, k) == if key(u) == k then [u] else []
  {
    assert [u][..0] == [];
  }

  /** Inserting adds exactly one occurrence of the record. */
  lemma {:induction false} InsertPermutes(t: seq<User>, x: User, key: User -> Option<string>, sortOrder: string)
    ensures multiset(Insert(t, x, key, sortOrder)) == multiset(t) + multiset{x}
  {
    if t != [] && Before(key(x), key(t[|t| - 1]), sortOrder) {
      InsertPermutes(t[..|t| - 1], x, key, sortOrder);
      assert t == t[..|t| - 1] + [t[|t| - 1]];
    }
  }

  /** Sorting permutes the records: the result holds each record as often as the input. */
  lemma {:induction false} SortPermutes(s: seq<User>, key: User -> Option<string>, sortOrder: string)
    ensures multiset(SortByKey(s, key, sortOrder)) == multiset(s)
    ensures |SortByKey(s, key, sortOrder)| == |s|
  {
    if s != [] {
      SortPermutes(s[..|s| - 1], key, sortOrder);
      InsertPermutes(SortByKey(s[..|s| - 1], key, sortOrder), s[|s| - 1], key, sortOrder);
      assert s == s[..|s| - 1] + [s[|s| - 1]];
    }
    assert |multiset(SortByKey(s, key, sortOrder))| == |multiset(s)|;
  }

  /** Inserting into a sorted sequence keeps it sorted. */
  lemma {:induction false} InsertInOrder(t: seq<User>, x: User, key: User -> Option<string>, sortOrder: string)
    requires Uniform(key)
    requires InOrder(t, key, sortOrder)
    ensures InOrder(Insert(t, x, key, sortOrder), key, sortOrder)
  {
    var r := Insert(t, x, key, sortOrder);
    if t == [] {
    } else if !Before(key(x), key(t[|t| - 1]), sortOrder) {
      var n := |t|;
      forall i, j | 0 <= i < j < |r|
        ensures !Before(key(r[j]), key(r[i]), sortOrder)
      {
        if j == n && i < n - 1 {
          NotBeforeTransitive(key(x), key(t[n - 1]), key(t[i]), sortOrder);
        }
      }
    } else {
      var last := t[|t| - 1];
      var front := t[..|t| - 1];
      var inserted := Insert(front, x, key, sortOrder);
      InsertInOrder(front, x, key, sortOrder);
      InsertPermutes(front, x, key, sortOrder);
      BeforeAsymmetric(key(x), key(last), sortOrder);
      forall i | 0 <= i < |inserted|
        ensures !Before(key(last), key(inserted[i]), sortOrder)
      {
        assert inserted[i] in multiset(inserted);
        if inserted[i] != x {
          assert inserted[i] in multiset(front);
          var k :| 0 <= k < |front| && front[k] == inserted[i];
          assert t[k] == inserted[i];
        }
      }
      assert r == inserted + [last];
    }
  }

  /** The result of the sort is sorted by the comparator. */
  lemma {:induction false} SortInOrder(s: seq<User>, key: User -> Option<string>, sortOrder: string)
    requires Uniform(key)
    ensures InOrder(SortByKey(s, key, sortOrder), key, sortOrder)
  {
    if s != [] {
      SortInOrder(s[..|s| - 1], key, sortOrder);
      InsertInOrder(SortByKey(s[..|s| - 1], key, sortOrder), s[|s| - 1], key, sortOrder);
    }
  }

  /** Inserting a record leaves the records of every key in their order, the new one after those of its key. */
  lemma {:induction false} InsertStable(t: seq<User>, x: User, key: User -> Option<string>, sortOrder: string, k: Option<string>)
    ensures WithKey(Insert(t, x, key, sortOrder), key, k) == WithKey(t, key, k) + WithKey([x], key, k)
  {
    if t == [] || !Before(key(x), key(t[|t| - 1]), sortOrder) {
      WithKeyAppend(t, [x], key, k);
    } else {
      var last := t[|t| - 1];
      var front := t[..|t| - 1];
      var inserted := Insert(front, x, key, sortOrder);
      InsertStable(front, x, key, sortOrder, k);
      BeforeAsymmetric(key(x), key(last), sortOrder);
      WithKeySingle(x, key, k);
      WithKeySingle(last, key, k);
      var wf := WithKey(front, key, k);
      assert Insert(t, x, key, sortOrder) == inserted + [last];
      WithKeyAppend(inserted, [last], key, k);
      if key(x) == k {
        assert WithKey([x], key, k) == [x] && WithKey([last], key, k) == [];
        assert WithKey(t, key, k) == wf;
        assert WithKey(inserted, key, k) == wf + [x];
      } else {
        assert WithKey([x], key, k) == [];
        assert WithKey(inserted, key, k) == wf;
      }
    }
  }

  /** The sort is stable: the records of each key come out in the order they went in. */
  lemma {:induction false} SortStable(s: seq<User>, key: User -> Option<string>, sortOrder: string, k: Option<string>)
    ensures WithKey(SortByKey(s, key, sortOrder), key, k) == WithKey(s, key, k)
  {
    if s != [] {
      var front := s[..|s| - 1];
      SortStable(front, key, sortOrder, k);
      InsertStable(SortByKey(front, key, sortOrder), s[|s| - 1], key, sortOrder, k);
      WithKeySingle(s[|s| - 1], key, k);
    }
  }

  /** Sorting a sequence that is already sorted changes nothing. */
  lemma {:induction false} SortKeepsSorted(s: seq<User>, key: User -> Option<string>, sortOrder: string)
    requires InOrder(s, key, sortOrder)
    ensures SortByKey(s, key, sortOrder) == s
  {
    if s != [] {
      var n := |s|;
      var front := s[..n - 1];
      forall i, j | 0 <= i < j < |front|
        ensures !Before(key(front[j]), key(front[i]), sortOrder)
      {
        assert front[i] == s[i] && front[j] == s[j];
      }
      SortKeepsSorted(front, key, sortOrder);
      if n > 1 {
        assert front[n - 2] == s[n - 2];
        assert !Before(key(s[n - 1]), key(s[n - 2]), sortOrder);
      }
      assert SortByKey(s, key, sortOrder) == Insert(front, s[n - 1], key, sortOrder);
      assert s == front + [s[n - 1]];
    }
  }

  /** Sorting twice by the same field and order is sorting once. */
  lemma SortIdempotent(s: seq<User>, sortBy: string, sortOrder: string)
    ensures SortUsers(SortUsers(s, sortBy, sortOrder), sortBy, sortOrder) == SortUsers(s, sortBy, sortOrder)
  {
    KeyOfUniform(sortBy);
    SortInOrder(s, KeyOf(sortBy), sortOrder);
    SortKeepsSorted(SortUsers(s, sortBy, sortOrder), KeyOf(sortBy), sortOrder);
  }

  /**
    Sorted by a field of User, the keys do not decrease when the order is
    "asc" and do not increase for any other order.
   */
  lemma SortedKeys(s: seq<User>, sortBy: string, sortOrder: string)
    requires sortBy in FieldNames
    ensures var r := SortUsers(s, sortBy, sortOrder);
      forall i, j :: 0 <= i < j < |r| ==>
        if sortOrder == "asc" then LessOrEqual(SortKey(r[i], sortBy).value, SortKey(r[j], sortBy).value)
        else LessOrEqual(SortKey(r[j], sortBy).value, SortKey(r[i], sortBy).value)
  {
    var r := SortUsers(s, sortBy, sortOrder);
    KeyOfUniform(sortBy);
    SortInOrder(s, KeyOf(sortBy), sortOrder);
    forall i, j | 0 <= i < j < |r|
      ensures if sortOrder == "asc" then LessOrEqual(SortKey(r[i], sortBy).value, SortKey(r[j], sortBy).value)
              else LessOrEqual(SortKey(r[j], sortBy).value, SortKey(r[i], sortBy).value)
    {
      var ki, kj := SortKey(r[i], sortBy), SortKey(r[j], sortBy);
      assert !Before(KeyOf(sortBy)(r[j]), KeyOf(sortBy)(r[i]), sortOrder);
      BeforeMeans(kj, ki, sortOrder);
      NotLessIsLessOrEqual(kj.value, ki.value);
      NotLessIsLessOrEqual(ki.value, kj.value);
    }
  }

  /** The sort by a field keeps, for every key, the records of that key in their original order. */
  lemma SortUsersStable(s: seq<User>, sortBy: string, sortOrder: string, k: Option<string>)
    ensures WithKey(SortUsers(s, sortBy, sortOrder), KeyOf(sortBy), k) == WithKey(s, KeyOf(sortBy), k)
  {
    SortStable(s, KeyOf(sortBy), sortOrder, k);
  }

  /** The sort by a field is a permutation of its input. */
  lemma SortUsersPermutes(s: seq<User>, sortBy: string, sortOrder: string)
    ensures multiset(SortUsers(s, sortBy, sortOrder)) == multiset(s)
    ensures |SortUsers(s, sortBy, sortOrder)| == |s|
  {
    SortPermutes(s, KeyOf(sortBy), sortOrder);
  }

  /** A name that is not a field of User leaves the order as it is: the comparator always answers 0. */
  lemma UnknownFieldKeepsOrder(s: seq<User>, sortBy: string, sortOrder: string)
    requires sortBy !in FieldNames
    ensures SortUsers(s, sortBy, sortOrder) == s
  {
    SortKeepsSorted(s, KeyOf(sortBy), sortOrder);
  }

  /** In a sequence sorted by the comparator, no record of it goes strictly before the first one. */
  lemma NothingBeforeHead(r: seq<User>, x: User, key: User -> Option<string>, sortOrder: string)
    requires Uniform(key)
    requires InOrder(r, key, sortOrder) && x in r
    ensures !Before(key(x), key(r[0]), sortOrder)
  {
    var j :| 0 <= j < |r| && r[j] == x;
    if j == 0 {
      CompareConsistent(key(x), key(x), sortOrder);
    } else {
      assert !Before(key(r[j]), key(r[0]), sortOrder);
    }
  }

  /** Dropping the first record keeps a sequence sorted. */
  lemma InOrderTail(r: seq<User>, key: User -> Option<string>, sortOrder: string)
    requires r != [] && InOrder(r, key, sortOrder)
    ensures InOrder(r[1..], key, sortOrder)
  {
    forall a, b | 0 <= a < b < |r| - 1 ensures !Before(key(r[1..][b]), key(r[1..][a]), sortOrder)
    {
      assert r[1..][b] == r[b + 1] && r[1..][a] == r[a + 1];
    }
  }

  /** The records of a key in a non-empty sequence: those among its first record, then those among the rest. */
  lemma WithKeyCons(r: seq<User>, key: User -> Option<string>, k: Option<string>)
    requires r != []
    ensures WithKey(r, key, k) == (if key(r[0]) == k then [r[0]] else []) + WithKey(r[1..], key, k)
  {
    assert r == [r[0]] + r[1..];
    WithKeyAppend([r[0]], r[1..], key, k);
    WithKeySingle(r[0], key, k);
  }

  /** Two sorted sequences holding the same records and the same order per key start with the same record. */
  lemma SameHead(r: seq<User>, t: seq<User>, key: User -> Option<string>, sortOrder: string)
    requires Uniform(key)
    requires r != [] && multiset(r) == multiset(t)
    requires InOrder(r, key, sortOrder) && InOrder(t, key, sortOrder)
    requires WithKey(r, key, key(r[0])) == WithKey(t, key, key(r[0]))
    ensures t != [] && r[0] == t[0]
  {
    assert r[0] in multiset(t);
    assert t[0] in multiset(r);
    NothingBeforeHead(r, t[0], key, sortOrder);
    NothingBeforeHead(t, r[0], key, sortOrder);
    var k := key(r[0]);
    CompareConsistent(k, key(t[0]), sortOrder);
    assert key(t[0]) == k;
    WithKeyCons(r, key, k);
    WithKeyCons(t, key, k);
    assert WithKey(r, key, k)[0] == r[0];
    assert WithKey(t, key, k)[0] == t[0];
  }

  /** With the same first record, the rest keep the same order per key. */
  lemma SameTails(r: seq<User>, t: seq<User>, key: User -> Option<string>)
    requires r != [] && t != [] && r[0] == t[0]
    requires forall k :: WithKey(r, key, k) == WithKey(t, key, k)
    ensures forall k :: WithKey(r[1..], key, k) == WithKey(t[1..], key, k)
  {
    forall k ensures WithKey(r[1..], key, k) == WithKey(t[1..], key, k)
    {
      WithKeyCons(r, key, k);
      WithKeyCons(t, key, k);
      var h := if key(r[0]) == k then [r[0]] else [];
      assert WithKey(r[1..], key, k) == (h + WithKey(r[1..], key, k))[|h|..];
      assert WithKey(t[1..], key, k) == (h + WithKey(t[1..], key, k))[|h|..];
    }
  }

  /** Two permutations of each other that start with the same record continue with permutations of each other. */
  lemma MultisetTail(r: seq<User>, t: seq<User>)
    requires r != [] && t != [] && r[0] == t[0] && multiset(r) == multiset(t)
    ensures multiset(r[1..]) == multiset(t[1..])
  {
    assert r == [r[0]] + r[1..] && t == [t[0]] + t[1..];
    assert multiset(r[1..]) == multiset(r) - multiset{r[0]};
    assert multiset(t[1..]) == multiset(t) - multiset{t[0]};
  }

  /**
    Two sequences sorted by the comparator, holding the same records, and
    agreeing on the order of the records of every key, are the same sequence.
   */
  lemma {:induction false} SortedAgree(r: seq<User>, t: seq<User>, key: User -> Option<string>, sortOrder: string)
    requires Uniform(key)
    requires multiset(r) == multiset(t)
    requires InOrder(r, key, sortOrder) && InOrder(t, key, sortOrder)
    requires forall k :: WithKey(r, key, k) == WithKey(t, key, k)
    ensures r == t
    decreases |r|
  {
    if r == [] {
      assert |t| == |multiset(t)| == 0;
    } else {
      SameHead(r, t, key, sortOrder);
      SameTails(r, t, key);
      MultisetTail(r, t);
      InOrderTail(r, key, sortOrder);
      InOrderTail(t, key, sortOrder);
      SortedAgree(r[1..], t[1..], key, sortOrder);
    }
  }

  /**
    The stable sort is the only stable order: any permutation of `s` that is
    sorted by the comparator and keeps the records of every key in their
    order in `s` is SortUsers(s). So every stable implementation of
    Array.prototype.sort yields it.
   */
  lemma SortUnique(s: seq<User>, r: seq<User>, sortBy: string, sortOrder: string)
    requires multiset(r) == multiset(s)
    requires InOrder(r, KeyOf(sortBy), sortOrder)
    requires forall k :: WithKey(r, KeyOf(sortBy), k) == WithKey(s, KeyOf(sortBy), k)
    ensures r == SortUsers(s, sortBy, sortOrder)
  {
    var t := SortUsers(s, sortBy, sortOrder);
    KeyOfUniform(sortBy);
    SortUsersPermutes(s, sortBy, sortOrder);
    SortInOrder(s, KeyOf(sortBy), sortOrder);
    forall k ensures WithKey(t, KeyOf(sortBy), k) == WithKey(s, KeyOf(sortBy), k)
    {
      SortUsersStable(s, sortBy, sortOrder, k);
    }
    SortedAgree(r, t, KeyOf(sortBy), sortOrder);
  }

  /** Ids are compared as text: ascending, the user with id 10 goes before the user with id 9. */
  lemma IdsCompareAsText(a: User, b: User)
    requires a.id == 10 && b.id == 9
    ensures Before(SortKey(a, "id"), SortKey(b, "id"), "asc")
  {
    assert NatToString(1) == "1" && NatToString(0) == "0";
    assert IntToString(10) == "10" && IntToString(9) == "9";
    assert ToLowerCase("10") == "10" && ToLowerCase("9") == "9";
    assert Less("10", "9");
  }

  /** A sequence holding `sorted` with `x` at index `j` is the two parts of `sorted` around `x`. */
  lemma Assemble(b: seq<User>, sorted: seq<User>, x: User, j: nat)
    requires j <= |sorted| && |b| == |sorted| + 1
    requires forall k :: 0 <= k < j ==> b[k] == sorted[k]
    requires b[j] == x
    requires forall k :: j < k < |b| ==> b[k] == sorted[k - 1]
    ensures b == sorted[..j] + [x] + sorted[j..]
  {
  }

  /**
    Inserting `x` puts it at the index `j` where the record to its left, if
    any, does not go after it and every record to its right does.
   */
  lemma {:induction false} InsertAtIndex(sorted: seq<User>, x: User, key: User -> Option<string>, sortOrder: string, j: nat)
    requires j <= |sorted|
    requires j > 0 ==> !Before(key(x), key(sorted[j - 1]), sortOrder)
    requires forall k :: j <= k < |sorted| ==> Before(key(x), key(sorted[k]), sortOrder)
    ensures Insert(sorted, x, key, sortOrder) == sorted[..j] + [x] + sorted[j..]
    decreases |sorted|
  {
    var n := |sorted|;
    if j == n {
      if n > 0 {
        assert !Before(key(x), key(sorted[n - 1]), sortOrder);
      }
      assert sorted[..j] == sorted && sorted[j..] == [];
    } else {
      var front, last := sorted[..n - 1], sorted[n - 1];
      assert Before(key(x), key(last), sortOrder);
      assert j > 0 ==> front[j - 1] == sorted[j - 1];
      forall k | j <= k < |front|
        ensures Before(key(x), key(front[k]), sortOrder)
      {
        assert front[k] == sorted[k];
      }
      InsertAtIndex(front, x, key, sortOrder, j);
      assert Insert(sorted, x, key, sortOrder) == (front[..j] + [x] + front[j..]) + [last];
      assert front[..j] == sorted[..j];
      assert front[j..] + [last] == sorted[j..];
      assert (front[..j] + [x] + front[j..]) + [last] == front[..j] + [x] + (front[j..] + [last]);
    }
  }

  /**
    One pass of the insertion sort: the record at index `i` moves left past
    the records of the sorted prefix `a[..i]` that it goes strictly before.
   */
  method InsertAt(a: array<User>, i: nat, key: User -> Option<string>, sortOrder: string)
    requires i < a.Length
    modifies a
    ensures a[..i + 1] == Insert(old(a[..i]), old(a[i]), key, sortOrder)
    ensures a[i + 1..] == old(a[i + 1..])
  {
    ghost var sorted := a[..i];
    var x := a[i];
    var j := i;
    while j > 0 && Compare(key(x), key(a[j - 1]), sortOrder) < 0
      invariant 0 <= j <= i
      invariant forall k :: 0 <= k < j ==> a[k] == sorted[k]
      invariant forall k :: j < k <= i ==> a[k] == sorted[k - 1]
      invariant forall k :: i < k < a.Length ==> a[k] == old(a[k])
      invariant forall k :: j <= k < i ==> Before(key(x), key(sorted[k]), sortOrder)
    {
      assert a[j - 1] == sorted[j - 1];
      a[j] := a[j - 1];
      j := j - 1;
    }
    InsertAtIndex(sorted, x, key, sortOrder, j);
    a[j] := x;
    Assemble(a[..i + 1], sorted, x, j);
  }

  /** Sorting one more element of `s` inserts it into the sorted prefix. */
  lemma SortByKeyStep(s: seq<User>, i: nat, key: User -> Option<string>, sortOrder: string)
    requires i < |s|
    ensures SortByKey(s[..i + 1], key, sortOrder) == Insert(SortByKey(s[..i], key, sortOrder), s[i], key, sortOrder)
  {
    assert s[..i + 1][..i] == s[..i];
  }

  /**
    `filteredUsers.sort(comparator)`: sorts the array in place, stably, by
    insertion, taking the records from the first to the last.
   */
  method SortInPlace(a: array<User>, sortBy: string, sortOrder: string)
    modifies a
    ensures a[..] == SortUsers(old(a[..]), sortBy, sortOrder)
  {
    ghost var input := a[..];
    var key := KeyOf(sortBy);
    var i := 0;
    while i < a.Length
      invariant 0 <= i <= a.Length
      invariant a[..i] == SortByKey(input[..i], key, sortOrder)
      invariant a[i..] == input[i..]
    {
      SortByKeyStep(input, i, key, sortOrder);
      ghost var tail := a[i + 1..];
      assert a[i] == input[i] && tail == input[i + 1..];
      InsertAt(a, i, key, sortOrder);
      i := i + 1;
    }
    assert input[..a.Length] == input;
  }
}
