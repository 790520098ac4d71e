/**
  URLSearchParams as the query code uses it: an ordered list of name/value
  pairs, `get` (the first value of a name, or null) and `set` (overwrite the
  first pair of a name and drop the others, or append).
 */
module SearchParams {
  import opened Optional

  type Pair = (string, string)

  /** `params.get(name)`: the value of the first pair with that name; None (null) when there is none. */
  function Get(list: seq<Pair>, name: string): Option<string>
  {
    if list == [] then None
    else if list[0].0 == name then Some(list[0].1)
    else Get(list[1..], name)
  }

  /** `get` finds nothing exactly when no pair has the name. */
  lemma {:induction false} GetAbsent(list: seq<Pair>, name: string)
    ensures Get(list, name).None? <==> forall i :: 0 <= i < |list| ==> list[i].0 != name
  {
    if list != [] && list[0].0 != name {
      var rest := list[1..];
      GetAbsent(rest, name);
      assert forall i :: 0 < i < |list| ==> list[i] == rest[i - 1];
    }
  }

  /** `get` answers the value of the first pair that has the name. */
  lemma {:induction false} GetFirst(list: seq<Pair>, name: string, i: nat)
    requires i < |list| && list[i].0 == name
    requires forall j :: 0 <= j < i ==> list[j].0 != name
    ensures Get(list, name) == Some(list[i].1)
  {
    if i > 0 {
      var rest := list[1..];
      assert list[0].0 != name;
      assert rest[i - 1] == list[i];
      assert forall j :: 0 <= j < i - 1 ==> rest[j] == list[j + 1];
      GetFirst(rest, name, i - 1);
    }
  }

  /** `get` on one or two pairs. */
  lemma GetShort(a: string, v: string, b: string, w: string, name: string)
    ensures Get([], name) == None
    ensures Get([(a, v)], name) == if a == name then Some(v) else None
    ensures Get([(a, v), (b, w)], name) == if a == name then Some(v) else if b == name then Some(w) else None
  {
    var one, two := [(b, w)], [(a, v), (b, w)];
    assert [(a, v)][1..] == [] && one[1..] == [];
    assert two[0] == (a, v) && two[1..] == one;
    assert Get(one, name) == if b == name then Some(w) else None;
    assert Get(two, name) == if a == name then Some(v) else Get(one, name);
  }

  /** A name is found in a concatenation in its first part, or else in its second. */
  lemma {:induction false} GetAppend(a: seq<Pair>, b: seq<Pair>, name: string)
    ensures Get(a + b, name) == if Get(a, name).Some? then Get(a, name) else Get(b, name)
  {
    if a != [] {
      assert (a + b)[1..] == a[1..] + b;
      GetAppend(a[1..], b, name);
    } else {
      assert a + b == b;
    }
  }

  /** The list without the pairs of one name. */
  function Without(list: seq<Pair>, name: string): (r: seq<Pair>)
    ensures forall i :: 0 <= i < |r| ==> r[i].0 != name
    ensures forall n :: n != name ==> Get(r, n) == Get(list, n)
  {
    if list == [] then []
    else if list[0].0 == name then Without(list[1..], name)
    else [list[0]] + Without(list[1..], name)
  }

  /** `params.set(name, value)` on the list of pairs. */
  function SetValue(list: seq<Pair>, name: string, value: string): seq<Pair>
  {
    if list == [] then [(name, value)]
    else if list[0].0 == name then [(name, value)] + Without(list[1..], name)
    else [list[0]] + SetValue(list[1..], name, value)
  }

  /** After `set`, the name has the new value. */
  lemma {:induction false} SetValueGet(list: seq<Pair>, name: string, value: string)
    ensures Get(SetValue(list, name, value), name) == Some(value)
  {
    if list != [] && list[0].0 != name {
      SetValueGet(list[1..], name, value);
      assert SetValue(list, name, value)[1..] == SetValue(list[1..], name, value);
    }
  }

  /** `set` leaves the value of every other name as it was. */
  lemma {:induction false} SetValueOthers(list: seq<Pair>, name: string, value: string, n: string)
    requires n != name
    ensures Get(SetValue(list, name, value), n) == Get(list, n)
  {
    var r := SetValue(list, name, value);
    if list == [] {
    } else if list[0].0 == name {
      assert r[1..] == Without(list[1..], name);
    } else {
      assert r[1..] == SetValue(list[1..], name, value);
      if list[0].0 != n {
        SetValueOthers(list[1..], name, value, n);
      }
    }
  }

  /** No two pairs of the list carry the name. */
  predicate AtMostOnce(list: seq<Pair>, name: string)
  {
    forall i, j :: 0 <= i < j < |list| && list[i].0 == name ==> list[j].0 != name
  }

  /** After `set`, the name occurs in at most one pair (in exactly one, together with SetValueGet). */
  lemma {:induction false} SetValueOnce(list: seq<Pair>, name: string, value: string)
    ensures AtMostOnce(SetValue(list, name, value), name)
  {
    var r := SetValue(list, name, value);
    if list != [] && list[0].0 != name {
      var rest := SetValue(list[1..], name, value);
      SetValueOnce(list[1..], name, value);
      assert r == [list[0]] + rest;
      forall i, j | 0 <= i < j < |r| && r[i].0 == name
        ensures r[j].0 != name
      {
        assert i > 0 && r[i] == rest[i - 1] && r[j] == rest[j - 1];
        assert 0 <= i - 1 < j - 1 < |rest| && rest[i - 1].0 == name;
        assert AtMostOnce(rest, name);
      }
    }
  }

  /** `set` of a name that is absent appends the pair at the end. */
  lemma {:induction false} SetValueAppends(list: seq<Pair>, name: string, value: string)
    requires Get(list, name).None?
    ensures SetValue(list, name, value) == list + [(name, value)]
  {
    if list != [] {
      assert Get(list[1..], name).None?;
      SetValueAppends(list[1..], name, value);
      assert list == [list[0]] + list[1..];
    }
  }

  /** A URLSearchParams object, whose list of pairs its methods update in place. */
  class URLSearchParams {
    var list: seq<Pair>

    /** `new URLSearchParams()`: no pairs. */
    constructor ()
      ensures list == []
    {
      list := [];
    }

    /** `set(name, value)`; SetValueGet, SetValueOthers, SetValueOnce and SetValueAppends say what it does. */
    method Set(name: string, value: string)
      modifies this
      ensures list == SetValue(old(list), name, value)
    {
      list := SetValue(list, name, value);
    }
  }
}
