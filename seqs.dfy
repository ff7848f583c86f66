/** `Array.prototype.filter` and what it keeps. */
module Seqs {
  import opened Types

  /** The elements of `s` that satisfy `f`, in their original order. */
  function Filter<T(!new)>(s: seq<T>, f: T -> bool): (r: seq<T>)
    ensures |r| <= |s|
    ensures forall x :: multiset(r)[x] == if f(x) then multiset(s)[x] else 0
    ensures forall x :: x in r <==> x in s && f(x)
  {
    if s == [] then []
    else
      var rest := Filter(s[1..], f);
      assert s == [s[0]] + s[1..];
      if f(s[0]) then [s[0]] + rest else rest
  }

  lemma {:induction false} FilterAll<T(!new)>(s: seq<T>, f: T -> bool)
    requires forall i :: 0 <= i < |s| ==> f(s[i])
    ensures Filter(s, f) == s
  {
    if s != [] {
      FilterAll(s[1..], f);
    }
  }

  lemma {:induction false} FilterNone<T(!new)>(s: seq<T>, f: T -> bool)
    requires forall i :: 0 <= i < |s| ==> !f(s[i])
    ensures Filter(s, f) == []
  {
    if s != [] {
      FilterNone(s[1..], f);
    }
  }

  /** Filtering a concatenation filters each part. */
  lemma {:induction false} FilterAppend<T(!new)>(s: seq<T>, t: seq<T>, f: T -> bool)
    ensures Filter(s + t, f) == Filter(s, f) + Filter(t, f)
  {
    if s == [] {
      assert [] + t == t;
    } else {
      var u := s + t;
      assert u[0] == s[0] && u[1..] == s[1..] + t;
      FilterHead(u, f);
      FilterHead(s, f);
      FilterAppend(s[1..], t, f);
      AppendAssoc(if f(s[0]) then [s[0]] else [], Filter(s[1..], f), Filter(t, f));
    }
  }

  /** `filter` looks at the first element, then at the rest. */
  lemma FilterHead<T(!new)>(s: seq<T>, f: T -> bool)
    requires s != []
    ensures Filter(s, f) == (if f(s[0]) then [s[0]] else []) + Filter(s[1..], f)
  {
  }

  lemma AppendAssoc<T>(a: seq<T>, b: seq<T>, c: seq<T>)
    ensures a + (b + c) == (a + b) + c
  {
  }

  /** Filtering never makes two people share an id. */
  lemma {:induction false} FilterKeepsUniqueIds(s: seq<Person>, f: Person -> bool)
    requires UniqueIds(s)
    ensures UniqueIds(Filter(s, f))
  {
    if s != [] {
      var rest := Filter(s[1..], f);
      assert UniqueIds(s[1..]) by {
        forall i, j | 0 <= i < j < |s[1..]| ensures s[1..][i].id != s[1..][j].id {
          assert s[1..][i] == s[i + 1] && s[1..][j] == s[j + 1];
        }
      }
      FilterKeepsUniqueIds(s[1..], f);
      if f(s[0]) {
        ConsUniqueIds(s[0], rest, s[1..]);
      }
    }
  }

  /** Putting a person in front of a list of people drawn from a list without its id. */
  lemma ConsUniqueIds(p: Person, rest: seq<Person>, from: seq<Person>)
    requires UniqueIds(rest)
    requires forall x :: x in rest ==> x in from
    requires forall k :: 0 <= k < |from| ==> from[k].id != p.id
    ensures UniqueIds([p] + rest)
  {
    var r := [p] + rest;
    forall i, j | 0 <= i < j < |r| ensures r[i].id != r[j].id {
      assert r[j] == rest[j - 1];
      if i == 0 {
        assert rest[j - 1] in from;
      } else {
        assert r[i] == rest[i - 1];
      }
    }
  }
}
