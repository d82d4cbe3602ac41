/** Sorting integer sequences, and the uniqueness of strictly ascending ones. */
module SortedInts {

  predicate StrictlyAscending(s: seq<nat>) {
    forall i, j :: 0 <= i < j < |s| ==> s[i] < s[j]
  }

  predicate Distinct(s: seq<nat>) {
    forall i, j :: 0 <= i < j < |s| ==> s[i] != s[j]
  }

  function Members(s: seq<nat>): set<nat> {
    set x | x in s
  }

  function InsertSorted(x: nat, s: seq<nat>): seq<nat> {
    if s == [] then [x]
    else if x < s[|s| - 1] then InsertSorted(x, s[..|s| - 1]) + [s[|s| - 1]]
    else s + [x]
  }

  function Sort(s: seq<nat>): seq<nat> {
    if s == [] then [] else InsertSorted(s[|s| - 1], Sort(s[..|s| - 1]))
  }

  lemma NoMembers(s: seq<nat>)
    ensures Members(s) == {} <==> s == []
  {
    assert s != [] ==> s[0] in Members(s);
  }

  lemma MembersOfAppend(s: seq<nat>, x: nat)
    ensures Members(s + [x]) == Members(s) + {x}
  {
    assert forall y :: y in s + [x] <==> y in s || y == x;
  }

  lemma MembersOfInit(s: seq<nat>)
    requires s != []
    ensures Members(s) == Members(s[..|s| - 1]) + {s[|s| - 1]}
  {
    MembersOfAppend(s[..|s| - 1], s[|s| - 1]);
    assert s[..|s| - 1] + [s[|s| - 1]] == s;
  }

  lemma {:induction false} InsertKeepsOrder(x: nat, s: seq<nat>)
    requires StrictlyAscending(s) && x !in s
    ensures StrictlyAscending(InsertSorted(x, s))
    ensures Members(InsertSorted(x, s)) == Members(s) + {x}
  {
    if s != [] {
      var init, last := s[..|s| - 1], s[|s| - 1];
      MembersOfInit(s);
      if x < last {
        InsertKeepsOrder(x, init);
        var r := InsertSorted(x, init);
        MembersOfAppend(r, last);
        forall i | 0 <= i < |r|
          ensures r[i] < last
        {
          assert r[i] in Members(r);
        }
      } else {
        MembersOfAppend(s, x);
        assert last in s;
      }
    }
  }

  lemma {:induction false} SortOfDistinct(s: seq<nat>)
    requires Distinct(s)
    ensures StrictlyAscending(Sort(s))
    ensures Members(Sort(s)) == Members(s)
  {
    if s != [] {
      SortOfDistinct(s[..|s| - 1]);
      MembersOfInit(s);
      assert s[|s| - 1] !in Members(s[..|s| - 1]);
      InsertKeepsOrder(s[|s| - 1], Sort(s[..|s| - 1]));
    }
  }

  /** A strictly ascending sequence is determined by its members. */
  lemma {:induction false} AscendingUnique(a: seq<nat>, b: seq<nat>)
    requires StrictlyAscending(a) && StrictlyAscending(b)
    requires Members(a) == Members(b)
    ensures a == b
  {
    NoMembers(a);
    NoMembers(b);
    if a != [] {
      var x, y := a[|a| - 1], b[|b| - 1];
      assert x in Members(b) && y in Members(a);
      MembersOfInit(a);
      MembersOfInit(b);
      assert x !in a[..|a| - 1] && y !in b[..|b| - 1];
      AscendingUnique(a[..|a| - 1], b[..|b| - 1]);
      assert a == a[..|a| - 1] + [x] && b == b[..|b| - 1] + [y];
    }
  }

  // ----- Ordered sets -----

  /** Insertion into a set kept as a strictly ascending sequence. */
  function Add(x: nat, s: seq<nat>): seq<nat> {
    if s == [] then [x]
    else
      var init, last := s[..|s| - 1], s[|s| - 1];
      if x < last then Add(x, init) + [last]
      else if x == last then s
      else s + [x]
  }

  function AddAll(s: seq<nat>, xs: seq<nat>): seq<nat> {
    if xs == [] then s else Add(xs[|xs| - 1], AddAll(s, xs[..|xs| - 1]))
  }

  /** Sorting followed by removal of repeats. */
  function SortDedup(xs: seq<nat>): seq<nat> {
    AddAll([], xs)
  }

  lemma InitBelowLast(s: seq<nat>)
    requires StrictlyAscending(s) && s != []
    ensures
      var init, last := s[..|s| - 1], s[|s| - 1];
      StrictlyAscending(init) && forall y :: y in Members(init) ==> y < last
  {
  }

  lemma {:induction false} AddKeepsOrder(x: nat, s: seq<nat>)
    requires StrictlyAscending(s)
    ensures StrictlyAscending(Add(x, s))
    ensures Members(Add(x, s)) == Members(s) + {x}
  {
    if s == [] {
      MembersOfAppend([], x);
    } else {
      hide Members, StrictlyAscending;
      var init, last := s[..|s| - 1], s[|s| - 1];
      MembersOfInit(s);
      InitBelowLast(s);
      if x < last {
        AddKeepsOrder(x, init);
        MembersOfAppend(Add(x, init), last);
        AppendKeepsOrder(Add(x, init), last);
      } else if x > last {
        MembersOfAppend(s, x);
        AppendKeepsOrder(s, x);
      }
    }
  }

  lemma AppendKeepsOrder(s: seq<nat>, x: nat)
    requires StrictlyAscending(s)
    requires forall y :: y in Members(s) ==> y < x
    ensures StrictlyAscending(s + [x])
  {
    assert forall i :: 0 <= i < |s| ==> s[i] in Members(s);
  }

  lemma {:induction false} AddAllKeepsOrder(s: seq<nat>, xs: seq<nat>)
    requires StrictlyAscending(s)
    ensures StrictlyAscending(AddAll(s, xs))
    ensures Members(AddAll(s, xs)) == Members(s) + Members(xs)
  {
    if xs == [] {
      NoMembers(xs);
    } else {
      var init, x := xs[..|xs| - 1], xs[|xs| - 1];
      AddAllKeepsOrder(s, init);
      MembersOfInit(xs);
      AddKeepsOrder(x, AddAll(s, init));
    }
  }

  lemma SortDedupMembers(xs: seq<nat>)
    ensures StrictlyAscending(SortDedup(xs)) && Members(SortDedup(xs)) == Members(xs)
  {
    AddAllKeepsOrder([], xs);
    NoMembers([]);
  }

  lemma {:induction false} AscendingCardinality(s: seq<nat>)
    requires StrictlyAscending(s)
    ensures |Members(s)| == |s|
  {
    if s == [] {
      NoMembers(s);
    } else {
      AscendingCardinality(s[..|s| - 1]);
      MembersOfInit(s);
      assert s[|s| - 1] !in s[..|s| - 1];
    }
  }

  lemma ConsKeepsOrder(x: nat, s: seq<nat>)
    requires StrictlyAscending(s)
    requires forall y :: y in Members(s) ==> x < y
    ensures StrictlyAscending([x] + s)
  {
    assert forall i :: 0 <= i < |s| ==> s[i] in Members(s);
  }

  lemma MembersOfTail(s: seq<nat>, k: nat)
    requires k <= |s|
    ensures Members(s) == Members(s[..k]) + Members(s[k..])
    ensures StrictlyAscending(s) ==> StrictlyAscending(s[k..])
  {
    assert s == s[..k] + s[k..];
  }
}
