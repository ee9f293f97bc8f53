/** Ordering of the fetched list: `fetchNames` sorts the response in place,
    comparing first names with the locale's collation, and the array sort
    of JavaScript is stable.

    The locale's collation is kept abstract: `le(a, b)` stands for
    `a.localeCompare(b) <= 0` and is only assumed to be a total preorder. */
module Ordering {
  import opened Records

  /** Total and transitive, hence also reflexive; distinct strings may tie. */
  ghost predicate TotalPreorder(le: (string, string) -> bool) {
    && (forall x, y :: le(x, y) || le(y, x))
    && (forall x, y, z :: le(x, y) && le(y, z) ==> le(x, z))
  }

  /** Every record precedes every later one by first name. */
  ghost predicate Sorted(le: (string, string) -> bool, s: seq<Name>) {
    forall i, j :: 0 <= i < j < |s| ==> le(s[i].firstName, s[j].firstName)
  }

  /** The two strings compare equal under `le`. */
  predicate Tied(le: (string, string) -> bool, a: string, b: string) {
    le(a, b) && le(b, a)
  }

  /** The records of `s` whose first name ties with `key`, in their order in `s`. */
  function Ties(le: (string, string) -> bool, s: seq<Name>, key: string): seq<Name> {
    if s == [] then []
    else Ties(le, s[..|s| - 1], key) + (if Tied(le, s[|s| - 1].firstName, key) then [s[|s| - 1]] else [])
  }

  /** One step of insertion sort: `x` moves left past every trailing record
      that does not precede it, and stops behind the first one that does. */
  function InsertLast(le: (string, string) -> bool, s: seq<Name>, x: Name): (r: seq<Name>)
    ensures |r| == |s| + 1
  {
    if s == [] then [x]
    else if le(s[|s| - 1].firstName, x.firstName) then s + [x]
    else InsertLast(le, s[..|s| - 1], x) + [s[|s| - 1]]
  }

  /** The list the sort in `fetchNames` leaves: a stable sort by first name. */
  function StableSort(le: (string, string) -> bool, s: seq<Name>): (r: seq<Name>)
    ensures |r| == |s|
  {
    if s == [] then []
    else InsertLast(le, StableSort(le, s[..|s| - 1]), s[|s| - 1])
  }

  lemma {:induction false} InsertLastPermutes(le: (string, string) -> bool, s: seq<Name>, x: Name)
    ensures multiset(InsertLast(le, s, x)) == multiset(s) + multiset{x}
  {
    if s != [] && !le(s[|s| - 1].firstName, x.firstName) {
      assert s == s[..|s| - 1] + [s[|s| - 1]];
      InsertLastPermutes(le, s[..|s| - 1], x);
    }
  }

  /** Sorting only reorders the response. */
  lemma {:induction false} StableSortPermutes(le: (string, string) -> bool, s: seq<Name>)
    ensures multiset(StableSort(le, s)) == multiset(s)
  {
    if s != [] {
      assert s == s[..|s| - 1] + [s[|s| - 1]];
      StableSortPermutes(le, s[..|s| - 1]);
      InsertLastPermutes(le, StableSort(le, s[..|s| - 1]), s[|s| - 1]);
    }
  }

  lemma {:induction false} InsertLastSorted(le: (string, string) -> bool, s: seq<Name>, x: Name)
    requires TotalPreorder(le)
    requires Sorted(le, s)
    ensures Sorted(le, InsertLast(le, s, x))
  {
    if s == [] {
    } else if le(s[|s| - 1].firstName, x.firstName) {
      var r := s + [x];
      forall i, j | 0 <= i < j < |r|
        ensures le(r[i].firstName, r[j].firstName)
      {
        if j == |s| && i < |s| - 1 {
          assert le(s[i].firstName, s[|s| - 1].firstName);
        }
      }
    } else {
      var init, last := s[..|s| - 1], s[|s| - 1];
      assert Sorted(le, init);
      InsertLastSorted(le, init, x);
      var r' := InsertLast(le, init, x);
      InsertLastPermutes(le, init, x);
      assert le(x.firstName, last.firstName);
      forall e | e in r'
        ensures le(e.firstName, last.firstName)
      {
        assert e in multiset(r');
        if e != x {
          assert e in multiset(init);
          var k :| 0 <= k < |init| && init[k] == e;
          assert s[k] == e;
        }
      }
      var r := r' + [last];
      forall i, j | 0 <= i < j < |r|
        ensures le(r[i].firstName, r[j].firstName)
      {
        if j == |r'| {
          assert r[i] in r';
        }
      }
    }
  }

  /** Sorting orders the list by first name. */
  lemma {:induction false} StableSortSorted(le: (string, string) -> bool, s: seq<Name>)
    requires TotalPreorder(le)
    ensures Sorted(le, StableSort(le, s))
  {
    if s != [] {
      StableSortSorted(le, s[..|s| - 1]);
      InsertLastSorted(le, StableSort(le, s[..|s| - 1]), s[|s| - 1]);
    }
  }

  lemma TiesSnoc(le: (string, string) -> bool, s: seq<Name>, x: Name, key: string)
    ensures Ties(le, s + [x], key) == Ties(le, s, key) + Ties(le, [x], key)
  {
    assert (s + [x])[..|s|] == s;
  }

  lemma {:induction false} InsertLastTies(le: (string, string) -> bool, s: seq<Name>, x: Name, key: string)
    requires TotalPreorder(le)
    ensures Ties(le, InsertLast(le, s, x), key) == Ties(le, s + [x], key)
  {
    if s != [] && !le(s[|s| - 1].firstName, x.firstName) {
      var init, last := s[..|s| - 1], s[|s| - 1];
      assert s == init + [last];
      InsertLastTies(le, init, x, key);
      TiesSnoc(le, InsertLast(le, init, x), last, key);
      TiesSnoc(le, init, x, key);
      TiesSnoc(le, init, last, key);
      TiesSnoc(le, s, x, key);
      // `last` and `x` cannot both tie with `key`: that would put `last` before `x`.
      assert Ties(le, [x], key) == [] || Ties(le, [last], key) == [];
    }
  }

  /** Stability: records whose first names compare equal keep their order. */
  lemma {:induction false} StableSortKeepsTies(le: (string, string) -> bool, s: seq<Name>, key: string)
    requires TotalPreorder(le)
    ensures Ties(le, StableSort(le, s), key) == Ties(le, s, key)
  {
    if s != [] {
      var init, x := s[..|s| - 1], s[|s| - 1];
      assert s == init + [x];
      StableSortKeepsTies(le, init, key);
      InsertLastTies(le, StableSort(le, init), x, key);
      TiesSnoc(le, StableSort(le, init), x, key);
      TiesSnoc(le, init, x, key);
    }
  }

  /** The last records of two sorted permutations of each other tie. */
  lemma LastRecordsTie(le: (string, string) -> bool, r: seq<Name>, t: seq<Name>)
    requires TotalPreorder(le)
    requires Sorted(le, r) && Sorted(le, t)
    requires multiset(r) == multiset(t)
    requires r != [] && t != []
    ensures Tied(le, r[|r| - 1].firstName, t[|t| - 1].firstName)
  {
    var a, b := r[|r| - 1], t[|t| - 1];
    assert a in multiset(t) && b in multiset(r);
    var i :| 0 <= i < |t| && t[i] == a;
    var j :| 0 <= j < |r| && r[j] == b;
    assert le(a.firstName, a.firstName);
    assert le(b.firstName, b.firstName);
  }

  /** Removing the same last record from two lists keeps their ties equal. */
  lemma TiesOfInit(le: (string, string) -> bool, r: seq<Name>, t: seq<Name>, key: string)
    requires r != [] && t != [] && r[|r| - 1] == t[|t| - 1]
    requires Ties(le, r, key) == Ties(le, t, key)
    ensures Ties(le, r[..|r| - 1], key) == Ties(le, t[..|t| - 1], key)
  {
    var tail := if Tied(le, r[|r| - 1].firstName, key) then [r[|r| - 1]] else [];
    var x, y := Ties(le, r[..|r| - 1], key), Ties(le, t[..|t| - 1], key);
    assert Ties(le, r, key) == x + tail;
    assert Ties(le, t, key) == y + tail;
    assert x == (x + tail)[..|x|];
    assert y == (y + tail)[..|y|];
  }

  /** If the last records of two lists tie, and the lists agree on the
      records tying with the first one's name, the last records are equal. */
  lemma SameLastRecord(le: (string, string) -> bool, r: seq<Name>, t: seq<Name>)
    requires r != [] && t != []
    requires Tied(le, r[|r| - 1].firstName, r[|r| - 1].firstName)
    requires Tied(le, r[|r| - 1].firstName, t[|t| - 1].firstName)
    requires Ties(le, r, r[|r| - 1].firstName) == Ties(le, t, r[|r| - 1].firstName)
    ensures r[|r| - 1] == t[|t| - 1]
  {
    var a, b := r[|r| - 1], t[|t| - 1];
    var key := a.firstName;
    var rs, ts := Ties(le, r, key), Ties(le, t, key);
    assert rs == Ties(le, r[..|r| - 1], key) + [a];
    assert ts == Ties(le, t[..|t| - 1], key) + [b];
  }

  lemma MultisetOfInit(r: seq<Name>, t: seq<Name>)
    requires r != [] && t != [] && r[|r| - 1] == t[|t| - 1]
    requires multiset(r) == multiset(t)
    ensures multiset(r[..|r| - 1]) == multiset(t[..|t| - 1])
  {
    var r', t', a := r[..|r| - 1], t[..|t| - 1], r[|r| - 1];
    assert r == r' + [a];
    assert t == t' + [a];
    assert multiset(r) == multiset(r') + multiset{a};
    assert multiset(t) == multiset(t') + multiset{a};
    forall n
      ensures multiset(r')[n] == multiset(t')[n]
    {
      assert multiset(r)[n] == multiset(t)[n];
    }
  }

  /** A sorted, tie-stable permutation is unique, so `StableSort` is the
      result of any stable sort by `le`, whatever algorithm the engine runs. */
  lemma {:induction false} StableSortUnique(le: (string, string) -> bool, r: seq<Name>, t: seq<Name>)
    requires TotalPreorder(le)
    requires Sorted(le, r) && Sorted(le, t)
    requires multiset(r) == multiset(t)
    requires forall key :: Ties(le, r, key) == Ties(le, t, key)
    ensures r == t
    decreases |r|
  {
    assert |r| == |multiset(r)| == |multiset(t)| == |t|;
    if r != [] {
      var r', t' := r[..|r| - 1], t[..|t| - 1];
      LastRecordsTie(le, r, t);
      assert le(r[|r| - 1].firstName, r[|r| - 1].firstName);
      SameLastRecord(le, r, t);
      MultisetOfInit(r, t);
      forall key
        ensures Ties(le, r', key) == Ties(le, t', key)
      {
        TiesOfInit(le, r, t, key);
      }
      StableSortUnique(le, r', t');
      assert r == r' + [r[|r| - 1]] && t == t' + [t[|t| - 1]];
    }
  }

  /** Whatever stable sort the engine runs, the sorted response is exactly
      `StableSort(le, data)`: it is the one sorted, stable permutation. */
  lemma StableSortIsTheStableSort(le: (string, string) -> bool, s: seq<Name>, r: seq<Name>)
    requires TotalPreorder(le)
    requires Sorted(le, r)
    requires multiset(r) == multiset(s)
    requires forall key :: Ties(le, r, key) == Ties(le, s, key)
    ensures r == StableSort(le, s)
  {
    StableSortSorted(le, s);
    StableSortPermutes(le, s);
    forall key
      ensures Ties(le, r, key) == Ties(le, StableSort(le, s), key)
    {
      StableSortKeepsTies(le, s, key);
    }
    StableSortUnique(le, r, StableSort(le, s));
  }

  /** Where insertion lands: behind the last record that does not compare
      greater than `x`, with every record after that point shifted right. */
  lemma {:induction false} InsertLastAt(le: (string, string) -> bool, s: seq<Name>, j: nat, x: Name)
    requires j <= |s|
    requires j > 0 ==> le(s[j - 1].firstName, x.firstName)
    requires forall k :: j <= k < |s| ==> !le(s[k].firstName, x.firstName)
    ensures InsertLast(le, s, x) == s[..j] + [x] + s[j..]
    decreases |s|
  {
    if j < |s| {
      var init := s[..|s| - 1];
      assert init[..j] == s[..j];
      InsertLastAt(le, init, j, x);
      assert s[j..] == init[j..] + [s[|s| - 1]];
    }
  }

  /** One pass of the sort: the record at index `i` moves left past the
      records before it that compare greater, each of which shifts one right. */
  method InsertInPlace(le: (string, string) -> bool, a: array<Name>, i: nat)
    requires i < a.Length
    modifies a
    ensures a[..i + 1] == InsertLast(le, old(a[..i]), old(a[i]))
    ensures forall k :: i < k < a.Length ==> a[k] == old(a[k])
  {
    ghost var done := a[..i];
    var x := a[i];
    var j := i;
    while j > 0 && !le(a[j - 1].firstName, x.firstName)
      invariant 0 <= j <= i
      invariant forall k :: 0 <= k < j ==> a[k] == done[k]
      invariant forall k :: j < k <= i ==> a[k] == done[k - 1]
      invariant forall k :: i < k < a.Length ==> a[k] == old(a[k])
      invariant forall k :: j <= k < i ==> !le(done[k].firstName, x.firstName)
    {
      a[j] := a[j - 1];
      j := j - 1;
    }
    InsertLastAt(le, done, j, x);
    a[j] := x;
    ShiftedInsertion(a, done, x, i, j);
  }

  /** After the shifts and the final write, the first `i + 1` cells hold the
      records before the gap, the inserted one, then the shifted ones. */
  lemma ShiftedInsertion(a: array<Name>, done: seq<Name>, x: Name, i: nat, j: nat)
    requires j <= i < a.Length && |done| == i
    requires forall k :: 0 <= k < j ==> a[k] == done[k]
    requires a[j] == x
    requires forall k :: j < k <= i ==> a[k] == done[k - 1]
    ensures a[..i + 1] == done[..j] + [x] + done[j..]
  {
    var r := done[..j] + [x] + done[j..];
    forall k | 0 <= k <= i
      ensures a[k] == r[k]
    {
      if k > j {
        assert r[k] == done[k - 1];
      }
    }
  }

  /** The in-place sort of the fetched array in `fetchNames`, as an
      insertion sort over the array. */
  method SortInPlace(le: (string, string) -> bool, a: array<Name>)
    modifies a
    ensures a[..] == StableSort(le, old(a[..]))
  {
    ghost var s0 := a[..];
    var i := 0;
    while i < a.Length
      invariant 0 <= i <= a.Length
      invariant a[..i] == StableSort(le, s0[..i])
      invariant forall k :: i <= k < a.Length ==> a[k] == s0[k]
    {
      ghost var sorted := a[..i];
      InsertInPlace(le, a, i);
      assert s0[..i + 1][..i] == s0[..i];
      assert StableSort(le, s0[..i + 1]) == InsertLast(le, sorted, s0[i]);
      i := i + 1;
    }
    assert s0[..a.Length] == s0;
  }
}
