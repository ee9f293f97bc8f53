/** The page's view of the list: `groupedNames`, the records filed under the
    upper-cased first character of their first name, and `sortedLetters`,
    the headings in the order they are rendered. */
module Grouping {
  import opened Records
  import Ordering

  /** `toUpperCase` of one character, for the ASCII letters. */
  function UpperAscii(c: char): char {
    if 'a' <= c <= 'z' then (c as int - 32) as char else c
  }

  /** The first name has a first character: on an empty one the page throws. */
  predicate Named(n: Name) {
    |n.firstName| > 0
  }

  predicate AllNamed(s: seq<Name>) {
    forall n | n in s :: Named(n)
  }

  /** The upper-cased first character: the key of the group a record joins. */
  function Letter(n: Name): (r: char)
    requires Named(n)
    ensures !('a' <= r <= 'z')
    ensures ('A' <= r <= 'Z') <==> ('A' <= n.firstName[0] <= 'Z' || 'a' <= n.firstName[0] <= 'z')
    ensures !('a' <= n.firstName[0] <= 'z') ==> r == n.firstName[0]
    ensures 'a' <= n.firstName[0] <= 'z' ==> r == Alphabet[n.firstName[0] as int - 'a' as int]
  {
    UpperAscii(n.firstName[0])
  }

  /** The headings of the alphabet bar, and the upper-case counterparts of
      `a` to `z` in order. */
  const Alphabet: string := "ABCDEFGHIJKLMNOPQRSTUVWXYZ"

  /** Names whose first characters differ only in ASCII case share a group:
      "bob" and "Bob" are both filed under `B`. */
  lemma LetterIgnoresCase(m: Name, n: Name)
    requires Named(m) && Named(n)
    requires 'a' <= m.firstName[0] <= 'z'
    requires n.firstName[0] == Alphabet[m.firstName[0] as int - 'a' as int]
    ensures Letter(m) == Letter(n) == n.firstName[0]
  {
  }

  /** The letters some record of `s` is filed under. */
  ghost function Letters(s: seq<Name>): set<char>
    requires AllNamed(s)
  {
    set n | n in s :: Letter(n)
  }

  /** The records of `s` filed under `letter`, in their order in `s`. */
  function Bucket(s: seq<Name>, letter: char): (b: seq<Name>)
    requires AllNamed(s)
    ensures forall n | n in b :: n in s && Letter(n) == letter
  {
    if s == [] then []
    else
      var last := s[|s| - 1];
      Bucket(s[..|s| - 1], letter) + if Letter(last) == letter then [last] else []
  }

  /** The dictionary the `reduce` builds: one step adds the record to the
      end of its letter's list, creating the list first if it is missing. */
  function Group(s: seq<Name>): (groups: map<char, seq<Name>>)
    requires AllNamed(s)
  {
    if s == [] then map[]
    else
      var groups := Group(s[..|s| - 1]);
      var last := s[|s| - 1];
      var letter := Letter(last);
      groups[letter := (if letter in groups then groups[letter] else []) + [last]]
  }

  /** The `reduce` at the heart of the render: a dictionary filled in place,
      record by record. */
  method GroupNames(names: seq<Name>) returns (groups: map<char, seq<Name>>)
    requires AllNamed(names)
    ensures groups == Group(names)
  {
    groups := map[];
    for i := 0 to |names|
      invariant groups == Group(names[..i])
    {
      var letter := Letter(names[i]);
      if letter !in groups {
        groups := groups[letter := []];
      }
      groups := groups[letter := groups[letter] + [names[i]]];
      assert names[..i + 1][..i] == names[..i];
    }
    assert names[..|names|] == names;
  }

  /** Each record sits in its letter's bucket as often as it occurs in `s`,
      and in no other bucket. */
  lemma {:induction false} BucketCounts(s: seq<Name>, letter: char)
    requires AllNamed(s)
    ensures forall n :: multiset(Bucket(s, letter))[n] ==
                          if n in s && Letter(n) == letter then multiset(s)[n] else 0
  {
    if s != [] {
      var init, last := s[..|s| - 1], s[|s| - 1];
      assert s == init + [last];
      BucketCounts(init, letter);
    }
  }

  /** A bucket is empty exactly when no record of `s` is filed under its letter. */
  lemma BucketEmptyIff(s: seq<Name>, letter: char)
    requires AllNamed(s)
    ensures Bucket(s, letter) == [] <==> letter !in Letters(s)
  {
    BucketCounts(s, letter);
    if letter in Letters(s) {
      var n :| n in s && Letter(n) == letter;
      assert multiset(Bucket(s, letter))[n] > 0;
    }
  }

  /** The dictionary is a partition of `s`: its keys are the letters of the
      records, and under each key stand exactly the records with that letter,
      in their order in `s`. */
  lemma {:induction false} GroupIsPartition(s: seq<Name>)
    requires AllNamed(s)
    ensures Group(s).Keys == Letters(s)
    ensures forall letter | letter in Group(s) :: Group(s)[letter] == Bucket(s, letter)
  {
    if s != [] {
      var init, last := s[..|s| - 1], s[|s| - 1];
      assert s == init + [last];
      GroupIsPartition(init);
      BucketEmptyIff(init, Letter(last));
      assert Letters(s) == Letters(init) + {Letter(last)};
    }
  }

  /** Bucketing keeps the relative order of records: the bucket is `s` read
      at strictly increasing positions. */
  lemma {:induction false} BucketPositions(s: seq<Name>, letter: char) returns (pos: seq<nat>)
    requires AllNamed(s)
    ensures |pos| == |Bucket(s, letter)|
    ensures forall j :: 0 <= j < |pos| ==> pos[j] < |s| && Bucket(s, letter)[j] == s[pos[j]]
    ensures forall i, j :: 0 <= i < j < |pos| ==> pos[i] < pos[j]
  {
    if s == [] {
      pos := [];
    } else {
      var init, last := s[..|s| - 1], s[|s| - 1];
      pos := BucketPositions(init, letter);
      assert s == init + [last];
      BucketSnoc(init, last, letter);
      assert forall j :: 0 <= j < |pos| ==> s[pos[j]] == init[pos[j]];
      if Letter(last) == letter {
        pos := pos + [|s| - 1];
      }
    }
  }

  /** The list the page holds is sorted, so every group it renders is sorted too. */
  lemma GroupsOfSortedAreSorted(le: (string, string) -> bool, s: seq<Name>)
    requires AllNamed(s)
    requires Ordering.Sorted(le, s)
    ensures forall letter | letter in Group(s) :: Ordering.Sorted(le, Group(s)[letter])
  {
    GroupIsPartition(s);
    forall letter | letter in Group(s)
      ensures Ordering.Sorted(le, Group(s)[letter])
    {
      var pos := BucketPositions(s, letter);
    }
  }

  /** A finite non-empty set of characters has a least element. */
  lemma {:induction false} HasLeast(keys: set<char>)
    requires keys != {}
    ensures exists m :: m in keys && forall c | c in keys :: m <= c
    decreases keys
  {
    var c :| c in keys;
    if keys != {c} {
      HasLeast(keys - {c});
      var m' :| m' in keys - {c} && forall d | d in keys - {c} :: m' <= d;
      var m := if c < m' then c else m';
      forall d | d in keys
        ensures m <= d
      {
        if d != c {
          assert d in keys - {c};
        }
      }
    }
  }

  /** `sortedLetters`: the dictionary's keys sorted, every key once, in ascending order. */
  function SortedLetters(keys: set<char>): (r: seq<char>)
    ensures forall c :: c in r <==> c in keys
    ensures forall i, j :: 0 <= i < j < |r| ==> r[i] < r[j]
    decreases keys
  {
    if keys == {} then []
    else
      HasLeast(keys);
      var m :| m in keys && forall c | c in keys :: m <= c;
      [m] + SortedLetters(keys - {m})
  }

  /** The records in the order the page renders them: group after group,
      in the order of `letters`. */
  function Concat(groups: map<char, seq<Name>>, letters: seq<char>): seq<Name>
    requires forall c | c in letters :: c in groups
  {
    if letters == [] then [] else groups[letters[0]] + Concat(groups, letters[1..])
  }

  /** What the page shows: each heading of `sortedLetters`, then its group. */
  function Displayed(s: seq<Name>): seq<Name>
    requires AllNamed(s)
  {
    var groups := Group(s);
    Concat(groups, SortedLetters(groups.Keys))
  }

  predicate Distinct(letters: seq<char>) {
    forall i, j :: 0 <= i < j < |letters| ==> letters[i] != letters[j]
  }

  lemma {:induction false} ConcatCounts(s: seq<Name>, letters: seq<char>)
    requires AllNamed(s)
    requires Distinct(letters)
    requires forall c | c in letters :: c in Group(s)
    ensures forall n :: multiset(Concat(Group(s), letters))[n] ==
                          if n in s && Letter(n) in letters then multiset(s)[n] else 0
  {
    if letters != [] {
      var c := letters[0];
      assert Distinct(letters[1..]) by {
        forall i, j | 0 <= i < j < |letters[1..]|
          ensures letters[1..][i] != letters[1..][j]
        {
          assert letters[1..][i] == letters[i + 1];
        }
      }
      ConcatCounts(s, letters[1..]);
      GroupIsPartition(s);
      BucketCounts(s, c);
      assert c !in letters[1..] by {
        forall j | 0 <= j < |letters[1..]|
          ensures letters[1..][j] != c
        {
          assert letters[1..][j] == letters[j + 1];
        }
      }
      forall n
        ensures multiset(Concat(Group(s), letters))[n] ==
                if n in s && Letter(n) in letters then multiset(s)[n] else 0
      {
        if n in s {
          assert Letter(n) in letters <==> Letter(n) == c || Letter(n) in letters[1..];
        }
      }
    }
  }

  /** Every letter of the list has a heading. */
  lemma HeadingsCoverList(s: seq<Name>)
    requires AllNamed(s)
    ensures forall n | n in s :: Letter(n) in SortedLetters(Group(s).Keys)
  {
    GroupIsPartition(s);
    forall n | n in s
      ensures Letter(n) in SortedLetters(Group(s).Keys)
    {
      assert Letter(n) in Letters(s);
    }
  }

  /** Every record is shown exactly as often as it is in the list: the group
      sizes add up to the length of the list. */
  lemma DisplayedIsPermutation(s: seq<Name>)
    requires AllNamed(s)
    ensures multiset(Displayed(s)) == multiset(s)
    ensures |Displayed(s)| == |s|
  {
    var letters := SortedLetters(Group(s).Keys);
    var shown := Concat(Group(s), letters);
    assert shown == Displayed(s);
    ConcatCounts(s, letters);
    HeadingsCoverList(s);
    forall n
      ensures multiset(shown)[n] == multiset(s)[n]
    {
      if n !in s {
        assert multiset(s)[n] == 0;
      }
    }
    assert multiset(shown) == multiset(s);
    assert |multiset(shown)| == |multiset(s)|;
  }

  lemma BucketSnoc(s: seq<Name>, x: Name, letter: char)
    requires AllNamed(s) && Named(x)
    ensures AllNamed(s + [x])
    ensures Bucket(s + [x], letter) == Bucket(s, letter) + if Letter(x) == letter then [x] else []
  {
    assert (s + [x])[..|s|] == s;
  }

  lemma {:induction false} BucketAppend(a: seq<Name>, b: seq<Name>, letter: char)
    requires AllNamed(a) && AllNamed(b)
    ensures AllNamed(a + b)
    ensures Bucket(a + b, letter) == Bucket(a, letter) + Bucket(b, letter)
  {
    if b == [] {
      assert a + b == a;
    } else {
      var init, last := b[..|b| - 1], b[|b| - 1];
      assert b == init + [last];
      BucketAppend(a, init, letter);
      BucketAppendStep(a, init, last, letter);
    }
  }

  /** One record more at the end of the second list. */
  lemma BucketAppendStep(a: seq<Name>, init: seq<Name>, last: Name, letter: char)
    requires AllNamed(a) && AllNamed(init) && Named(last) && AllNamed(a + init)
    requires Bucket(a + init, letter) == Bucket(a, letter) + Bucket(init, letter)
    ensures AllNamed(a + (init + [last]))
    ensures Bucket(a + (init + [last]), letter) == Bucket(a, letter) + Bucket(init + [last], letter)
  {
    AppendAssociates(a, init, [last]);
    BucketSnoc(a + init, last, letter);
    BucketSnoc(init, last, letter);
    AppendAssociates(Bucket(a, letter), Bucket(init, letter), if Letter(last) == letter then [last] else []);
  }

  lemma AppendAssociates(x: seq<Name>, y: seq<Name>, z: seq<Name>)
    ensures x + y + z == x + (y + z)
  {
  }

  /** A group holds only records of its own letter, so bucketing it again
      keeps it whole under that letter and gives nothing under any other. */
  lemma {:induction false} BucketOfGroup(b: seq<Name>, own: char, letter: char)
    requires AllNamed(b)
    requires forall n | n in b :: Letter(n) == own
    ensures Bucket(b, letter) == if own == letter then b else []
  {
    if b != [] {
      var init, last := b[..|b| - 1], b[|b| - 1];
      assert b == init + [last];
      BucketOfGroup(init, own, letter);
    }
  }

  lemma {:induction false} BucketOfConcat(s: seq<Name>, letters: seq<char>, letter: char)
    requires AllNamed(s)
    requires Distinct(letters)
    requires forall c | c in letters :: c in Group(s)
    ensures AllNamed(Concat(Group(s), letters))
    ensures Bucket(Concat(Group(s), letters), letter) ==
            if letter in letters then Group(s)[letter] else []
  {
    if letters != [] {
      var c, rest := letters[0], letters[1..];
      assert Distinct(rest) by {
        forall i, j | 0 <= i < j < |rest|
          ensures rest[i] != rest[j]
        {
          assert rest[i] == letters[i + 1];
        }
      }
      assert c !in rest by {
        forall j | 0 <= j < |rest|
          ensures rest[j] != c
        {
          assert rest[j] == letters[j + 1];
        }
      }
      GroupIsPartition(s);
      BucketOfConcat(s, rest, letter);
      BucketOfGroup(Group(s)[c], c, letter);
      BucketAppend(Group(s)[c], Concat(Group(s), rest), letter);
    }
  }

  /** Reordering a list keeps its letters. */
  lemma LettersOfPermutation(s: seq<Name>, t: seq<Name>)
    requires AllNamed(s)
    requires multiset(t) == multiset(s)
    ensures AllNamed(t) && Letters(t) == Letters(s)
  {
    forall n
      ensures n in t <==> n in s
    {
      assert n in t <==> n in multiset(t);
      assert n in s <==> n in multiset(s);
    }
  }

  /** Grouping what the page shows gives back the same groups: regrouping is
      idempotent. */
  lemma RegroupDisplayed(s: seq<Name>)
    requires AllNamed(s)
    ensures AllNamed(Displayed(s))
    ensures Group(Displayed(s)) == Group(s)
  {
    var letters := SortedLetters(Group(s).Keys);
    var t := Concat(Group(s), letters);
    assert t == Displayed(s);
    DisplayedIsPermutation(s);
    LettersOfPermutation(s, t);
    GroupIsPartition(s);
    GroupIsPartition(t);
    assert Group(t).Keys == Group(s).Keys;
    forall letter | letter in Group(t)
      ensures Group(t)[letter] == Group(s)[letter]
    {
      BucketOfConcat(s, letters, letter);
    }
  }
}
