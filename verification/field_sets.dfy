// Member masks: sorting, compacting and joining lists of wire names, which is
// how a set of names becomes the key that decides which entries share a call.

module FieldSets {
  // Go compares strings character by character.
  predicate Less(a: string, b: string) {
    if b == "" then false
    else if a == "" then true
    else if a[0] != b[0] then a[0] < b[0]
    else Less(a[1..], b[1..])
  }

  lemma {:induction false} LessIsTotal(a: string, b: string)
    ensures a == b ==> !Less(a, b)
    ensures a != b ==> Less(a, b) != Less(b, a)
  {
    if a != "" && b != "" && a[0] == b[0] {
      LessIsTotal(a[1..], b[1..]);
      assert a == [a[0]] + a[1..] && b == [b[0]] + b[1..];
    }
  }

  lemma {:induction false} LessIsTransitive(a: string, b: string, c: string)
    requires Less(a, b) && Less(b, c)
    ensures Less(a, c)
  {
    if a != "" && a[0] == b[0] == c[0] {
      LessIsTransitive(a[1..], b[1..], c[1..]);
    }
  }

  function Elements(s: seq<string>): set<string> {
    set x | x in s
  }

  ghost predicate Ascending(s: seq<string>) {
    forall i, j :: 0 <= i < j < |s| ==> !Less(s[j], s[i])
  }

  ghost predicate StrictlyAscending(s: seq<string>) {
    forall i, j :: 0 <= i < j < |s| ==> Less(s[i], s[j])
  }

  function Insert(x: string, s: seq<string>): seq<string> {
    if s == [] then [x]
    else if Less(s[0], x) then [s[0]] + Insert(x, s[1..])
    else [x] + s
  }

  // slices.Sort and sort.Strings.
  function Sort(s: seq<string>): seq<string> {
    if s == [] then [] else Insert(s[0], Sort(s[1..]))
  }

  // slices.Compact: drop an element equal to its successor.
  function Compact(s: seq<string>): seq<string> {
    if |s| < 2 then s
    else if s[0] == s[1] then Compact(s[1..])
    else [s[0]] + Compact(s[1..])
  }

  function Canonical(fields: seq<string>): seq<string> {
    Compact(Sort(fields))
  }

  lemma {:induction false} InsertIsPermutation(x: string, s: seq<string>)
    ensures multiset(Insert(x, s)) == multiset(s) + multiset{x}
  {
    if s != [] && Less(s[0], x) {
      InsertIsPermutation(x, s[1..]);
      assert s == [s[0]] + s[1..];
    }
  }

  lemma {:induction false} SortIsPermutation(s: seq<string>)
    ensures multiset(Sort(s)) == multiset(s)
  {
    if s != [] {
      SortIsPermutation(s[1..]);
      InsertIsPermutation(s[0], Sort(s[1..]));
      assert s == [s[0]] + s[1..];
    }
  }

  lemma SameElements(a: seq<string>, b: seq<string>)
    requires multiset(a) == multiset(b)
    ensures Elements(a) == Elements(b) && |a| == |b|
  {
    assert forall x :: x in a <==> x in multiset(a);
    assert forall x :: x in b <==> x in multiset(b);
    assert |multiset(a)| == |multiset(b)|;
  }

  lemma {:induction false} InsertAscends(x: string, s: seq<string>)
    requires Ascending(s)
    ensures Ascending(Insert(x, s))
  {
    if s == [] {
    } else if Less(s[0], x) {
      InsertAscends(x, s[1..]);
      InsertIsPermutation(x, s[1..]);
      var t := Insert(x, s[1..]);
      forall j | 0 <= j < |t| ensures !Less(t[j], s[0]) {
        assert t[j] in multiset(t);
        LessIsTotal(s[0], x);
      }
    } else {
      forall j | 0 <= j < |s| ensures !Less(s[j], x) {
        LessIsTotal(s[0], x);
        LessIsTotal(s[0], s[j]);
        if Less(s[j], x) && j > 0 && s[j] != s[0] && s[0] != x {
          LessIsTransitive(s[0], s[j], x);
        }
      }
    }
  }

  lemma {:induction false} SortAscends(s: seq<string>)
    ensures Ascending(Sort(s))
  {
    if s != [] {
      SortAscends(s[1..]);
      InsertAscends(s[0], Sort(s[1..]));
    }
  }

  lemma {:induction false} CompactAscends(s: seq<string>)
    requires Ascending(s)
    ensures StrictlyAscending(Compact(s))
    ensures Elements(Compact(s)) == Elements(s)
  {
    if |s| >= 2 {
      CompactAscends(s[1..]);
      assert forall x :: x in s <==> x == s[0] || x in s[1..];
      assert forall x :: x in Compact(s[1..]) <==> x in Elements(Compact(s[1..]));
      assert s[0] == s[1] ==> s[0] in s[1..];
      if s[0] != s[1] {
        forall x | x in Compact(s[1..]) ensures Less(s[0], x) {
          assert x in Elements(s[1..]);
          var j :| 1 <= j < |s| && s[j] == x;
          LessIsTotal(s[0], s[1]);
          LessIsTotal(s[1], x);
          if s[1] != x { LessIsTransitive(s[0], s[1], x); }
        }
      }
    }
  }

  // Sorting and compacting keeps the set and leaves one strictly ascending list.
  lemma CanonicalListsTheSet(fields: seq<string>)
    ensures StrictlyAscending(Canonical(fields))
    ensures Elements(Canonical(fields)) == Elements(fields)
  {
    SortAscends(fields);
    SortIsPermutation(fields);
    SameElements(Sort(fields), fields);
    CompactAscends(Sort(fields));
  }

  lemma NoElements(s: seq<string>)
    ensures Elements(s) == {} <==> s == []
  {
    if s != [] { assert s[0] in Elements(s); }
  }

  lemma {:induction false} AscendingListIsUnique(a: seq<string>, b: seq<string>)
    requires StrictlyAscending(a) && StrictlyAscending(b) && Elements(a) == Elements(b)
    ensures a == b
  {
    NoElements(a);
    NoElements(b);
    if a != [] {
      assert a[0] in Elements(b) && b[0] in Elements(a);
      LessIsTotal(a[0], b[0]);
      assert a[0] == b[0];
      forall x ensures x in Elements(a[1..]) <==> x in Elements(b[1..]) {
        assert a == [a[0]] + a[1..] && b == [b[0]] + b[1..];
        LessIsTotal(a[0], x);
        assert x in a[1..] ==> Less(a[0], x);
        assert x in b[1..] ==> Less(b[0], x);
        assert x in a <==> x in Elements(a);
        assert x in b <==> x in Elements(b);
      }
      AscendingListIsUnique(a[1..], b[1..]);
    }
  }

  // Canonical form is canonical: equal exactly when the two lists name one set.
  lemma CanonicalIff(a: seq<string>, b: seq<string>)
    ensures Canonical(a) == Canonical(b) <==> Elements(a) == Elements(b)
  {
    CanonicalListsTheSet(a);
    CanonicalListsTheSet(b);
    if Elements(a) == Elements(b) {
      AscendingListIsUnique(Canonical(a), Canonical(b));
    }
  }

  // strings.Join(names, ",").
  function Join(names: seq<string>): string {
    if names == [] then ""
    else if |names| == 1 then names[0]
    else names[0] + "," + Join(names[1..])
  }

  // What every name in a mask is: not empty and without the separator.
  predicate WireName(s: string) {
    s != "" && ',' !in s
  }

  predicate WireNames(names: seq<string>) {
    forall n :: n in names ==> WireName(n)
  }

  lemma JoinStart(a: seq<string>, i: nat)
    requires a != [] && WireNames(a) && i <= |a[0]|
    ensures i < |a[0]| ==> |Join(a)| > i && Join(a)[i] == a[0][i] != ','
    ensures i == |a[0]| ==> |Join(a)| == i || Join(a)[i] == ','
    ensures |Join(a)| >= |a[0]| && Join(a)[..|a[0]|] == a[0]
  {
    assert a[0] in a;
  }

  lemma JoinIsEmpty(a: seq<string>)
    requires WireNames(a)
    ensures Join(a) == "" <==> a == []
  {
    if a != [] {
      assert a[0] in a;
      JoinStart(a, 0);
    }
  }

  lemma JoinSameHead(a: seq<string>, b: seq<string>)
    requires a != [] && b != [] && WireNames(a) && WireNames(b) && Join(a) == Join(b)
    ensures a[0] == b[0]
  {
    var n := if |a[0]| < |b[0]| then |a[0]| else |b[0]|;
    JoinStart(a, n);
    JoinStart(b, n);
  }

  // The comma join loses nothing on wire names.
  lemma {:induction false} JoinIsInjective(a: seq<string>, b: seq<string>)
    requires WireNames(a) && WireNames(b) && Join(a) == Join(b)
    ensures a == b
  {
    JoinIsEmpty(a);
    JoinIsEmpty(b);
    if a != [] {
      JoinSameHead(a, b);
      var n := |a[0]|;
      assert a == [a[0]] + a[1..] && b == [b[0]] + b[1..];
      assert |a| > 1 ==> Join(a)[n + 1..] == Join(a[1..]);
      assert |b| > 1 ==> Join(b)[n + 1..] == Join(b[1..]);
      if |a| > 1 && |b| > 1 {
        JoinIsInjective(a[1..], b[1..]);
      }
    }
  }

  // The grouping key of a declared entry.
  function GroupKey(fields: seq<string>): string {
    Join(Canonical(fields))
  }

  // Two mask lists share a key exactly when they name the same set.
  lemma GroupKeyIff(a: seq<string>, b: seq<string>)
    requires WireNames(a) && WireNames(b)
    ensures GroupKey(a) == GroupKey(b) <==> Elements(a) == Elements(b)
  {
    CanonicalIff(a, b);
    CanonicalListsTheSet(a);
    CanonicalListsTheSet(b);
    if GroupKey(a) == GroupKey(b) {
      assert forall n :: n in Canonical(a) ==> n in Elements(a);
      assert forall n :: n in Canonical(b) ==> n in Elements(b);
      JoinIsInjective(Canonical(a), Canonical(b));
    }
  }

  // Why the names must be free of the separator: for any two names in order,
  // the list of both and the one name spelled with a comma share a key.
  lemma CommaBreaksTheKey(a: string, b: string)
    requires Less(a, b)
    ensures GroupKey([a, b]) == GroupKey([a + "," + b])
    ensures Elements([a, b]) != Elements([a + "," + b])
  {
    assert Sort([b]) == [b] && [a, b][1..] == [b];
    assert Sort([a, b]) == Insert(a, [b]) == [a, b] by { LessIsTotal(a, b); }
    LessIsTotal(a, b);
    assert Canonical([a, b]) == [a, b] by {
      assert Compact([b]) == [b];
      assert Compact([a, b]) == [a] + Compact([a, b][1..]);
    }
    assert [a + "," + b][1..] == [];
    assert Canonical([a + "," + b]) == [a + "," + b];
    assert Join([a, b]) == a + "," + Join([a, b][1..]) == a + "," + b;
    assert |a + "," + b| > |a|;
    assert a in Elements([a, b]) && a !in Elements([a + "," + b]);
  }
}
