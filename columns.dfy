/** The column list of a truth table: the atoms of the formula, sorted with
    the ordering of `std::string` and stripped of adjacent duplicates. */
module AtomColumns {
  import opened Formula

  // ---------------------------------------------------------------------
  // The ordering of strings

  /** Lexicographic order, character by character; a proper prefix comes
      first. */
  predicate StrLess(a: string, b: string)
  {
    if a == [] then b != []
    else if b == [] then false
    else if a[0] == b[0] then StrLess(a[1..], b[1..])
    else a[0] < b[0]
  }

  lemma {:induction false} StrLessIrreflexive(a: string)
    ensures !StrLess(a, a)
  {
    if a != [] {
      StrLessIrreflexive(a[1..]);
    }
  }

  lemma {:induction false} StrLessTransitive(a: string, b: string, c: string)
    requires StrLess(a, b) && StrLess(b, c)
    ensures StrLess(a, c)
  {
    if a != [] && a[0] == b[0] && b[0] == c[0] {
      StrLessTransitive(a[1..], b[1..], c[1..]);
    }
  }

  /** Two different strings are ordered one way or the other, and never both. */
  lemma {:induction false} StrLessTotal(a: string, b: string)
    ensures a != b <==> StrLess(a, b) || StrLess(b, a)
    ensures !(StrLess(a, b) && StrLess(b, a))
  {
    if a != [] && b != [] && a[0] == b[0] {
      StrLessTotal(a[1..], b[1..]);
      assert a == [a[0]] + a[1..] && b == [b[0]] + b[1..];
    } else if a == [] {
      StrLessIrreflexive(a);
    }
  }

  /** Ordered without inversion (what `std::list::sort` produces). */
  predicate Sorted(s: seq<string>)
  {
    forall i, j :: 0 <= i < j < |s| ==> !StrLess(s[j], s[i])
  }

  /** Strictly increasing: sorted and free of repetitions. */
  predicate StrictlySorted(s: seq<string>)
  {
    forall i, j :: 0 <= i < j < |s| ==> StrLess(s[i], s[j])
  }

  // ---------------------------------------------------------------------
  // Sorting

  /** Insert `x` in front of the first element that does not precede it. */
  function Insert(x: string, s: seq<string>): (r: seq<string>)
    requires Sorted(s)
    ensures Sorted(r) && multiset(r) == multiset(s) + multiset{x}
  {
    if s == [] then [x]
    else if !StrLess(s[0], x) then
      InsertFront(x, s);
      [x] + s
    else
      var r' := Insert(x, s[1..]);
      InsertBehind(s[0], r', x, s[1..]);
      assert s == [s[0]] + s[1..];
      [s[0]] + r'
  }

  lemma InsertFront(x: string, s: seq<string>)
    requires Sorted(s) && s != [] && !StrLess(s[0], x)
    ensures Sorted([x] + s)
  {
    var r := [x] + s;
    forall i, j | 0 <= i < j < |r|
      ensures !StrLess(r[j], r[i])
    {
      if i == 0 {
        if j > 1 {
          if StrLess(r[j], x) {
            StrLessTotal(s[0], s[j - 1]);
            if StrLess(s[0], s[j - 1]) {
              StrLessTransitive(s[0], s[j - 1], x);
            }
          }
        }
      }
    }
  }

  lemma InsertBehind(y: string, r: seq<string>, x: string, s: seq<string>)
    requires Sorted(r) && Sorted([y] + s) && StrLess(y, x)
    requires multiset(r) == multiset(s) + multiset{x}
    ensures Sorted([y] + r)
  {
    var t := [y] + r;
    forall j | 1 <= j < |t|
      ensures !StrLess(t[j], y)
    {
      var z := r[j - 1];
      assert t[j] == z;
      assert z in multiset(r);
      if z == x {
        StrLessTotal(x, y);
      } else {
        assert multiset(r)[z] == multiset(s)[z];
        assert z in s;
        var k :| 0 <= k < |s| && s[k] == z;
        assert ([y] + s)[k + 1] == z && ([y] + s)[0] == y;
      }
    }
    assert Sorted(t) by {
      forall i, j | 0 <= i < j < |t|
        ensures !StrLess(t[j], t[i])
      {
        if i > 0 {
          assert t[i] == r[i - 1] && t[j] == r[j - 1];
        }
      }
    }
  }

  /** The sorted arrangement of a list of names. */
  function Sort(s: seq<string>): (r: seq<string>)
    ensures Sorted(r) && multiset(r) == multiset(s)
  {
    if s == [] then [] else
      assert s == [s[0]] + s[1..];
      Insert(s[0], Sort(s[1..]))
  }

  /** Two sorted arrangements of the same names are the same sequence, so
      the result does not depend on the sorting algorithm. */
  lemma {:induction false} SortedUnique(s: seq<string>, t: seq<string>)
    requires Sorted(s) && Sorted(t) && multiset(s) == multiset(t)
    ensures s == t
  {
    if s != [] {
      assert |t| == |s| by { assert |multiset(t)| == |multiset(s)|; }
      SortedFirst(s, t[0]);
      SortedFirst(t, s[0]);
      StrLessTotal(s[0], t[0]);
      SortedTail(s);
      SortedTail(t);
      SortedUnique(s[1..], t[1..]);
      assert s == [s[0]] + s[1..] && t == [t[0]] + t[1..];
    }
  }

  /** No element of a sorted list precedes its first. */
  lemma SortedFirst(s: seq<string>, x: string)
    requires Sorted(s) && x in multiset(s)
    ensures !StrLess(x, s[0])
  {
    var k :| 0 <= k < |s| && s[k] == x;
    if k > 0 {
      assert !StrLess(s[k], s[0]);
    } else {
      StrLessIrreflexive(x);
    }
  }

  lemma SortedTail(s: seq<string>)
    requires Sorted(s) && s != []
    ensures Sorted(s[1..])
    ensures multiset(s[1..]) == multiset(s) - multiset{s[0]}
  {
    assert s == [s[0]] + s[1..];
  }

  // ---------------------------------------------------------------------
  // Removing adjacent duplicates

  /** `std::unique` followed by `erase`: each element is kept unless it
      equals the last element kept. */
  function Unique(s: seq<string>): seq<string>
  {
    if s == [] then [] else
      var u := Unique(s[..|s| - 1]);
      if u != [] && u[|u| - 1] == s[|s| - 1] then u else u + [s[|s| - 1]]
  }

  /** Removing adjacent duplicates keeps every name and adds none. */
  lemma {:induction false} UniqueMembers(s: seq<string>)
    ensures forall x :: x in Unique(s) <==> x in s
    ensures s != [] ==> Unique(s) != [] && Unique(s)[|Unique(s)| - 1] == s[|s| - 1]
  {
    if s != [] {
      var front := s[..|s| - 1];
      UniqueMembers(front);
      assert s == front + [s[|s| - 1]];
    }
  }

  /** On a sorted list, removing adjacent duplicates leaves a strictly
      increasing one. */
  lemma {:induction false} UniqueStrictlySorted(s: seq<string>)
    requires Sorted(s)
    ensures StrictlySorted(Unique(s))
  {
    if s != [] {
      var n := |s| - 1;
      var front := s[..n];
      assert Sorted(front);
      UniqueStrictlySorted(front);
      var u := Unique(front);
      UniqueMembers(front);
      if !(u != [] && u[|u| - 1] == s[n]) {
        var r := u + [s[n]];
        forall i, j | 0 <= i < j < |r|
          ensures StrLess(r[i], r[j])
        {
          if j == |u| {
            var last := u[|u| - 1];
            assert !StrLess(s[n], last) by { assert front[n - 1] == last && s[n - 1] == last; }
            StrLessTotal(last, s[n]);
            if i < |u| - 1 {
              StrLessTransitive(r[i], last, s[n]);
            }
          }
        }
      }
    }
  }

  // ---------------------------------------------------------------------
  // The column list

  /** The atom columns of the truth table of `e`. */
  function Columns(e: Expr): seq<string>
  {
    Unique(Sort(Atoms(e)))
  }

  /** The columns are strictly increasing and name exactly the atoms of the
      formula. */
  lemma ColumnsSpec(e: Expr)
    ensures StrictlySorted(Columns(e))
    ensures forall n :: n in Columns(e) <==> n in Atoms(e)
  {
    var s := Sort(Atoms(e));
    UniqueStrictlySorted(s);
    UniqueMembers(s);
    forall n
      ensures n in s <==> n in Atoms(e)
    {
      assert n in s <==> n in multiset(s);
    }
  }

  /** Strictly increasing sequences holding the same names are equal, so the
      column list is the only strictly increasing list of the atoms. */
  lemma {:induction false} StrictlySortedUnique(s: seq<string>, t: seq<string>)
    requires StrictlySorted(s) && StrictlySorted(t)
    requires forall x :: x in s <==> x in t
    ensures s == t
  {
    assert s != [] ==> s[0] in t;
    assert t != [] ==> t[0] in s;
    if s != [] && t != [] {
      var i :| 0 <= i < |t| && t[i] == s[0];
      var j :| 0 <= j < |s| && s[j] == t[0];
      assert t[0] == s[0] || StrLess(s[0], t[0]) by { if j > 0 { assert StrLess(s[0], s[j]); } }
      assert s[0] == t[0] || StrLess(t[0], s[0]) by { if i > 0 { assert StrLess(t[0], t[i]); } }
      StrLessTotal(s[0], t[0]);
      StrLessIrreflexive(s[0]);
      forall x
        ensures x in s[1..] <==> x in t[1..]
      {
        if x in s[1..] {
          var k :| 0 <= k < |s| - 1 && s[1..][k] == x;
          assert StrLess(s[0], s[k + 1]);
          assert x in t;
          var m :| 0 <= m < |t| && t[m] == x;
          assert t[1..][m - 1] == x;
        }
        if x in t[1..] {
          var k :| 0 <= k < |t| - 1 && t[1..][k] == x;
          assert StrLess(t[0], t[k + 1]);
          assert x in s;
          var m :| 0 <= m < |s| && s[m] == x;
          assert s[1..][m - 1] == x;
        }
      }
      StrictlySortedUnique(s[1..], t[1..]);
      assert s == [s[0]] + s[1..] && t == [t[0]] + t[1..];
    }
  }

}
