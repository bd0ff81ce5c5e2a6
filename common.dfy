/** Vocabulary shared by every stage of the pipeline: optional results,
    the character classes the parser and the NFA builder test, and the
    smallest element of a finite set (the order in which the C++ standard
    containers `std::set` and `std::map` are iterated). */
module Common {

  datatype Option<+T> = None | Some(value: T)

  /** The pseudo-symbol that labels an epsilon edge of the NFA. */
  const Epsilon: char := '\0'

  /** `isalnum` in the C locale. */
  predicate IsAlnum(c: char) {
    ('a' <= c <= 'z') || ('A' <= c <= 'Z') || ('0' <= c <= '9')
  }

  /** The ids 0 .. n-1. */
  function Range(n: nat): (r: set<nat>)
    ensures forall i :: i in r <==> 0 <= i < n
    ensures |r| == n
  {
    if n == 0 then {} else Range(n - 1) + {n - 1}
  }

  /** The ids lo .. hi-1 in increasing order: the contents of a FIFO queue into
      which consecutive ids were pushed. */
  function Interval(lo: nat, hi: nat): (r: seq<nat>)
    requires lo <= hi
    ensures |r| == hi - lo
    ensures forall k :: 0 <= k < |r| ==> r[k] == lo + k
    decreases hi - lo
  {
    if lo == hi then [] else [lo] + Interval(lo + 1, hi)
  }

  // ---------------------------------------------------------------------
  // Smallest elements
  // ---------------------------------------------------------------------

  predicate IsMinNat(m: nat, s: set<nat>) {
    m in s && forall x :: x in s ==> m <= x
  }

  predicate IsMinChar(m: char, s: set<char>) {
    m in s && forall x :: x in s ==> m <= x
  }

  lemma {:induction false} MinNatExists(s: set<nat>)
    requires s != {}
    ensures exists m :: IsMinNat(m, s)
    decreases |s|
  {
    var x :| x in s;
    if s != {x} {
      MinNatExists(s - {x});
      var m :| IsMinNat(m, s - {x});
      assert forall y :: y in s ==> y == x || y in s - {x};
      if x < m {
        assert IsMinNat(x, s);
      } else {
        assert IsMinNat(m, s);
      }
    } else {
      assert IsMinNat(x, s);
    }
  }

  lemma {:induction false} MinCharExists(s: set<char>)
    requires s != {}
    ensures exists m :: IsMinChar(m, s)
    decreases |s|
  {
    var x :| x in s;
    if s != {x} {
      MinCharExists(s - {x});
      var m :| IsMinChar(m, s - {x});
      assert forall y :: y in s ==> y == x || y in s - {x};
      if x < m {
        assert IsMinChar(x, s);
      } else {
        assert IsMinChar(m, s);
      }
    } else {
      assert IsMinChar(x, s);
    }
  }

  /** The smallest element of a non-empty set of naturals. */
  ghost function MinNat(s: set<nat>): (m: nat)
    requires s != {}
    ensures IsMinNat(m, s)
  {
    MinNatExists(s);
    var m :| IsMinNat(m, s); m
  }

  /** The smallest element of a non-empty set of characters. */
  ghost function MinChar(s: set<char>): (m: char)
    requires s != {}
    ensures IsMinChar(m, s)
  {
    MinCharExists(s);
    var m :| IsMinChar(m, s); m
  }

  /** A set of characters listed in increasing order: how a `std::set<char>`
      or the keys of a `std::map<char, _>` are iterated. */
  ghost function SortedChars(s: set<char>): (r: seq<char>)
    ensures |r| == |s|
    ensures forall c :: c in s <==> c in r
    ensures forall i, j :: 0 <= i < j < |r| ==> r[i] < r[j]
    decreases |s|
  {
    if s == {} then [] else
      var m := MinChar(s);
      var rest := SortedChars(s - {m});
      ConsSorted(m, s, rest);
      [m] + rest
  }

  /** Putting the smallest element in front of the sorted rest. */
  lemma ConsSorted(m: char, s: set<char>, rest: seq<char>)
    requires IsMinChar(m, s)
    requires |rest| == |s - {m}|
    requires forall c :: c in s - {m} <==> c in rest
    requires forall i, j :: 0 <= i < j < |rest| ==> rest[i] < rest[j]
    ensures |[m] + rest| == |s|
    ensures forall c :: c in s <==> c in [m] + rest
    ensures forall i, j :: 0 <= i < j < |[m] + rest| ==> ([m] + rest)[i] < ([m] + rest)[j]
  {
    var r := [m] + rest;
    forall i, j | 0 <= i < j < |r| ensures r[i] < r[j] {
      assert r[j] == rest[j - 1];
      if i == 0 {
        assert r[j] in s - {m};
      } else {
        assert r[i] == rest[i - 1];
      }
    }
  }

  /** Finds the smallest element of a set of characters by a linear scan. */
  method SmallestChar(s: set<char>) returns (m: char)
    requires s != {}
    ensures m == MinChar(s)
  {
    m :| m in s;
    var rest := s - {m};
    while rest != {}
      invariant rest <= s && m in s
      invariant forall x :: x in s - rest ==> m <= x
      decreases rest
    {
      var x :| x in rest;
      if x < m {
        m := x;
      }
      assert forall y :: y in s - (rest - {x}) ==> y in s - rest || y == x;
      rest := rest - {x};
    }
    assert s - rest == s;
    assert IsMinChar(m, s);
  }

  /** Finds the smallest element of a set of naturals by a linear scan. */
  method SmallestNat(s: set<nat>) returns (m: nat)
    requires s != {}
    ensures m == MinNat(s)
  {
    m :| m in s;
    var rest := s - {m};
    while rest != {}
      invariant rest <= s && m in s
      invariant forall x :: x in s - rest ==> m <= x
      decreases rest
    {
      var x :| x in rest;
      if x < m {
        m := x;
      }
      assert forall y :: y in s - (rest - {x}) ==> y in s - rest || y == x;
      rest := rest - {x};
    }
    assert s - rest == s;
    assert IsMinNat(m, s);
  }

  lemma SortedStep(r: seq<char>, rest: set<char>, m: char)
    requires rest != {} && m == MinChar(rest)
    ensures r + SortedChars(rest) == (r + [m]) + SortedChars(rest - {m})
  {
    assert SortedChars(rest) == [m] + SortedChars(rest - {m});
  }

  /** Lists a set of characters in increasing order, smallest first. */
  method SortChars(s: set<char>) returns (r: seq<char>)
    ensures r == SortedChars(s)
  {
    r := [];
    var rest := s;
    while rest != {}
      invariant rest <= s
      invariant r + SortedChars(rest) == SortedChars(s)
      decreases rest
    {
      var m := SmallestChar(rest);
      SortedStep(r, rest, m);
      r := r + [m];
      rest := rest - {m};
    }
  }
}
