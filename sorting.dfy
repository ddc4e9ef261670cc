/** Python's `sorted` on distinct integers. */
module Sorting {

  /** The least element of a non-empty set of integers. */
  function Least(s: set<int>): (m: int)
    requires s != {}
    ensures m in s && forall k :: k in s ==> m <= k
  {
    LeastExists(s);
    var m :| m in s && forall k :: k in s ==> m <= k;
    m
  }

  lemma {:induction false} LeastExists(s: set<int>)
    requires s != {}
    ensures exists m :: m in s && forall k :: k in s ==> m <= k
    decreases |s|
  {
    assert exists x :: x in s by {
      if forall x :: x !in s {
        assert false;
      }
    }
    var x :| x in s;
    var rest := s - {x};
    if rest == {} {
      forall k | k in s ensures x <= k {
        assert k !in rest;
      }
    } else {
      LeastExists(rest);
      var m :| m in rest && forall k :: k in rest ==> m <= k;
      var least := if x < m then x else m;
      forall k | k in s ensures least <= k {
        if k != x {
          assert k in rest;
        }
      }
      assert least in s;
    }
  }

  /** Strictly ascending. */
  predicate Ascending(r: seq<int>)
  {
    forall i, j :: 0 <= i < j < |r| ==> r[i] < r[j]
  }

  /** `sorted(s)`: the elements of a set of integers in ascending order. */
  function SortedKeys(s: set<int>): (r: seq<int>)
    ensures |r| == |s|
    ensures forall i :: 0 <= i < |r| ==> r[i] in s
    ensures forall k :: k in s ==> k in r
    ensures Ascending(r)
    decreases |s|
  {
    if s == {} then []
    else
      var m := Least(s);
      var rest := SortedKeys(s - {m});
      LeastFirst(m, rest, s);
      [m] + rest
  }

  lemma LeastFirst(m: int, rest: seq<int>, s: set<int>)
    requires m in s && forall k :: k in s ==> m <= k
    requires forall i :: 0 <= i < |rest| ==> rest[i] in s - {m}
    requires forall k :: k in s - {m} ==> k in rest
    requires Ascending(rest)
    ensures forall i :: 0 <= i < |[m] + rest| ==> ([m] + rest)[i] in s
    ensures forall k :: k in s ==> k in [m] + rest
    ensures Ascending([m] + rest)
  {
    var r := [m] + rest;
    forall i, j | 0 <= i < j < |r| ensures r[i] < r[j] {
      assert r[j] == rest[j - 1];
      if i > 0 {
        assert r[i] == rest[i - 1];
      }
    }
  }

  /** Only one ascending sequence holds exactly the elements of a set: any sort agrees with
      `SortedKeys`. */
  lemma {:induction false} SortedKeysUnique(s: set<int>, r: seq<int>)
    requires forall i :: 0 <= i < |r| ==> r[i] in s
    requires forall k :: k in s ==> k in r
    requires Ascending(r)
    ensures r == SortedKeys(s)
    decreases |s|
  {
    if r == [] {
      Covered(s, r);
      assert Elements(r) == {};
    } else {
      assert r[0] in s;
      var m := Least(s);
      var rest := s - {m};
      var tail := r[1..];
      SplitLeast(s, r, m);
      SortedKeysUnique(rest, tail);
      assert r == [m] + tail;
    }
  }

  /** An ascending sequence of exactly the elements of `s` starts with the least of them,
      and the rest of it holds exactly the others. */
  lemma SplitLeast(s: set<int>, r: seq<int>, m: int)
    requires forall i :: 0 <= i < |r| ==> r[i] in s
    requires forall k :: k in s ==> k in r
    requires Ascending(r)
    requires m in s && forall k :: k in s ==> m <= k
    ensures r != [] && r[0] == m && r == [m] + r[1..]
    ensures forall i :: 0 <= i < |r[1..]| ==> r[1..][i] in s - {m}
    ensures forall k :: k in s - {m} ==> k in r[1..]
    ensures Ascending(r[1..])
  {
    assert m in r;
    var j :| 0 <= j < |r| && r[j] == m;
    assert r[0] in s;
    FirstIsLeast(r);
    assert r[0] <= r[j];
    var tail := r[1..];
    forall k | k in s - {m} ensures k in tail {
      var i :| 0 <= i < |r| && r[i] == k;
      assert tail[i - 1] == k;
    }
    forall i | 0 <= i < |tail| ensures tail[i] in s - {m} {
      assert tail[i] == r[i + 1] && r[0] < r[i + 1];
    }
    forall i, j | 0 <= i < j < |tail| ensures tail[i] < tail[j] {
      assert tail[i] == r[i + 1] && tail[j] == r[j + 1];
    }
  }

  /** An ascending sequence starts with its least element. */
  lemma FirstIsLeast(r: seq<int>)
    requires r != [] && Ascending(r)
    ensures forall i :: 0 <= i < |r| ==> r[0] <= r[i]
  {
    forall i | 0 < i < |r| ensures r[0] < r[i] {
    }
  }

  /** The elements of a sequence, as a set. */
  function Elements(r: seq<int>): set<int>
  {
    set i | 0 <= i < |r| :: r[i]
  }

  lemma Covered(s: set<int>, r: seq<int>)
    requires forall k :: k in s ==> k in r
    ensures s <= Elements(r)
  {
    forall k | k in s ensures k in Elements(r) {
      var i :| 0 <= i < |r| && r[i] == k;
    }
  }
}
