/**
 The selection list of the DataTable component and the pure expressions that
 build its next value.

 The component keeps the selected rows as a list (an array in the component,
 a `seq` here) in the order they were clicked. Rows are compared by identity;
 Dafny equality on `T` stands for that identity.
 */
module Selection {

  /** No row occurs twice in `s`. */
  ghost predicate NoDup<T>(s: seq<T>)
  {
    forall i, j :: 0 <= i < j < |s| ==> s[i] != s[j]
  }

  /** `r` can be obtained from `s` by deleting elements: the elements of `r`
      occur in `s` in the same relative order. */
  ghost predicate IsSubsequence<T>(r: seq<T>, s: seq<T>)
    decreases |s|
  {
    if r == [] then true
    else if s == [] then false
    else if r[0] == s[0] then IsSubsequence(r[1..], s[1..])
    else IsSubsequence(r, s[1..])
  }

  /** How many times `x` was clicked among `clicks` is odd. */
  ghost predicate OddCount<T>(clicks: seq<T>, x: T)
  {
    multiset(clicks)[x] % 2 == 1
  }

  /** The list filter that keeps every element other than `x`: all
      occurrences of `x` are dropped, everything else is kept with its
      multiplicity and, by WithoutIsSubsequence, in its order. */
  function Without<T(==)>(s: seq<T>, x: T): (r: seq<T>)
    ensures x !in r
    ensures multiset(r) == multiset(s)[x := 0]
    ensures |r| <= |s|
    ensures x in s ==> |r| < |s|
  {
    if s == [] then []
    else
      var rest := Without(s[1..], x);
      assert s == [s[0]] + s[1..];
      if s[0] == x then rest else [s[0]] + rest
  }

  /** The list `toggleRow` stores: a selected row is filtered out, any other
      row is appended at the end. Membership of `row` flips, membership of
      every other row is unchanged. */
  function Toggled<T(==)>(sel: seq<T>, row: T): (r: seq<T>)
    ensures row in r <==> row !in sel
    ensures row !in sel ==> r == sel + [row]
    ensures row in sel ==> |r| < |sel|
  {
    if row in sel then Without(sel, row) else sel + [row]
  }

  /** The selection after the rows in `clicks` were toggled one after the
      other, starting from `sel`. */
  function Replay<T(==)>(sel: seq<T>, clicks: seq<T>): (r: seq<T>)
    ensures |r| <= |sel| + |clicks|
    decreases |clicks|
  {
    if clicks == [] then sel else Replay(Toggled(sel, clicks[0]), clicks[1..])
  }

  // ---------------------------------------------------------------------
  // Properties of the filter

  /** Filtering out a row that is not in the list leaves the list as it is. */
  lemma {:induction false} WithoutAbsent<T>(s: seq<T>, x: T)
    requires x !in s
    ensures Without(s, x) == s
  {
    if s != [] {
      WithoutAbsent(s[1..], x);
    }
  }

  /** Filtering twice with the same row is filtering once. */
  lemma WithoutIdempotent<T>(s: seq<T>, x: T)
    ensures Without(Without(s, x), x) == Without(s, x)
  {
    WithoutAbsent(Without(s, x), x);
  }

  /** The filter works element by element, so it distributes over
      concatenation. */
  lemma {:induction false} WithoutAppend<T>(a: seq<T>, b: seq<T>, x: T)
    ensures Without(a + b, x) == Without(a, x) + Without(b, x)
  {
    if a == [] {
      assert a + b == b;
    } else {
      assert (a + b)[1..] == a[1..] + b;
      WithoutAppend(a[1..], b, x);
    }
  }

  /** The rows that survive the filter keep their relative order. */
  lemma {:induction false} WithoutIsSubsequence<T>(s: seq<T>, x: T)
    ensures IsSubsequence(Without(s, x), s)
  {
    if s != [] {
      WithoutIsSubsequence(s[1..], x);
      if s[0] == x {
        SubsequenceOfTail(Without(s[1..], x), s);
      } else {
        var r := Without(s, x);
        assert r[0] == s[0] && r[1..] == Without(s[1..], x);
      }
    }
  }

  /** A subsequence of the tail of `s` is a subsequence of `s`. */
  lemma {:induction false} SubsequenceOfTail<T>(r: seq<T>, s: seq<T>)
    requires s != []
    requires IsSubsequence(r, s[1..])
    ensures IsSubsequence(r, s)
    decreases |s|, 1
  {
    if r != [] && r[0] == s[0] {
      // the match takes s[0], so what is left of r must fit in s[1..]
      SubsequenceOfTailStep(r, s[1..]);
    }
  }

  /** If `r` is a subsequence of `s`, then so is `r` without its head,
      as a subsequence of `s` itself. */
  lemma {:induction false} SubsequenceOfTailStep<T>(r: seq<T>, s: seq<T>)
    requires r != []
    requires IsSubsequence(r, s)
    ensures IsSubsequence(r[1..], s)
    decreases |s| + 1, 0
  {
    if r[0] == s[0] {
      if r[1..] != [] {
        SubsequenceOfTail(r[1..], s);
      }
    } else {
      SubsequenceOfTailStep(r, s[1..]);
      if r[1..] != [] {
        SubsequenceOfTail(r[1..], s);
      }
    }
  }

  /** Filtering keeps a duplicate-free list duplicate-free. */
  lemma {:induction false} WithoutNoDup<T>(s: seq<T>, x: T)
    requires NoDup(s)
    ensures NoDup(Without(s, x))
  {
    if s != [] {
      assert NoDup(s[1..]) by {
        forall i, j | 0 <= i < j < |s[1..]| ensures s[1..][i] != s[1..][j] {
          assert s[1..][i] == s[i + 1] && s[1..][j] == s[j + 1];
        }
      }
      WithoutNoDup(s[1..], x);
      if s[0] != x {
        assert s[0] !in s[1..];
        var r := Without(s, x);
        assert r == [s[0]] + Without(s[1..], x);
        forall i, j | 0 <= i < j < |r| ensures r[i] != r[j] {
          if i == 0 {
            var w := Without(s[1..], x);
            assert r[j] == w[j - 1];
            assert multiset(w)[r[j]] > 0;
            assert r[j] in multiset(s[1..]);
          } else {
            assert r[i] == Without(s[1..], x)[i - 1] && r[j] == Without(s[1..], x)[j - 1];
          }
        }
      }
    }
  }

  /** In a duplicate-free list, filtering out the element at position `i`
      removes exactly that position. */
  lemma {:induction false} WithoutAt<T>(s: seq<T>, i: nat)
    requires NoDup(s)
    requires i < |s|
    ensures Without(s, s[i]) == s[..i] + s[i + 1..]
  {
    if i == 0 {
      assert s[0] !in s[1..] by {
        forall k | 0 <= k < |s[1..]| ensures s[1..][k] != s[0] {
          assert s[1..][k] == s[k + 1];
        }
      }
      WithoutAbsent(s[1..], s[0]);
    } else {
      var t := s[1..];
      assert NoDup(t) by {
        forall a, b | 0 <= a < b < |t| ensures t[a] != t[b] {
          assert t[a] == s[a + 1] && t[b] == s[b + 1];
        }
      }
      assert s[0] != s[i];
      assert t[i - 1] == s[i];
      WithoutAt(t, i - 1);
      assert s[..i] == [s[0]] + t[..i - 1];
      assert s[i + 1..] == t[i..];
    }
  }

  // ---------------------------------------------------------------------
  // Properties of one toggle

  /** The checkbox flag of `y` after toggling `row`: flipped for `row`
      itself, unchanged for every other row. */
  lemma ToggledMembership<T>(sel: seq<T>, row: T, y: T)
    ensures (y in Toggled(sel, row)) == ((y in sel) != (y == row))
  {
    if row in sel && y != row {
      assert multiset(Toggled(sel, row))[y] == multiset(sel)[y];
    }
  }

  /** Nothing else changes: after filtering out `row`, the selection before
      and after toggling `row` is the same list, so every other row keeps its
      membership, its multiplicity and its relative order. */
  lemma ToggleOthersUnchanged<T>(sel: seq<T>, row: T)
    ensures Without(Toggled(sel, row), row) == Without(sel, row)
  {
    if row in sel {
      WithoutIdempotent(sel, row);
    } else {
      WithoutAppend(sel, [row], row);
      assert Without([row], row) == [];
    }
  }

  /** A toggle keeps a duplicate-free selection duplicate-free. */
  lemma ToggleNoDup<T>(sel: seq<T>, row: T)
    requires NoDup(sel)
    ensures NoDup(Toggled(sel, row))
  {
    if row in sel {
      WithoutNoDup(sel, row);
    } else {
      var r := sel + [row];
      forall i, j | 0 <= i < j < |r| ensures r[i] != r[j] {
        if j == |sel| {
          assert r[i] == sel[i];
        } else {
          assert r[i] == sel[i] && r[j] == sel[j];
        }
      }
    }
  }

  /** Toggling an unselected row twice restores the selection exactly,
      order included. */
  lemma ToggleTwiceRestores<T>(sel: seq<T>, row: T)
    requires row !in sel
    ensures Toggled(Toggled(sel, row), row) == sel
  {
    WithoutAppend(sel, [row], row);
    assert Without([row], row) == [];
    WithoutAbsent(sel, row);
  }

  /** Toggling a selected row twice need not restore the order: the row
      moves to the end of the list (ToggleTwiceReorders gives a case where
      the list changes). */
  lemma ToggleTwiceMovesToEnd<T>(sel: seq<T>, row: T)
    requires row in sel
    ensures Toggled(Toggled(sel, row), row) == Without(sel, row) + [row]
  {
  }

  /** A selection whose first row is toggled twice comes back reordered. */
  lemma ToggleTwiceReorders<T>(row: T, a: T)
    requires a != row
    ensures Toggled(Toggled([row, a], row), row) == [a, row]
    ensures Toggled(Toggled([row, a], row), row) != [row, a]
  {
    assert [row, a][1..] == [a];
    assert Without([a], row) == [a];
  }

  /** In a duplicate-free selection, toggling the row at position `i`
      removes exactly that position. */
  lemma ToggleRemovesAt<T>(sel: seq<T>, i: nat)
    requires NoDup(sel)
    requires i < |sel|
    ensures Toggled(sel, sel[i]) == sel[..i] + sel[i + 1..]
  {
    WithoutAt(sel, i);
  }

  // ---------------------------------------------------------------------
  // Properties of a run of toggles

  /** A row is selected after a run of clicks exactly when it was selected
      before and clicked an even number of times, or was not selected and
      clicked an odd number of times. */
  lemma {:induction false} ReplayMembership<T>(sel: seq<T>, clicks: seq<T>, x: T)
    ensures (x in Replay(sel, clicks)) == ((x in sel) != OddCount(clicks, x))
    decreases |clicks|
  {
    if clicks != [] {
      assert clicks == [clicks[0]] + clicks[1..];
      assert multiset(clicks)[x] == multiset(clicks[1..])[x] + (if clicks[0] == x then 1 else 0);
      ToggledMembership(sel, clicks[0], x);
      ReplayMembership(Toggled(sel, clicks[0]), clicks[1..], x);
    }
  }

  /** Any run of toggles keeps a duplicate-free selection duplicate-free. */
  lemma {:induction false} ReplayNoDup<T>(sel: seq<T>, clicks: seq<T>)
    requires NoDup(sel)
    ensures NoDup(Replay(sel, clicks))
    decreases |clicks|
  {
    if clicks != [] {
      ToggleNoDup(sel, clicks[0]);
      ReplayNoDup(Toggled(sel, clicks[0]), clicks[1..]);
    }
  }

  /** Starting from the initial empty selection, the selection is always
      duplicate-free. */
  lemma ReplayFromEmptyNoDup<T>(clicks: seq<T>)
    ensures NoDup(Replay([], clicks))
  {
    ReplayNoDup([], clicks);
  }

  /** Clicking rows that are neither selected nor clicked before appends
      them in click order: the selection lists rows in the order they were
      clicked, not in the order of the table's data. */
  lemma {:induction false} ReplayDistinctAppends<T>(sel: seq<T>, clicks: seq<T>)
    requires NoDup(sel + clicks)
    ensures Replay(sel, clicks) == sel + clicks
    decreases |clicks|
  {
    if clicks != [] {
      var c := clicks[0];
      assert c == (sel + clicks)[|sel|];
      assert c !in sel by {
        forall k | 0 <= k < |sel| ensures sel[k] != c {
          assert sel[k] == (sel + clicks)[k];
        }
      }
      assert (sel + [c]) + clicks[1..] == sel + clicks;
      ReplayDistinctAppends(sel + [c], clicks[1..]);
    }
  }
}
