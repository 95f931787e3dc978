/** Square matrices as nested sequences: the value view of the numpy
    matrices the game keeps, and the quarter turn that
    Tetromino.rotateTileMatrix applies to a tetromino's tile matrix. */
module Matrices {

  predicate IsSquare<T>(m: seq<seq<T>>) {
    forall i :: 0 <= i < |m| ==> |m[i]| == |m|
  }

  /** The rows of a two-dimensional array, as a value. */
  ghost function Rows<T>(a: array2<T>): (m: seq<seq<T>>)
    reads a
    ensures |m| == a.Length0
    ensures forall i :: 0 <= i < |m| ==> |m[i]| == a.Length1
    ensures forall i, j :: 0 <= i < a.Length0 && 0 <= j < a.Length1 ==> m[i][j] == a[i, j]
  {
    seq(a.Length0, i requires 0 <= i < a.Length0 reads a =>
      seq(a.Length1, j requires 0 <= j < a.Length1 reads a => a[i, j]))
  }

  /** The matrix rotateTileMatrix builds from m: for rotDir == -1 the entry
      at (r, c) goes to (n-1-c, r), for every other rotDir to (c, n-1-r). */
  function Turned<T>(m: seq<seq<T>>, rotDir: int): (t: seq<seq<T>>)
    requires IsSquare(m)
    ensures |t| == |m| && IsSquare(t)
    ensures rotDir == -1 ==>
              forall i, j :: 0 <= i < |m| && 0 <= j < |m| ==> t[i][j] == m[j][|m| - 1 - i]
    ensures rotDir != -1 ==>
              forall i, j :: 0 <= i < |m| && 0 <= j < |m| ==> t[i][j] == m[|m| - 1 - j][i]
  {
    var n := |m|;
    if rotDir == -1 then
      seq(n, i requires 0 <= i < n => seq(n, j requires 0 <= j < n => m[j][n - 1 - i]))
    else
      seq(n, i requires 0 <= i < n => seq(n, j requires 0 <= j < n => m[n - 1 - j][i]))
  }

  /** Equal matrices, entry by entry. */
  lemma SameEntries<T>(a: seq<seq<T>>, b: seq<seq<T>>)
    requires |a| == |b| && forall i :: 0 <= i < |a| ==> |a[i]| == |b[i]|
    requires forall i, j :: 0 <= i < |a| && 0 <= j < |a[i]| ==> a[i][j] == b[i][j]
    ensures a == b
  {
    forall i | 0 <= i < |a| ensures a[i] == b[i] {
    }
  }

  /** A turn in the opposite direction undoes a turn. */
  lemma {:induction false} TurnedBack<T>(m: seq<seq<T>>, rotDir: int)
    requires IsSquare(m)
    requires rotDir == 1 || rotDir == -1
    ensures Turned(Turned(m, rotDir), -rotDir) == m
  {
    var n := |m|;
    var t := Turned(m, rotDir);
    var back := Turned(t, -rotDir);
    forall i, j | 0 <= i < n && 0 <= j < n ensures back[i][j] == m[i][j] {
      if rotDir == 1 {
        assert back[i][j] == t[j][n - 1 - i];
      } else {
        assert back[i][j] == t[n - 1 - j][i];
      }
    }
    SameEntries(back, m);
  }

  /** Four turns in the same direction are the identity. */
  lemma {:induction false} FourTurns<T>(m: seq<seq<T>>, rotDir: int)
    requires IsSquare(m)
    ensures Turned(Turned(Turned(Turned(m, rotDir), rotDir), rotDir), rotDir) == m
  {
    var n := |m|;
    var t1 := Turned(m, rotDir);
    var t2 := Turned(t1, rotDir);
    var t3 := Turned(t2, rotDir);
    var t4 := Turned(t3, rotDir);
    forall i, j | 0 <= i < n && 0 <= j < n ensures t4[i][j] == m[i][j] {
      if rotDir == -1 {
        assert t4[i][j] == t3[j][n - 1 - i];
        assert t3[j][n - 1 - i] == t2[n - 1 - i][n - 1 - j];
        assert t2[n - 1 - i][n - 1 - j] == t1[n - 1 - j][i];
      } else {
        assert t4[i][j] == t3[n - 1 - j][i];
        assert t3[n - 1 - j][i] == t2[n - 1 - i][n - 1 - j];
        assert t2[n - 1 - i][n - 1 - j] == t1[j][n - 1 - i];
      }
    }
    SameEntries(t4, m);
  }

  /** The multiset of all entries of a matrix. */
  function Bag<T>(m: seq<seq<T>>): multiset<T> {
    if m == [] then multiset{} else multiset(m[0]) + Bag(m[1..])
  }

  /** Every row of m has w entries. */
  predicate HasWidth<T>(m: seq<seq<T>>, w: nat) {
    forall i :: 0 <= i < |m| ==> |m[i]| == w
  }

  /** Column j of m, top to bottom. */
  function Column<T>(m: seq<seq<T>>, j: nat): (col: seq<T>)
    requires forall i :: 0 <= i < |m| ==> j < |m[i]|
    ensures |col| == |m| && forall i :: 0 <= i < |m| ==> col[i] == m[i][j]
  {
    seq(|m|, i requires 0 <= i < |m| => m[i][j])
  }

  /** The first k columns of m, each as a row. */
  function Columns<T>(m: seq<seq<T>>, k: nat): (cols: seq<seq<T>>)
    requires forall i :: 0 <= i < |m| ==> k <= |m[i]|
    ensures |cols| == k && forall j :: 0 <= j < k ==> cols[j] == Column(m, j)
  {
    seq(k, j requires 0 <= j < k => Column(m, j))
  }

  /** The rows of m in reverse order. */
  function Reversed<T>(m: seq<seq<T>>): (r: seq<seq<T>>)
    ensures |r| == |m| && forall i :: 0 <= i < |m| ==> r[i] == m[|m| - 1 - i]
  {
    seq(|m|, i requires 0 <= i < |m| => m[|m| - 1 - i])
  }

  lemma {:induction false} BagAppend<T>(a: seq<seq<T>>, r: seq<T>)
    ensures Bag(a + [r]) == Bag(a) + multiset(r)
  {
    if a == [] {
      assert a + [r] == [r];
      assert [r][1..] == [];
    } else {
      assert (a + [r])[1..] == a[1..] + [r];
      BagAppend(a[1..], r);
    }
  }

  lemma {:induction false} ReversedBag<T>(m: seq<seq<T>>)
    ensures Bag(Reversed(m)) == Bag(m)
  {
    if m != [] {
      assert Reversed(m) == Reversed(m[1..]) + [m[0]];
      BagAppend(Reversed(m[1..]), m[0]);
      ReversedBag(m[1..]);
    }
  }

  lemma {:induction false} ColumnsOfNothing<T>(m: seq<seq<T>>, k: nat)
    requires m == []
    ensures Bag(Columns(m, k)) == multiset{}
  {
    if k > 0 {
      assert Columns(m, k) == Columns(m, k - 1) + [Column(m, k - 1)];
      BagAppend(Columns(m, k - 1), Column(m, k - 1));
      ColumnsOfNothing(m, k - 1);
    }
  }

  lemma ColumnsSnoc<T>(m: seq<seq<T>>, k: nat)
    requires forall i :: 0 <= i < |m| ==> k < |m[i]|
    ensures Columns(m, k + 1) == Columns(m, k) + [Column(m, k)]
  {
  }

  lemma ColumnCons<T>(m: seq<seq<T>>, j: nat)
    requires m != [] && forall i :: 0 <= i < |m| ==> j < |m[i]|
    ensures Column(m, j) == [m[0][j]] + Column(m[1..], j)
  {
  }

  /** Splitting the first row off every column. */
  lemma {:induction false} ColumnsCons<T>(m: seq<seq<T>>, k: nat)
    requires m != [] && forall i :: 0 <= i < |m| ==> k <= |m[i]|
    ensures Bag(Columns(m, k)) == multiset(m[0][..k]) + Bag(Columns(m[1..], k))
  {
    if k > 0 {
      var j := k - 1;
      var rest := m[1..];
      calc {
        Bag(Columns(m, k));
      == { ColumnsSnoc(m, j); BagAppend(Columns(m, j), Column(m, j)); }
        Bag(Columns(m, j)) + multiset(Column(m, j));
      == { ColumnsCons(m, j); ColumnCons(m, j); }
        multiset(m[0][..j]) + Bag(Columns(rest, j)) + multiset([m[0][j]] + Column(rest, j));
      ==
        (multiset(m[0][..j]) + multiset([m[0][j]])) + (Bag(Columns(rest, j)) + multiset(Column(rest, j)));
      == { assert m[0][..k] == m[0][..j] + [m[0][j]];
           ColumnsSnoc(rest, j);
           BagAppend(Columns(rest, j), Column(rest, j)); }
        multiset(m[0][..k]) + Bag(Columns(rest, k));
      }
    }
  }

  /** Reading a matrix column by column yields the same multiset of entries. */
  lemma {:induction false} ColumnsBag<T>(m: seq<seq<T>>, w: nat)
    requires HasWidth(m, w)
    ensures Bag(Columns(m, w)) == Bag(m)
  {
    if m == [] {
      ColumnsOfNothing(m, w);
    } else {
      ColumnsCons(m, w);
      assert m[0][..w] == m[0];
      ColumnsBag(m[1..], w);
    }
  }

  /** A quarter turn keeps every entry: the multiset of entries, and so the
      multiset of tiles in a tile matrix, is the same before and after. */
  lemma {:induction false} TurnedBag<T>(m: seq<seq<T>>, rotDir: int)
    requires IsSquare(m)
    ensures Bag(Turned(m, rotDir)) == Bag(m)
  {
    var n := |m|;
    var t := Turned(m, rotDir);
    if rotDir == -1 {
      var c := Columns(m, n);
      forall i, j | 0 <= i < n && 0 <= j < n ensures Reversed(c)[i][j] == t[i][j] {
        assert t[i][j] == m[j][n - 1 - i];
      }
      SameEntries(Reversed(c), t);
      ReversedBag(c);
      ColumnsBag(m, n);
    } else {
      var r := Reversed(m);
      var c := Columns(r, n);
      forall i, j | 0 <= i < n && 0 <= j < n ensures c[i][j] == t[i][j] {
        assert t[i][j] == m[n - 1 - j][i];
      }
      SameEntries(c, t);
      ColumnsBag(r, n);
      ReversedBag(m);
    }
  }
}
