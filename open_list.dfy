/**
 * The open list of isearch.cpp as values: one bucket (row list) per grid
 * row, each kept sorted by F with a g tie-break, at most one node per cell;
 * `addOpen`'s effect on a bucket, and the node `findMin`'s scan selects.
 */
module OpenLists {
  import opened Nodes

  /**
   * n is placed before m: smaller F, or equal F and, under GMax, g at least
   * m's, under GMin, g strictly below m's. `addOpen` inserts a node before
   * the first entry it goes before, and `findMin` replaces its running
   * minimum by a node that goes before it: one relation for both.
   */
  predicate GoesBefore(n: Node, m: Node, tb: TieBreak)
  {
    n.F < m.F || (n.F == m.F && (if tb == GMax then n.g >= m.g else n.g < m.g))
  }

  /** m may precede n in a bucket: ascending F, then descending g (GMax) or ascending g (GMin). */
  predicate InOrder(m: Node, n: Node, tb: TieBreak)
  {
    m.F < n.F || (m.F == n.F && (if tb == GMax then m.g >= n.g else m.g <= n.g))
  }

  predicate Sorted(s: seq<Node>, tb: TieBreak)
  {
    forall x, y :: 0 <= x < y < |s| ==> InOrder(s[x], s[y], tb)
  }

  /** At most one entry per column within a row bucket, hence one per cell. */
  predicate UniqueColumns(s: seq<Node>)
  {
    forall x, y :: 0 <= x < y < |s| ==> s[x].j != s[y].j
  }

  /** Index of the first entry in column j, or |s| when there is none. */
  function FindColumn(s: seq<Node>, j: int): (k: nat)
    ensures k <= |s|
    ensures k < |s| ==> s[k].j == j
    ensures forall t :: 0 <= t < k ==> s[t].j != j
    decreases |s|
  {
    if |s| == 0 then 0 else if s[0].j == j then 0 else 1 + FindColumn(s[1..], j)
  }

  /** Index of the first entry n goes before, or |s|: where `addOpen` inserts n. */
  function InsertPos(s: seq<Node>, n: Node, tb: TieBreak): (p: nat)
    ensures p <= |s|
    ensures p < |s| ==> GoesBefore(n, s[p], tb)
    ensures forall t :: 0 <= t < p ==> !GoesBefore(n, s[t], tb)
    decreases |s|
  {
    if |s| == 0 then 0 else if GoesBefore(n, s[0], tb) then 0 else 1 + InsertPos(s[1..], n, tb)
  }

  /** n inserted before the first entry it goes before (at the end when there is none). */
  function Insert(s: seq<Node>, n: Node, tb: TieBreak): seq<Node>
    decreases |s|
  {
    if s == [] || GoesBefore(n, s[0], tb) then [n] + s else [s[0]] + Insert(s[1..], n, tb)
  }

  /** s without its first entry in column j (s itself when there is none). */
  function Without(s: seq<Node>, j: int): seq<Node>
    decreases |s|
  {
    if s == [] then [] else if s[0].j == j then s[1..] else [s[0]] + Without(s[1..], j)
  }

  /** The first entry in n's column exists and has g no larger than n's. */
  predicate KeepsOld(s: seq<Node>, n: Node)
    decreases |s|
  {
    s != [] && if s[0].j == n.j then s[0].g <= n.g else KeepsOld(s[1..], n)
  }

  function RemoveAt(s: seq<Node>, k: nat): seq<Node>
    requires k < |s|
  {
    s[..k] + s[k + 1..]
  }

  /**
   * A bucket after `addOpen(n)` (the cell not closed): unchanged when an entry
   * for n's column already has g no larger than n's; otherwise that entry,
   * if any, is removed and n is inserted in order.
   */
  function AddToRow(s: seq<Node>, n: Node, tb: TieBreak): seq<Node>
  {
    if KeepsOld(s, n) then s else Insert(Without(s, n.j), n, tb)
  }

  /** Insert places n at InsertPos. */
  lemma {:induction false} InsertAt(s: seq<Node>, n: Node, tb: TieBreak)
    ensures Insert(s, n, tb) == s[..InsertPos(s, n, tb)] + [n] + s[InsertPos(s, n, tb)..]
    decreases |s|
  {
    if s != [] && !GoesBefore(n, s[0], tb) {
      InsertAt(s[1..], n, tb);
      var p := InsertPos(s[1..], n, tb);
      assert s[1..][..p] == s[1..p + 1] && s[1..][p..] == s[p + 1..];
      assert [s[0]] + s[1..p + 1] == s[..p + 1];
    }
  }

  /** Entry by entry: the prefix before InsertPos, then n, then the rest shifted by one. */
  lemma InsertEntries(s: seq<Node>, n: Node, tb: TieBreak)
    ensures |Insert(s, n, tb)| == |s| + 1
    ensures forall t :: 0 <= t < InsertPos(s, n, tb) ==> Insert(s, n, tb)[t] == s[t]
    ensures Insert(s, n, tb)[InsertPos(s, n, tb)] == n
    ensures forall t :: InsertPos(s, n, tb) < t <= |s| ==> Insert(s, n, tb)[t] == s[t - 1]
  {
    InsertAt(s, n, tb);
  }

  /** Without removes the entry FindColumn finds. */
  lemma {:induction false} WithoutAt(s: seq<Node>, j: int)
    ensures FindColumn(s, j) < |s| ==> Without(s, j) == RemoveAt(s, FindColumn(s, j))
    ensures FindColumn(s, j) == |s| ==> Without(s, j) == s
    decreases |s|
  {
    if s != [] && s[0].j != j {
      WithoutAt(s[1..], j);
      var k := FindColumn(s[1..], j);
      if k < |s| - 1 {
        assert s[1..][..k] == s[1..k + 1] && s[1..][k + 1..] == s[k + 2..];
        assert [s[0]] + s[1..k + 1] == s[..k + 1];
      }
    }
  }

  /** KeepsOld is the test on the entry FindColumn finds. */
  lemma {:induction false} KeepsOldAt(s: seq<Node>, n: Node)
    ensures KeepsOld(s, n) <==> FindColumn(s, n.j) < |s| && s[FindColumn(s, n.j)].g <= n.g
    decreases |s|
  {
    if s != [] && s[0].j != n.j {
      KeepsOldAt(s[1..], n);
    }
  }

  /** AddToRow by positions: keep s, or remove the FindColumn entry and insert at InsertPos. */
  lemma AddToRowAt(s: seq<Node>, n: Node, tb: TieBreak)
    ensures var k := FindColumn(s, n.j);
            AddToRow(s, n, tb) ==
            if k < |s| && s[k].g <= n.g then s
            else
              var r := if k < |s| then RemoveAt(s, k) else s;
              r[..InsertPos(r, n, tb)] + [n] + r[InsertPos(r, n, tb)..]
  {
    KeepsOldAt(s, n);
    WithoutAt(s, n.j);
    InsertAt(Without(s, n.j), n, tb);
  }

  /** The scan of `addOpen` for an entry in column j of a bucket. */
  method ColumnIndex(row: seq<Node>, j: int) returns (k: nat)
    ensures k == FindColumn(row, j)
  {
    k := 0;
    while k < |row| && row[k].j != j
      invariant 0 <= k <= |row|
      invariant forall t :: 0 <= t < k ==> row[t].j != j
    {
      k := k + 1;
    }
  }

  /** The scan of `addOpen` for the first entry the new node goes before. */
  method InsertIndex(row: seq<Node>, n: Node, tb: TieBreak) returns (p: nat)
    ensures p == InsertPos(row, n, tb)
  {
    p := 0;
    while p < |row|
      invariant 0 <= p <= |row|
      invariant forall t :: 0 <= t < p ==> !GoesBefore(n, row[t], tb)
    {
      if n.F < row[p].F {
        break;
      }
      if n.F == row[p].F {
        if tb == GMax && n.g >= row[p].g {
          break;
        } else if tb == GMin && n.g < row[p].g {
          break;
        }
      }
      p := p + 1;
    }
  }

  /** Inserting n at InsertPos keeps a bucket sorted. */
  lemma InsertSorted(s: seq<Node>, n: Node, tb: TieBreak)
    requires Sorted(s, tb)
    ensures Sorted(Insert(s, n, tb), tb)
    ensures |Insert(s, n, tb)| == |s| + 1
    ensures forall x :: x in Insert(s, n, tb) <==> x == n || x in s
  {
    var p := InsertPos(s, n, tb);
    var r := Insert(s, n, tb);
    InsertMembers(s, n, tb);
    InsertEntries(s, n, tb);
    forall x, y | 0 <= x < y < |r|
      ensures InOrder(r[x], r[y], tb)
    {
      if y < p {
        assert r[x] == s[x] && r[y] == s[y];
      } else if y == p {
        assert r[x] == s[x] && r[y] == n;
        NotBeforeInOrder(n, s[x], tb);
      } else if x == p {
        assert r[x] == n && r[y] == s[y - 1];
        BeforeInOrder(n, s[p], tb);
        if p < y - 1 {
          InOrderTrans(n, s[p], s[y - 1], tb);
        }
      } else if x < p {
        assert r[x] == s[x] && r[y] == s[y - 1];
      } else {
        assert r[x] == s[x - 1] && r[y] == s[y - 1];
      }
    }
  }

  /** Insert adds n and keeps every other entry. */
  lemma {:induction false} InsertMembers(s: seq<Node>, n: Node, tb: TieBreak)
    ensures forall x :: x in Insert(s, n, tb) <==> x == n || x in s
    decreases |s|
  {
    if s != [] && !GoesBefore(n, s[0], tb) {
      InsertMembers(s[1..], n, tb);
      assert s == [s[0]] + s[1..];
    }
  }

  lemma BeforeInOrder(n: Node, m: Node, tb: TieBreak)
    requires GoesBefore(n, m, tb)
    ensures InOrder(n, m, tb)
  {
  }

  lemma NotBeforeInOrder(n: Node, m: Node, tb: TieBreak)
    requires !GoesBefore(n, m, tb)
    ensures InOrder(m, n, tb)
  {
  }

  lemma InOrderTrans(a: Node, b: Node, c: Node, tb: TieBreak)
    requires InOrder(a, b, tb) && InOrder(b, c, tb)
    ensures InOrder(a, c, tb)
  {
  }

  /** Removing one entry keeps a bucket sorted and its columns unique. */
  lemma RemoveAtKeeps(s: seq<Node>, k: nat, tb: TieBreak)
    requires k < |s|
    ensures |RemoveAt(s, k)| == |s| - 1
    ensures Sorted(s, tb) ==> Sorted(RemoveAt(s, k), tb)
    ensures UniqueColumns(s) ==> UniqueColumns(RemoveAt(s, k))
    ensures forall x :: x in RemoveAt(s, k) ==> x in s
    ensures UniqueColumns(s) ==> forall x :: x in RemoveAt(s, k) ==> x.j != s[k].j
    ensures forall x :: x in s && x != s[k] ==> x in RemoveAt(s, k)
  {
    var r := RemoveAt(s, k);
    assert forall t :: 0 <= t < k ==> r[t] == s[t];
    assert forall t :: k <= t < |r| ==> r[t] == s[t + 1];
    forall x | x in s && x != s[k]
      ensures x in r
    {
      var t :| 0 <= t < |s| && s[t] == x;
      if t < k { assert r[t] == x; } else { assert r[t - 1] == x; }
    }
  }

  /**
   * What `addOpen` does to a sorted bucket with unique columns (the cell not
   * closed): if an entry for n's column has g <= n.g nothing changes;
   * otherwise n replaces that entry (size unchanged) or is added (size + 1),
   * every other entry stays, and the bucket stays sorted with unique columns.
   */
  lemma AddToRowSpec(s: seq<Node>, n: Node, tb: TieBreak)
    requires Sorted(s, tb) && UniqueColumns(s)
    ensures Sorted(AddToRow(s, n, tb), tb) && UniqueColumns(AddToRow(s, n, tb))
    ensures (exists x :: x in s && x.j == n.j && x.g <= n.g) ==> AddToRow(s, n, tb) == s
    ensures !(exists x :: x in s && x.j == n.j && x.g <= n.g) ==>
              n in AddToRow(s, n, tb)
              && (forall x :: x in AddToRow(s, n, tb) ==> x == n || (x in s && x.j != n.j))
              && (forall x :: x in s && x.j != n.j ==> x in AddToRow(s, n, tb))
              && |AddToRow(s, n, tb)| == |s| + (if exists x :: x in s && x.j == n.j then 0 else 1)
  {
    var k := FindColumn(s, n.j);
    KeepsOldAt(s, n);
    WithoutAt(s, n.j);
    if k < |s| {
      assert forall x :: x in s && x.j == n.j ==> x == s[k];
      if s[k].g > n.g {
        var s' := RemoveAt(s, k);
        RemoveAtKeeps(s, k, tb);
        InsertSorted(s', n, tb);
        UniqueAfterInsert(s', n, tb);
      }
    } else {
      InsertSorted(s, n, tb);
      UniqueAfterInsert(s, n, tb);
    }
  }

  lemma UniqueAfterInsert(s: seq<Node>, n: Node, tb: TieBreak)
    requires UniqueColumns(s) && forall x :: x in s ==> x.j != n.j
    ensures UniqueColumns(Insert(s, n, tb))
  {
    InsertEntries(s, n, tb);
  }

  /** The buckets' entries in scan order: row 0 first, each row front to back. */
  function Flatten(rows: seq<seq<Node>>): seq<Node>
    decreases |rows|
  {
    if |rows| == 0 then [] else Flatten(rows[..|rows| - 1]) + rows[|rows| - 1]
  }

  /**
   * Index of the node a front-to-back scan keeps: a later node replaces the
   * running minimum when it goes before it.
   */
  function BestIndex(s: seq<Node>, tb: TieBreak): (b: nat)
    requires |s| > 0
    ensures b < |s|
    decreases |s|
  {
    if |s| == 1 then 0
    else
      var b := BestIndex(s[..|s| - 1], tb);
      if GoesBefore(s[|s| - 1], s[b], tb) then |s| - 1 else b
  }

  /**
   * The kept node has the least F; among the nodes of that F it has the
   * largest g (GMax, the last such on equal g) or the smallest g (GMin,
   * the first such on equal g).
   */
  lemma {:induction false} BestIndexMin(s: seq<Node>, tb: TieBreak)
    requires |s| > 0
    ensures forall m :: 0 <= m < |s| ==> s[BestIndex(s, tb)].F <= s[m].F
    ensures tb == GMax ==> forall m :: 0 <= m < |s| && s[m].F == s[BestIndex(s, tb)].F ==>
              s[m].g < s[BestIndex(s, tb)].g || (s[m].g == s[BestIndex(s, tb)].g && m <= BestIndex(s, tb))
    ensures tb == GMin ==> forall m :: 0 <= m < |s| && s[m].F == s[BestIndex(s, tb)].F ==>
              s[m].g > s[BestIndex(s, tb)].g || (s[m].g == s[BestIndex(s, tb)].g && m >= BestIndex(s, tb))
    decreases |s|
  {
    if |s| > 1 {
      BestIndexMin(s[..|s| - 1], tb);
    }
  }

  /** Replacing one bucket changes the flattened size by the difference in bucket sizes. */
  lemma {:induction false} FlattenUpdate(rows: seq<seq<Node>>, r: nat, b: seq<Node>)
    requires r < |rows|
    ensures |Flatten(rows[r := b])| == |Flatten(rows)| - |rows[r]| + |b|
    decreases |rows|
  {
    var n := |rows|;
    var rows' := rows[r := b];
    if r < n - 1 {
      assert rows'[..n - 1] == rows[..n - 1][r := b];
      FlattenUpdate(rows[..n - 1], r, b);
    } else {
      assert rows'[..n - 1] == rows[..n - 1];
    }
  }

  /** Every entry of the flattened open list sits in one of the buckets, and conversely. */
  lemma {:induction false} FlattenMembers(rows: seq<seq<Node>>, x: Node)
    ensures x in Flatten(rows) <==> exists r :: 0 <= r < |rows| && x in rows[r]
    decreases |rows|
  {
    if |rows| > 0 {
      var front := rows[..|rows| - 1];
      FlattenMembers(front, x);
      if x in Flatten(front) {
        var r :| 0 <= r < |front| && x in front[r];
        assert rows[r] == front[r];
      }
      if exists r :: 0 <= r < |rows| && x in rows[r] {
        var r :| 0 <= r < |rows| && x in rows[r];
        if r < |rows| - 1 {
          assert x in front[r];
        }
      }
    }
  }

  /** Buckets that are all empty flatten to nothing. */
  lemma {:induction false} FlattenAllEmpty(rows: seq<seq<Node>>)
    requires forall r :: 0 <= r < |rows| ==> rows[r] == []
    ensures Flatten(rows) == []
    decreases |rows|
  {
    if |rows| > 0 {
      FlattenAllEmpty(rows[..|rows| - 1]);
    }
  }

  /** One more scanned node: it becomes the kept node exactly when it goes before the previous one. */
  lemma BestIndexSnoc(s: seq<Node>, x: Node, tb: TieBreak)
    ensures s == [] ==> BestIndex(s + [x], tb) == 0
    ensures s != [] ==>
              BestIndex(s + [x], tb) == (if GoesBefore(x, s[BestIndex(s, tb)], tb) then |s| else BestIndex(s, tb))
  {
    assert (s + [x])[..|s|] == s;
  }

  /** The flattened prefix of the buckets grows by one bucket at a time. */
  lemma FlattenSnoc(rows: seq<seq<Node>>, r: nat)
    requires r < |rows|
    ensures Flatten(rows[..r + 1]) == Flatten(rows[..r]) + rows[r]
  {
    assert rows[..r + 1][..r] == rows[..r];
  }
}
