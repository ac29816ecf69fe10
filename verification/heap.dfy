/** The priority queue of the search (`oheap` in `astar`): a bag of
    (f-score, cell) entries with extract-min. Python's `heapq` compares the
    tuples `(f, (row, col))` lexicographically, so the order below is total
    and the minimum is unique once no cell occurs twice. Only the contents of
    the sequence matter, never the order of its positions. */
module Heap {
  import opened Grid

  datatype Entry = Entry(key: int, cell: Cell)

  /** Tuple comparison `a <= b` on `(key, (row, col))`: keys decide first,
      and an entry is at most itself. */
  predicate EntryLe(a: Entry, b: Entry)
    ensures a.key < b.key ==> EntryLe(a, b)
    ensures EntryLe(a, b) ==> a.key <= b.key
    ensures a == b ==> EntryLe(a, b)
  {
    || a.key < b.key
    || (a.key == b.key && a.cell.row < b.cell.row)
    || (a.key == b.key && a.cell.row == b.cell.row && a.cell.col <= b.cell.col)
  }

  lemma EntryLeTotalOrder(a: Entry, b: Entry, c: Entry)
    ensures EntryLe(a, a)
    ensures EntryLe(a, b) || EntryLe(b, a)
    ensures EntryLe(a, b) && EntryLe(b, a) ==> a == b
    ensures EntryLe(a, b) && EntryLe(b, c) ==> EntryLe(a, c)
  {
  }

  /** The cells that have an entry in the heap. */
  function Cells(h: seq<Entry>): set<Cell> {
    set i | 0 <= i < |h| :: h[i].cell
  }

  /** No cell has two entries. */
  predicate DistinctCells(h: seq<Entry>) {
    forall i, j | 0 <= i < j < |h| :: h[i].cell != h[j].cell
  }

  predicate IsMin(h: seq<Entry>, k: int) {
    0 <= k < |h| && forall i | 0 <= i < |h| :: EntryLe(h[k], h[i])
  }

  /** The position of the smallest entry. */
  function MinIndex(h: seq<Entry>): (k: nat)
    requires |h| > 0
    ensures IsMin(h, k)
  {
    if |h| == 1 then 0
    else
      var k := MinIndex(h[..|h| - 1]);
      if EntryLe(h[k], h[|h| - 1]) then k else |h| - 1
  }

  /** With distinct cells there is only one smallest entry, so every
      extract-min implementation (in particular `heappop`) removes the same
      entry. */
  lemma MinIsUnique(h: seq<Entry>, k: int)
    requires DistinctCells(h) && |h| > 0
    requires IsMin(h, k)
    ensures k == MinIndex(h)
  {
    var m := MinIndex(h);
    EntryLeTotalOrder(h[k], h[m], h[m]);
  }

  /** The heap with position `k` taken out. */
  function Remove(h: seq<Entry>, k: nat): (r: seq<Entry>)
    requires k < |h|
    ensures multiset(r) + multiset{h[k]} == multiset(h)
    ensures forall e | e in r :: e in h
  {
    assert h == h[..k] + [h[k]] + h[k + 1..];
    h[..k] + h[k + 1..]
  }

  /** Removing the entry of a cell from a heap of distinct cells removes
      exactly that cell and keeps the rest distinct. */
  lemma RemoveCells(h: seq<Entry>, k: nat)
    requires k < |h| && DistinctCells(h)
    ensures DistinctCells(Remove(h, k))
    ensures Cells(Remove(h, k)) == Cells(h) - {h[k].cell}
  {
    var r := Remove(h, k);
    assert forall i | 0 <= i < |r| :: r[i] == (if i < k then h[i] else h[i + 1]);
    forall c | c in Cells(h) - {h[k].cell} ensures c in Cells(r) {
      var i :| 0 <= i < |h| && h[i].cell == c;
      if i < k {
        assert r[i].cell == c;
      } else {
        assert r[i - 1].cell == c;
      }
    }
  }

  /** Pushing an entry for a cell not yet in the heap keeps cells distinct. */
  lemma PushCells(h: seq<Entry>, e: Entry)
    requires DistinctCells(h) && e.cell !in Cells(h)
    ensures DistinctCells(h + [e])
    ensures Cells(h + [e]) == Cells(h) + {e.cell}
  {
    var r := h + [e];
    assert r[|h|] == e;
    forall c | c in Cells(h) ensures c in Cells(r) {
      var i :| 0 <= i < |h| && h[i].cell == c;
      assert r[i].cell == c;
    }
  }
}
