/** The list column's elements, and what the removal loop at the end of a diffing assignment leaves. */
module ListTrimming {
  import opened Tables
  import opened ObjectAccessor

  function ListAt(t: Group, cls: string, row: nat, column: string): seq<Slot> {
    Elements(CellAt(t, cls, row, column))
  }

  /** The elements from position `n` on. */
  function Rest(slots: seq<Slot>, n: nat): seq<Slot> {
    if n <= |slots| then slots[n..] else []
  }

  lemma PutSame(t: Group, cls: string, row: nat, column: string)
    requires CellAt(t, cls, row, column) != Absent
    ensures Put(t, cls, row, column, CellAt(t, cls, row, column)) == t
  {
    var r := RowAt(t, cls, row);
    assert r[column := r[column]] == r;
    PatchSame(t, cls, row);
  }

  lemma PutTwice(t: Group, cls: string, row: nat, column: string, a: Cell, b: Cell)
    ensures Put(Put(t, cls, row, column, a), cls, row, column, b) == Put(t, cls, row, column, b)
    ensures row < Size(t, cls) ==> CellAt(Put(t, cls, row, column, a), cls, row, column) == a
    ensures Size(Put(t, cls, row, column, a), cls) == Size(t, cls)
  {
    var r := RowAt(t, cls, row);
    PatchReads(t, cls, row, r[column := a], cls, row);
    PatchTwice(t, cls, row, r[column := a], r[column := b]);
    assert r[column := a][column := b] == r[column := b];
  }

  /** The removal loop drops exactly the old elements past the new end. */
  lemma {:induction false} TrimToDrops(st: Store, cls: string, row: nat, column: string, keep: seq<Slot>,
                                       extra: seq<Slot>, size: nat)
    requires row < Size(st.tables, cls) && CellAt(st.tables, cls, row, column) == Many(keep + extra)
    requires extra == [] ==> size <= |keep|
    requires extra != [] ==> size == |keep| + |extra|
    ensures var r := TrimTo(st, cls, row, column, |keep|, size);
            r.Done? && r.st.tables == Put(st.tables, cls, row, column, Many(keep))
    decreases |extra|
  {
    if extra == [] {
      assert keep + extra == keep;
      PutSame(st.tables, cls, row, column);
    } else {
      var slots, i := keep + extra, size - 1;
      var fewer := extra[..|extra| - 1];
      assert slots[..i] + slots[i + 1..] == keep + fewer;
      var one := ListRemove(st, cls, row, column, i);
      PutTwice(st.tables, cls, row, column, Many(keep + fewer), Many(keep));
      TrimToDrops(one.st, cls, row, column, keep, fewer, i);
    }
  }
}
