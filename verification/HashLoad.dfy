// When the table of sys/container/hashset.c is given more or fewer chains.

module HashLoad {
  import opened HashSet

  // The row of the capacity table after a run, from the sizes of the maps it goes
  // through: one up when an added key reaches the limit of the row, one down when
  // after a removal the row below would do.
  ghost function RowAfter(ops: seq<Op>, row: nat, f: Functions): (r: nat)
    requires row < 42
    ensures r < 42
  {
    if ops == [] then row
    else
      var before := ops[..|ops| - 1];
      NextRow(RowAfter(before, row, f), |MapAfter(before, f)|, |MapAfter(ops, f)|)
  }

  function NextRow(row: nat, size: nat, newSize: nat): (r: nat)
    requires row < 42
    ensures r < 42
  {
    if newSize > size && row < 41 && newSize >= MaxCount(row) then row + 1
    else if newSize < size && 1 <= row < 41 && newSize <= MaxCount(row - 1) then row - 1
    else row
  }

  lemma RowOfCapacity(i: nat)
    requires i < 42
    ensures Row(Capacity(i)) == i
  {
    var r := Row(Capacity(i));
    if i < r {
      RowIsFirst(Capacity(i), 0, i);
    } else if r < i {
      CapacitiesGrow(r, i);
    }
  }

  lemma LimitsGrow(i: nat)
    requires i < 41
    ensures MaxCount(i) < MaxCount(i + 1) && MaxCount(i) < Capacity(i)
  {
  }

  lemma ExpandRow(t: Table, f: Functions, i: nat, size: nat)
    requires i < 42 && |t.chains| == Capacity(i) && t.count == size + 1
    ensures |Expand(t, f).chains| == Capacity(NextRow(i, size, size + 1))
  {
    RowOfCapacity(i);
  }

  lemma ShrinkRow(t: Table, f: Functions, i: nat)
    requires i < 42 && |t.chains| == Capacity(i)
    ensures |Shrink(t, f).chains| == Capacity(NextRow(i, t.count + 1, t.count))
  {
    RowOfCapacity(i);
  }

  // What a safe operation does to the count and to the number of chains.
  ghost predicate Moves(t: Table, r: Table, i: nat)
    requires i < 42
  {
    || r == t
    || (r.count == t.count + 1 && |r.chains| == Capacity(NextRow(i, t.count, t.count + 1)))
    || (r.count == (t.count + WORD - 1) % WORD && |r.chains| == Capacity(NextRow(i, r.count + 1, r.count)))
  }

  lemma RemoveMoves(t: Table, key: Pointer, f: Functions, i: nat)
    requires i < 42 && |t.chains| == Capacity(i)
    ensures Moves(t, Remove(t, key, f), i)
  {
    if Found(t, key, f) {
      ShrinkRow(Dropped(t, key, f), f, i);
    }
  }

  lemma SetAddsOne(t: Table, data: Pointer, key: Pointer, f: Functions)
    requires |t.chains| > 0 && SafeSet(t, data, key, f) && data != NULL
    ensures Set(t, data, key, f) == if Lookup(t, key, f) != NULL then t else Expand(Added(t, data, key, f), f)
    ensures Lookup(t, key, f) == NULL ==> Added(t, data, key, f).count == t.count + 1
  {
  }

  lemma SetMoves(t: Table, data: Pointer, key: Pointer, f: Functions, i: nat)
    requires i < 42 && |t.chains| == Capacity(i) && SafeSet(t, data, key, f) && data != NULL
    ensures Moves(t, Set(t, data, key, f), i)
  {
    SetAddsOne(t, data, key, f);
    if Lookup(t, key, f) == NULL {
      ExpandRow(Added(t, data, key, f), f, i, t.count);
    }
  }

  lemma StepMoves(t: Table, op: Op, f: Functions, i: nat)
    requires i < 42 && |t.chains| == Capacity(i) && Safe(t, op, f)
    ensures Moves(t, Apply(t, op, f), i)
  {
    if op.RemoveOp? || op.data == NULL {
      RemoveMoves(t, op.key, f, i);
    } else {
      SetMoves(t, op.data, op.key, f, i);
    }
  }

  lemma OneLess(size: nat, newSize: nat)
    requires newSize == (size + WORD - 1) % WORD && size < WORD && newSize <= size + 1
    ensures size == newSize + 1
  {
  }

  lemma MovesRow(t: Table, r: Table, i: nat)
    requires i < 42 && |t.chains| == Capacity(i) && t.count < WORD && Moves(t, r, i) && r.count <= t.count + 1
    ensures |r.chains| == Capacity(NextRow(i, t.count, r.count))
  {
    if r != t && r.count != t.count + 1 {
      OneLess(t.count, r.count);
    }
  }

  lemma ApplySizes(m: map<Pointer, Pointer>, op: Op, f: Functions)
    ensures |ApplyMap(m, op, f)| <= |m| + 1
  {
    SubsetSize(ApplyMap(m, op, f).Keys, m.Keys + {op.key});
  }

  lemma {:induction false} SubsetSize(a: set<Pointer>, b: set<Pointer>)
    requires a <= b
    ensures |a| <= |b|
  {
    if x :| x in a {
      SubsetSize(a - {x}, b - {x});
    }
  }

  lemma StepSizes(t: Table, m: map<Pointer, Pointer>, op: Op, f: Functions, i: nat)
    requires Hashing(f) && Refines(t, m, f) && Safe(t, op, f) && i < 42 && |t.chains| == Capacity(i)
    ensures |Apply(t, op, f).chains| == Capacity(NextRow(i, |m|, |ApplyMap(m, op, f)|))
  {
    StepMoves(t, op, f, i);
    StepRefines(t, m, op, f);
    ApplySizes(m, op, f);
    MovesRow(t, Apply(t, op, f), i);
  }

  // In every run on a new table whose steps are safe, the number of chains follows the
  // number of keys alone, and all but the largest table have more chains than keys.
  lemma {:induction false} RunRow(ops: seq<Op>, requested: nat, f: Functions)
    requires Hashing(f) && SafeRun(ops, Capacity(InitialRow(requested)), f)
    ensures var row := RowAfter(ops, InitialRow(requested), f);
      && |TableAfter(ops, Capacity(InitialRow(requested)), f).chains| == Capacity(row)
      && (row < 41 ==> |MapAfter(ops, f)| <= MaxCount(row) < Capacity(row))
  {
    var first := InitialRow(requested);
    if ops == [] {
      LimitsGrow(first);
    } else {
      var before := ops[..|ops| - 1];
      var row := RowAfter(before, first, f);
      RunRow(before, requested, f);
      RunRefines(before, Capacity(first), f);
      StepSizes(TableAfter(before, Capacity(first), f), MapAfter(before, f), ops[|ops| - 1], f, row);
      ApplySizes(MapAfter(before, f), ops[|ops| - 1], f);
      RowBounds(row, |MapAfter(before, f)|, |MapAfter(ops, f)|);
    }
  }

  lemma RowBounds(row: nat, size: nat, newSize: nat)
    requires row < 42 && newSize <= size + 1 && (row < 41 ==> size <= MaxCount(row))
    ensures var r := NextRow(row, size, newSize); r < 41 ==> newSize <= MaxCount(r) < Capacity(r)
  {
    var r := NextRow(row, size, newSize);
    if r < 41 { LimitsGrow(r); }
    if row < 41 { LimitsGrow(row); }
  }
}
