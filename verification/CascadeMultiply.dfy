/** `AbstractGroup::CascadeScalarMultiply` (algebra.cpp): e1·x + e2·y in one pass over both
    exponents, with a table of small combinations of x and y. */
module CascadeMultiplication {
  import opened Bits
  import opened Groups

  /** a·x + b·y */
  function Combo<T>(g: Group<T>, a: nat, x: T, b: nat, y: T): T {
    g.add(Mul(g, a, x), Mul(g, b, y))
  }

  lemma {:induction false} ComboAdd<T(!new)>(g: Group<T>, a: nat, b: nat, c: nat, d: nat, s: nat, t: nat, x: T, y: T)
    requires Lawful(g) && g.mem(x) && g.mem(y) && s == a + c && t == b + d
    ensures Combo(g, s, x, t, y) == g.add(Combo(g, a, x, b, y), Combo(g, c, x, d, y))
    ensures g.mem(Combo(g, a, x, b, y))
  {
    MulAdd(g, a, c, x);
    MulAdd(g, b, d, y);
    MulMember(g, a, x);
    MulMember(g, c, x);
    MulMember(g, b, y);
    MulMember(g, d, y);
    AddMember(g, Mul(g, a, x), Mul(g, b, y));
    SwapMiddle(g, Mul(g, a, x), Mul(g, b, y), Mul(g, c, x), Mul(g, d, y));
  }

  lemma {:induction false} ComboUnits<T(!new)>(g: Group<T>, x: T, y: T)
    requires Lawful(g) && g.mem(x) && g.mem(y)
    ensures Combo(g, 1, x, 0, y) == x && Combo(g, 0, x, 1, y) == y && Combo(g, 0, x, 0, y) == g.id
  {
    MulOne(g, x);
    MulOne(g, y);
    UnitRight(g, x);
    UnitRight(g, y);
    UnitRight(g, g.id);
  }

  // ----- the table: entry (b << w) + a holds a·x + b·y

  ghost predicate Holds<T>(g: Group<T>, table: seq<T>, k: nat, w: nat, x: T, y: T) {
    k < |table| && table[k] == Combo(g, Low(k, w), x, Shr(k, w), y)
  }

  /** Writing only right values keeps every entry that was right. */
  ghost predicate Extends<T>(g: Group<T>, old_: seq<T>, table: seq<T>, w: nat, x: T, y: T) {
    |table| == |old_| && forall k :: Holds(g, old_, k, w, x, y) ==> Holds(g, table, k, w, x, y)
  }

  lemma {:induction false} NextRow(k: nat, next: nat, w: nat)
    requires next == k + Pow2(w)
    ensures Low(next, w) == Low(k, w) && Shr(next, w) == Shr(k, w) + 1
  {
    Split(k, w);
    ShlAdd(Shr(k, w), 1, w);
    Pow2IsShl(w);
    SplitUnique(next, w, Shr(k, w) + 1, Low(k, w));
  }

  lemma {:induction false} NextTwoRows(k: nat, next: nat, w: nat)
    requires next == k + 2 * Pow2(w)
    ensures Low(next, w) == Low(k, w) && Shr(next, w) == Shr(k, w) + 2
  {
    NextRow(k, k + Pow2(w), w);
    NextRow(k + Pow2(w), next, w);
  }

  lemma {:induction false} FirstColumn(w: nat)
    ensures Low(Pow2(w), w) == 0 && Shr(Pow2(w), w) == 1
    ensures Low(2 * Pow2(w), w) == 0 && Shr(2 * Pow2(w), w) == 2
  {
    Pow2IsShl(w);
    ShlAdd(1, 1, w);
    SplitUnique(Pow2(w), w, 1, 0);
    SplitUnique(2 * Pow2(w), w, 2, 0);
  }

  lemma {:induction false} FirstEntries(w: nat)
    requires w >= 1
    ensures Low(1, w) == 1 && Shr(1, w) == 0
    ensures w >= 2 ==> Low(2, w) == 2 && Shr(2, w) == 0
  {
    if w >= 2 {
      assert Pow2(w) == 4 * Pow2(w - 2);
      ShrZero(2, w);
    }
    ShrZero(1, w);
  }

  lemma {:induction false} InRow(i: nat, j: nat, c: nat, w: nat)
    requires Low(i, w) == 0 && c < Pow2(w) && j == i + c
    ensures Low(j, w) == c && Shr(j, w) == Shr(i, w)
  {
    Split(i, w);
    SplitUnique(j, w, Shr(i, w), c);
  }

  lemma {:induction false} CellOrder(j: nat, k: nat, w: nat)
    requires Low(j, w) == Low(k, w)
    ensures Shr(j, w) == Shr(k, w) ==> j == k
    ensures k < j ==> Shr(k, w) < Shr(j, w)
  {
    Split(j, w);
    Split(k, w);
    ShlMonotone(Shr(j, w), Shr(k, w), w);
  }

  /** `powerTable[j] = Add(powerTable[p], v)`, where v is c·x + d·y and j is c columns and d rows from p. */
  method PutSum<T(!new)>(g: Group<T>, table: seq<T>, w: nat, x: T, y: T, j: nat, p: nat, v: T,
                         ghost c: nat, ghost d: nat, ghost origin: seq<T>)
    returns (t: seq<T>)
    requires Lawful(g) && g.mem(x) && g.mem(y) && j < |table|
    requires Holds(g, table, p, w, x, y) && v == Combo(g, c, x, d, y)
    requires Low(j, w) == Low(p, w) + c && Shr(j, w) == Shr(p, w) + d && Extends(g, origin, table, w, x, y)
    ensures Extends(g, origin, t, w, x, y) && Extends(g, table, t, w, x, y) && Holds(g, t, j, w, x, y)
  {
    ComboAdd(g, Low(p, w), Shr(p, w), c, d, Low(j, w), Shr(j, w), x, y);
    t := table[j := g.add(table[p], v)];
  }

  ghost predicate FirstRowDone<T>(g: Group<T>, t: seq<T>, w: nat, x: T, y: T, column: nat) {
    forall k :: 0 <= k < column && k < Pow2(w) && k % 2 == 1 ==> Holds(g, t, k, w, x, y)
  }

  lemma {:induction false} FirstRowStep<T>(g: Group<T>, before: seq<T>, t: seq<T>, w: nat, x: T, y: T, i: nat)
    requires FirstRowDone(g, before, w, x, y, i) && Extends(g, before, t, w, x, y)
    requires i % 2 == 1 && Holds(g, t, i, w, x, y)
    ensures FirstRowDone(g, t, w, x, y, i + 2)
  {
    forall k | 0 <= k < i + 2 && k < Pow2(w) && k % 2 == 1
      ensures Holds(g, t, k, w, x, y)
    {
      assert k == i || k == i + 1 || Holds(g, before, k, w, x, y);
    }
  }

  /** Row 0, odd columns: a·x. */
  method FillFirstRow<T(!new)>(g: Group<T>, table: seq<T>, w: nat, x: T, y: T) returns (t: seq<T>)
    requires Lawful(g) && g.mem(x) && g.mem(y) && w >= 2 && |table| >= Pow2(w)
    requires Holds(g, table, 1, w, x, y) && Holds(g, table, 2, w, x, y)
    ensures Extends(g, table, t, w, x, y)
    ensures FirstRowDone(g, t, w, x, y, Pow2(w))
  {
    t := table;
    var tableSize := Pow2(w);
    FirstEntries(w);
    FirstRowStep(g, t, t, w, x, y, 1);
    var i: nat, two := 3, table[2];
    while i < tableSize
      invariant i % 2 == 1 && i >= 3 && Holds(g, t, i - 2, w, x, y)
      invariant Extends(g, table, t, w, x, y) && FirstRowDone(g, t, w, x, y, i)
      decreases tableSize - i
    {
      ghost var before := t;
      var p := i - 2;
      ShrZero(i, w);
      ShrZero(p, w);
      t := PutSum(g, t, w, x, y, i, p, two, 2, 0, table);
      FirstRowStep(g, before, t, w, x, y, i);
      i := i + 2;
    }
  }

  ghost predicate ColumnDone<T>(g: Group<T>, t: seq<T>, w: nat, x: T, y: T, column: nat, row: nat) {
    forall k :: 0 <= k < |t| && Low(k, w) == column && Shr(k, w) < row ==> Holds(g, t, k, w, x, y)
  }

  lemma {:induction false} ColumnStep<T>(g: Group<T>, before: seq<T>, t: seq<T>, w: nat, x: T, y: T, j: nat,
                                         column: nat, row: nat)
    requires ColumnDone(g, before, w, x, y, column, row) && Extends(g, before, t, w, x, y)
    requires Low(j, w) == column && Shr(j, w) == row && Holds(g, t, j, w, x, y)
    ensures ColumnDone(g, t, w, x, y, column, row + 1)
  {
    forall k | 0 <= k < |t| && Low(k, w) == column && Shr(k, w) < row + 1
      ensures Holds(g, t, k, w, x, y)
    {
      CellOrder(j, k, w);
      assert k == j || Holds(g, before, k, w, x, y);
    }
  }

  lemma {:induction false} ColumnComplete<T>(g: Group<T>, t: seq<T>, w: nat, x: T, y: T, j: nat, column: nat,
                                             row: nat)
    requires ColumnDone(g, t, w, x, y, column, row) && j >= |t| && Low(j, w) == column && Shr(j, w) == row
    ensures forall k :: 0 <= k < |t| && Low(k, w) == column ==> Holds(g, t, k, w, x, y)
  {
    forall k | 0 <= k < |t| && Low(k, w) == column ensures Shr(k, w) < row { CellOrder(j, k, w); }
  }

  /** One column, given its entry in row 0. */
  method FillColumn<T(!new)>(g: Group<T>, table: seq<T>, w: nat, x: T, y: T, i: nat) returns (t: seq<T>)
    requires Lawful(g) && g.mem(x) && g.mem(y) && i < Pow2(w)
    requires Holds(g, table, i, w, x, y)
    ensures Extends(g, table, t, w, x, y)
    ensures forall k :: 0 <= k < |t| && Low(k, w) == i ==> Holds(g, t, k, w, x, y)
  {
    t := table;
    var tableSize := Pow2(w);
    ShrZero(i, w);
    var j := i + tableSize;
    ghost var row := 1;
    NextRow(i, j, w);
    ComboUnits(g, x, y);
    ColumnStep(g, t, t, w, x, y, i, i, 0);
    while j < |t|
      invariant j >= tableSize && Low(j, w) == i && Shr(j, w) == row >= 1
      invariant Extends(g, table, t, w, x, y) && ColumnDone(g, t, w, x, y, i, row)
    {
      NextRow(j - tableSize, j, w);
      NextRow(j, j + tableSize, w);
      ghost var before := t;
      t := PutSum(g, t, w, x, y, j, j - tableSize, y, 0, 1, table);
      ColumnStep(g, before, t, w, x, y, j, i, row);
      j, row := j + tableSize, row + 1;
    }
    ColumnComplete(g, t, w, x, y, j, i, row);
  }

  method FillOddColumns<T(!new)>(g: Group<T>, table: seq<T>, w: nat, x: T, y: T) returns (t: seq<T>)
    requires Lawful(g) && g.mem(x) && g.mem(y)
    requires FirstRowDone(g, table, w, x, y, Pow2(w))
    ensures Extends(g, table, t, w, x, y)
    ensures forall k :: 0 <= k < |t| && Low(k, w) % 2 == 1 ==> Holds(g, t, k, w, x, y)
  {
    t := table;
    var i := 1;
    while i < Pow2(w)
      invariant i % 2 == 1
      invariant Extends(g, table, t, w, x, y)
      invariant forall k :: 0 <= k < |t| && Low(k, w) % 2 == 1 && Low(k, w) < i ==> Holds(g, t, k, w, x, y)
      decreases Pow2(w) - i
    {
      ghost var before := t;
      assert Holds(g, table, i, w, x, y);
      t := FillColumn(g, t, w, x, y, i);
      forall k | 0 <= k < |t| && Low(k, w) % 2 == 1 && Low(k, w) < i + 2
        ensures Holds(g, t, k, w, x, y)
      {
        assert Low(k, w) == i || Holds(g, before, k, w, x, y);
      }
      i := i + 2;
    }
  }

  ghost predicate FirstColumnDone<T>(g: Group<T>, t: seq<T>, w: nat, x: T, y: T, row: nat) {
    forall k :: 0 <= k < |t| && Low(k, w) == 0 && Shr(k, w) % 2 == 1 && Shr(k, w) < row ==> Holds(g, t, k, w, x, y)
  }

  lemma {:induction false} FirstColumnStep<T>(g: Group<T>, before: seq<T>, t: seq<T>, w: nat, x: T, y: T, i: nat,
                                              row: nat)
    requires FirstColumnDone(g, before, w, x, y, row) && Extends(g, before, t, w, x, y)
    requires Low(i, w) == 0 && Shr(i, w) == row && row % 2 == 1 && Holds(g, t, i, w, x, y)
    ensures FirstColumnDone(g, t, w, x, y, row + 2)
  {
    forall k | 0 <= k < |t| && Low(k, w) == 0 && Shr(k, w) % 2 == 1 && Shr(k, w) < row + 2
      ensures Holds(g, t, k, w, x, y)
    {
      CellOrder(i, k, w);
      assert k == i || Holds(g, before, k, w, x, y);
    }
  }

  lemma {:induction false} FirstColumnComplete<T>(g: Group<T>, t: seq<T>, w: nat, x: T, y: T, i: nat, row: nat)
    requires FirstColumnDone(g, t, w, x, y, row) && i >= |t| && Low(i, w) == 0 && Shr(i, w) == row
    ensures forall k :: 0 <= k < |t| && Low(k, w) == 0 && Shr(k, w) % 2 == 1 ==> Holds(g, t, k, w, x, y)
  {
    forall k | 0 <= k < |t| && Low(k, w) == 0 ensures Shr(k, w) < row { CellOrder(i, k, w); }
  }

  /** Column 0, odd rows: b·y. */
  method FillFirstColumn<T(!new)>(g: Group<T>, table: seq<T>, w: nat, x: T, y: T) returns (t: seq<T>)
    requires Lawful(g) && g.mem(x) && g.mem(y)
    requires Holds(g, table, Pow2(w), w, x, y) && Holds(g, table, 2 * Pow2(w), w, x, y)
    ensures Extends(g, table, t, w, x, y)
    ensures forall k :: 0 <= k < |t| && Low(k, w) == 0 && Shr(k, w) % 2 == 1 ==> Holds(g, t, k, w, x, y)
  {
    t := table;
    var tableSize := Pow2(w);
    FirstColumn(w);
    NextTwoRows(tableSize, 3 * tableSize, w);
    FirstColumnStep(g, t, t, w, x, y, tableSize, 1);
    var p: nat, i: nat, twice := tableSize, 3 * tableSize, table[2 * tableSize];
    ghost var row := 1;
    while i < |t|
      invariant i == p + 2 * tableSize
      invariant Low(i, w) == 0 && Shr(i, w) == row + 2
      invariant Low(p, w) == 0 && Shr(p, w) == row && row % 2 == 1 && (p < |t| ==> Holds(g, t, p, w, x, y))
      invariant Extends(g, table, t, w, x, y) && FirstColumnDone(g, t, w, x, y, row + 2)
      decreases |t| - i
    {
      ghost var before := t;
      t := PutSum(g, t, w, x, y, i, p, twice, 0, 2, table);
      FirstColumnStep(g, before, t, w, x, y, i, row + 2);
      var next := i + 2 * tableSize;
      NextTwoRows(i, next, w);
      p, i, row := i, next, row + 2;
    }
    FirstColumnComplete(g, t, w, x, y, i, row + 2);
  }

  ghost predicate RowDone<T>(g: Group<T>, t: seq<T>, w: nat, x: T, y: T, row: nat, column: nat) {
    forall k :: 0 <= k < |t| && Shr(k, w) == row && Low(k, w) % 2 == 0 && 2 <= Low(k, w) < column ==>
      Holds(g, t, k, w, x, y)
  }

  lemma {:induction false} EvenStep(c: nat, column: nat)
    requires c % 2 == 0 && column % 2 == 0 && c < column + 2
    ensures c <= column
  {
  }

  lemma {:induction false} RowStep<T>(g: Group<T>, before: seq<T>, t: seq<T>, w: nat, x: T, y: T, j: nat, row: nat,
                                      column: nat)
    requires RowDone(g, before, w, x, y, row, column) && Extends(g, before, t, w, x, y)
    requires Shr(j, w) == row && Low(j, w) == column && column % 2 == 0 && Holds(g, t, j, w, x, y)
    ensures RowDone(g, t, w, x, y, row, column + 2)
  {
    forall k | 0 <= k < |t| && Shr(k, w) == row && Low(k, w) % 2 == 0 && 2 <= Low(k, w) < column + 2
      ensures Holds(g, t, k, w, x, y)
    {
      EvenStep(Low(k, w), column);
      if Low(k, w) == column {
        CellOrder(j, k, w);
      } else {
        assert Holds(g, before, k, w, x, y);
      }
    }
  }

  /** The even columns of one row, from the odd ones. */
  method FillRow<T(!new)>(g: Group<T>, table: seq<T>, w: nat, x: T, y: T, i: nat) returns (t: seq<T>)
    requires Lawful(g) && g.mem(x) && g.mem(y) && Low(i, w) == 0 && i + Pow2(w) <= |table|
    requires forall k :: 0 <= k < |table| && Low(k, w) % 2 == 1 ==> Holds(g, table, k, w, x, y)
    ensures Extends(g, table, t, w, x, y)
    ensures RowDone(g, t, w, x, y, Shr(i, w), Pow2(w))
  {
    t := table;
    var tableSize := Pow2(w);
    ComboUnits(g, x, y);
    var j := i + 2;
    while j < i + tableSize
      invariant j >= i + 2 && (j - i) % 2 == 0
      invariant Extends(g, table, t, w, x, y) && RowDone(g, t, w, x, y, Shr(i, w), j - i)
    {
      ghost var before, column := t, j - i;
      var p := j - 1;
      InRow(i, j, column, w);
      InRow(i, p, column - 1, w);
      assert Holds(g, table, p, w, x, y);
      t := PutSum(g, t, w, x, y, j, p, x, 1, 0, table);
      RowStep(g, before, t, w, x, y, j, Shr(i, w), column);
      j := j + 2;
    }
  }

  method FillOddRows<T(!new)>(g: Group<T>, table: seq<T>, w: nat, x: T, y: T) returns (t: seq<T>)
    requires Lawful(g) && g.mem(x) && g.mem(y) && |table| == Pow2(w + w)
    requires forall k :: 0 <= k < |table| && Low(k, w) % 2 == 1 ==> Holds(g, table, k, w, x, y)
    ensures Extends(g, table, t, w, x, y)
    ensures forall k :: 0 <= k < |t| && Shr(k, w) % 2 == 1 && Low(k, w) % 2 == 0 && Low(k, w) >= 2 ==>
              Holds(g, t, k, w, x, y)
  {
    t := table;
    var tableSize := Pow2(w);
    FirstColumn(w);
    var i: nat := tableSize;
    ghost var row := 1;
    while i < |t|
      invariant Low(i, w) == 0 && Shr(i, w) == row && row % 2 == 1
      invariant Extends(g, table, t, w, x, y)
      invariant forall k :: 0 <= k < |t| && Shr(k, w) % 2 == 1 && Low(k, w) % 2 == 0 && Low(k, w) >= 2 ==>
                  Shr(k, w) < row ==> Holds(g, t, k, w, x, y)
      decreases |t| - i
    {
      WholeRow(i, w);
      ghost var before := t;
      t := FillRow(g, t, w, x, y, i);
      forall k | 0 <= k < |t| && Shr(k, w) % 2 == 1 && Low(k, w) % 2 == 0 && Low(k, w) >= 2 && Shr(k, w) < row + 2
        ensures Holds(g, t, k, w, x, y)
      {
        assert (Shr(k, w) == row && Low(k, w) < Pow2(w)) || Holds(g, before, k, w, x, y);
      }
      NextTwoRows(i, i + 2 * tableSize, w);
      i, row := i + 2 * tableSize, row + 2;
    }
    forall k | 0 <= k < |t| ensures Shr(k, w) < row { RowOrder(i, k, w); }
  }

  /** A row that starts inside the table lies inside it. */
  lemma {:induction false} WholeRow(i: nat, w: nat)
    requires Low(i, w) == 0 && i < Pow2(w + w)
    ensures i + Pow2(w) <= Pow2(w + w)
  {
    Split(i, w);
    Pow2Add(w, w);
    Pow2IsShl(w);
    ShlAdd(Shr(i, w), 1, w);
    ShlMonotone(Pow2(w), Shr(i, w), w);
    ShlMonotone(Shr(i, w) + 1, Pow2(w), w);
  }

  lemma {:induction false} RowOrder(i: nat, k: nat, w: nat)
    requires Low(i, w) == 0 && k < i
    ensures Shr(k, w) < Shr(i, w)
  {
    Split(i, w);
    Split(k, w);
    ShlMonotone(Shr(i, w), Shr(k, w), w);
  }

  lemma {:induction false} SmallTable<T(!new)>(g: Group<T>, t: seq<T>, x: T, y: T)
    requires Lawful(g) && g.mem(x) && g.mem(y)
    requires |t| == 4 && t[1] == x && t[2] == y && t[3] == g.add(x, y)
    ensures forall k :: 1 <= k < 4 ==> Holds(g, t, k, 1, x, y)
    ensures Low(0, 1) == 0 && Shr(0, 1) == 0
  {
    ComboUnits(g, x, y);
    ComboAdd(g, 1, 0, 0, 1, 1, 1, x, y);
    assert Low(1, 1) == 1 && Shr(1, 1) == 0;
    assert Low(2, 1) == 0 && Shr(2, 1) == 1;
    assert Low(3, 1) == 1 && Shr(3, 1) == 1;
  }

  lemma {:induction false} SeedTable<T(!new)>(g: Group<T>, t: seq<T>, x: T, y: T, w: nat)
    requires Lawful(g) && g.mem(x) && g.mem(y) && w >= 2
    requires |t| > 2 * Pow2(w) && t[1] == x && t[Pow2(w)] == y
    requires t[2] == g.add(x, x) && t[2 * Pow2(w)] == g.add(y, y)
    ensures Holds(g, t, 1, w, x, y) && Holds(g, t, 2, w, x, y)
    ensures Holds(g, t, Pow2(w), w, x, y) && Holds(g, t, 2 * Pow2(w), w, x, y)
  {
    ComboUnits(g, x, y);
    ComboAdd(g, 1, 0, 1, 0, 2, 0, x, y);
    ComboAdd(g, 0, 1, 0, 1, 0, 2, x, y);
    FirstEntries(w);
    FirstColumn(w);
  }

  /** Every entry with an odd column or an odd row is right. */
  ghost predicate TableReady<T>(g: Group<T>, t: seq<T>, w: nat, x: T, y: T) {
    && |t| == Pow2(w + w)
    && forall k :: 0 <= k < |t| && (Low(k, w) % 2 == 1 || Shr(k, w) % 2 == 1) ==> Holds(g, t, k, w, x, y)
  }

  /** The three groups of entries together are all that is needed. */
  lemma {:induction false} TableComplete<T>(g: Group<T>, columns: seq<T>, column0: seq<T>, t: seq<T>, w: nat, x: T,
                                            y: T)
    requires |t| == Pow2(w + w)
    requires forall k :: 0 <= k < |columns| && Low(k, w) % 2 == 1 ==> Holds(g, columns, k, w, x, y)
    requires forall k :: 0 <= k < |column0| && Low(k, w) == 0 && Shr(k, w) % 2 == 1 ==> Holds(g, column0, k, w, x, y)
    requires forall k :: 0 <= k < |t| && Shr(k, w) % 2 == 1 && Low(k, w) % 2 == 0 && Low(k, w) >= 2 ==>
               Holds(g, t, k, w, x, y)
    requires Extends(g, columns, column0, w, x, y) && Extends(g, column0, t, w, x, y)
    ensures TableReady(g, t, w, x, y)
  {
    forall k | 0 <= k < |t| && (Low(k, w) % 2 == 1 || Shr(k, w) % 2 == 1)
      ensures Holds(g, t, k, w, x, y)
    {
      if Low(k, w) % 2 == 1 {
        assert Holds(g, columns, k, w, x, y);
      } else if Low(k, w) == 0 {
        assert Holds(g, column0, k, w, x, y);
      }
    }
  }

  method FillTable<T(!new)>(g: Group<T>, table: seq<T>, x: T, y: T, w: nat) returns (t: seq<T>)
    requires Lawful(g) && g.mem(x) && g.mem(y) && w >= 2
    requires |table| == Pow2(w + w)
    requires Holds(g, table, 1, w, x, y) && Holds(g, table, 2, w, x, y)
    requires Holds(g, table, Pow2(w), w, x, y) && Holds(g, table, 2 * Pow2(w), w, x, y)
    ensures TableReady(g, t, w, x, y)
  {
    Pow2Monotone(w, w + w);
    t := FillFirstRow(g, table, w, x, y);
    t := FillOddColumns(g, t, w, x, y);
    ghost var columns := t;
    t := FillFirstColumn(g, t, w, x, y);
    ghost var column0 := t;
    t := FillOddRows(g, t, w, x, y);
    TableComplete(g, columns, column0, t, w, x, y);
  }

  method PowerTable<T(!new)>(g: Group<T>, x: T, y: T, w: nat) returns (t: seq<T>)
    requires Lawful(g) && g.mem(x) && g.mem(y) && 1 <= w <= 3
    ensures TableReady(g, t, w, x, y)
  {
    var tableSize := Pow2(w);
    t := seq(Pow2(w + w), _ => g.id);
    if w == 1 {
      t := t[1 := x][tableSize := y][3 := g.add(x, y)];
      SmallTable(g, t, x, y);
    } else {
      Pow2Monotone(w + 2, w + w);
      assert tableSize == 4 * Pow2(w - 2);
      t := t[1 := x][tableSize := y];
      t := t[2 := g.add(x, x)][2 * tableSize := g.add(y, y)];
      SeedTable(g, t, x, y, w);
      t := FillTable(g, t, x, y, w);
    }
  }

  /** Entry (b << w) + a, for a and b not both even. */
  lemma {:induction false} Lookup<T>(g: Group<T>, t: seq<T>, w: nat, x: T, y: T, a: nat, b: nat)
    requires TableReady(g, t, w, x, y) && a < Pow2(w) && b < Pow2(w) && (a % 2 == 1 || b % 2 == 1)
    ensures 0 <= Shl(b, w) + a < |t| && t[Shl(b, w) + a] == Combo(g, a, x, b, y)
  {
    ShlNat(b, w);
    SplitUnique(Shl(b, w) + a, w, b, a);
    Pow2Add(w, w);
    Pow2IsShl(w);
    ShlAdd(b, 1, w);
    ShlMonotone(b + 1, Pow2(w), w);
    assert Holds(g, t, Shl(b, w) + a, w, x, y);
  }

  // ----- the main loop

  /** `while (n--) result = Double(result)` */
  method DoubleTimes<T(!new)>(g: Group<T>, r: T, n: nat, ghost a: nat, ghost b: nat, ghost x: T, ghost y: T)
    returns (result: T)
    requires Lawful(g) && g.mem(x) && g.mem(y) && r == Combo(g, a, x, b, y)
    ensures Shl(a, n) >= 0 && Shl(b, n) >= 0 && result == Combo(g, Shl(a, n), x, Shl(b, n), y)
  {
    result := r;
    for i := 0 to n
      invariant Shl(a, i) >= 0 && Shl(b, i) >= 0 && result == Combo(g, Shl(a, i), x, Shl(b, i), y)
    {
      ComboAdd(g, Shl(a, i), Shl(b, i), Shl(a, i), Shl(b, i), Shl(a, i + 1), Shl(b, i + 1), x, y);
      result := g.add(result, result);
    }
    ShlNat(a, n);
    ShlNat(b, n);
  }

  /** Common factors of two are moved from before the addition to after it. The count of
      doublings before it never goes below zero. */
  method HalveTogether(p1: nat, p2: nat, before: nat, ghost width: nat)
    returns (power1: nat, power2: nat, squaresBefore: nat, squaresAfter: nat)
    requires p1 < Pow2(width) && p2 < Pow2(width) && width <= before + 1
    ensures p1 == Shl(power1, squaresAfter) && p2 == Shl(power2, squaresAfter)
    ensures squaresBefore + squaresAfter == before
    ensures power1 <= p1 && power2 <= p2
    ensures p1 == 0 && p2 == 0 ==> power1 == 0 && power2 == 0
    ensures p1 != 0 || p2 != 0 ==> power1 % 2 == 1 || power2 % 2 == 1
  {
    power1, power2, squaresBefore, squaresAfter := p1, p2, before, 0;
    while (power1 != 0 || power2 != 0) && power1 % 2 == 0 && power2 % 2 == 0
      invariant p1 == Shl(power1, squaresAfter) && p2 == Shl(power2, squaresAfter)
      invariant squaresBefore + squaresAfter == before
      invariant power1 <= p1 && power2 <= p2
      invariant p1 != 0 || p2 != 0 ==> power1 != 0 || power2 != 0
      decreases power1 + power2
    {
      ShlAdd(power1 / 2, power1 / 2, squaresAfter);
      ShlAdd(power2 / 2, power2 / 2, squaresAfter);
      StillWider(power1, squaresAfter, width);
      StillWider(power2, squaresAfter, width);
      power1, power2 := power1 / 2, power2 / 2;
      squaresBefore, squaresAfter := squaresBefore - 1, squaresAfter + 1;
    }
    if p1 == 0 && p2 == 0 {
      Pow2IsShl(squaresAfter);
    }
  }

  /** An even non-zero power shifted by s fits in `width` bits only if s + 1 < width. */
  lemma {:induction false} StillWider(power: nat, s: nat, width: nat)
    requires Shl(power, s) < Pow2(width)
    ensures power >= 2 ==> s + 1 < width
  {
    if power >= 2 {
      ShlMonotone(2, power, s);
      ShlAdd(1, 1, s);
      Pow2IsShl(s);
      assert Pow2(s + 1) < Pow2(width);
      Pow2Order(s + 1, width);
    }
  }

  /** Doubling `before` times, adding p and doubling `after` times. */
  lemma {:induction false} Reassemble(high: nat, before: nat, p: nat, after: nat, total: nat, whole: nat, goal: int)
    returns (sum: nat)
    requires total == before + after && whole == Shl(p, after) && goal == Shl(high, total) + whole
    ensures Shl(high, before) >= 0 && sum == Shl(high, before) + p && Shl(sum, after) == goal
  {
    ShlNat(high, before);
    sum := Shl(high, before) + p;
    ShlAdd(Shl(high, before), p, after);
    ShlShl(high, before, after);
  }

  /** Doubling and adding the table entry, unless the window is empty. */
  method AddWindow<T(!new)>(g: Group<T>, table: seq<T>, w: nat, r: T, power1: nat, power2: nat, squaresBefore: nat,
                            ghost a: nat, ghost b: nat, ghost a': nat, ghost b': nat, ghost x: T, ghost y: T)
    returns (result: T)
    requires Lawful(g) && g.mem(x) && g.mem(y) && TableReady(g, table, w, x, y)
    requires power1 < Pow2(w) && power2 < Pow2(w)
    requires power1 != 0 || power2 != 0 ==> power1 % 2 == 1 || power2 % 2 == 1
    requires r == Combo(g, a, x, b, y)
    requires a' == Shl(a, squaresBefore) + power1 && b' == Shl(b, squaresBefore) + power2
    ensures result == Combo(g, a', x, b', y)
  {
    result := DoubleTimes(g, r, squaresBefore, a, b, x, y);
    if power1 != 0 || power2 != 0 {
      var index := Shl(power2, w) + power1;
      Lookup(g, table, w, x, y, power1, power2);
      ComboAdd(g, Shl(a, squaresBefore), Shl(b, squaresBefore), power1, power2, a', b', x, y);
      result := g.add(result, table[index]);
    }
  }

  /** The window branch the first time: the accumulator is read from the table. */
  method FirstWindow<T(!new)>(g: Group<T>, table: seq<T>, w: nat, p1: nat, p2: nat, squares: nat,
                              ghost x: T, ghost y: T)
    returns (result: T)
    requires Lawful(g) && g.mem(x) && g.mem(y) && TableReady(g, table, w, x, y)
    requires p1 < Pow2(w) && p2 < Pow2(w) && (p1 != 0 || p2 != 0)
    requires p1 < Pow2(squares + 1) && p2 < Pow2(squares + 1)
    ensures result == Combo(g, p1, x, p2, y)
  {
    var power1, power2, squaresBefore, squaresAfter := HalveTogether(p1, p2, squares, squares + 1);
    Lookup(g, table, w, x, y, power1, power2);
    result := table[Shl(power2, w) + power1];
    result := DoubleTimes(g, result, squaresAfter, power1, power2, x, y);
  }

  /** The window branch later on: a and b are what the accumulator stands for, a' and b' what it
      stands for with the window appended. */
  method NextWindow<T(!new)>(g: Group<T>, table: seq<T>, w: nat, r: T, p1: nat, p2: nat, squares: nat,
                             ghost a: nat, ghost b: nat, ghost a': nat, ghost b': nat, ghost x: T, ghost y: T)
    returns (result: T)
    requires Lawful(g) && g.mem(x) && g.mem(y) && TableReady(g, table, w, x, y)
    requires p1 < Pow2(w) && p2 < Pow2(w)
    requires p1 < Pow2(squares) && p2 < Pow2(squares)
    requires r == Combo(g, a, x, b, y)
    requires a' == Shl(a, squares) + p1 && b' == Shl(b, squares) + p2
    ensures result == Combo(g, a', x, b', y)
  {
    var power1, power2, squaresBefore, squaresAfter := HalveTogether(p1, p2, squares, squares);
    ghost var a0 := Reassemble(a, squaresBefore, power1, squaresAfter, squares, p1, a');
    ghost var b0 := Reassemble(b, squaresBefore, power2, squaresAfter, squares, p2, b');
    result := AddWindow(g, table, w, r, power1, power2, squaresBefore, a, b, a0, b0, x, y);
    result := DoubleTimes(g, result, squaresAfter, a0, b0, x, y);
  }

  /** Appending the next bit to a prefix of e. */
  lemma {:induction false} NextBit(e: nat, prev: nat, i: nat, power: nat)
    requires i < prev
    requires Shr(e, i + 1) == Shl(Shr(e, prev), prev - (i + 1)) + power
    ensures Shr(e, i) == Shl(Shr(e, prev), prev - i) + 2 * power + if GetBit(e, i) then 1 else 0
  {
    assert Shr(e, i + 1) == Shr(e, i) / 2;
  }

  lemma {:induction false} PrefixWidth(e: nat, len: nat, i: nat)
    requires e < Pow2(len) && i <= len
    ensures Shr(e, i) < Pow2(len - i)
  {
    if i != 0 {
      PrefixWidth(e, len, i - 1);
    }
  }

  lemma {:induction false} TopBitStays(e: nat, len: nat, i: nat)
    requires len >= 1 && Pow2(len - 1) <= e && i < len
    ensures Shr(e, i) >= Pow2(len - 1 - i)
  {
    if i != 0 {
      TopBitStays(e, len, i - 1);
    }
  }

  function BitValue(e: nat, i: nat): nat {
    if GetBit(e, i) then 1 else 0
  }

  /** What is known before bit p - 1 is read: the bits of e1 and e2 from p up are in the
      accumulator, or in `power1` and `power2`. */
  ghost predicate Scanned<T>(g: Group<T>, r: T, firstTime: bool, power1: nat, power2: nat, prev: nat, p: nat,
                             e1: nat, e2: nat, x: T, y: T, expLen: nat)
  {
    if firstTime then
      prev == expLen - 1 && p <= expLen && power1 == Shr(e1, p) && power2 == Shr(e2, p)
    else
      && p <= prev
      && r == Combo(g, Shr(e1, prev), x, Shr(e2, prev), y)
      && Shr(e1, p) == Shl(Shr(e1, prev), prev - p) + power1 && power1 < Pow2(prev - p)
      && Shr(e2, p) == Shl(Shr(e2, prev), prev - p) + power2 && power2 < Pow2(prev - p)
  }

  lemma {:induction false} ScanBit<T>(g: Group<T>, r: T, firstTime: bool, power1: nat, power2: nat, prev: nat, p: nat,
                                      i: nat, power1': nat, power2': nat, e1: nat, e2: nat, x: T, y: T, expLen: nat)
    requires expLen >= 1 && i < expLen && p == i + 1
    requires Scanned(g, r, firstTime, power1, power2, prev, p, e1, e2, x, y, expLen)
    requires power1' == 2 * power1 + BitValue(e1, i) && power2' == 2 * power2 + BitValue(e2, i)
    ensures Scanned(g, r, firstTime, power1', power2', prev, i, e1, e2, x, y, expLen)
  {
    if !firstTime {
      NextBit(e1, prev, i, power1);
      NextBit(e2, prev, i, power2);
    }
  }

  /** The first window is never empty, and both parts fit the bits scanned so far. */
  lemma {:induction false} FirstWindowBounds(e1: nat, e2: nat, expLen: nat, i: nat)
    requires expLen >= 1 && i < expLen
    requires expLen == if BitCount(e1) < BitCount(e2) then BitCount(e2) else BitCount(e1)
    ensures Shr(e1, i) < Pow2(expLen - i) && Shr(e2, i) < Pow2(expLen - i)
    ensures Shr(e1, i) != 0 || Shr(e2, i) != 0
  {
    Pow2Monotone(BitCount(e1), expLen);
    Pow2Monotone(BitCount(e2), expLen);
    PrefixWidth(e1, expLen, i);
    PrefixWidth(e2, expLen, i);
    TopBitStays(if BitCount(e1) < BitCount(e2) then e2 else e1, expLen, i);
  }

  method EmitWindow<T(!new)>(g: Group<T>, table: seq<T>, w: nat, r: T, firstTime: bool, power1: nat, power2: nat,
                             prev: nat, i: nat, ghost e1: nat, ghost e2: nat, ghost x: T, ghost y: T,
                             ghost expLen: nat)
    returns (result: T)
    requires Lawful(g) && g.mem(x) && g.mem(y) && TableReady(g, table, w, x, y)
    requires power1 < Pow2(w) && power2 < Pow2(w) && expLen >= 1 && i < expLen
    requires expLen == if BitCount(e1) < BitCount(e2) then BitCount(e2) else BitCount(e1)
    requires Scanned(g, r, firstTime, power1, power2, prev, i, e1, e2, x, y, expLen)
    ensures Scanned(g, result, false, 0, 0, i, i, e1, e2, x, y, expLen)
  {
    if firstTime {
      FirstWindowBounds(e1, e2, expLen, i);
      result := FirstWindow(g, table, w, power1, power2, prev - i, x, y);
    } else {
      result := NextWindow(g, table, w, r, power1, power2, prev - i, Shr(e1, prev), Shr(e2, prev), Shr(e1, i),
                           Shr(e2, i), x, y);
    }
  }

  /** For all non-negative exponents the result is e1·x + e2·y. */
  method CascadeScalarMultiply<T(!new)>(g: Group<T>, x: T, e1: nat, y: T, e2: nat) returns (result: T)
    requires Lawful(g) && g.mem(x) && g.mem(y)
    ensures result == g.add(Mul(g, e1, x), Mul(g, e2, y)) && g.mem(result)
  {
    var expLen := if BitCount(e1) < BitCount(e2) then BitCount(e2) else BitCount(e1);
    ComboAdd(g, e1, e2, 0, 0, e1, e2, x, y);
    if expLen == 0 {
      ComboUnits(g, x, y);
      return g.id;
    }
    var w := if expLen <= 46 then 1 else if expLen <= 260 then 2 else 3;
    var powerTable := PowerTable(g, x, y, w);
    result := ScanExponents(g, powerTable, w, x, e1, y, e2, expLen);
  }

  /** The loop over the bits, from the top down. */
  method ScanExponents<T(!new)>(g: Group<T>, table: seq<T>, w: nat, ghost x: T, e1: nat, ghost y: T, e2: nat,
                                expLen: nat)
    returns (result: T)
    requires Lawful(g) && g.mem(x) && g.mem(y) && TableReady(g, table, w, x, y) && w >= 1
    requires expLen >= 1 && expLen == if BitCount(e1) < BitCount(e2) then BitCount(e2) else BitCount(e1)
    ensures result == Combo(g, e1, x, e2, y)
  {
    StartScan(e1, e2, expLen);
    var tableSize := Pow2(w);
    result := g.id;
    var power1: nat, power2: nat, prevPosition: nat, firstTime := 0, 0, expLen - 1, true;
    var i: nat := expLen;
    while i > 0
      invariant i <= expLen
      invariant Scanned(g, result, firstTime, power1, power2, prevPosition, i, e1, e2, x, y, expLen)
      invariant 2 * power1 < tableSize && 2 * power2 < tableSize
      invariant i == 0 ==> !firstTime && prevPosition == 0
    {
      ghost var p, power1', power2' := i, power1, power2;
      i := i - 1;
      power1, power2 := 2 * power1 + BitValue(e1, i), 2 * power2 + BitValue(e2, i);
      ScanBit(g, result, firstTime, power1', power2', prevPosition, p, i, power1, power2, e1, e2, x, y, expLen);
      if i == 0 || 2 * power1 >= tableSize || 2 * power2 >= tableSize {
        result := EmitWindow(g, table, w, result, firstTime, power1, power2, prevPosition, i, e1, e2, x, y, expLen);
        prevPosition, firstTime, power1, power2 := i, false, 0, 0;
      }
    }
  }

  lemma {:induction false} StartScan(e1: nat, e2: nat, expLen: nat)
    requires expLen == if BitCount(e1) < BitCount(e2) then BitCount(e2) else BitCount(e1)
    ensures Shr(e1, expLen) == 0 && Shr(e2, expLen) == 0
  {
    Pow2Monotone(BitCount(e1), expLen);
    Pow2Monotone(BitCount(e2), expLen);
    ShrZero(e1, expLen);
    ShrZero(e2, expLen);
  }
}
