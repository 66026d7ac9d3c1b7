/** The two-exponent product e1*x + e2*y with one shared window table:
  3rdParty/cryptopp890/algebra.cpp, lines 97-170.
*/
module CascadeMultiplication {
  import opened Bits
  import opened Groups

  // ----- the table: the entry at row p2 and column p1 is p1*x + p2*y

  function Row(j: nat, size: nat): nat
    requires size > 0
    decreases j
  {
    if j < size then 0 else 1 + Row(j - size, size)
  }

  function Col(j: nat, size: nat): (c: nat)
    requires size > 0
    ensures c < size
    decreases j
  {
    if j < size then j else Col(j - size, size)
  }

  lemma {:induction false} Position(row: nat, col: nat, size: nat)
    requires col < size
    ensures row * size + col >= 0
    ensures Row(row * size + col, size) == row && Col(row * size + col, size) == col
  {
    if row > 0 {
      assert row * size == (row - 1) * size + size;
      Position(row - 1, col, size);
    }
  }

  lemma {:induction false} Coordinates(j: nat, size: nat)
    requires size > 0
    ensures j == Row(j, size) * size + Col(j, size)
  {
    if j >= size {
      Coordinates(j - size, size);
      assert Row(j, size) * size == Row(j - size, size) * size + size;
    }
  }

  lemma CombUnits<T(!new)>(g: Group<T>, x: T, y: T)
    requires g.Laws()
    ensures Comb(g, 0, x, 0, y) == g.id
    ensures Comb(g, 1, x, 0, y) == x && Comb(g, 0, x, 1, y) == y
  {
    TimesOne(g, x);
    TimesOne(g, y);
    assert g.UnitAt(x) && g.UnitAt(y) && g.UnitAt(g.id);
  }

  lemma CombDouble<T(!new)>(g: Group<T>, x: T, y: T, a: nat, b: nat)
    requires g.Laws() && g.Commute(x, y)
    ensures g.Double(Comb(g, a, x, b, y)) == Comb(g, 2 * a, x, 2 * b, y)
  {
    CombAdd(g, x, y, a, b, a, b);
  }

  /** Value v is the right one for position j. */
  ghost predicate Entry<T(!new)>(g: Group<T>, x: T, y: T, size: nat, j: nat, v: T)
    requires size > 0
  {
    v == Comb(g, Col(j, size), x, Row(j, size), y)
  }

  /** Adding entries adds their coordinates. */
  lemma EntryAdd<T(!new)>(g: Group<T>, x: T, y: T, size: nat, j: nat, v: T, k: nat, u: T, sum: nat)
    requires g.Laws() && g.Commute(x, y) && size > 0
    requires Entry(g, x, y, size, j, v) && Entry(g, x, y, size, k, u)
    requires Col(sum, size) == Col(j, size) + Col(k, size) && Row(sum, size) == Row(j, size) + Row(k, size)
    ensures Entry(g, x, y, size, sum, g.add(v, u))
  {
    CombAdd(g, x, y, Col(j, size), Row(j, size), Col(k, size), Row(k, size));
  }

  lemma {:induction false} NextInColumn(j: nat, k: nat, size: nat)
    requires size > 0 && j <= k < j + size && Col(k, size) == Col(j, size)
    ensures k == j
    decreases j
  {
    if j >= size {
      NextInColumn(j - size, k - size, size);
    }
  }

  lemma {:induction false} RowOf(start: nat, k: nat, size: nat)
    requires size > 0 && Col(start, size) == 0 && start <= k < start + size
    ensures Row(k, size) == Row(start, size) && Col(k, size) == k - start
    decreases start
  {
    if start >= size {
      RowOf(start - size, k - size, size);
    }
  }

  /** The three table shapes: rows of 2, 4 or 8 entries, and as many rows. */
  predicate Shape(size: nat, cells: nat) {
    (size == 2 && cells == 4) || (size == 4 && cells == 16) || (size == 8 && cells == 64)
  }

  /** A position inside the table has its whole row inside the table. */
  lemma RowFits(j: nat, size: nat, cells: nat)
    requires Shape(size, cells) && j < cells && Col(j, size) == 0
    ensures j + size <= cells
  {
    var r := Row(j, size);
    Coordinates(j, size);
    assert size == 2 ==> j == 2 * r;
    assert size == 4 ==> j == 4 * r;
    assert size == 8 ==> j == 8 * r;
  }

  /** The positions written hold the right entries. */
  ghost predicate Filled<T(!new)>(g: Group<T>, x: T, y: T, size: nat, table: array<T>, at: set<nat>)
    reads table
  {
    && g.Laws() && g.Commute(x, y)
    && Shape(size, table.Length)
    && forall j :: j in at ==> j < table.Length && Entry(g, x, y, size, j, table[j])
  }

  lemma FilledShape<T(!new)>(g: Group<T>, x: T, y: T, size: nat, table: array<T>, at: set<nat>)
    requires Filled(g, x, y, size, table, at)
    ensures Shape(size, table.Length)
  {
  }

  method Store<T(!new)>(g: Group<T>, x: T, y: T, size: nat, table: array<T>, ghost at: set<nat>, j: nat, v: T)
    returns (ghost at': set<nat>)
    requires Filled(g, x, y, size, table, at) && j < table.Length && Entry(g, x, y, size, j, v)
    modifies table
    ensures Filled(g, x, y, size, table, at') && at' == at + {j}
  {
    table[j] := v;
    at' := at + {j};
  }

  /** Writes the sum of the entries at j and k to the position where their coordinates add. */
  method StoreSum<T(!new)>(g: Group<T>, x: T, y: T, size: nat, table: array<T>, ghost at: set<nat>, j: nat, k: nat, sum: nat)
    returns (ghost at': set<nat>)
    requires Filled(g, x, y, size, table, at) && j in at && k in at && sum < table.Length
    requires Col(sum, size) == Col(j, size) + Col(k, size) && Row(sum, size) == Row(j, size) + Row(k, size)
    modifies table
    ensures Filled(g, x, y, size, table, at') && at' == at + {sum}
  {
    EntryAdd(g, x, y, size, j, table[j], k, table[k], sum);
    at' := Store(g, x, y, size, table, at, sum, g.add(table[j], table[k]));
  }

  ghost predicate FirstRow(size: nat, to: nat, at: set<nat>) {
    forall k :: 0 <= k < to && k < size && k % 2 == 1 ==> k in at
  }

  /** The odd columns before column i. */
  ghost predicate OddColumns(size: nat, cells: nat, i: nat, at: set<nat>)
    requires size > 0
  {
    forall k :: 0 <= k < cells && Col(k, size) % 2 == 1 && Col(k, size) < i ==> k in at
  }

  ghost predicate FirstColumn(size: nat, cells: nat, to: nat, at: set<nat>)
    requires size > 0
  {
    forall k :: 0 <= k < cells && k < to && Col(k, size) == 0 && Row(k, size) % 2 == 1 ==> k in at
  }

  /** The odd rows before position to. */
  ghost predicate OddRows(size: nat, cells: nat, to: nat, at: set<nat>)
    requires size > 0
  {
    forall k :: 0 <= k < cells && k < to && Row(k, size) % 2 == 1 ==> k in at
  }

  method FillFirstRow<T(!new)>(g: Group<T>, x: T, y: T, size: nat, table: array<T>, ghost at: set<nat>)
    returns (ghost at': set<nat>)
    requires Filled(g, x, y, size, table, at) && size > 2 && 1 in at && 2 in at
    modifies table
    ensures Filled(g, x, y, size, table, at') && at <= at' && FirstRow(size, size, at')
  {
    at' := at;
    var i := 3;
    while i < size
      invariant 3 <= i && i % 2 == 1 && at <= at'
      invariant Filled(g, x, y, size, table, at') && FirstRow(size, i, at')
    {
      at' := StoreSum(g, x, y, size, table, at', i - 2, 2, i);
      i := i + 2;
    }
  }

  lemma NextRow(j: nat, size: nat)
    requires 0 < size <= j
    ensures Row(j, size) == Row(j - size, size) + 1 && Col(j, size) == Col(j - size, size)
  {
  }

  /** The cells of column i before position to. */
  ghost predicate ColumnTo(i: nat, size: nat, cells: nat, to: nat, at: set<nat>)
    requires size > 0
  {
    forall k :: 0 <= k < cells && k < to && Col(k, size) == i ==> k in at
  }

  lemma ColumnBegun(i: nat, size: nat, cells: nat, at: set<nat>)
    requires i < size && i in at
    ensures Col(i + size, size) == i && ColumnTo(i, size, cells, i + size, at)
  {
  }

  lemma ColumnGrows(i: nat, size: nat, cells: nat, j: nat, before: set<nat>, at: set<nat>)
    requires size > 0 && Col(j, size) == i && j in at && ColumnTo(i, size, cells, j, before) && before <= at
    ensures Col(j + size, size) == i && ColumnTo(i, size, cells, j + size, at)
  {
    forall k | j <= k < j + size && Col(k, size) == i ensures k == j {
      NextInColumn(j, k, size);
    }
  }

  lemma ColumnDone(i: nat, size: nat, cells: nat, to: nat, at: set<nat>)
    requires size > 0 && cells <= to && ColumnTo(i, size, cells, to, at)
    ensures forall k :: 0 <= k < cells && Col(k, size) == i ==> k in at
  {
  }

  lemma FirstCells(size: nat)
    requires size > 2
    ensures Row(1, size) == 0 && Col(1, size) == 1
  {
  }

  /** Continues the odd column i upwards from the first row. */
  method FillColumn<T(!new)>(g: Group<T>, x: T, y: T, size: nat, table: array<T>, ghost at: set<nat>, i: nat)
    returns (ghost at': set<nat>)
    requires Filled(g, x, y, size, table, at) && size in at && i < size && i in at
    modifies table
    ensures Filled(g, x, y, size, table, at') && at <= at'
    ensures forall k :: 0 <= k < table.Length && Col(k, size) == i ==> k in at'
  {
    FilledShape(g, x, y, size, table, at);
    SecondRow(size);
    hide *;
    at' := at;
    var j := i + size;
    ColumnBegun(i, size, table.Length, at);
    while j < table.Length
      invariant size <= j && Col(j, size) == i && at <= at' && j - size in at'
      invariant Filled(g, x, y, size, table, at') && ColumnTo(i, size, table.Length, j, at')
    {
      NextRow(j, size);
      ghost var before := at';
      at' := StoreSum(g, x, y, size, table, at', j - size, size, j);
      ColumnGrows(i, size, table.Length, j, before, at');
      j := j + size;
    }
    ColumnDone(i, size, table.Length, j, at');
  }

  method FillOddColumns<T(!new)>(g: Group<T>, x: T, y: T, size: nat, table: array<T>, ghost at: set<nat>)
    returns (ghost at': set<nat>)
    requires Filled(g, x, y, size, table, at) && size > 2 && size in at && FirstRow(size, size, at)
    modifies table
    ensures Filled(g, x, y, size, table, at') && at <= at' && OddColumns(size, table.Length, size, at')
  {
    at' := at;
    var i := 1;
    while i < size
      invariant 1 <= i && i % 2 == 1 && at <= at'
      invariant Filled(g, x, y, size, table, at') && OddColumns(size, table.Length, i, at')
    {
      at' := FillColumn(g, x, y, size, table, at', i);
      i := i + 2;
    }
  }

  /** Position i is the next odd row of the first column; the one before it is filled. */
  ghost predicate UpTo(size: nat, cells: nat, i: nat, at: set<nat>) {
    && size > 0 && 3 * size <= i && FirstColumn(size, cells, i, at) && i - 2 * size in at
    && Col(i, size) == Col(i - 2 * size, size) == 0
    && Row(i, size) % 2 == 1 && Row(i, size) == Row(i - 2 * size, size) + 2
  }

  lemma ColumnStarts(size: nat, cells: nat, at: set<nat>)
    requires size > 0 && size in at
    ensures UpTo(size, cells, 3 * size, at)
  {
    SecondRow(size);
    NextInFirstColumn(size, cells, size, at);
  }

  /** One step up the first column. */
  method StoreTwoUp<T(!new)>(g: Group<T>, x: T, y: T, size: nat, table: array<T>, ghost at: set<nat>, i: nat)
    returns (ghost at': set<nat>)
    requires Filled(g, x, y, size, table, at) && 2 * size in at && i < table.Length && UpTo(size, table.Length, i, at)
    modifies table
    ensures Filled(g, x, y, size, table, at') && at <= at' && UpTo(size, table.Length, i + 2 * size, at')
  {
    SecondRow(size);
    hide Row, Col, Entry, Comb, Filled;
    at' := StoreSum(g, x, y, size, table, at, i - 2 * size, 2 * size, i);
    NextInFirstColumn(size, table.Length, i, at');
  }

  method FillFirstColumn<T(!new)>(g: Group<T>, x: T, y: T, size: nat, table: array<T>, ghost at: set<nat>)
    returns (ghost at': set<nat>)
    requires Filled(g, x, y, size, table, at) && size > 2 && size in at && 2 * size in at
    modifies table
    ensures Filled(g, x, y, size, table, at') && at <= at' && FirstColumn(size, table.Length, table.Length, at')
  {
    at' := at;
    var i := 3 * size;
    ColumnStarts(size, table.Length, at);
    while i < table.Length
      invariant at <= at' && UpTo(size, table.Length, i, at')
      invariant Filled(g, x, y, size, table, at')
    {
      at' := StoreTwoUp(g, x, y, size, table, at', i);
      i := i + 2 * size;
    }
  }

  lemma SecondRow(size: nat)
    requires size > 0
    ensures Row(size, size) == 1 && Col(size, size) == 0
    ensures Row(2 * size, size) == 2 && Col(2 * size, size) == 0
  {
    assert Row(2 * size, size) == 1 + Row(size, size) && Row(size, size) == 1 + Row(0, size);
  }

  lemma NextInFirstColumn(size: nat, cells: nat, i: nat, at: set<nat>)
    requires 0 < size <= i && Col(i, size) == 0 && Row(i, size) % 2 == 1 && i in at
    requires i == size || FirstColumn(size, cells, i, at)
    ensures FirstColumn(size, cells, i + 2 * size, at)
    ensures Col(i + 2 * size, size) == 0 && Row(i + 2 * size, size) == Row(i, size) + 2
  {
    assert Row(i + size, size) == Row(i, size) + 1 && Col(i + size, size) == 0;
    assert Row(i + 2 * size, size) == Row(i + size, size) + 1 && Col(i + 2 * size, size) == 0;
    forall k | i <= k < i + 2 * size && Col(k, size) == 0 && Row(k, size) % 2 == 1 ensures k == i {
      NextInColumn(if k < i + size then i else i + size, k, size);
    }
  }

  /** The cells of the row that starts at i, before position to. */
  ghost predicate RowTo(i: nat, size: nat, to: nat, at: set<nat>) {
    forall k :: i <= k < i + size && k < to ==> k in at
  }

  lemma NoCells(i: nat, size: nat)
    ensures RowTo(i, size, i, {})
  {
  }

  lemma RowAt(i: nat, size: nat, to: nat, k: nat, at: set<nat>)
    requires RowTo(i, size, to, at) && i <= k < i + size && k < to
    ensures k in at
  {
  }

  /** A cell in an even column, and the one in the odd column behind it. */
  lemma RowGrows(i: nat, size: nat, cells: nat, n: nat, j: nat, before: set<nat>, odd: set<nat>, at: set<nat>)
    requires size > 0 && Col(i, size) == 0 && j == i + 2 * n && j < i + size <= cells
    requires RowTo(i, size, j, before) && before <= at && j in at
    requires OddColumns(size, cells, size, odd) && odd <= at
    ensures RowTo(i, size, j + 2, at)
  {
    if j + 1 < i + size {
      RowOf(i, j + 1, size);
      assert j + 1 in odd;
    }
  }

  lemma RowDone(i: nat, size: nat, to: nat, at: set<nat>)
    requires RowTo(i, size, to, at) && i + size <= to
    ensures forall k :: i <= k < i + size ==> k in at
  {
  }

  /** An entry of the row that starts at i, from the one before it. */
  method StoreEven<T(!new)>(g: Group<T>, x: T, y: T, size: nat, table: array<T>, ghost at: set<nat>, ghost i: nat, j: nat)
    returns (ghost at': set<nat>)
    requires Filled(g, x, y, size, table, at) && size > 2 && 1 in at && Col(i, size) == 0
    requires i < j < i + size <= table.Length && j - 1 in at
    modifies table
    ensures Filled(g, x, y, size, table, at') && at' == at + {j}
  {
    FirstCells(size);
    hide *;
    RowOf(i, j - 1, size);
    RowOf(i, j, size);
    at' := StoreSum(g, x, y, size, table, at, j - 1, 1, j);
  }

  /** Completes the row that starts at i from its odd columns. */
  method FillRow<T(!new)>(g: Group<T>, x: T, y: T, size: nat, table: array<T>, ghost at: set<nat>, i: nat)
    returns (ghost at': set<nat>)
    requires Filled(g, x, y, size, table, at) && size > 2 && 1 in at
    requires OddColumns(size, table.Length, size, at) && i in at && Col(i, size) == 0
    modifies table
    ensures Filled(g, x, y, size, table, at') && at <= at'
    ensures forall k :: i <= k < i + size ==> k in at'
  {
    FilledShape(g, x, y, size, table, at);
    RowFits(i, size, table.Length);
    hide *;
    at' := at;
    var j := i + 2;
    ghost var n: nat := 1;
    NoCells(i, size);
    RowGrows(i, size, table.Length, 0, i, {}, at, at);
    while j < i + size
      invariant j == i + 2 * n && n > 0 && at <= at'
      invariant Filled(g, x, y, size, table, at') && RowTo(i, size, j, at')
    {
      ghost var before := at';
      RowAt(i, size, j, j - 1, before);
      at' := StoreEven(g, x, y, size, table, before, i, j);
      RowGrows(i, size, table.Length, n, j, before, at, at');
      j, n := j + 2, n + 1;
    }
    RowDone(i, size, j, at');
  }

  lemma NextOddRow(size: nat, cells: nat, i: nat, at: set<nat>)
    requires size > 0 && Col(i, size) == 0 && Row(i, size) % 2 == 1 && OddRows(size, cells, i, at)
    requires forall k :: i <= k < i + size ==> k in at
    ensures OddRows(size, cells, i + 2 * size, at)
    ensures Col(i + 2 * size, size) == 0 && Row(i + 2 * size, size) % 2 == 1
  {
    assert Row(i + size, size) == Row(i, size) + 1 && Col(i + size, size) == 0;
    assert Row(i + 2 * size, size) == Row(i + size, size) + 1 && Col(i + 2 * size, size) == 0;
    forall k | i + size <= k < i + 2 * size ensures Row(k, size) == Row(i, size) + 1 {
      RowOf(i + size, k, size);
    }
  }

  method FillOddRows<T(!new)>(g: Group<T>, x: T, y: T, size: nat, table: array<T>, ghost at: set<nat>)
    returns (ghost at': set<nat>)
    requires Filled(g, x, y, size, table, at) && size > 2 && 1 in at
    requires OddColumns(size, table.Length, size, at) && FirstColumn(size, table.Length, table.Length, at)
    modifies table
    ensures Filled(g, x, y, size, table, at') && at <= at' && OddRows(size, table.Length, table.Length, at')
  {
    at' := at;
    var i := size;
    while i < table.Length
      invariant size <= i && Col(i, size) == 0 && Row(i, size) % 2 == 1 && at <= at'
      invariant Filled(g, x, y, size, table, at') && OddRows(size, table.Length, i, at')
    {
      at' := FillRow(g, x, y, size, table, at', i);
      NextOddRow(size, table.Length, i, at');
      i := i + 2 * size;
    }
  }

  /** Fills every entry with an odd coordinate; the others may stay unset. */
  method FillTable<T(!new)>(g: Group<T>, x: T, y: T, size: nat, cells: nat, unset: T) returns (table: array<T>, ghost at: set<nat>)
    requires g.Laws() && g.Commute(x, y) && Shape(size, cells)
    ensures fresh(table) && Filled(g, x, y, size, table, at)
    ensures OddColumns(size, cells, size, at) && OddRows(size, cells, cells, at)
    ensures table.Length == cells
  {
    table := new T[cells](_ => unset);
    at := {};
    CombUnits(g, x, y);
    at := Store(g, x, y, size, table, at, 1, x);
    at := Store(g, x, y, size, table, at, size, y);
    if size == 2 {
      at := StoreSum(g, x, y, size, table, at, 1, size, 3);
    } else {
      at := StoreSum(g, x, y, size, table, at, 1, 1, 2);
      at := StoreSum(g, x, y, size, table, at, size, size, 2 * size);
      at := FillFirstRow(g, x, y, size, table, at);
      at := FillOddColumns(g, x, y, size, table, at);
      at := FillFirstColumn(g, x, y, size, table, at);
      at := FillOddRows(g, x, y, size, table, at);
    }
  }

  // ----- the main loop

  lemma Pow2Less(a: nat, b: nat)
    requires Pow2(a) < Pow2(b)
    ensures a < b
  {
    if b <= a {
      Pow2Monotone(b, a);
    }
  }

  /** Half the power of two, twice the factor. */
  lemma Halve(p: nat, n: nat)
    requires n > 0
    ensures Shl(p, n) == Shl(2 * p, n - 1)
  {
    TwiceHalf(p, Pow2(n - 1));
  }

  lemma TwiceHalf(p: int, u: int)
    ensures p * (2 * u) == (2 * p) * u
  {
  }

  /** Doubling a combination n times scales both coefficients by 2^n. */
  method DoubleMany<T(!new)>(g: Group<T>, x: T, y: T, start: T, n: nat, ghost a: nat, ghost b: nat) returns (result: T)
    requires g.Laws() && g.Commute(x, y) && start == Comb(g, a, x, b, y)
    ensures result == Comb(g, Shl(a, n), x, Shl(b, n), y)
  {
    hide Shl, Comb;
    result := start;
    ghost var c, d := a, b;
    var squares := n;
    while squares > 0
      invariant 0 <= squares <= n
      invariant result == Comb(g, c, x, d, y)
      invariant Shl(c, squares) == Shl(a, n) && Shl(d, squares) == Shl(b, n)
    {
      CombDouble(g, x, y, c, d);
      Halve(c, squares);
      Halve(d, squares);
      result := g.Double(result);
      c, d := 2 * c, 2 * d;
      squares := squares - 1;
    }
    ShlZero(c);
    ShlZero(d);
  }

  lemma ShlAtLeast(p: nat, n: nat)
    requires p > 0
    ensures Pow2(n) <= Shl(p, n)
  {
    MulMonotone(1, p, Pow2(n));
  }

  /** Drops the common factors of two from the powers; as many fit before as the powers have bits to spare. */
  method DropZeros(power1: nat, power2: nat, squares: nat, ghost bound: nat)
    returns (p1: nat, p2: nat, squaresBefore: int, squaresAfter: nat)
    requires power1 < Pow2(bound) && power2 < Pow2(bound)
    ensures power1 == Shl(p1, squaresAfter) && power2 == Shl(p2, squaresAfter)
    ensures squaresBefore == squares - squaresAfter
    ensures power1 == 0 && power2 == 0 ==> squaresAfter == 0
    ensures p1 == p2 == 0 || p1 % 2 == 1 || p2 % 2 == 1
    ensures power1 > 0 || power2 > 0 ==> squaresAfter < bound
    ensures p1 <= power1 && p2 <= power2
  {
    hide Shl, Pow2;
    p1, p2, squaresBefore, squaresAfter := power1, power2, squares, 0;
    ShlZero(p1);
    ShlZero(p2);
    while (p1 > 0 || p2 > 0) && p1 % 2 == 0 && p2 % 2 == 0
      invariant power1 == Shl(p1, squaresAfter) && power2 == Shl(p2, squaresAfter)
      invariant squaresBefore == squares - squaresAfter
      invariant power1 == 0 && power2 == 0 ==> squaresAfter == 0 && p1 == p2 == 0
      invariant (power1 > 0 || power2 > 0) ==> (p1 > 0 || p2 > 0)
      invariant p1 <= power1 && p2 <= power2
      decreases p1 + p2
    {
      p1, p2 := p1 / 2, p2 / 2;
      squaresBefore, squaresAfter := squaresBefore - 1, squaresAfter + 1;
      Halve(p1, squaresAfter);
      Halve(p2, squaresAfter);
    }
    if power1 > 0 || power2 > 0 {
      ShlAtLeast(if p1 > 0 then p1 else p2, squaresAfter);
      Pow2Less(squaresAfter, bound);
    }
  }

  lemma Rescale(a: nat, p: nat, before: nat, after: nat)
    ensures Shl(Shl(a, before) + p, after) == Shl(a, before + after) + Shl(p, after)
  {
    Pow2Add(before, after);
    Distribute(a, Pow2(before), p, Pow2(after));
  }

  lemma Distribute(a: int, u: int, p: int, v: int)
    ensures (a * u + p) * v == a * (u * v) + p * v
  {
    assert (a * u) * v == a * (u * v);
  }

  lemma TableIndex(size: nat, cells: nat, p1: nat, p2: nat)
    requires Shape(size, cells) && p1 < size && p2 < size
    ensures 0 <= p2 * size + p1 < cells
    ensures Row(p2 * size + p1, size) == p2 && Col(p2 * size + p1, size) == p1
  {
    Position(p2, p1, size);
    assert size == 2 ==> p2 * size == 2 * p2;
    assert size == 4 ==> p2 * size == 4 * p2;
    assert size == 8 ==> p2 * size == 8 * p2;
  }

  /** The filled entries are those with an odd coordinate. */
  ghost predicate Complete<T(!new)>(g: Group<T>, x: T, y: T, size: nat, table: array<T>)
    reads table
  {
    && g.Laws() && g.Commute(x, y) && Shape(size, table.Length)
    && forall j :: 0 <= j < table.Length && (Col(j, size) % 2 == 1 || Row(j, size) % 2 == 1)
        ==> Entry(g, x, y, size, j, table[j])
  }

  lemma Readable<T(!new)>(g: Group<T>, x: T, y: T, size: nat, table: array<T>)
    requires Complete(g, x, y, size, table)
    ensures g.Laws() && g.Commute(x, y)
  {
  }

  lemma SizePositive<T(!new)>(g: Group<T>, x: T, y: T, size: nat, table: array<T>)
    requires Complete(g, x, y, size, table)
    ensures size > 0
  {
  }

  method ReadTable<T(!new)>(g: Group<T>, x: T, y: T, size: nat, table: array<T>, p1: nat, p2: nat) returns (v: T)
    requires Complete(g, x, y, size, table) && p1 < size && p2 < size && (p1 % 2 == 1 || p2 % 2 == 1)
    ensures v == Comb(g, p1, x, p2, y)
  {
    TableIndex(size, table.Length, p1, p2);
    v := table[p2 * size + p1];
  }

  lemma NoBits()
    ensures forall n: nat {:trigger Shl(0, n)} :: Shl(0, n) == 0
  {
  }

  /** The value so far, shifted up and with an entry of the table added to it. */
  method ShiftAndAdd<T(!new)>(g: Group<T>, x: T, y: T, size: nat, table: array<T>, result: T, ghost a: nat, ghost b: nat,
                              p1: nat, p2: nat, squares: nat)
    returns (result': T)
    requires Complete(g, x, y, size, table) && p1 < size && p2 < size && (p1 == p2 == 0 || p1 % 2 == 1 || p2 % 2 == 1)
    requires result == Comb(g, a, x, b, y)
    ensures result' == Comb(g, Shl(a, squares) + p1, x, Shl(b, squares) + p2, y)
  {
    Readable(g, x, y, size, table);
    hide Shl, Pow2, Comb, Complete;
    result' := DoubleMany(g, x, y, result, squares, a, b);
    if p1 > 0 || p2 > 0 {
      var entry := ReadTable(g, x, y, size, table, p1, p2);
      CombAdd(g, x, y, Shl(a, squares), Shl(b, squares), p1, p2);
      result' := g.add(result', entry);
    }
  }

  /** Takes in one window: the value so far is shifted up by the window's width and the window is added.
    The first window replaces the missing value. */
  method TakeWindow<T(!new)>(g: Group<T>, x: T, y: T, size: nat, table: array<T>, firstTime: bool,
                             result: T, ghost a: nat, ghost b: nat, power1: nat, power2: nat, squares: nat)
    returns (result': T)
    requires Complete(g, x, y, size, table) && power1 < size && power2 < size
    requires firstTime ==> a == 0 && b == 0 && (power1 > 0 || power2 > 0) && power1 < Pow2(squares + 1) && power2 < Pow2(squares + 1)
    requires !firstTime ==> result == Comb(g, a, x, b, y) && power1 < Pow2(squares) && power2 < Pow2(squares)
    ensures result' == Comb(g, Shl(a, squares) + power1, x, Shl(b, squares) + power2, y)
  {
    NoBits();
    Readable(g, x, y, size, table);
    hide Shl, Pow2, Comb, Complete;
    var p1, p2, squaresBefore, squaresAfter :=
      DropZeros(power1, power2, squares, if firstTime then squares + 1 else squares);
    assert squaresBefore >= 0;
    ghost var a', b' := Shl(a, squaresBefore), Shl(b, squaresBefore);
    if firstTime {
      result' := ReadTable(g, x, y, size, table, p1, p2);
    } else {
      result' := ShiftAndAdd(g, x, y, size, table, result, a, b, p1, p2, squaresBefore);
    }
    result' := DoubleMany(g, x, y, result', squaresAfter, a' + p1, b' + p2);
    Rescale(a, p1, squaresBefore, squaresAfter);
    Rescale(b, p2, squaresBefore, squaresAfter);
  }

  // ----- the bits read so far

  lemma {:induction false} ShrBelow(e: nat, i: nat, n: nat)
    requires BitCount(e) <= n && i <= n
    ensures Shr(e, i) < Pow2(n - i)
    decreases n - i
  {
    if i == n {
      ShrZero(e, n);
    } else {
      ShrBelow(e, i + 1, n);
      ShrStep(e, i);
    }
  }

  /** The high bits of e down to bit next are those down to bit prev, followed by the window. */
  ghost predicate Window(e: nat, prev: nat, next: nat, power: nat) {
    next <= prev && power < Pow2(prev - next) && Shr(e, next) == Shl(Shr(e, prev), prev - next) + power
  }

  lemma WindowGrows(e: nat, prev: nat, next: nat, power: nat)
    requires Window(e, prev, next, power) && next > 0
    ensures Window(e, prev, next - 1, 2 * power + GetBit(e, next - 1))
  {
    ShrStep(e, next - 1);
    OneFurther(Shr(e, prev), prev - next);
    hide Shl, Shr;
  }

  lemma OneFurther(h: nat, n: nat)
    ensures Shl(h, n + 1) == 2 * Shl(h, n) && Pow2(n + 1) == 2 * Pow2(n)
  {
  }

  lemma WindowStarts(e: nat, prev: nat)
    ensures Window(e, prev, prev, 0)
  {
    ShlZero(Shr(e, prev));
  }

  /** The part of e already in the result: nothing before the first window. */
  ghost function Taken(e: nat, prev: nat, firstTime: bool): nat {
    if firstTime then 0 else Shr(e, prev)
  }

  /** A window that ends at bit i, with the bits above position prev already taken. */
  ghost predicate Pending(e: nat, prev: nat, i: nat, power: nat, firstTime: bool) {
    && Window(e, if firstTime then prev + 1 else prev, i, power)
    && (firstTime ==> Shr(e, prev + 1) == 0)
  }

  lemma PendingTaken(e: nat, prev: nat, i: nat, power: nat, firstTime: bool)
    requires Pending(e, prev, i, power, firstTime) && i <= prev
    ensures power < Pow2(if firstTime then prev - i + 1 else prev - i)
    ensures Shl(Taken(e, prev, firstTime), prev - i) + power == Shr(e, i)
  {
    if firstTime {
      assert Shl(Shr(e, prev + 1), prev + 1 - i) == 0;
    }
  }

  /** After a window that ends at bit i, the result covers both exponents down to bit i. */
  method AbsorbWindow<T(!new)>(g: Group<T>, x: T, y: T, size: nat, table: array<T>, firstTime: bool, result: T,
                               ghost e1: nat, ghost e2: nat, prev: nat, i: nat, power1: nat, power2: nat)
    returns (result': T)
    requires Complete(g, x, y, size, table) && power1 < size && power2 < size && i <= prev
    requires Pending(e1, prev, i, power1, firstTime) && Pending(e2, prev, i, power2, firstTime)
    requires firstTime ==> Shr(e1, i) > 0 || Shr(e2, i) > 0
    requires !firstTime ==> result == Comb(g, Shr(e1, prev), x, Shr(e2, prev), y)
    ensures result' == Comb(g, Shr(e1, i), x, Shr(e2, i), y)
  {
    PendingTaken(e1, prev, i, power1, firstTime);
    PendingTaken(e2, prev, i, power2, firstTime);
    result' := TakeWindow(g, x, y, size, table, firstTime, result, Taken(e1, prev, firstTime), Taken(e2, prev, firstTime),
                          power1, power2, prev - i);
  }

  lemma PendingGrows(e: nat, prev: nat, next: nat, power: nat, firstTime: bool)
    requires Pending(e, prev, next, power, firstTime) && next > 0
    ensures Pending(e, prev, next - 1, 2 * power + GetBit(e, next - 1), firstTime)
  {
    WindowGrows(e, if firstTime then prev + 1 else prev, next, power);
  }

  lemma PendingStarts(e: nat, prev: nat, firstTime: bool)
    requires firstTime ==> Shr(e, prev + 1) == 0
    ensures Pending(e, prev, if firstTime then prev + 1 else prev, 0, firstTime)
  {
    WindowStarts(e, if firstTime then prev + 1 else prev);
  }

  method BuildTable<T(!new)>(g: Group<T>, x: T, y: T, expLen: nat, unset: T) returns (size: nat, table: array<T>)
    requires g.Laws() && g.Commute(x, y)
    ensures Complete(g, x, y, size, table) && fresh(table)
    ensures (size == 2 <==> expLen <= 46) && (size == 8 <==> expLen > 260)
  {
    var w := if expLen <= 46 then 1 else if expLen <= 260 then 2 else 3;
    size := Pow2(w);
    assert Pow2(1) == 2 && Pow2(2) == 4 && Pow2(3) == 8;
    ghost var at;
    table, at := FillTable(g, x, y, size, size * size, unset);
  }

  /** The state of the main loop when the bits of both exponents from position next on have been read. */
  ghost predicate ReadTo<T(!new)>(g: Group<T>, x: T, e1: nat, y: T, e2: nat, size: nat, next: nat, prev: nat,
                                  firstTime: bool, power1: nat, power2: nat, result: T) {
    && 2 * power1 < size && 2 * power2 < size
    && Pending(e1, prev, next, power1, firstTime) && Pending(e2, prev, next, power2, firstTime)
    && (!firstTime ==> result == Comb(g, Shr(e1, prev), x, Shr(e2, prev), y))
  }

  /** Reads bit i of both exponents, and takes in the window once it is full or the last one. */
  method ReadBit<T(!new)>(g: Group<T>, x: T, e1: nat, y: T, e2: nat, size: nat, table: array<T>, i: nat, prev: nat,
                          firstTime: bool, power1: nat, power2: nat, result: T)
    returns (prev': nat, firstTime': bool, power1': nat, power2': nat, result': T)
    requires Complete(g, x, y, size, table)
    requires ReadTo(g, x, e1, y, e2, size, i + 1, prev, firstTime, power1, power2, result)
    requires i <= prev && (Shr(e1, i) > 0 || Shr(e2, i) > 0)
    ensures ReadTo(g, x, e1, y, e2, size, i, prev', firstTime', power1', power2', result')
    ensures i <= prev' <= prev && (i == 0 ==> !firstTime' && prev' == 0)
  {
    PendingGrows(e1, prev, i + 1, power1, firstTime);
    PendingGrows(e2, prev, i + 1, power2, firstTime);
    power1' := 2 * power1 + GetBit(e1, i);
    power2' := 2 * power2 + GetBit(e2, i);
    prev', firstTime', result' := prev, firstTime, result;
    if i == 0 || 2 * power1' >= size || 2 * power2' >= size {
      result' := AbsorbWindow(g, x, y, size, table, firstTime, result, e1, e2, prev, i, power1', power2');
      prev', firstTime', power1', power2' := i, false, 0, 0;
      PendingStarts(e1, i, false);
      PendingStarts(e2, i, false);
    }
  }

  lemma ReadNothing<T(!new)>(g: Group<T>, x: T, e1: nat, y: T, e2: nat, size: nat, expLen: nat, result: T)
    requires size > 0 && expLen == (if BitCount(e1) >= BitCount(e2) then BitCount(e1) else BitCount(e2)) && expLen > 0
    ensures ReadTo(g, x, e1, y, e2, size, expLen, expLen - 1, true, 0, 0, result)
  {
    TopBits(e1, e2, expLen, 0);
    PendingStarts(e1, expLen - 1, true);
    PendingStarts(e2, expLen - 1, true);
  }

  lemma ReadEverything<T(!new)>(g: Group<T>, x: T, e1: nat, y: T, e2: nat, size: nat, power1: nat, power2: nat, result: T)
    requires ReadTo(g, x, e1, y, e2, size, 0, 0, false, power1, power2, result)
    ensures result == Comb(g, e1, x, e2, y)
  {
    assert Shr(e1, 0) == e1 && Shr(e2, 0) == e2;
  }

  /** For commuting x and y the result is e1*x + e2*y. */
  method CascadeScalarMultiply<T(!new)>(g: Group<T>, x: T, e1: nat, y: T, e2: nat, unset: T) returns (result: T)
    requires g.Laws() && g.Commute(x, y)
    ensures result == g.add(Times(g, e1, x), Times(g, e2, y)) == Comb(g, e1, x, e2, y)
  {
    var expLen := if BitCount(e1) >= BitCount(e2) then BitCount(e1) else BitCount(e2);
    if expLen == 0 {
      CombUnits(g, x, y);
      return g.id;
    }
    hide *;
    var size, table := BuildTable(g, x, y, expLen, unset);
    SizePositive(g, x, y, size, table);
    result := unset;
    var power1: nat, power2: nat, prev: nat := 0, 0, expLen - 1;
    var firstTime := true;
    ReadNothing(g, x, e1, y, e2, size, expLen, result);
    var i := expLen - 1;
    while i >= 0
      invariant -1 <= i < expLen && i <= prev && (i == -1 ==> !firstTime && prev == 0)
      invariant ReadTo(g, x, e1, y, e2, size, i + 1, prev, firstTime, power1, power2, result)
      modifies {}
    {
      TopBits(e1, e2, expLen, i);
      prev, firstTime, power1, power2, result :=
        ReadBit(g, x, e1, y, e2, size, table, i, prev, firstTime, power1, power2, result);
      i := i - 1;
    }
    ReadEverything(g, x, e1, y, e2, size, power1, power2, result);
  }

  /** From the top bit on, one of the two exponents has a set bit. */
  lemma TopBits(e1: nat, e2: nat, expLen: nat, i: nat)
    requires expLen == (if BitCount(e1) >= BitCount(e2) then BitCount(e1) else BitCount(e2)) && i < expLen
    ensures Shr(e1, i) > 0 || Shr(e2, i) > 0
    ensures Shr(e1, expLen) == 0 && Shr(e2, expLen) == 0
  {
    ShrZero(e1, expLen);
    ShrZero(e2, expLen);
    if BitCount(e1) >= BitCount(e2) {
      ShrPositive(e1, i);
    } else {
      ShrPositive(e2, i);
    }
  }
}
