/**
  The parking usage heatmap: slot ids such as `A1` or `B3` are laid out on a
  grid (the letter names the row, the digits the column), allocations are
  counted per slot id, and each slot's cell of the grid receives its count.
 */
module Heatmap {
  import opened Wrappers

  // ---------------------------------------------------------------------------
  // Parsing one slot id
  // ---------------------------------------------------------------------------

  /** A cell of the grid: row and column, both counted from 0. */
  datatype Position = Position(row: int, col: int)

  predicate IsDigit(ch: char) {
    '0' <= ch <= '9'
  }

  predicate IsLetter(ch: char) {
    'A' <= ch <= 'Z' || 'a' <= ch <= 'z'
  }

  /** Upper-casing of one character, on the ASCII letters. */
  function Upper(ch: char): (u: char)
    ensures 'a' <= ch <= 'z' ==> u as int == ch as int - 32
    ensures !('a' <= ch <= 'z') ==> u == ch
  {
    if 'a' <= ch <= 'z' then (ch as int - 32) as char else ch
  }

  /** The row of a slot id: its first character, upper-cased, counted from `A`. */
  function RowOf(sid: string): (r: int)
    requires |sid| > 0
    ensures (0 <= r < 26) <==> IsLetter(sid[0])
    ensures 'A' <= sid[0] <= 'Z' ==> r == sid[0] as int - 'A' as int
    ensures 'a' <= sid[0] <= 'z' ==> r == sid[0] as int - 'a' as int
  {
    Upper(sid[0]) as int - 'A' as int
  }

  /** The digit characters of `s`, in order, every other character dropped. */
  function Digits(s: string): (ds: string)
    ensures |ds| <= |s|
    ensures forall i | 0 <= i < |ds| :: IsDigit(ds[i])
  {
    if s == [] then [] else (if IsDigit(s[0]) then [s[0]] else []) + Digits(s[1..])
  }

  /** The number a run of decimal digits denotes (leading zeros allowed). */
  function DigitsValue(ds: string): nat
    requires forall i | 0 <= i < |ds| :: IsDigit(ds[i])
  {
    if ds == [] then 0
    else
      var last := ds[|ds| - 1];
      assert IsDigit(last);
      DigitsValue(ds[..|ds| - 1]) * 10 + (last as int - '0' as int)
  }

  /** The column of a slot id: the number formed by the digits after the first
      character, minus one; 0 when there are no such digits (`int('')` fails). */
  function ColOf(sid: string): (c: int)
    requires |sid| > 0
    ensures c >= -1
    ensures Digits(sid[1..]) == [] ==> c == 0
  {
    var ds := Digits(sid[1..]);
    if ds == [] then 0 else DigitsValue(ds) - 1
  }

  /** The cell a slot id names. */
  function PositionOf(sid: string): Position
    requires |sid| > 0
  {
    Position(RowOf(sid), ColOf(sid))
  }

  // ---------------------------------------------------------------------------
  // The inverse direction: the canonical id of a cell
  // ---------------------------------------------------------------------------

  function DigitChar(d: nat): (ch: char)
    requires d < 10
    ensures IsDigit(ch) && ch as int - '0' as int == d
  {
    ('0' as int + d) as char
  }

  /** The decimal numeral of `n`, without leading zeros. */
  function Decimal(n: nat): (s: string)
    ensures |s| > 0
    ensures forall i | 0 <= i < |s| :: IsDigit(s[i])
    ensures n > 0 ==> s[0] != '0'
  {
    if n < 10 then [DigitChar(n)] else Decimal(n / 10) + [DigitChar(n % 10)]
  }

  /** The id naming row `row` and column `col`: a capital letter and the 1-based column number. */
  function SlotName(row: nat, col: nat): (sid: string)
    requires row < 26
    ensures |sid| > 0 && 'A' <= sid[0] <= 'Z'
  {
    [('A' as int + row) as char] + Decimal(col + 1)
  }

  lemma {:induction false} DigitsOfDigits(s: string)
    requires forall i | 0 <= i < |s| :: IsDigit(s[i])
    ensures Digits(s) == s
  {
    if s != [] {
      DigitsOfDigits(s[1..]);
    }
  }

  lemma {:induction false} DecimalValue(n: nat)
    ensures DigitsValue(Decimal(n)) == n
  {
    if n >= 10 {
      DecimalValue(n / 10);
      var s := Decimal(n);
      assert s[..|s| - 1] == Decimal(n / 10);
    }
  }

  /** Parsing the canonical id of a cell gives that cell back. */
  lemma PositionOfSlotName(row: nat, col: nat)
    requires row < 26
    ensures PositionOf(SlotName(row, col)) == Position(row, col)
  {
    var sid := SlotName(row, col);
    assert sid[1..] == Decimal(col + 1);
    DigitsOfDigits(Decimal(col + 1));
    DecimalValue(col + 1);
  }

  /** A leading zero does not change the number a digit run denotes, so `A01` and `A1`
      name the same column. */
  lemma {:induction false} LeadingZero(ds: string)
    requires forall i | 0 <= i < |ds| :: IsDigit(ds[i])
    ensures forall i | 0 <= i < |['0'] + ds| :: IsDigit((['0'] + ds)[i])
    ensures DigitsValue(['0'] + ds) == DigitsValue(ds)
  {
    var zs := ['0'] + ds;
    assert forall i | 0 <= i < |zs| :: IsDigit(zs[i]) by {
      assert forall i | 1 <= i < |zs| :: zs[i] == ds[i - 1];
    }
    if ds != [] {
      var init := ds[..|ds| - 1];
      assert zs[..|zs| - 1] == ['0'] + init;
      LeadingZero(init);
    }
  }

  /** Characters other than digits contribute nothing to the digit run. */
  lemma {:induction false} DigitsAppend(s: string, t: string)
    ensures Digits(s + t) == Digits(s) + Digits(t)
  {
    if s == [] {
      assert s + t == t;
    } else {
      DigitsAppend(s[1..], t);
      var head := if IsDigit(s[0]) then [s[0]] else [];
      assert (s + t)[0] == s[0];
      assert (s + t)[1..] == s[1..] + t;
      calc {
        Digits(s + t);
        head + Digits(s[1..] + t);
        head + (Digits(s[1..]) + Digits(t));
        (head + Digits(s[1..])) + Digits(t);
        Digits(s) + Digits(t);
      }
    }
  }

  /** Inserting a non-digit anywhere after the first character leaves the position unchanged. */
  lemma PositionIgnoresNonDigits(sid: string, k: nat, ch: char)
    requires 1 <= k <= |sid|
    requires !IsDigit(ch)
    ensures PositionOf(sid[..k] + [ch] + sid[k..]) == PositionOf(sid)
  {
    var sid' := sid[..k] + [ch] + sid[k..];
    assert sid'[1..] == sid[1..k] + [ch] + sid[k..];
    assert sid[1..] == sid[1..k] + sid[k..];
    assert sid'[0] == sid[0];
    DigitsAppend(sid[1..k] + [ch], sid[k..]);
    DigitsAppend(sid[1..k], [ch]);
    DigitsAppend(sid[1..k], sid[k..]);
    assert Digits([ch]) == [] by {
      assert [ch][1..] == [];
    }
    assert Digits(sid'[1..]) == Digits(sid[1..]);
  }

  /** A few ids and the cells they name. */
  lemma Examples()
    ensures PositionOf("A1") == Position(0, 0)
    ensures PositionOf("B3") == Position(1, 2)
    ensures PositionOf("b3") == Position(1, 2)
    ensures PositionOf("C") == Position(2, 0)
    ensures PositionOf("A0") == Position(0, -1)
  {
  }

  // ---------------------------------------------------------------------------
  // The layout of all slots
  // ---------------------------------------------------------------------------

  /** The slot-id dictionary: its keys in insertion order, and the lookup. */
  datatype Layout = Layout(order: seq<string>, positions: map<string, Position>)

  datatype HeatmapError =
    | EmptySlotId(index: nat) // the slot at `index` has the id "", so `sid[0]` fails
    | NoSlots                 // `max` of the positions of no slots at all
    | NegativeDimension       // the grid would have fewer than zero rows or columns
    | OutOfGrid(index: nat)   // the id at `index` of the layout order indexes outside the grid

  predicate Distinct(s: seq<string>) {
    forall i, j | 0 <= i < j < |s| :: s[i] != s[j]
  }

  predicate AllNonEmpty(ids: seq<string>) {
    forall sid | sid in ids :: |sid| > 0
  }

  /** `i` is the first index of an empty id. */
  predicate FirstEmpty(ids: seq<string>, i: nat) {
    i < |ids| && ids[i] == [] && forall j | 0 <= j < i :: ids[j] != []
  }

  /** The ids occurring in `s`. */
  function Elements(s: seq<string>): set<string> {
    set x | x in s
  }

  lemma ElementsSnoc(s: seq<string>, x: string)
    ensures Elements(s + [x]) == Elements(s) + {x}
  {
    assert forall y | y in s :: y in s + [x];
  }

  /** The ids of `s` in order of first occurrence, as a dictionary keeps its keys. */
  function Dedup(s: seq<string>): (r: seq<string>)
    ensures Elements(r) == Elements(s)
    ensures Distinct(r)
  {
    if s == [] then []
    else
      var p := Dedup(s[..|s| - 1]);
      var x := s[|s| - 1];
      assert s == s[..|s| - 1] + [x];
      ElementsSnoc(s[..|s| - 1], x);
      ElementsSnoc(p, x);
      assert x in p <==> x in Elements(p);
      if x in p then p else p + [x]
  }

  /** The position of every id of `ids`, each computed from the id itself. */
  function PositionsOf(ids: seq<string>): map<string, Position>
    requires AllNonEmpty(ids)
  {
    map sid | sid in ids :: PositionOf(sid)
  }

  /** The index of the first occurrence of `x` in `s`. */
  function FirstIndex(s: seq<string>, x: string): (p: nat)
    requires x in s
    ensures p < |s| && s[p] == x
    ensures forall q | 0 <= q < p :: s[q] != x
  {
    if s[0] == x then 0 else 1 + FirstIndex(s[1..], x)
  }

  /** Appending an element leaves the first occurrence of an earlier one where it was. */
  lemma FirstIndexSnoc(s: seq<string>, y: string, x: string)
    requires x in s
    ensures x in s + [y] && FirstIndex(s + [y], x) == FirstIndex(s, x)
  {
    assert forall q | 0 <= q < |s| :: (s + [y])[q] == s[q];
  }

  /** The first occurrence of an element appended for the first time is the last index. */
  lemma FirstIndexFresh(s: seq<string>, y: string)
    requires y !in s
    ensures y in s + [y] && FirstIndex(s + [y], y) == |s|
  {
    assert forall q | 0 <= q < |s| :: (s + [y])[q] == s[q];
  }

  /** The keys of `Dedup(s)` come in the order of their first occurrences in `s`. */
  lemma {:induction false} DedupFirstOccurrence(s: seq<string>)
    ensures forall i, j | 0 <= i < j < |Dedup(s)| ::
      Dedup(s)[i] in s && Dedup(s)[j] in s && FirstIndex(s, Dedup(s)[i]) < FirstIndex(s, Dedup(s)[j])
  {
    if s != [] {
      var init, x := s[..|s| - 1], s[|s| - 1];
      assert s == init + [x];
      var p := Dedup(init);
      DedupFirstOccurrence(init);
      forall e | e in p ensures e in init && e in s && FirstIndex(s, e) == FirstIndex(init, e) {
        assert e in Elements(p);
        assert e in Elements(init);
        FirstIndexSnoc(init, x, e);
      }
      if x !in p {
        assert x !in Elements(p);
        assert x in init ==> x in Elements(init);
        FirstIndexFresh(init, x);
        var r := p + [x];
        forall i, j | 0 <= i < j < |r|
          ensures r[i] in s && r[j] in s && FirstIndex(s, r[i]) < FirstIndex(s, r[j])
        {
          if j < |p| {
            assert r[i] == p[i] && r[j] == p[j];
          } else {
            assert r[i] == p[i] && r[j] == x;
            assert p[i] in p;
          }
        }
      }
    }
  }

  /** The layout that a list of non-empty ids produces. */
  function LayoutOf(ids: seq<string>): (l: Layout)
    requires AllNonEmpty(ids)
    ensures Elements(l.order) == Elements(ids)
    ensures l.positions.Keys == Elements(ids)
    ensures AllNonEmpty(l.order)
    ensures l.order == [] <==> ids == []
    ensures Distinct(l.order)
    ensures forall sid | sid in l.positions :: l.positions[sid] == PositionOf(sid)
  {
    var order := Dedup(ids);
    assert forall sid | sid in order :: sid in Elements(order);
    Layout(order, PositionsOf(ids))
  }

  /** One step of filling the dictionary: the key of `ids[i]` is appended unless the
      dictionary already holds it, and its position is (re)written. */
  lemma LayoutStep(ids: seq<string>, i: nat)
    requires i < |ids| && AllNonEmpty(ids[..i]) && |ids[i]| > 0
    ensures AllNonEmpty(ids[..i + 1])
    ensures Dedup(ids[..i + 1]) ==
      if ids[i] in PositionsOf(ids[..i]) then Dedup(ids[..i]) else Dedup(ids[..i]) + [ids[i]]
    ensures PositionsOf(ids[..i + 1]) == PositionsOf(ids[..i])[ids[i] := PositionOf(ids[i])]
  {
    var init, sid := ids[..i], ids[i];
    assert ids[..i + 1] == init + [sid];
    assert (init + [sid])[..i] == init;
    assert sid in Dedup(init) <==> sid in Elements(Dedup(init));
    assert sid in init <==> sid in Elements(init);
  }

  /** Fills the slot-id dictionary one slot at a time; an empty id raises at once. */
  method LayoutFromSlots(ids: seq<string>) returns (r: Result<Layout, HeatmapError>)
    ensures r.Failure? <==> !AllNonEmpty(ids)
    ensures r.Failure? ==> r.error.EmptySlotId? && FirstEmpty(ids, r.error.index)
    ensures r.Success? ==> AllNonEmpty(ids) && r.value == LayoutOf(ids)
  {
    var order: seq<string> := [];
    var positions: map<string, Position> := map[];
    for i := 0 to |ids|
      invariant forall j | 0 <= j < i :: ids[j] != []
      invariant AllNonEmpty(ids[..i])
      invariant order == Dedup(ids[..i])
      invariant positions == PositionsOf(ids[..i])
    {
      var sid := ids[i];
      if sid == [] {
        assert ids[i] in ids;
        return Failure(EmptySlotId(i));
      }
      LayoutStep(ids, i);
      if sid !in positions {
        order := order + [sid];
      }
      positions := positions[sid := PositionOf(sid)];
    }
    assert ids[..|ids|] == ids;
    r := Success(Layout(order, positions));
  }

  // ---------------------------------------------------------------------------
  // Counting allocations per slot
  // ---------------------------------------------------------------------------

  /** The count of `sid`, 0 for an id never seen (`Counter.get(sid, 0)`). */
  function CountOf(counts: map<string, nat>, sid: string): nat {
    if sid in counts then counts[sid] else 0
  }

  /** Counts the allocation records per slot id, as a `Counter` does. */
  method LoadCounts(ids: seq<string>) returns (counts: map<string, nat>)
    ensures forall sid :: sid in counts <==> sid in ids
    ensures forall sid :: CountOf(counts, sid) == multiset(ids)[sid]
  {
    counts := map[];
    for i := 0 to |ids|
      invariant forall sid :: sid in counts <==> sid in ids[..i]
      invariant forall sid :: CountOf(counts, sid) == multiset(ids[..i])[sid]
    {
      var sid := ids[i];
      assert ids[..i + 1] == ids[..i] + [sid];
      counts := counts[sid := CountOf(counts, sid) + 1];
    }
    assert ids[..|ids|] == ids;
  }

  // ---------------------------------------------------------------------------
  // The grid
  // ---------------------------------------------------------------------------

  /** Every key in `order` has a position. */
  predicate Keyed(order: seq<string>, positions: map<string, Position>) {
    forall sid | sid in order :: sid in positions
  }

  /** The largest row and the largest column among the positions of the keys in `order`. */
  function Extent(order: seq<string>, positions: map<string, Position>): (e: Position)
    requires order != [] && Keyed(order, positions)
    ensures forall sid | sid in order :: positions[sid].row <= e.row && positions[sid].col <= e.col
    ensures exists sid | sid in order :: positions[sid].row == e.row
    ensures exists sid | sid in order :: positions[sid].col == e.col
  {
    var last := order[|order| - 1];
    if |order| == 1 then positions[last]
    else
      var init := order[..|order| - 1];
      assert forall sid | sid in order :: sid in init || sid == last;
      var p := Extent(init, positions);
      var q := positions[last];
      Position(if q.row > p.row then q.row else p.row, if q.col > p.col then q.col else p.col)
  }

  /** An array index along an axis of length `n`: negative values count from the end. */
  predicate InBounds(x: int, n: nat) {
    -(n as int) <= x < n
  }

  /** The element an in-bounds index designates. */
  function Wrap(x: int, n: nat): int
    requires InBounds(x, n)
  {
    if x < 0 then x + n else x
  }

  /** Both coordinates of `p` index a `rows` by `cols` grid. */
  predicate FitsAt(p: Position, rows: nat, cols: nat) {
    InBounds(p.row, rows) && InBounds(p.col, cols)
  }

  /** The cell of the grid that position `p` writes to. */
  function CellAt(p: Position, rows: nat, cols: nat): (c: Position)
    requires FitsAt(p, rows, cols)
    ensures 0 <= c.row < rows && 0 <= c.col < cols
    ensures c.row == p.row || c.row == p.row + rows
    ensures c.col == p.col || c.col == p.col + cols
    ensures 0 <= p.row && 0 <= p.col ==> c == p
  {
    Position(Wrap(p.row, rows), Wrap(p.col, cols))
  }

  /** Every key in `order` has a position that fits the grid. */
  predicate AllFit(order: seq<string>, positions: map<string, Position>, rows: nat, cols: nat) {
    forall sid | sid in order :: sid in positions && FitsAt(positions[sid], rows, cols)
  }

  /** `k` is the first index of `order` whose position does not fit the grid. */
  predicate FirstMisfit(order: seq<string>, positions: map<string, Position>, rows: nat, cols: nat, k: nat)
    requires Keyed(order, positions)
  {
    && k < |order|
    && !FitsAt(positions[order[k]], rows, cols)
    && forall j | 0 <= j < k :: FitsAt(positions[order[j]], rows, cols)
  }

  /** What cell (i, j) holds once the keys of `order` have been written in turn:
      the count of the last of them that writes to it, and 0 if there is none. */
  function CellValue(order: seq<string>, positions: map<string, Position>, counts: map<string, nat>,
                     rows: nat, cols: nat, i: int, j: int): nat
    requires AllFit(order, positions, rows, cols)
  {
    if order == [] then 0
    else
      var last := order[|order| - 1];
      if CellAt(positions[last], rows, cols) == Position(i, j) then CountOf(counts, last)
      else
        assert forall sid | sid in order[..|order| - 1] :: sid in order;
        CellValue(order[..|order| - 1], positions, counts, rows, cols, i, j)
  }

  /** Writing one more key changes its own cell only. */
  lemma CellValueSnoc(order: seq<string>, positions: map<string, Position>, counts: map<string, nat>,
                      rows: nat, cols: nat, k: nat, i: int, j: int)
    requires k < |order| && AllFit(order[..k + 1], positions, rows, cols)
    ensures AllFit(order[..k], positions, rows, cols) && order[k] in positions
    ensures CellValue(order[..k + 1], positions, counts, rows, cols, i, j) ==
      if CellAt(positions[order[k]], rows, cols) == Position(i, j) then CountOf(counts, order[k])
      else CellValue(order[..k], positions, counts, rows, cols, i, j)
  {
    assert order[..k + 1] == order[..k] + [order[k]];
    assert order[..k + 1][..k] == order[..k];
  }

  /** A cell no key writes to stays 0. */
  lemma {:induction false} CellUnmapped(order: seq<string>, positions: map<string, Position>,
                                        counts: map<string, nat>, rows: nat, cols: nat, i: int, j: int)
    requires AllFit(order, positions, rows, cols)
    requires forall sid | sid in order :: CellAt(positions[sid], rows, cols) != Position(i, j)
    ensures CellValue(order, positions, counts, rows, cols, i, j) == 0
  {
    if order != [] {
      var init := order[..|order| - 1];
      assert forall sid | sid in init :: sid in order;
      CellUnmapped(init, positions, counts, rows, cols, i, j);
    }
  }

  /** The cell of a key that shares it with no other key holds that key's count. */
  lemma {:induction false} CellOfSoleId(order: seq<string>, positions: map<string, Position>,
                                        counts: map<string, nat>, rows: nat, cols: nat, sid: string)
    requires AllFit(order, positions, rows, cols)
    requires sid in order
    requires forall other | other in order && other != sid ::
      CellAt(positions[other], rows, cols) != CellAt(positions[sid], rows, cols)
    ensures var c := CellAt(positions[sid], rows, cols);
      CellValue(order, positions, counts, rows, cols, c.row, c.col) == CountOf(counts, sid)
  {
    var last := order[|order| - 1];
    if last != sid {
      var init := order[..|order| - 1];
      assert order == init + [last];
      assert forall x | x in init :: x in order;
      CellOfSoleId(init, positions, counts, rows, cols, sid);
    }
  }

  /** Allocates a zero grid of the given shape and writes each key's count into the cell
      of its position, in key order; the first position outside the grid raises. */
  method FillGrid(counts: map<string, nat>, order: seq<string>, positions: map<string, Position>, rows: nat, cols: nat)
    returns (r: Result<array2<nat>, HeatmapError>)
    requires Keyed(order, positions)
    ensures r.Failure? <==> !AllFit(order, positions, rows, cols)
    ensures r.Failure? ==> r.error.OutOfGrid? && FirstMisfit(order, positions, rows, cols, r.error.index)
    ensures r.Success? ==> fresh(r.value) && r.value.Length0 == rows && r.value.Length1 == cols
    ensures r.Success? ==> AllFit(order, positions, rows, cols) && forall i, j | 0 <= i < rows && 0 <= j < cols ::
      r.value[i, j] == CellValue(order, positions, counts, rows, cols, i, j)
  {
    var grid := new nat[rows, cols]((i, j) => 0);
    for k := 0 to |order|
      invariant AllFit(order[..k], positions, rows, cols)
      invariant forall j | 0 <= j < k :: FitsAt(positions[order[j]], rows, cols)
      invariant forall i, j | 0 <= i < rows && 0 <= j < cols ::
        grid[i, j] == CellValue(order[..k], positions, counts, rows, cols, i, j)
    {
      var sid := order[k];
      assert sid in order;
      var p := positions[sid];
      if !FitsAt(p, rows, cols) {
        return Failure(OutOfGrid(k));
      }
      assert order[..k + 1] == order[..k] + [sid];
      var c := CellAt(p, rows, cols);
      grid[c.row, c.col] := CountOf(counts, sid);
      forall i, j | 0 <= i < rows && 0 <= j < cols
        ensures grid[i, j] == CellValue(order[..k + 1], positions, counts, rows, cols, i, j)
      {
        CellValueSnoc(order, positions, counts, rows, cols, k, i, j);
      }
    }
    assert order[..|order|] == order;
    r := Success(grid);
  }

  /** The number of rows of the grid: one more than the largest row of a laid-out id. */
  function GridRows(ids: seq<string>): int
    requires AllNonEmpty(ids) && ids != []
  {
    var l := LayoutOf(ids);
    Extent(l.order, l.positions).row + 1
  }

  /** The number of columns of the grid: one more than the largest column of a laid-out id;
      never negative, since a column is at least -1. */
  function GridCols(ids: seq<string>): (n: nat)
    requires AllNonEmpty(ids) && ids != []
  {
    var l := LayoutOf(ids);
    var sid := l.order[0];
    assert sid in l.order;
    Extent(l.order, l.positions).col + 1
  }

  /** The grid is one row longer than the largest row of an id, and one column wider
      than the largest column of an id. */
  lemma GridSize(ids: seq<string>)
    requires AllNonEmpty(ids) && ids != []
    ensures forall sid | sid in ids :: RowOf(sid) < GridRows(ids) && ColOf(sid) < GridCols(ids)
    ensures exists sid | sid in ids :: RowOf(sid) == GridRows(ids) - 1
    ensures exists sid | sid in ids :: ColOf(sid) == GridCols(ids) - 1
  {
    var l := LayoutOf(ids);
    var e := Extent(l.order, l.positions);
    assert forall sid | sid in ids :: sid in l.order && l.positions[sid] == PositionOf(sid) by {
      forall sid | sid in ids ensures sid in l.order && l.positions[sid] == PositionOf(sid) {
        assert sid in Elements(ids);
      }
    }
    var a :| a in l.order && l.positions[a].row == e.row;
    var b :| b in l.order && l.positions[b].col == e.col;
    assert a in Elements(l.order) && b in Elements(l.order);
  }

  lemma NonNegativeBounds(ids: seq<string>)
    requires AllNonEmpty(ids) && ids != []
    requires forall sid | sid in ids :: 0 <= RowOf(sid) && 0 <= ColOf(sid)
    ensures GridRows(ids) >= 1 && GridCols(ids) >= 1
    ensures forall sid | sid in LayoutOf(ids).order ::
      && 0 <= LayoutOf(ids).positions[sid].row < GridRows(ids)
      && 0 <= LayoutOf(ids).positions[sid].col < GridCols(ids)
  {
    var l := LayoutOf(ids);
    forall sid | sid in l.order ensures 0 <= l.positions[sid].row && 0 <= l.positions[sid].col {
      assert sid in Elements(l.order);
    }
    assert l.order[0] in l.order;
  }

  /** With no id on a negative row or column, the grid has a row and a column at least,
      every id fits it, and each writes to the cell its own position names. */
  lemma NonNegativeIdsFit(ids: seq<string>)
    requires AllNonEmpty(ids) && ids != []
    requires forall sid | sid in ids :: 0 <= RowOf(sid) && 0 <= ColOf(sid)
    ensures GridRows(ids) >= 1 && GridCols(ids) >= 1
    ensures AllFit(LayoutOf(ids).order, LayoutOf(ids).positions, GridRows(ids), GridCols(ids))
    ensures forall sid | sid in LayoutOf(ids).order ::
      CellAt(LayoutOf(ids).positions[sid], GridRows(ids), GridCols(ids)) == PositionOf(sid)
  {
    NonNegativeBounds(ids);
    var l, rows, cols := LayoutOf(ids), GridRows(ids), GridCols(ids);
    forall sid | sid in l.order
      ensures sid in l.positions && FitsAt(l.positions[sid], rows, cols)
      ensures CellAt(l.positions[sid], rows, cols) == PositionOf(sid)
    {
      assert sid in Elements(l.order);
      var p := l.positions[sid];
      assert 0 <= p.row < rows && 0 <= p.col < cols;
    }
  }

  /** Lays out the slots, sizes the grid to the largest row and column, and writes
      each slot's count into its cell (the image itself is not produced here). */
  method DrawHeatmap(counts: map<string, nat>, ids: seq<string>) returns (r: Result<array2<nat>, HeatmapError>)
    ensures !AllNonEmpty(ids) ==> r.Failure? && r.error.EmptySlotId? && FirstEmpty(ids, r.error.index)
    ensures AllNonEmpty(ids) && ids == [] ==> r == Failure(NoSlots)
    ensures AllNonEmpty(ids) && ids != [] && GridRows(ids) < 0 ==> r == Failure(NegativeDimension)
    ensures AllNonEmpty(ids) && ids != [] && GridRows(ids) >= 0 ==>
      var l := LayoutOf(ids);
      && (r.Failure? <==> !AllFit(l.order, l.positions, GridRows(ids), GridCols(ids)))
      && (r.Failure? ==> r.error.OutOfGrid? && FirstMisfit(l.order, l.positions, GridRows(ids), GridCols(ids), r.error.index))
    ensures r.Success? ==> AllNonEmpty(ids) && ids != [] && GridRows(ids) >= 0 && fresh(r.value)
    ensures r.Success? ==>
      var l := LayoutOf(ids);
      && r.value.Length0 == GridRows(ids)
      && r.value.Length1 == GridCols(ids)
      && AllFit(l.order, l.positions, GridRows(ids), GridCols(ids))
      && forall i, j | 0 <= i < r.value.Length0 && 0 <= j < r.value.Length1 ::
           r.value[i, j] == CellValue(l.order, l.positions, counts, GridRows(ids), GridCols(ids), i, j)
  {
    var laid := LayoutFromSlots(ids);
    if laid.Failure? {
      return Failure(laid.error);
    }
    var layout := laid.value;
    if layout.order == [] {
      return Failure(NoSlots);
    }
    if GridRows(ids) < 0 {
      return Failure(NegativeDimension);
    }
    assert forall sid | sid in layout.order :: sid in Elements(layout.order);
    r := FillGrid(counts, layout.order, layout.positions, GridRows(ids), GridCols(ids));
  }
}
