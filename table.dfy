/** The file table of the main window: its five columns and their headings, the rows that
    `analyze_files` inserts with the item ids Tk gives them, and the order `sort_column`
    puts the rows in. */
module Table {
  import opened Wrappers
  import opened Text
  import Clock
  import opened FileAnalyzer
  import opened SizeFormat
  import opened Sorting

  // ---------------------------------------------------------------------------
  // columns and headings

  /** The columns "name", "size", "modified", "type" and "path". */
  datatype Column = Name | Size | Modified | Type | Location

  const Columns: seq<Column> := [Name, Size, Modified, Type, Location]

  /** Where a column stands in the table. */
  function ColumnIndex(c: Column): (i: nat)
    ensures i < |Columns| && Columns[i] == c
    ensures forall j :: 0 <= j < |Columns| && Columns[j] == c ==> j == i
  {
    match c
    case Name => 0
    case Size => 1
    case Modified => 2
    case Type => 3
    case Location => 4
  }

  /** The heading a column is created with, and the one it goes back to. */
  function BaseHeading(c: Column): string
  {
    match c
    case Name => "Имя"
    case Size => "Размер"
    case Modified => "Изменён"
    case Type => "Тип"
    case Location => "Путь"
  }

  const AscendingMark: string := " ↓"
  const DescendingMark: string := " ↑"

  /** A heading column `c` can show: its name, bare or with one direction mark. */
  predicate Shown(c: Column, h: string)
  {
    h == BaseHeading(c) || h == BaseHeading(c) + AscendingMark || h == BaseHeading(c) + DescendingMark
  }

  /** `heading.split(" ")[0]`. */
  function Stem(h: string): string
  {
    Split(h, ' ')[0]
  }

  lemma BaseHeadingHasNoSpace(c: Column)
    ensures ' ' !in BaseHeading(c)
  {
  }

  /** The part of a shown heading before its first space is the column's name: a mark that
      was added is taken off again. */
  lemma StemOfShown(c: Column, h: string)
    requires Shown(c, h)
    ensures Stem(h) == BaseHeading(c)
  {
    var base := BaseHeading(c);
    BaseHeadingHasNoSpace(c);
    if h == base {
      SplitWithoutSeparator(base, ' ');
    } else {
      var mark := if h == base + AscendingMark then "↓" else "↑";
      assert h == base + [' '] + mark;
      SplitAround(base, mark, ' ');
    }
  }

  /** The heading column `c` gets when the table is sorted by `col`. */
  function HeadingAfter(c: Column, col: Column, reverse: bool): (h: string)
    ensures Shown(c, h)
  {
    if c == col then BaseHeading(c) + (if reverse then DescendingMark else AscendingMark)
    else BaseHeading(c)
  }

  // ---------------------------------------------------------------------------
  // rows

  /** A row of the table: the serial number Tk gave the item and the file it shows. */
  datatype Row = Row(number: nat, file: FileRecord)

  /** The id Tk gives its `n`th item: "I" and `n` in upper-case hexadecimal, at least three
      digits. */
  function ItemId(n: nat): string
  {
    "I" + ZeroPad(Numeral(n, 16), 3)
  }

  function Id(r: Row): string
  {
    ItemId(r.number)
  }

  /** The number can be read back from the id. */
  lemma ItemIdValue(n: nat)
    ensures |ItemId(n)| >= 4 && ItemId(n)[0] == 'I'
    ensures NumeralValue(ItemId(n)[1..], 16) == n
  {
    assert ItemId(n)[1..] == ZeroPad(Numeral(n, 16), 3);
    ZeroPadValue(Numeral(n, 16), 3, 16);
    NumeralValueOfNumeral(n, 16);
  }

  /** Different items have different ids. */
  lemma ItemIdInjective(m: nat, n: nat)
    ensures ItemId(m) == ItemId(n) ==> m == n
  {
    ItemIdValue(m);
    ItemIdValue(n);
  }

  /** The size text of `n` bytes. A whole scaled value is written out here; `render` stands
      for the two-decimal conversion of any other value. */
  function SizeCell(n: nat, render: SizeLabel -> string): string
  {
    if WholeText(LabelOf(n)).Some? then WholeText(LabelOf(n)).value else render(LabelOf(n))
  }

  /** `self.tree.set(child, col)`: the text in column `c` of a row, as `analyze_files` put
      it there: the name, the size as `format_file_size` gives it, the time as
      "%Y-%m-%d %H:%M:%S", the extension and the path. */
  function Cell(r: Row, c: Column, render: SizeLabel -> string): string
  {
    match c
    case Name => r.file.name
    case Size => SizeCell(r.file.size, render)
    case Modified => Clock.Stamp(r.file.modified, ' ', ':')
    case Type => r.file.extension
    case Location => r.file.path
  }

  /** The rows inserted for `fs` when `serial` items were inserted before. */
  function RowsFor(fs: seq<FileRecord>, serial: nat): seq<Row>
    decreases |fs|
  {
    if fs == [] then []
    else RowsFor(fs[..|fs| - 1], serial) + [Row(serial + |fs|, fs[|fs| - 1])]
  }

  /** File `i` is shown by item `serial + i + 1`, so no two rows share a number. */
  lemma {:induction false} RowsForShape(fs: seq<FileRecord>, serial: nat)
    ensures var rows := RowsFor(fs, serial);
      && |rows| == |fs|
      && (forall i :: 0 <= i < |fs| ==> rows[i] == Row(serial + i + 1, fs[i]))
      && Numbered(rows)
    decreases |fs|
  {
    if fs != [] {
      var init := fs[..|fs| - 1];
      RowsForShape(init, serial);
      assert forall j :: 0 <= j < |init| ==> init[j] == fs[j];
      var rows := RowsFor(fs, serial);
      forall x, y | x in rows && y in rows && x != y
        ensures x.number != y.number
      {
        var i :| 0 <= i < |rows| && rows[i] == x;
        var j :| 0 <= j < |rows| && rows[j] == y;
      }
    }
  }

  /** One more file adds its row under the next number. */
  lemma RowsForStep(fs: seq<FileRecord>, serial: nat, i: nat)
    requires i < |fs|
    ensures RowsFor(fs[..i + 1], serial) == RowsFor(fs[..i], serial) + [Row(serial + i + 1, fs[i])]
  {
    assert fs[..i + 1][..i] == fs[..i];
  }

  /** Different rows carry different numbers. */
  predicate Numbered(rows: seq<Row>)
  {
    forall x, y :: x in rows && y in rows && x != y ==> x.number != y.number
  }

  /** Among numbered rows a row is known by its id. */
  lemma NumberedIds(rows: seq<Row>, x: Row, y: Row)
    requires Numbered(rows) && x in rows && y in rows
    ensures Id(x) == Id(y) ==> x == y
  {
    ItemIdInjective(x.number, y.number);
  }

  // ---------------------------------------------------------------------------
  // the order of `sort_column`

  /** `(self.tree.set(child, col), child)`: what a row is sorted by. */
  function Key(r: Row, c: Column, render: SizeLabel -> string): (string, string)
  {
    (Cell(r, c, render), Id(r))
  }

  /** Python's `<` on pairs of strings: by the first, then by the second. */
  predicate PairLess(a: (string, string), b: (string, string))
  {
    Less(a.0, b.0) || (a.0 == b.0 && Less(a.1, b.1))
  }

  lemma PairLessIrreflexive(a: (string, string))
    ensures !PairLess(a, a)
  {
    LessIrreflexive(a.0);
    LessIrreflexive(a.1);
  }

  lemma PairLessTransitive(a: (string, string), b: (string, string), c: (string, string))
    ensures PairLess(a, b) && PairLess(b, c) ==> PairLess(a, c)
  {
    if PairLess(a, b) && PairLess(b, c) {
      if Less(a.0, b.0) && Less(b.0, c.0) {
        LessTransitive(a.0, b.0, c.0);
      } else if a.0 == b.0 && b.0 == c.0 {
        LessTransitive(a.1, b.1, c.1);
      }
    }
  }

  lemma PairLessTotal(a: (string, string), b: (string, string))
    ensures a == b || PairLess(a, b) || PairLess(b, a)
  {
    LessTotal(a.0, b.0);
    LessTotal(a.1, b.1);
  }

  /** Python's order on such pairs is a strict total order. */
  lemma PairLessStrictTotal()
    ensures StrictTotal(PairLess)
  {
    forall a: (string, string)
      ensures !PairLess(a, a)
    {
      PairLessIrreflexive(a);
    }
    forall a: (string, string), b: (string, string), c: (string, string)
      ensures PairLess(a, b) && PairLess(b, c) ==> PairLess(a, c)
    {
      PairLessTransitive(a, b, c);
    }
    forall a: (string, string), b: (string, string)
      ensures a == b || PairLess(a, b) || PairLess(b, a)
    {
      PairLessTotal(a, b);
    }
  }

  /** The sort key of the rows when the table is sorted by `c`. */
  function KeyOf(c: Column, render: SizeLabel -> string): Row -> (string, string)
  {
    (r: Row) => Key(r, c, render)
  }

  /** The rows in the order `sort_column(c)` leaves them. */
  function Arranged(rows: seq<Row>, c: Column, reverse: bool, render: SizeLabel -> string): seq<Row>
  {
    Arrange(rows, KeyOf(c, render), PairLess, reverse)
  }

  /** Numbered rows have different keys in every column: no two rows tie. */
  lemma NumberedKeys(rows: seq<Row>, c: Column, render: SizeLabel -> string)
    requires Numbered(rows)
    ensures KeysDiffer(rows, KeyOf(c, render))
  {
    forall x, y | x in rows && y in rows && KeyOf(c, render)(x) == KeyOf(c, render)(y)
      ensures x == y
    {
      NumberedIds(rows, x, y);
    }
  }

  /** `sort_column(c)` leaves the same rows, by (cell text, item id) ascending, or descending
      when `reverse` is set; and any arrangement of the rows in that order is this one. */
  lemma ArrangedSpec(rows: seq<Row>, c: Column, reverse: bool, render: SizeLabel -> string)
    requires Numbered(rows)
    ensures multiset(Arranged(rows, c, reverse, render)) == multiset(rows)
    ensures Ordered(Arranged(rows, c, reverse, render), KeyOf(c, render), PairLess, reverse)
    ensures forall other :: multiset(other) == multiset(rows) && Ordered(other, KeyOf(c, render), PairLess, reverse) ==>
      other == Arranged(rows, c, reverse, render)
  {
    PairLessStrictTotal();
    ArrangeSorts(rows, KeyOf(c, render), PairLess, reverse);
    NumberedKeys(rows, c, render);
    forall other | multiset(other) == multiset(rows) && Ordered(other, KeyOf(c, render), PairLess, reverse)
      ensures other == Arranged(rows, c, reverse, render)
    {
      ArrangeUnique(rows, other, KeyOf(c, render), PairLess, reverse);
    }
  }

  /** Rearranging keeps rows numbered. */
  lemma ArrangedNumbered(rows: seq<Row>, c: Column, reverse: bool, render: SizeLabel -> string)
    requires Numbered(rows)
    ensures Numbered(Arranged(rows, c, reverse, render))
  {
    PairLessStrictTotal();
    ArrangeSorts(rows, KeyOf(c, render), PairLess, reverse);
    assert forall x :: x in Arranged(rows, c, reverse, render) ==> x in multiset(rows);
  }
}
