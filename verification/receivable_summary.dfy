/** The partner summary printed by the receivable report
    (report/account_reports_pdf.py, `get_format_data_lines`): one row per
    top-level partner line with its opening balance, the debit and credit
    moved in the period and its ending balance, then a total row.
    Amount texts are read with `read`, which the report takes to be
    `_get_number_split` (ReportLines.Amount); every result here holds for
    any reader. */
module ReceivableSummary {
  import opened Wrappers
  import opened ReportLines

  /** A printed amount cell: a formatted amount, or the literal text "0" the
      report writes for a side that does not apply */
  datatype Cell = Figure(amount: int) | Zero

  function Value(c: Cell): int
  {
    if c.Figure? then c.amount else 0
  }

  /** One printed row: `a` (the running number, absent on the total row),
      `b`/`c`/`d` (reference, name, tax id) and the amount cells '1' to '6' */
  datatype SummaryRow = SummaryRow(
    number: Option<nat>, ref: string, name: string, vat: string,
    openPositive: Cell, openNegative: Cell, debit: Cell, credit: Cell,
    endPositive: Cell, endNegative: Cell)

  /** What the report reads for one partner */
  datatype Figures = Figures(opening: int, debit: int, credit: int, ending: int)

  /** The six amount columns */
  datatype Measure = OpenPositive | OpenNegative | Debit | Credit | EndPositive | EndNegative

  function CellOf(r: SummaryRow, m: Measure): Cell
  {
    match m
    case OpenPositive => r.openPositive
    case OpenNegative => r.openNegative
    case Debit => r.debit
    case Credit => r.credit
    case EndPositive => r.endPositive
    case EndNegative => r.endNegative
  }

  function PositivePart(x: int): int
  {
    if x >= 0 then x else 0
  }

  function NegativePart(x: int): int
  {
    if x >= 0 then 0 else -x
  }

  /** What the total row adds up for each column */
  function Measured(f: Figures, m: Measure): int
  {
    match m
    case OpenPositive => PositivePart(f.opening)
    case OpenNegative => NegativePart(f.opening)
    case Debit => f.debit
    case Credit => f.credit
    case EndPositive => PositivePart(f.ending)
    case EndNegative => NegativePart(f.ending)
  }

  /** A partner row prints the negative opening balance with its sign; every
      other column is printed as accumulated */
  function Sign(m: Measure): int
  {
    if m == OpenNegative then -1 else 1
  }

  /** The amount a column holds, 0 when there is no column to read */
  function ReadOr0(read: Reader, c: Option<Column>): Option<int>
  {
    if c.None? then Some(0) else read(c.value.name)
  }

  /** `value or ''` */
  function TextOr(v: Option<string>): string
  {
    if Filled(v) then v.value else ""
  }

  /** The opening balance: the last named column of the first level-2 child,
      0 without one; None where its text does not parse */
  function OpeningOf(read: Reader, lines: seq<Line>, p: Line): Option<int>
  {
    var opens := Children(lines, p.id, 2);
    if |opens| == 0 then Some(0) else ReadOr0(read, LastNamed(opens[0].columns))
  }

  /** The last four columns, or all of them when there are fewer */
  function LastFour(cols: seq<Column>): (r: seq<Column>)
    ensures |r| == if |cols| < 4 then |cols| else 4
  {
    if |cols| <= 4 then cols else cols[|cols| - 4..]
  }

  /** The debit and credit of the journal-item children: the first two of
      each one's last four columns; None where a child has fewer than two
      columns or a text does not parse */
  function MovementOf(read: Reader, items: seq<Line>): Option<(int, int)>
  {
    if |items| == 0 then Some((0, 0))
    else
      var cols := LastFour(items[0].columns);
      if |cols| < 2 then None
      else
        var d := read(cols[0].name);
        var c := read(cols[1].name);
        var rest := MovementOf(read, items[1..]);
        if d.None? || c.None? || rest.None? then None
        else Some((d.value + rest.value.0, c.value + rest.value.1))
  }

  /** The ending balance: the last non-empty column of the first level-3
      child, 0 without one */
  function EndingOf(read: Reader, lines: seq<Line>, p: Line): Option<int>
  {
    var ends := Children(lines, p.id, 3);
    if |ends| == 0 then Some(0) else ReadOr0(read, LastFilled(ends[0].columns))
  }

  function FiguresOf(read: Reader, lines: seq<Line>, p: Line): Option<Figures>
  {
    var o := OpeningOf(read, lines, p);
    var m := MovementOf(read, Children(lines, p.id, 4));
    var e := EndingOf(read, lines, p);
    if o.None? || m.None? || e.None? then None
    else Some(Figures(o.value, m.value.0, m.value.1, e.value))
  }

  /** A partner's row: the opening and ending balances fall on one side by
      their sign and the other side prints "0" */
  function PartnerRow(p: Line, number: nat, f: Figures): (r: SummaryRow)
    ensures Value(r.openPositive) + Value(r.openNegative) == f.opening
    ensures Value(r.endPositive) - Value(r.endNegative) == f.ending
    ensures r.openPositive.Zero? || r.openNegative.Zero?
    ensures r.endPositive.Zero? || r.endNegative.Zero?
    ensures Value(r.endNegative) >= 0 && Value(r.openPositive) >= 0 && Value(r.openNegative) <= 0
  {
    SummaryRow(Some(number), TextOr(p.ref), TextOr(p.name), TextOr(p.vat),
      if f.opening > 0 then Figure(f.opening) else Zero,
      if f.opening < 0 then Figure(f.opening) else Zero,
      Figure(f.debit), Figure(f.credit),
      if f.ending > 0 then Figure(f.ending) else Zero,
      if f.ending < 0 then Figure(-f.ending) else Zero)
  }

  /** How the table gets a partner's figures; the report reads them from
      the lines with FiguresOf */
  type PartnerFigures = Line -> Option<Figures>

  /** The figures of every partner, None when one of them fails */
  function AllFigures(figures: PartnerFigures, ps: seq<Line>): (r: Option<seq<Figures>>)
    ensures r.Some? ==> |r.value| == |ps|
  {
    if |ps| == 0 then Some([])
    else
      var f := figures(ps[0]);
      var rest := AllFigures(figures, ps[1..]);
      if f.None? || rest.None? then None else Some([f.value] + rest.value)
  }

  /** The partner rows, numbered from `first` */
  function RowsOf(ps: seq<Line>, fs: seq<Figures>, first: nat): (r: seq<SummaryRow>)
    requires |ps| == |fs|
    ensures |r| == |ps|
  {
    if |ps| == 0 then [] else [PartnerRow(ps[0], first, fs[0])] + RowsOf(ps[1..], fs[1..], first + 1)
  }

  /** A column total over the partners */
  function Total(fs: seq<Figures>, m: Measure): int
  {
    if |fs| == 0 then 0 else Measured(fs[0], m) + Total(fs[1..], m)
  }

  const TotalCaption := "T\U{1ED5}ng"

  function TotalRow(fs: seq<Figures>): SummaryRow
  {
    SummaryRow(None, "", TotalCaption, "",
      Figure(Total(fs, OpenPositive)), Figure(Total(fs, OpenNegative)),
      Figure(Total(fs, Debit)), Figure(Total(fs, Credit)),
      Figure(Total(fs, EndPositive)), Figure(Total(fs, EndNegative)))
  }

  /** The rows for the partners `ps`, then the total row; None when the
      figures of one of them fail */
  function Table(figures: PartnerFigures, ps: seq<Line>): Option<seq<SummaryRow>>
  {
    var fs := AllFigures(figures, ps);
    if fs.None? then None else Some(RowsOf(ps, fs.value, 1) + [TotalRow(fs.value)])
  }

  /** The printed table, or None when reading some partner raises */
  function Summary(read: Reader, lines: seq<Line>): Option<seq<SummaryRow>>
  {
    Table(p => FiguresOf(read, lines, p), Partners(lines))
  }

  // ---------------------------------------------------------------------
  // The loop

  lemma {:induction false} PartnersSnoc(lines: seq<Line>, x: Line)
    ensures Partners(lines + [x]) == Partners(lines) + (if IsPartner(x) then [x] else [])
    decreases |lines|
  {
    var last: seq<Line> := if IsPartner(x) then [x] else [];
    if |lines| == 0 {
      assert lines + [x] == [x];
      assert [x][1..] == [];
      assert Partners([x]) == last + [];
    } else {
      var h: seq<Line> := if IsPartner(lines[0]) then [lines[0]] else [];
      assert (lines + [x])[0] == lines[0];
      assert (lines + [x])[1..] == lines[1..] + [x];
      PartnersSnoc(lines[1..], x);
      assert Partners(lines + [x]) == h + (Partners(lines[1..]) + last);
      assert Partners(lines) == h + Partners(lines[1..]);
    }
  }

  /** The figures are those of each partner in turn, and one partner that
      fails makes them all fail */
  lemma {:induction false} AllFiguresAre(figures: PartnerFigures, ps: seq<Line>, i: nat)
    requires i < |ps|
    ensures figures(ps[i]).None? ==> AllFigures(figures, ps).None?
    ensures AllFigures(figures, ps).Some? ==> figures(ps[i]) == Some(AllFigures(figures, ps).value[i])
    decreases |ps|
  {
    if i > 0 {
      AllFiguresAre(figures, ps[1..], i - 1);
      assert ps[1..][i - 1] == ps[i];
    }
  }

  lemma {:induction false} AllFiguresSnoc(figures: PartnerFigures, ps: seq<Line>, p: Line)
    requires AllFigures(figures, ps).Some? && figures(p).Some?
    ensures AllFigures(figures, ps + [p]) == Some(AllFigures(figures, ps).value + [figures(p).value])
    decreases |ps|
  {
    var f := figures(p).value;
    if |ps| == 0 {
      assert ps + [p] == [p];
      assert [p][1..] == [];
      assert AllFigures(figures, [p]) == Some([f] + []);
      assert [f] + [] == [] + [f];
    } else {
      assert (ps + [p])[1..] == ps[1..] + [p];
      AllFiguresSnoc(figures, ps[1..], p);
      var rest := AllFigures(figures, ps[1..]).value;
      assert AllFigures(figures, ps).value == [figures(ps[0]).value] + rest;
      assert [figures(ps[0]).value] + (rest + [f]) == ([figures(ps[0]).value] + rest) + [f];
    }
  }

  lemma {:induction false} TotalSnoc(fs: seq<Figures>, f: Figures, m: Measure)
    ensures Total(fs + [f], m) == Total(fs, m) + Measured(f, m)
    decreases |fs|
  {
    if |fs| == 0 {
      assert fs + [f] == [f];
    } else {
      assert (fs + [f])[1..] == fs[1..] + [f];
      TotalSnoc(fs[1..], f, m);
    }
  }

  /** Row `i` is partner `i`'s, numbered `first + i` */
  lemma {:induction false} RowsAt(ps: seq<Line>, fs: seq<Figures>, first: nat, i: nat)
    requires |ps| == |fs| && i < |ps|
    ensures RowsOf(ps, fs, first)[i] == PartnerRow(ps[i], first + i, fs[i])
    decreases |ps|
  {
    if i > 0 {
      RowsAt(ps[1..], fs[1..], first + 1, i - 1);
    }
  }

  lemma {:induction false} RowsSnoc(ps: seq<Line>, fs: seq<Figures>, first: nat, p: Line, f: Figures)
    requires |ps| == |fs|
    ensures RowsOf(ps + [p], fs + [f], first) == RowsOf(ps, fs, first) + [PartnerRow(p, first + |ps|, f)]
    decreases |ps|
  {
    var row := PartnerRow(p, first + |ps|, f);
    if |ps| == 0 {
      assert ps + [p] == [p] && fs + [f] == [f];
      assert RowsOf([p], [f], first) == [row] + RowsOf([p][1..], [f][1..], first + 1);
      assert [p][1..] == [] && [f][1..] == [];
    } else {
      var h := PartnerRow(ps[0], first, fs[0]);
      assert (ps + [p])[0] == ps[0] && (fs + [f])[0] == fs[0];
      assert (ps + [p])[1..] == ps[1..] + [p] && (fs + [f])[1..] == fs[1..] + [f];
      RowsSnoc(ps[1..], fs[1..], first + 1, p, f);
      assert RowsOf(ps + [p], fs + [f], first) == [h] + (RowsOf(ps[1..], fs[1..], first + 1) + [row]);
      assert RowsOf(ps, fs, first) == [h] + RowsOf(ps[1..], fs[1..], first + 1);
    }
  }

  /** What printing one more partner adds to the accumulated state */
  lemma PartnerStep(figures: PartnerFigures, ps: seq<Line>, fs: seq<Figures>, p: Line, f: Figures)
    requires AllFigures(figures, ps) == Some(fs) && |fs| == |ps| && figures(p) == Some(f)
    ensures AllFigures(figures, ps + [p]) == Some(fs + [f])
    ensures RowsOf(ps + [p], fs + [f], 1) == RowsOf(ps, fs, 1) + [PartnerRow(p, |ps| + 1, f)]
    ensures forall m :: Total(fs + [f], m) == Total(fs, m) + Measured(f, m)
  {
    AllFiguresSnoc(figures, ps, p);
    RowsSnoc(ps, fs, 1, p, f);
    forall m
      ensures Total(fs + [f], m) == Total(fs, m) + Measured(f, m)
    {
      TotalSnoc(fs, f, m);
    }
  }

  /** The six running totals of the loop */
  datatype Totals = Totals(openPositive: int, openNegative: int, debit: int, credit: int,
                           endPositive: int, endNegative: int)

  /** The running totals of the partners printed so far */
  function TotalsOf(fs: seq<Figures>): Totals
  {
    Totals(Total(fs, OpenPositive), Total(fs, OpenNegative), Total(fs, Debit), Total(fs, Credit),
           Total(fs, EndPositive), Total(fs, EndNegative))
  }

  /** The loop's state after the first `j` lines: the rows and totals of
      the partners among them */
  ghost predicate Printed(figures: PartnerFigures, lines: seq<Line>, j: nat, rows: seq<SummaryRow>, number: nat, t: Totals)
  {
    j <= |lines| &&
    var ps := Partners(lines[..j]);
    var fs := AllFigures(figures, ps);
    fs.Some? && rows == RowsOf(ps, fs.value, 1) && number == |ps| + 1 && t == TotalsOf(fs.value)
  }

  /** A line that is not a partner's changes nothing */
  lemma AdvanceOther(figures: PartnerFigures, lines: seq<Line>, j: nat, rows: seq<SummaryRow>, number: nat, t: Totals)
    requires j < |lines| && !IsPartner(lines[j]) && Printed(figures, lines, j, rows, number, t)
    ensures Printed(figures, lines, j + 1, rows, number, t)
  {
    PartnersSnoc(lines[..j], lines[j]);
    assert lines[..j + 1] == lines[..j] + [lines[j]];
    var ps := Partners(lines[..j]);
    assert ps + [] == ps;
    assert Partners(lines[..j + 1]) == ps;
  }

  /** A partner whose figures fail fails the table */
  lemma AdvanceFail(figures: PartnerFigures, lines: seq<Line>, j: nat)
    requires j < |lines| && IsPartner(lines[j]) && figures(lines[j]).None?
    ensures Table(figures, Partners(lines)).None?
  {
    PartnersAre(lines, lines[j]);
    var k :| 0 <= k < |Partners(lines)| && Partners(lines)[k] == lines[j];
    AllFiguresAre(figures, Partners(lines), k);
  }

  /** A partner line adds its row, and its figures to the totals: the
      opening and ending balances to one side each by their sign */
  lemma AdvancePartner(figures: PartnerFigures, lines: seq<Line>, j: nat, rows: seq<SummaryRow>, number: nat,
                       t: Totals, f: Figures, t': Totals)
    requires j < |lines| && IsPartner(lines[j]) && figures(lines[j]) == Some(f)
    requires Printed(figures, lines, j, rows, number, t)
    requires t'.openPositive == t.openPositive + PositivePart(f.opening)
    requires t'.openNegative == t.openNegative + NegativePart(f.opening)
    requires t'.debit == t.debit + f.debit && t'.credit == t.credit + f.credit
    requires t'.endPositive == t.endPositive + PositivePart(f.ending)
    requires t'.endNegative == t.endNegative + NegativePart(f.ending)
    ensures Printed(figures, lines, j + 1, rows + [PartnerRow(lines[j], number, f)], number + 1, t')
  {
    var ps := Partners(lines[..j]);
    PartnersSnoc(lines[..j], lines[j]);
    assert lines[..j + 1] == lines[..j] + [lines[j]];
    PartnerStep(figures, ps, AllFigures(figures, ps).value, lines[j], f);
  }

  /** After the last line the rows and totals are the table */
  lemma Finish(figures: PartnerFigures, lines: seq<Line>, rows: seq<SummaryRow>, number: nat, t: Totals)
    requires Printed(figures, lines, |lines|, rows, number, t)
    ensures Table(figures, Partners(lines)) == Some(rows + [SummaryRow(None, "", TotalCaption, "",
      Figure(t.openPositive), Figure(t.openNegative), Figure(t.debit), Figure(t.credit),
      Figure(t.endPositive), Figure(t.endNegative))])
  {
    assert lines[..|lines|] == lines;
  }

  /** `get_format_data_lines`: a pass over the lines that accumulates the
      totals as it prints each partner; None where reading a partner raises */
  method FormatDataLines(figures: PartnerFigures, lines: seq<Line>) returns (r: Option<seq<SummaryRow>>)
    ensures r == Table(figures, Partners(lines))
  {
    var rows: seq<SummaryRow> := [];
    var number: nat := 1;
    var openPositive, openNegative, debit, credit, endPositive, endNegative := 0, 0, 0, 0, 0, 0;
    var j := 0;
    assert lines[..0] == [];
    while j < |lines|
      invariant Printed(figures, lines, j, rows, number,
        Totals(openPositive, openNegative, debit, credit, endPositive, endNegative))
    {
      var line := lines[j];
      ghost var before := Totals(openPositive, openNegative, debit, credit, endPositive, endNegative);
      if IsPartner(line) {
        var f := figures(line);
        if f.None? {
          AdvanceFail(figures, lines, j);
          return None;
        }
        var fig := f.value;
        ghost var rowsBefore, numberBefore := rows, number;
        rows := rows + [PartnerRow(line, number, fig)];
        if fig.opening >= 0 {
          openPositive := openPositive + fig.opening;
        } else {
          openNegative := openNegative - fig.opening;
        }
        if fig.ending >= 0 {
          endPositive := endPositive + fig.ending;
        } else {
          endNegative := endNegative - fig.ending;
        }
        debit := debit + fig.debit;
        credit := credit + fig.credit;
        number := number + 1;
        AdvancePartner(figures, lines, j, rowsBefore, numberBefore, before, fig,
          Totals(openPositive, openNegative, debit, credit, endPositive, endNegative));
      } else {
        AdvanceOther(figures, lines, j, rows, number, before);
      }
      j := j + 1;
    }
    Finish(figures, lines, rows, number, Totals(openPositive, openNegative, debit, credit, endPositive, endNegative));
    var total := SummaryRow(None, "", TotalCaption, "",
      Figure(openPositive), Figure(openNegative), Figure(debit), Figure(credit),
      Figure(endPositive), Figure(endNegative));
    return Some(rows + [total]);
  }

  // ---------------------------------------------------------------------
  // Properties of the printed table

  /** A column's values summed over rows */
  function ColumnTotal(rows: seq<SummaryRow>, m: Measure): int
  {
    if |rows| == 0 then 0 else Value(CellOf(rows[0], m)) + ColumnTotal(rows[1..], m)
  }

  /** Each cell of a partner row is what the total adds up, up to sign */
  lemma RowMeasure(p: Line, number: nat, f: Figures, m: Measure)
    ensures Value(CellOf(PartnerRow(p, number, f), m)) == Sign(m) * Measured(f, m)
  {
  }

  lemma {:induction false} RowsTotal(ps: seq<Line>, fs: seq<Figures>, first: nat, m: Measure)
    requires |ps| == |fs|
    ensures ColumnTotal(RowsOf(ps, fs, first), m) == Sign(m) * Total(fs, m)
    decreases |ps|
  {
    if |ps| > 0 {
      var rows := RowsOf(ps, fs, first);
      RowsTotal(ps[1..], fs[1..], first + 1, m);
      assert rows[1..] == RowsOf(ps[1..], fs[1..], first + 1);
      RowMeasure(ps[0], first, fs[0], m);
    }
  }

  /** The table has a row per partner, numbered from 1 and in the order of
      the lines, then the total row; each total cell adds up its column,
      except that the partner rows print negative opening balances with
      their sign while the total adds up their magnitudes */
  lemma TableShape(figures: PartnerFigures, ps: seq<Line>, m: Measure)
    requires Table(figures, ps).Some?
    ensures var rows := Table(figures, ps).value;
      |rows| == |ps| + 1 &&
      (forall i :: 0 <= i < |ps| ==>
        rows[i].number == Some(i + 1) && rows[i].name == TextOr(ps[i].name) &&
        rows[i].ref == TextOr(ps[i].ref) && rows[i].vat == TextOr(ps[i].vat)) &&
      rows[|ps|].number.None? && rows[|ps|].name == TotalCaption &&
      Value(CellOf(rows[|ps|], m)) == Sign(m) * ColumnTotal(rows[..|ps|], m)
  {
    var fs := AllFigures(figures, ps).value;
    var rows := Table(figures, ps).value;
    assert rows[..|ps|] == RowsOf(ps, fs, 1);
    RowsTotal(ps, fs, 1, m);
    forall i | 0 <= i < |ps|
      ensures rows[i] == PartnerRow(ps[i], 1 + i, fs[i])
    {
      RowsAt(ps, fs, 1, i);
    }
  }

  /** The printed table is the table of the partner lines in order, each
      with the figures read from its own lines */
  lemma SummaryTable(read: Reader, lines: seq<Line>, m: Measure)
    requires Summary(read, lines).Some?
    ensures var rows := Summary(read, lines).value;
      var ps := Partners(lines);
      |rows| == |ps| + 1 &&
      (forall i :: 0 <= i < |ps| ==>
        rows[i].number == Some(i + 1) && rows[i].name == TextOr(ps[i].name) &&
        rows[i].ref == TextOr(ps[i].ref) && rows[i].vat == TextOr(ps[i].vat)) &&
      rows[|ps|].number.None? && rows[|ps|].name == TotalCaption &&
      Value(CellOf(rows[|ps|], m)) == Sign(m) * ColumnTotal(rows[..|ps|], m)
  {
    TableShape(p => FiguresOf(read, lines, p), Partners(lines), m);
  }

  /** Each partner row's balances are read from its own lines, and a
      partner whose lines cannot be read makes the whole table fail */
  lemma SummaryFigures(read: Reader, lines: seq<Line>, i: nat)
    requires i < |Partners(lines)|
    ensures var p := Partners(lines)[i];
      (FiguresOf(read, lines, p).None? ==> Summary(read, lines).None?) &&
      (Summary(read, lines).Some? ==>
        var f := FiguresOf(read, lines, p).value;
        var row := Summary(read, lines).value[i];
        Value(row.openPositive) + Value(row.openNegative) == f.opening &&
        Value(row.endPositive) - Value(row.endNegative) == f.ending &&
        Value(row.debit) == f.debit && Value(row.credit) == f.credit)
  {
    var ps := Partners(lines);
    var figures: PartnerFigures := p => FiguresOf(read, lines, p);
    AllFiguresAre(figures, ps, i);
    assert figures(ps[i]) == FiguresOf(read, lines, ps[i]);
    if Summary(read, lines).Some? {
      RowsAt(ps, AllFigures(figures, ps).value, 1, i);
    }
  }
}
