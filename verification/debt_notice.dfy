/** The debt notice printed for one partner (report/debt_notif_pdf.py): a
    ledger of the partner's opening balances, its payments and the invoice
    lines of its moves, closed by the incurred totals and the ending balance.
    The records the report looks up by id (journal items, their payment and
    move, the move's invoice lines) are given as a store. */
module DebtNotice {
  import opened Wrappers
  import opened Text
  import opened NumberSplit
  import opened ReportLines

  const OpeningCaption := "D\U{01B0} \U{0111}\U{1EA7}u k\U{1EF3}"
  const IncurredCaption := "C\U{1ED9}ng ph\U{00E1}t sinh"
  const EndingCaption := "D\U{01B0} cu\U{1ED1}i k\U{1EF3}"
  const PaymentCaret := "account.payment"
  const MoveLineCaret := "account.move.line"

  /** A cell of the table: None, the empty text '' or a number */
  datatype Cell = Null | Blank | Number(n: int)

  /** What a cell adds to a sum: its number; None and '' are falsy and add nothing */
  function Value(c: Cell): int
  {
    if c.Number? then c.n else 0
  }

  /** A table row, by the keys the template reads: 'a' the date, 'b' the
      document, 'c' the description, '1' quantity, '2' unit price, '3'
      receivable, '4' payment, then the bold and ending-balance flags */
  datatype Row = Row(date: string, document: string, text: Option<string>,
                     quantity: Cell, unitPrice: Cell, receivable: Cell, payment: Cell,
                     bold: bool, ending: bool)

  /** The records behind a level-4 line: a journal item with its date, its
      payment (if any) and its move */
  datatype Payment = Payment(date: string, name: string, ref: Option<string>, amount: int)
  datatype InvoiceLine = InvoiceLine(name: Option<string>, quantity: int, unitPrice: int, priceTotal: int)
  datatype Move = Move(id: int, invoiceNumber: Option<string>, invoiceLines: seq<InvoiceLine>)
  datatype MoveLine = MoveLine(date: string, payment: Option<Payment>, move: Move)

  /** Journal items by id; reading any field of an id that is not stored raises */
  type Store = map<int, MoveLine>

  // ---------------------------------------------------------------------
  // Rows

  function OpeningRow(amount: int): Row
  {
    Row("", "", Some(OpeningCaption), Null, Null, Number(amount), Null, false, false)
  }

  function PaymentRow(p: Payment): Row
  {
    Row(p.date, p.name, p.ref, Null, Null, Null, Number(p.amount), false, false)
  }

  function InvoiceRow(date: string, number: string, il: InvoiceLine): Row
  {
    Row(date, number, il.name, Number(il.quantity), Number(il.unitPrice), Number(il.priceTotal), Null, false, false)
  }

  function IncurredRow(received: int, paid: int): Row
  {
    Row("", "", Some(IncurredCaption), Blank, Blank, Number(received), Number(paid), true, false)
  }

  function EndingRow(balance: int): Row
  {
    Row("", "", Some(EndingCaption), Blank, Blank, Number(balance), Blank, true, true)
  }

  // ---------------------------------------------------------------------
  // Sums over rows

  /** The sum of `part` over the rows */
  function Sum(rows: seq<Row>, part: Row -> int): int
  {
    if |rows| == 0 then 0 else part(rows[0]) + Sum(rows[1..], part)
  }

  /** '3' of a row captioned as an opening balance */
  function OpenedPart(row: Row): int
  {
    if row.text == Some(OpeningCaption) then Value(row.receivable) else 0
  }

  /** '3' of any other row */
  function ReceivedPart(row: Row): int
  {
    if row.text != Some(OpeningCaption) then Value(row.receivable) else 0
  }

  function ReceivablePart(row: Row): int
  {
    Value(row.receivable)
  }

  function PaymentPart(row: Row): int
  {
    Value(row.payment)
  }

  lemma {:induction false} SumAppend(a: seq<Row>, b: seq<Row>, part: Row -> int)
    ensures Sum(a + b, part) == Sum(a, part) + Sum(b, part)
    decreases |a|
  {
    if |a| > 0 {
      assert (a + b)[0] == a[0];
      assert (a + b)[1..] == a[1..] + b;
      SumAppend(a[1..], b, part);
    } else {
      assert a + b == b;
    }
  }

  /** The captioned and the other '3' amounts together are all of them */
  lemma {:induction false} OpenedAndReceived(rows: seq<Row>)
    ensures Sum(rows, OpenedPart) + Sum(rows, ReceivedPart) == Sum(rows, ReceivablePart)
    decreases |rows|
  {
    if |rows| > 0 {
      OpenedAndReceived(rows[1..]);
    }
  }

  /** The rows close with the incurred totals and the ending balance */
  function Close(body: seq<Row>): (r: seq<Row>)
    ensures |r| == |body| + 2 && r[..|body|] == body
  {
    var opening := Sum(body, OpenedPart);
    var received := Sum(body, ReceivedPart);
    var paid := Sum(body, PaymentPart);
    body + [IncurredRow(received, paid), EndingRow(opening + received - paid)]
  }

  // ---------------------------------------------------------------------
  // Opening balances

  /** `receivables` after an opening line: the amount of its last named
      column, or the amount carried over from the previous opening line when
      it has no named column; None when the text does not parse */
  function OpeningAmount(read: Reader, l: Line, carried: int): Option<int>
  {
    var col := LastNamed(l.columns);
    if col.None? then Some(carried) else read(col.value.name)
  }

  /** One 'Dư đầu kỳ' row per level-2 line; `carried` starts at 0 (False) */
  function OpeningRows(read: Reader, opens: seq<Line>, carried: int): (r: Option<seq<Row>>)
    ensures r.Some? ==> |r.value| == |opens|
    decreases |opens|
  {
    if |opens| == 0 then Some([])
    else
      var a := OpeningAmount(read, opens[0], carried);
      if a.None? then None
      else
        var rest := OpeningRows(read, opens[1..], a.value);
        if rest.None? then None else Some([OpeningRow(a.value)] + rest.value)
  }

  /** The opening row of line i reads that line's last named column; a line
      with no named column repeats the previous line's amount (0 for the
      first), and any unreadable text fails the whole table */
  lemma {:induction false} OpeningAt(read: Reader, opens: seq<Line>, carried: int, i: nat)
    requires i < |opens|
    ensures var r := OpeningRows(read, opens, carried);
      r.Some? ==>
        r.value[i] == OpeningRow(Value(r.value[i].receivable)) &&
        (LastNamed(opens[i].columns).Some? ==>
          read(LastNamed(opens[i].columns).value.name) == Some(Value(r.value[i].receivable))) &&
        (LastNamed(opens[i].columns).None? ==>
          Value(r.value[i].receivable) == (if i == 0 then carried else Value(r.value[i - 1].receivable)))
    ensures (LastNamed(opens[i].columns).Some? && read(LastNamed(opens[i].columns).value.name).None?) ==>
      OpeningRows(read, opens, carried).None?
    decreases i
  {
    var a := OpeningAmount(read, opens[0], carried);
    if i > 0 && a.Some? {
      OpeningAt(read, opens[1..], a.value, i - 1);
      assert opens[1..][i - 1] == opens[i];
      var rest := OpeningRows(read, opens[1..], a.value);
      if rest.Some? {
        var r := [OpeningRow(a.value)] + rest.value;
        assert r[i] == rest.value[i - 1];
        if i == 1 {
          assert r[0] == OpeningRow(a.value);
        } else {
          assert r[i - 1] == rest.value[i - 2];
        }
      }
    }
  }

  /** Opening rows carry no payment and are all captioned 'Dư đầu kỳ' */
  lemma {:induction false} OpeningSums(read: Reader, opens: seq<Line>, carried: int)
    requires OpeningRows(read, opens, carried).Some?
    ensures var rows := OpeningRows(read, opens, carried).value;
      Sum(rows, PaymentPart) == 0 && Sum(rows, OpenedPart) == Sum(rows, ReceivablePart) &&
      Sum(rows, ReceivedPart) == 0 &&
      forall i :: 0 <= i < |rows| ==> rows[i] == OpeningRow(Value(rows[i].receivable)) && !rows[i].ending
    decreases |opens|
  {
    if |opens| > 0 {
      var a := OpeningAmount(read, opens[0], carried);
      OpeningSums(read, opens[1..], a.value);
      var rest := OpeningRows(read, opens[1..], a.value).value;
      var rows := [OpeningRow(a.value)] + rest;
      assert rows[0] == OpeningRow(a.value);
      assert rows[1..] == rest;
      assert forall i :: 1 <= i < |rows| ==> rows[i] == rest[i - 1];
    }
  }

  // ---------------------------------------------------------------------
  // Payments and invoice lines

  /** The record id a generic line id ends with: the text after its last '~',
      read by `int()`; None when it is not an integer */
  function RecordId(id: string): Option<int>
  {
    var parts := Split(id, '~');
    ParseFloat(parts[|parts| - 1])
  }

  /** The journal item a line refers to; None when `int()` or the lookup fails */
  function ItemOf(store: Store, l: Line): Option<MoveLine>
  {
    var id := RecordId(l.id);
    if id.None? || id.value !in store then None else Some(store[id.value])
  }

  /** One row per invoice line of a move, dated by the journal item */
  function InvoiceRows(date: string, number: string, ils: seq<InvoiceLine>): (r: seq<Row>)
    ensures |r| == |ils|
  {
    if |ils| == 0 then [] else [InvoiceRow(date, number, ils[0])] + InvoiceRows(date, number, ils[1..])
  }

  /** How the report finds the journal item a level-4 line refers to; the
      report looks it up with ItemOf in its store */
  type Lookup = Line -> Option<MoveLine>

  /** The rows and the moves emitted for some level-4 lines */
  datatype Ledger = Ledger(rows: seq<Row>, moves: seq<Move>)

  /** The rows of one level-4 line, given the ids of the moves already
      emitted: its payment row, or the invoice lines of a move not yet
      emitted, or nothing for any other caret */
  function Incur(lookup: Lookup, l: Line, seen: seq<int>): Option<Ledger>
  {
    if l.caret == Some(PaymentCaret) then
      var item := lookup(l);
      if item.None? || item.value.payment.None? then None
      else Some(Ledger([PaymentRow(item.value.payment.value)], []))
    else if l.caret == Some(MoveLineCaret) then
      var item := lookup(l);
      if item.None? then None
      else if item.value.move.id in seen then Some(Ledger([], []))
      else
        var m := item.value.move;
        Some(Ledger(InvoiceRows(item.value.date, m.invoiceNumber.GetOr(""), m.invoiceLines), [m]))
    else Some(Ledger([], []))
  }

  /** The ids of some moves, in order */
  function MoveIds(moves: seq<Move>): (r: seq<int>)
    ensures |r| == |moves|
  {
    if |moves| == 0 then [] else [moves[0].id] + MoveIds(moves[1..])
  }

  /** The level-4 lines in order, each move emitted at most once */
  function IncurredRows(lookup: Lookup, items: seq<Line>, seen: seq<int>): Option<Ledger>
    decreases |items|
  {
    if |items| == 0 then Some(Ledger([], []))
    else
      var step := Incur(lookup, items[0], seen);
      if step.None? then None
      else
        var rest := IncurredRows(lookup, items[1..], seen + MoveIds(step.value.moves));
        if rest.None? then None
        else Some(Ledger(step.value.rows + rest.value.rows, step.value.moves + rest.value.moves))
  }

  /** The amount of the invoice lines */
  function LinesTotal(ils: seq<InvoiceLine>): int
  {
    if |ils| == 0 then 0 else ils[0].priceTotal + LinesTotal(ils[1..])
  }

  /** The amount of the invoice lines of some moves */
  function MovesTotal(moves: seq<Move>): int
  {
    if |moves| == 0 then 0 else LinesTotal(moves[0].invoiceLines) + MovesTotal(moves[1..])
  }

  /** The number of invoice lines of some moves */
  function LineCount(moves: seq<Move>): nat
  {
    if |moves| == 0 then 0 else |moves[0].invoiceLines| + LineCount(moves[1..])
  }

  /** Some invoice line is itself named 'Dư đầu kỳ' */
  predicate LineLikeOpening(ils: seq<InvoiceLine>)
  {
    exists j :: 0 <= j < |ils| && ils[j].name == Some(OpeningCaption)
  }

  /** Some invoice line of the moves is itself named 'Dư đầu kỳ' */
  predicate NamedLikeOpening(moves: seq<Move>)
  {
    |moves| > 0 && (LineLikeOpening(moves[0].invoiceLines) || NamedLikeOpening(moves[1..]))
  }

  /** Totals over some moves split over a concatenation */
  lemma {:induction false} MovesAppend(a: seq<Move>, b: seq<Move>)
    ensures MovesTotal(a + b) == MovesTotal(a) + MovesTotal(b)
    ensures LineCount(a + b) == LineCount(a) + LineCount(b)
    ensures NamedLikeOpening(a + b) <==> NamedLikeOpening(a) || NamedLikeOpening(b)
    decreases |a|
  {
    if |a| > 0 {
      assert (a + b)[0] == a[0];
      assert (a + b)[1..] == a[1..] + b;
      MovesAppend(a[1..], b);
    } else {
      assert a + b == b;
    }
  }

  /** The payment amount of a payment line, read straight from its item */
  function PaymentAmount(lookup: Lookup, l: Line): int
  {
    var item := lookup(l);
    if l.caret == Some(PaymentCaret) && item.Some? && item.value.payment.Some?
    then item.value.payment.value.amount else 0
  }

  /** The payment amounts of the payment lines */
  function PaymentsTotal(lookup: Lookup, items: seq<Line>): int
  {
    if |items| == 0 then 0 else PaymentAmount(lookup, items[0]) + PaymentsTotal(lookup, items[1..])
  }

  /** The number of payment lines */
  function PaymentCount(items: seq<Line>): nat
  {
    if |items| == 0 then 0
    else (if items[0].caret == Some(PaymentCaret) then 1 else 0) + PaymentCount(items[1..])
  }

  /** The invoice rows of a move add its lines' totals as receivables, no
      payment, and no opening amount unless a line is named like one */
  lemma {:induction false} InvoiceSums(date: string, number: string, ils: seq<InvoiceLine>)
    ensures var rows := InvoiceRows(date, number, ils);
      Sum(rows, ReceivablePart) == LinesTotal(ils) && Sum(rows, PaymentPart) == 0 &&
      (!LineLikeOpening(ils) ==> Sum(rows, OpenedPart) == 0) &&
      forall k :: 0 <= k < |rows| ==> !rows[k].ending
    decreases |ils|
  {
    if |ils| > 0 {
      InvoiceSums(date, number, ils[1..]);
      var rows := InvoiceRows(date, number, ils);
      var rest := InvoiceRows(date, number, ils[1..]);
      assert rows[1..] == rest;
      assert forall k :: 1 <= k < |rows| ==> rows[k] == rest[k - 1];
      if !LineLikeOpening(ils) {
        assert ils[0].name != Some(OpeningCaption);
        forall j | 0 <= j < |ils[1..]|
          ensures ils[1..][j].name != Some(OpeningCaption)
        {
          assert ils[1..][j] == ils[j + 1];
        }
      }
    }
  }

  /** What one level-4 line adds: its payment row, or the invoice rows of
      the one move it emits */
  lemma StepSums(lookup: Lookup, l: Line, seen: seq<int>)
    requires Incur(lookup, l, seen).Some?
    ensures var step := Incur(lookup, l, seen).value;
      Sum(step.rows, ReceivablePart) == MovesTotal(step.moves) &&
      Sum(step.rows, PaymentPart) == PaymentAmount(lookup, l) &&
      |step.rows| == (if l.caret == Some(PaymentCaret) then 1 else 0) + LineCount(step.moves) &&
      (!NamedLikeOpening(step.moves) ==> Sum(step.rows, OpenedPart) == 0) &&
      forall k :: 0 <= k < |step.rows| ==> !step.rows[k].ending
  {
    var step := Incur(lookup, l, seen).value;
    if |step.moves| > 0 {
      var item := lookup(l).value;
      var m := item.move;
      assert step.moves == [m];
      assert [m][1..] == [];
      InvoiceSums(item.date, m.invoiceNumber.GetOr(""), m.invoiceLines);
    }
  }

  /** The rows of the level-4 lines add exactly the emitted moves' invoice
      totals as receivables and the items' payment amounts as payments */
  lemma {:induction false} IncurredSums(lookup: Lookup, items: seq<Line>, seen: seq<int>)
    requires IncurredRows(lookup, items, seen).Some?
    ensures var l := IncurredRows(lookup, items, seen).value;
      Sum(l.rows, ReceivablePart) == MovesTotal(l.moves) &&
      Sum(l.rows, PaymentPart) == PaymentsTotal(lookup, items)
    decreases |items|
  {
    if |items| > 0 {
      var step := Incur(lookup, items[0], seen).value;
      var seen' := seen + MoveIds(step.moves);
      StepSums(lookup, items[0], seen);
      IncurredSums(lookup, items[1..], seen');
      var rest := IncurredRows(lookup, items[1..], seen').value;
      SumAppend(step.rows, rest.rows, ReceivablePart);
      SumAppend(step.rows, rest.rows, PaymentPart);
      MovesAppend(step.moves, rest.moves);
    }
  }

  /** One row per payment line and per invoice line of an emitted move, none
      of them an ending balance, and none counted as an opening unless an
      invoice line is named like one */
  lemma {:induction false} IncurredShape(lookup: Lookup, items: seq<Line>, seen: seq<int>)
    requires IncurredRows(lookup, items, seen).Some?
    ensures var l := IncurredRows(lookup, items, seen).value;
      |l.rows| == PaymentCount(items) + LineCount(l.moves) &&
      (!NamedLikeOpening(l.moves) ==> Sum(l.rows, OpenedPart) == 0) &&
      forall k :: 0 <= k < |l.rows| ==> !l.rows[k].ending
    decreases |items|
  {
    if |items| > 0 {
      var step := Incur(lookup, items[0], seen).value;
      var seen' := seen + MoveIds(step.moves);
      StepSums(lookup, items[0], seen);
      IncurredShape(lookup, items[1..], seen');
      var rest := IncurredRows(lookup, items[1..], seen').value;
      var rows := step.rows + rest.rows;
      SumAppend(step.rows, rest.rows, OpenedPart);
      MovesAppend(step.moves, rest.moves);
      assert forall k :: |step.rows| <= k < |rows| ==> rows[k] == rest.rows[k - |step.rows|];
    }
  }

  /** Ids without repeats */
  predicate Distinct(ids: seq<int>)
  {
    forall i, j :: 0 <= i < j < |ids| ==> ids[i] != ids[j]
  }

  /** The line refers to a stored journal item whose move id is among `ids` */
  predicate RefersTo(lookup: Lookup, l: Line, ids: seq<int>)
  {
    lookup(l).Some? && lookup(l).value.move.id in ids
  }

  lemma MoveIdsAppend(a: seq<Move>, b: seq<Move>)
    ensures MoveIds(a + b) == MoveIds(a) + MoveIds(b)
  {
    if |a| > 0 {
      assert (a + b)[1..] == a[1..] + b;
      MoveIdsAppend(a[1..], b);
    } else {
      assert a + b == b;
    }
  }

  /** A level-4 line emits at most the move of its item, and only when that
      move was not seen; a move line always refers to a seen or emitted move */
  lemma StepMoves(lookup: Lookup, l: Line, seen: seq<int>)
    requires Incur(lookup, l, seen).Some?
    ensures var ids := MoveIds(Incur(lookup, l, seen).value.moves);
      (ids == [] || (ids == [lookup(l).value.move.id] && lookup(l).value.move.id !in seen)) &&
      (l.caret == Some(MoveLineCaret) ==> RefersTo(lookup, l, seen + ids))
  {
    var step := Incur(lookup, l, seen).value;
    if |step.moves| > 0 {
      assert step.moves == [lookup(l).value.move];
      assert step.moves[1..] == [];
    }
  }

  /** Each move's invoice lines are emitted at most once: the emitted moves
      have distinct ids, none of them seen before */
  lemma {:induction false} IncurredOnce(lookup: Lookup, items: seq<Line>, seen: seq<int>)
    requires IncurredRows(lookup, items, seen).Some?
    ensures var ids := MoveIds(IncurredRows(lookup, items, seen).value.moves);
      Distinct(ids) && forall i :: 0 <= i < |ids| ==> ids[i] !in seen
    decreases |items|
  {
    if |items| > 0 {
      var step := Incur(lookup, items[0], seen).value;
      var stepIds := MoveIds(step.moves);
      var seen' := seen + stepIds;
      StepMoves(lookup, items[0], seen);
      IncurredOnce(lookup, items[1..], seen');
      var rest := IncurredRows(lookup, items[1..], seen').value;
      MoveIdsAppend(step.moves, rest.moves);
      var restIds := MoveIds(rest.moves);
      var ids := stepIds + restIds;
      forall i | 0 <= i < |ids|
        ensures ids[i] !in seen
      {
        if i >= |stepIds| {
          assert ids[i] == restIds[i - |stepIds|];
        }
      }
      forall i, j | 0 <= i < j < |ids|
        ensures ids[i] != ids[j]
      {
        assert ids[j] == restIds[j - |stepIds|];
        if i >= |stepIds| {
          assert ids[i] == restIds[i - |stepIds|];
        } else {
          assert ids[i] in seen';
        }
      }
    }
  }

  /** Every `account.move.line` line refers to a stored item whose move was
      seen before or emitted */
  lemma {:induction false} IncurredCovers(lookup: Lookup, items: seq<Line>, seen: seq<int>)
    requires IncurredRows(lookup, items, seen).Some?
    ensures var ids := MoveIds(IncurredRows(lookup, items, seen).value.moves);
      forall k :: 0 <= k < |items| && items[k].caret == Some(MoveLineCaret) ==> RefersTo(lookup, items[k], seen + ids)
    decreases |items|
  {
    if |items| > 0 {
      var step := Incur(lookup, items[0], seen).value;
      var stepIds := MoveIds(step.moves);
      var seen' := seen + stepIds;
      StepMoves(lookup, items[0], seen);
      IncurredCovers(lookup, items[1..], seen');
      var rest := IncurredRows(lookup, items[1..], seen').value;
      MoveIdsAppend(step.moves, rest.moves);
      var restIds := MoveIds(rest.moves);
      assert seen + (stepIds + restIds) == seen' + restIds;
      forall k | 0 <= k < |items| && items[k].caret == Some(MoveLineCaret)
        ensures RefersTo(lookup, items[k], seen' + restIds)
      {
        if k > 0 {
          assert items[1..][k - 1] == items[k];
        }
      }
    }
  }

  // ---------------------------------------------------------------------
  // The table

  /** `open_balance`: the parent's level-2 children */
  function OpeningLines(parent: Line, lines: seq<Line>): seq<Line>
  {
    Children(lines, parent.id, 2)
  }

  /** `incurred`: the parent's level-4 children */
  function IncurredLines(parent: Line, lines: seq<Line>): seq<Line>
  {
    Children(lines, parent.id, 4)
  }

  /** `get_line_table(parent, lines)`: None when there are no lines or no
      parent, and where the source raises (an amount or id that does not
      parse, a journal item that is not stored, a payment line whose item
      has no payment) */
  function LineTable(read: Reader, lookup: Lookup, parent: Option<Line>, lines: seq<Line>): (r: Option<seq<Row>>)
    ensures (|lines| == 0 || parent.None?) ==> r.None?
  {
    if |lines| == 0 || parent.None? then None
    else
      var opening := OpeningRows(read, OpeningLines(parent.value, lines), 0);
      var incurred := IncurredRows(lookup, IncurredLines(parent.value, lines), []);
      if opening.None? || incurred.None? then None
      else Some(Close(opening.value + incurred.value.rows))
  }

  /** `get_lasted_lines(rows)`: '3' of the last row flagged as the ending
      balance, 0 when there is none; a scan from the front, as the source's
      loop over the rows */
  function LastedLines(rows: seq<Row>): Cell
  {
    LastedFrom(rows, Number(0))
  }

  function LastedFrom(rows: seq<Row>, found: Cell): Cell
  {
    if |rows| == 0 then found
    else LastedFrom(rows[1..], if rows[0].ending then rows[0].receivable else found)
  }

  /** The last part of a split is the text after the last separator */
  lemma {:induction false} SplitLast(t: string, c: char, u: string)
    requires c !in u
    ensures var parts := Split(t + [c] + u, c); parts[|parts| - 1] == u
    decreases |t|
  {
    var s := t + [c] + u;
    if |t| == 0 {
      SplitAfterPart(t, c, u);
      SplitNoSeparator(u, c);
    } else {
      assert s[1..] == t[1..] + [c] + u;
      SplitLast(t[1..], c, u);
      assert c in s[1..] by {
        assert s[1..][|t| - 1] == c;
      }
      SplitMany(s[1..], c);
    }
  }

  /** A generic line id ending in '~' and the digits of a record id names
      that record */
  lemma RecordIdOfGenericId(prefix: string, digits: string)
    requires |digits| > 0 && AllDigits(digits)
    ensures RecordId(prefix + "~" + digits) == Some(DigitsValue(digits))
  {
    assert forall i :: 0 <= i < |digits| ==> digits[i] != '~';
    SplitLast(prefix, '~', digits);
    assert prefix + "~" + digits == prefix + ['~'] + digits;
  }

  /** The table as the report prints it, each level-4 line looked up in the store */
  function ReportTable(read: Reader, store: Store, parent: Option<Line>, lines: seq<Line>): Option<seq<Row>>
  {
    LineTable(read, l => ItemOf(store, l), parent, lines)
  }

  /** The rows come in the source's order: one opening row per level-2 child
      of the parent, then the rows of its level-4 children, then the incurred
      totals and the ending balance, which alone is flagged as one */
  lemma TableShape(read: Reader, lookup: Lookup, parent: Line, lines: seq<Line>)
    requires LineTable(read, lookup, Some(parent), lines).Some?
    ensures var t := LineTable(read, lookup, Some(parent), lines).value;
      var opens := OpeningLines(parent, lines);
      var incurred := IncurredRows(lookup, IncurredLines(parent, lines), []).value;
      |t| == |opens| + |incurred.rows| + 2 &&
      (forall i :: 0 <= i < |opens| ==> t[i] == OpeningRow(Value(t[i].receivable))) &&
      t[|opens|..|t| - 2] == incurred.rows &&
      t[|t| - 2].text == Some(IncurredCaption) && t[|t| - 1].text == Some(EndingCaption) &&
      t[|t| - 1].ending && forall i :: 0 <= i < |t| - 1 ==> !t[i].ending
  {
    var opens := OpeningLines(parent, lines);
    var items := IncurredLines(parent, lines);
    var o := OpeningRows(read, opens, 0).value;
    var incurred := IncurredRows(lookup, items, []).value;
    OpeningSums(read, opens, 0);
    IncurredShape(lookup, items, []);
    CloseShape(o, incurred.rows);
  }

  /** Closing rows none of which is an ending balance: they come first, and
      the ending balance closes the table as the one flagged row */
  lemma CloseShape(o: seq<Row>, r: seq<Row>)
    requires forall i :: 0 <= i < |o| ==> o[i] == OpeningRow(Value(o[i].receivable))
    requires forall i :: 0 <= i < |r| ==> !r[i].ending
    ensures var t := Close(o + r);
      |t| == |o| + |r| + 2 &&
      (forall i :: 0 <= i < |o| ==> t[i] == OpeningRow(Value(t[i].receivable))) &&
      t[|o|..|t| - 2] == r &&
      t[|t| - 2].text == Some(IncurredCaption) && t[|t| - 1].text == Some(EndingCaption) &&
      t[|t| - 1].ending && forall i :: 0 <= i < |t| - 1 ==> !t[i].ending
  {
    var t := Close(o + r);
    assert forall i :: 0 <= i < |o| ==> t[i] == o[i];
    assert forall i :: |o| <= i < |o| + |r| ==> t[i] == r[i - |o|];
    assert t[|o|..|t| - 2] == r;
  }

  /** Closing opening rows `o` (no payments, all captioned as openings)
      followed by other rows `r` */
  lemma CloseSums(o: seq<Row>, r: seq<Row>)
    requires Sum(o, PaymentPart) == 0 && Sum(o, ReceivedPart) == 0
    requires Sum(o, OpenedPart) == Sum(o, ReceivablePart)
    ensures var t := Close(o + r);
      t[|t| - 1] == EndingRow(Sum(o, ReceivablePart) + Sum(r, ReceivablePart) - Sum(r, PaymentPart)) &&
      (Sum(r, OpenedPart) == 0 ==> t[|t| - 2] == IncurredRow(Sum(r, ReceivablePart), Sum(r, PaymentPart)))
  {
    OpenedAndReceived(o + r);
    OpenedAndReceived(r);
    SumAppend(o, r, ReceivablePart);
    SumAppend(o, r, PaymentPart);
    SumAppend(o, r, ReceivedPart);
  }

  /** The ending balance is the opening rows' amounts plus the emitted
      invoice totals less the payments; the incurred row holds the latter two
      unless an invoice line is itself named 'Dư đầu kỳ', which the source
      counts as an opening by its text */
  lemma EndingBalance(read: Reader, lookup: Lookup, parent: Line, lines: seq<Line>)
    requires LineTable(read, lookup, Some(parent), lines).Some?
    ensures var t := LineTable(read, lookup, Some(parent), lines).value;
      var opens := OpeningLines(parent, lines);
      var items := IncurredLines(parent, lines);
      var incurred := IncurredRows(lookup, items, []).value;
      |opens| + 2 <= |t| &&
      t[|t| - 1] == EndingRow(Sum(t[..|opens|], ReceivablePart) + MovesTotal(incurred.moves) - PaymentsTotal(lookup, items)) &&
      (!NamedLikeOpening(incurred.moves) ==>
        t[|t| - 2] == IncurredRow(MovesTotal(incurred.moves), PaymentsTotal(lookup, items)))
  {
    var opens := OpeningLines(parent, lines);
    var items := IncurredLines(parent, lines);
    var o := OpeningRows(read, opens, 0).value;
    var incurred := IncurredRows(lookup, items, []).value;
    var t := LineTable(read, lookup, Some(parent), lines).value;
    assert t == Close(o + incurred.rows);
    assert t[..|opens|] == o;
    OpeningSums(read, opens, 0);
    IncurredSums(lookup, items, []);
    IncurredShape(lookup, items, []);
    CloseSums(o, incurred.rows);
  }

  /** With no row flagged, the scan ends on what it started from */
  lemma {:induction false} LastedNone(rows: seq<Row>, found: Cell)
    requires forall i :: 0 <= i < |rows| ==> !rows[i].ending
    ensures LastedFrom(rows, found) == found
    decreases |rows|
  {
    if |rows| > 0 {
      assert !rows[0].ending;
      LastedNone(rows[1..], found);
    }
  }

  /** The scan ends on the last row flagged as an ending balance */
  lemma {:induction false} LastedAt(rows: seq<Row>, found: Cell, j: nat)
    requires j < |rows| && rows[j].ending
    requires forall k :: j < k < |rows| ==> !rows[k].ending
    ensures LastedFrom(rows, found) == rows[j].receivable
    decreases |rows|
  {
    var next := if rows[0].ending then rows[0].receivable else found;
    if j == 0 {
      LastedNone(rows[1..], next);
    } else {
      assert rows[1..][j - 1] == rows[j];
      LastedAt(rows[1..], next, j - 1);
    }
  }

  /** On the table, `get_lasted_lines` reads back its ending balance */
  lemma LastedOnTable(read: Reader, lookup: Lookup, parent: Line, lines: seq<Line>)
    requires LineTable(read, lookup, Some(parent), lines).Some?
    ensures var t := LineTable(read, lookup, Some(parent), lines).value;
      var opens := OpeningLines(parent, lines);
      var items := IncurredLines(parent, lines);
      var incurred := IncurredRows(lookup, items, []).value;
      LastedLines(t) == Number(Sum(t[..|opens|], ReceivablePart) + MovesTotal(incurred.moves) - PaymentsTotal(lookup, items))
  {
    TableShape(read, lookup, parent, lines);
    EndingBalance(read, lookup, parent, lines);
    var t := LineTable(read, lookup, Some(parent), lines).value;
    LastedAt(t, Number(0), |t| - 1);
  }

  // ---------------------------------------------------------------------
  // Printing numbers

  /** What `format_number` returns: the number itself, a text, or None */
  datatype Printed = Raw(n: int) | Shown(s: string) | Nothing

  /** The locale clean-up after `formatLang`: vi_VN drops ",00"; otherwise
      ".00" goes and ',' becomes '.' */
  function Localized(formatted: string, vi: bool): string
  {
    if vi then Replace(formatted, ",00", "") else Replace(Replace(formatted, ".00", ""), ",", ".")
  }

  /** `format_number(number)`; `formatLang` is given as a function */
  function FormatNumber(c: Cell, noFormat: bool, vi: bool, formatLang: int -> string): Printed
  {
    if c.Number? && c.n != 0 then
      if noFormat then Raw(c.n) else Shown(Localized(formatLang(c.n), vi))
    else if c.Number? then Shown("0")
    else Nothing
  }

  /** Replacing ',' by '.' leaves no ',' */
  lemma {:induction false} NoCommaLeft(s: string)
    ensures ',' !in Replace(s, ",", ".")
    decreases |s|
  {
    if |s| >= 1 {
      NoCommaLeft(s[1..]);
      if s[..1] != "," {
        assert s[0] != ',' by {
          assert s[..1] == [s[0]];
        }
      }
    }
  }

  /** Zero prints as '0'; with `no_format` any other number is returned
      unchanged; None and '' print as None; outside vi_VN the text has no ',' */
  lemma FormatNumberCases(c: Cell, noFormat: bool, vi: bool, formatLang: int -> string)
    ensures c == Number(0) ==> FormatNumber(c, noFormat, vi, formatLang) == Shown("0")
    ensures c.Number? && c.n != 0 && noFormat ==> FormatNumber(c, noFormat, vi, formatLang) == Raw(c.n)
    ensures !c.Number? ==> FormatNumber(c, noFormat, vi, formatLang).Nothing?
    ensures c.Number? && c.n != 0 && !noFormat && !vi ==>
      FormatNumber(c, noFormat, vi, formatLang).Shown? && ',' !in FormatNumber(c, noFormat, vi, formatLang).s
  {
    if c.Number? && c.n != 0 && !noFormat && !vi {
      NoCommaLeft(Replace(formatLang(c.n), ".00", ""));
    }
  }
}
