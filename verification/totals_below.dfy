/** "Totals below sections" (models/account_report.py,
    `_add_totals_below_sections` and `_genarate_new_total_line`): a total line
    is placed after every section that needs one, closing it before the
    first later line whose id does not extend the section's id. */
module TotalsBelow {
  import opened Wrappers
  import opened Text
  import opened ReportLines

  /** An output line: an input line, or the total generated for a section.
      The framework builds that total (`_generate_total_below_section_line`);
      the model keeps the section it was made from, whose id is the total's
      parent id. */
  datatype Item = Row(line: Line) | Total(section: Line)

  const TotalsClass := " o_account_reports_totals_below_sections"

  /** An expandable line (unfoldable, or unfolded with an expand function)
      gets a total of its own */
  predicate Expandable(l: Line)
  {
    l.unfoldable || (l.unfolded && Filled(l.expandFunction))
  }

  /** The line is a non-total line that names `x` as needing a total: its
      own id when it is expandable, its parent's id when it has one */
  predicate Names(l: Line, x: string)
  {
    l.markup != "total" &&
    ((Expandable(l) && x == l.id) || (Filled(l.parentId) && x == l.parentId.value))
  }

  /** The ids of the lines that need a total */
  function NeedingTotals(lines: seq<Line>): (r: set<string>)
    ensures forall x :: x in r <==> exists i :: 0 <= i < |lines| && Names(lines[i], x)
  {
    if |lines| == 0 then {}
    else
      var l := lines[0];
      var own := if l.markup != "total" && Expandable(l) then {l.id} else {};
      var parent := if l.markup != "total" && Filled(l.parentId) then {l.parentId.value} else {};
      var rest := NeedingTotals(lines[1..]);
      assert forall x :: x in rest <==> exists i :: 1 <= i < |lines| && Names(lines[i], x) by {
        forall x | x in rest
          ensures exists i :: 1 <= i < |lines| && Names(lines[i], x)
        {
          var i :| 0 <= i < |lines[1..]| && Names(lines[1..][i], x);
          assert lines[i + 1] == lines[1..][i];
        }
        forall x, i | 1 <= i < |lines| && Names(lines[i], x)
          ensures x in rest
        {
          assert lines[1..][i - 1] == lines[i];
        }
      }
      own + parent + rest
  }

  /** Some column carries a raw amount */
  predicate HasAmount(l: Line)
  {
    exists i :: 0 <= i < |l.columns| && l.columns[i].noFormat.Some?
  }

  /** The line opens a section that gets a total */
  predicate Opens(l: Line, needing: set<string>)
  {
    l.id in needing && HasAmount(l)
  }

  /** The line as emitted: a section line gains the totals class */
  function Marked(l: Line, needing: set<string>): (r: Line)
    ensures r.id == l.id
  {
    if Opens(l, needing) then l.(cls := l.cls + TotalsClass) else l
  }

  /** How many sections at the bottom of the stack stay open for a line
      with this id: the top is closed while the id does not extend it */
  function Kept(stack: seq<Line>, id: string): (k: nat)
    ensures k <= |stack|
  {
    if |stack| > 0 && !StartsWith(id, stack[|stack| - 1].id) then Kept(stack[..|stack| - 1], id)
    else |stack|
  }

  /** The totals of the closed sections, innermost first */
  function Close(stack: seq<Line>): (r: seq<Item>)
    ensures |r| == |stack|
  {
    if |stack| == 0 then [] else [Total(stack[|stack| - 1])] + Close(stack[..|stack| - 1])
  }

  /** The sections open after line `l`: those it stays inside, then `l`
      itself (marked) when it opens one */
  function Reopen(l: Line, needing: set<string>, stack: seq<Line>): seq<Line>
  {
    var k := Kept(stack, l.id);
    if Opens(l, needing) then stack[..k] + [Marked(l, needing)] else stack[..k]
  }

  /** The injection loop over the remaining lines, with the open sections on
      `stack` (outermost first); whatever is still open is closed at the end */
  function Inject(lines: seq<Line>, needing: set<string>, stack: seq<Line>): seq<Item>
    decreases |lines|
  {
    if |lines| == 0 then Close(stack)
    else
      Close(stack[Kept(stack, lines[0].id)..]) + [Row(Marked(lines[0], needing))]
      + Inject(lines[1..], needing, Reopen(lines[0], needing, stack))
  }

  /** The sections still open when the loop ends */
  function FinalOpen(lines: seq<Line>, needing: set<string>, stack: seq<Line>): seq<Line>
    decreases |lines|
  {
    if |lines| == 0 then stack else FinalOpen(lines[1..], needing, Reopen(lines[0], needing, stack))
  }

  function Rows(lines: seq<Line>): (r: seq<Item>)
    ensures |r| == |lines| && forall i :: 0 <= i < |lines| ==> r[i] == Row(lines[i])
  {
    if |lines| == 0 then [] else [Row(lines[0])] + Rows(lines[1..])
  }

  /** `_add_totals_below_sections` on the standard report: `enabled` is the
      company's setting and `ignore` the option that switches it off */
  function AddTotalsBelow(lines: seq<Line>, enabled: bool, ignore: bool): (r: seq<Item>)
    ensures !enabled || ignore || |NeedingTotals(lines)| == 0 ==> r == Rows(lines)
  {
    if !enabled || ignore then Rows(lines)
    else
      var needing := NeedingTotals(lines);
      if |needing| == 0 then Rows(lines) else Inject(lines, needing, [])
  }

  // ---------------------------------------------------------------------
  // Reading the output

  /** The lines of the rows, in order */
  function RowLines(items: seq<Item>): seq<Line>
  {
    if |items| == 0 then []
    else (if items[0].Row? then [items[0].line] else []) + RowLines(items[1..])
  }

  /** How many totals of section `s` there are */
  function TotalCount(items: seq<Item>, s: Line): nat
  {
    if |items| == 0 then 0
    else (if items[0] == Total(s) then 1 else 0) + TotalCount(items[1..], s)
  }

  /** How many rows come before the first total of `s` */
  function RowsBefore(items: seq<Item>, s: Line): nat
  {
    if |items| == 0 || items[0] == Total(s) then 0
    else (if items[0].Row? then 1 else 0) + RowsBefore(items[1..], s)
  }

  /** How many leading lines have ids extending `id` */
  function Within(lines: seq<Line>, id: string): (n: nat)
    ensures n <= |lines|
  {
    if |lines| == 0 || !StartsWith(lines[0].id, id) then 0 else 1 + Within(lines[1..], id)
  }

  /** Every emitted line, marked when it opens a section */
  function MarkedAll(lines: seq<Line>, needing: set<string>): (r: seq<Line>)
    ensures |r| == |lines| && forall i :: 0 <= i < |lines| ==> r[i] == Marked(lines[i], needing)
  {
    if |lines| == 0 then [] else [Marked(lines[0], needing)] + MarkedAll(lines[1..], needing)
  }

  lemma {:induction false} RowLinesAppend(a: seq<Item>, b: seq<Item>)
    ensures RowLines(a + b) == RowLines(a) + RowLines(b)
    decreases |a|
  {
    if |a| == 0 {
      assert a + b == b;
    } else {
      var h: seq<Line> := if a[0].Row? then [a[0].line] else [];
      assert (a + b)[0] == a[0];
      assert (a + b)[1..] == a[1..] + b;
      RowLinesAppend(a[1..], b);
      assert RowLines(a + b) == h + (RowLines(a[1..]) + RowLines(b));
      assert RowLines(a) == h + RowLines(a[1..]);
    }
  }

  lemma {:induction false} TotalCountAppend(a: seq<Item>, b: seq<Item>, s: Line)
    ensures TotalCount(a + b, s) == TotalCount(a, s) + TotalCount(b, s)
    decreases |a|
  {
    if |a| == 0 {
      assert a + b == b;
    } else {
      assert (a + b)[1..] == a[1..] + b;
      TotalCountAppend(a[1..], b, s);
    }
  }

  lemma {:induction false} RowsBeforeAppend(a: seq<Item>, b: seq<Item>, s: Line)
    ensures RowsBefore(a + b, s) ==
      if TotalCount(a, s) > 0 then RowsBefore(a, s) else |RowLines(a)| + RowsBefore(b, s)
    decreases |a|
  {
    if |a| == 0 {
      assert a + b == b;
    } else {
      assert (a + b)[1..] == a[1..] + b;
      RowsBeforeAppend(a[1..], b, s);
    }
  }

  /** Closing emits totals only */
  lemma {:induction false} CloseRows(stack: seq<Line>)
    ensures RowLines(Close(stack)) == []
    decreases |stack|
  {
    if |stack| > 0 {
      CloseRows(stack[..|stack| - 1]);
      RowLinesAppend([Total(stack[|stack| - 1])], Close(stack[..|stack| - 1]));
    }
  }

  /** Closing emits the totals of the closed sections and no other */
  lemma {:induction false} CloseOrigin(stack: seq<Line>, s: Line)
    ensures TotalCount(Close(stack), s) > 0 <==> s in stack
    decreases |stack|
  {
    if |stack| > 0 {
      var init := stack[..|stack| - 1];
      CloseOrigin(init, s);
      TotalCountAppend([Total(stack[|stack| - 1])], Close(init), s);
      assert stack == init + [stack[|stack| - 1]];
    }
  }

  /** Closing a stack of distinct ids emits the total of each section once,
      before any row */
  lemma {:induction false} CloseOnce(stack: seq<Line>, q: nat)
    requires q < |stack| && forall a, b :: 0 <= a < b < |stack| ==> stack[a].id != stack[b].id
    ensures TotalCount(Close(stack), stack[q]) == 1 && RowsBefore(Close(stack), stack[q]) == 0
    decreases |stack|
  {
    var top := stack[|stack| - 1];
    var init := stack[..|stack| - 1];
    assert Close(stack)[0] == Total(top) && Close(stack)[1..] == Close(init);
    if q == |stack| - 1 {
      forall b | 0 <= b < |init|
        ensures init[b] != top
      {
        assert stack[b].id != stack[q].id;
      }
      CloseOrigin(init, top);
    } else {
      assert stack[q].id != stack[|stack| - 1].id;
      assert init[q] == stack[q];
      CloseOnce(init, q);
    }
  }

  /** One step of the loop: the closed totals, the line, then the rest */
  lemma InjectStep(lines: seq<Line>, needing: set<string>, stack: seq<Line>, s: Line)
    requires |lines| > 0
    ensures var head := Close(stack[Kept(stack, lines[0].id)..]);
      var l := Marked(lines[0], needing);
      var tail := Inject(lines[1..], needing, Reopen(lines[0], needing, stack));
      RowLines(Inject(lines, needing, stack)) == RowLines(head) + [l] + RowLines(tail) &&
      TotalCount(Inject(lines, needing, stack), s) == TotalCount(head, s) + TotalCount(tail, s) &&
      RowsBefore(Inject(lines, needing, stack), s) ==
        if TotalCount(head, s) > 0 then RowsBefore(head, s) else |RowLines(head)| + 1 + RowsBefore(tail, s)
  {
    var head := Close(stack[Kept(stack, lines[0].id)..]);
    var l := Marked(lines[0], needing);
    var tail := Inject(lines[1..], needing, Reopen(lines[0], needing, stack));
    RowLinesAppend(head + [Row(l)], tail);
    RowLinesAppend(head, [Row(l)]);
    TotalCountAppend(head + [Row(l)], tail, s);
    TotalCountAppend(head, [Row(l)], s);
    RowsBeforeAppend(head + [Row(l)], tail, s);
    RowsBeforeAppend(head, [Row(l)], s);
    assert [Row(l)][1..] == [];
  }

  /** Each input line is emitted once, in its original order, marked when
      it opens a section */
  lemma {:induction false} InjectRows(lines: seq<Line>, needing: set<string>, stack: seq<Line>)
    ensures RowLines(Inject(lines, needing, stack)) == MarkedAll(lines, needing)
    decreases |lines|
  {
    if |lines| == 0 {
      CloseRows(stack);
    } else {
      InjectStep(lines, needing, stack, lines[0]);
      CloseRows(stack[Kept(stack, lines[0].id)..]);
      InjectRows(lines[1..], needing, Reopen(lines[0], needing, stack));
      assert MarkedAll(lines, needing) == [Marked(lines[0], needing)] + MarkedAll(lines[1..], needing);
    }
  }

  // ---------------------------------------------------------------------
  // Where the totals go

  lemma StartsWithTrans(a: string, b: string, c: string)
    requires StartsWith(a, b) && StartsWith(b, c)
    ensures StartsWith(a, c)
  {
    assert a[..|c|] == a[..|b|][..|c|];
  }

  /** The open sections nest: each id extends the ids below it */
  ghost predicate Nested(stack: seq<Line>)
  {
    forall a, b :: 0 <= a < b < |stack| ==> StartsWith(stack[b].id, stack[a].id)
  }

  /** The sections kept open are exactly those whose id the line's id extends */
  lemma {:induction false} KeptExtends(stack: seq<Line>, id: string, j: nat)
    requires Nested(stack) && j < |stack|
    ensures j < Kept(stack, id) <==> StartsWith(id, stack[j].id)
    decreases |stack|
  {
    var top := stack[|stack| - 1];
    if !StartsWith(id, top.id) {
      if j < |stack| - 1 {
        KeptExtends(stack[..|stack| - 1], id, j);
      }
    } else if j < |stack| - 1 {
      StartsWithTrans(id, top.id, stack[j].id);
    }
  }

  /** The lines' ids differ from one another and from those of the open
      sections, which differ among themselves too */
  ghost predicate DistinctIds(lines: seq<Line>, stack: seq<Line>)
  {
    (forall a, b :: 0 <= a < b < |lines| ==> lines[a].id != lines[b].id) &&
    (forall a, b :: 0 <= a < b < |stack| ==> stack[a].id != stack[b].id) &&
    (forall a, b :: 0 <= a < |lines| && 0 <= b < |stack| ==> lines[a].id != stack[b].id)
  }

  /** The loop keeps the open sections nested and the ids distinct */
  lemma StepInvariant(lines: seq<Line>, needing: set<string>, stack: seq<Line>)
    requires |lines| > 0 && Nested(stack) && DistinctIds(lines, stack)
    ensures Nested(Reopen(lines[0], needing, stack))
    ensures DistinctIds(lines[1..], Reopen(lines[0], needing, stack))
  {
    var l := lines[0];
    var k := Kept(stack, l.id);
    var open := Reopen(l, needing, stack);
    forall j | 0 <= j < k
      ensures StartsWith(l.id, stack[j].id)
    {
      KeptExtends(stack, l.id, j);
    }
    assert forall b :: 0 <= b < k ==> open[b] == stack[b];
    assert |open| == k || (|open| == k + 1 && open[k].id == l.id);
    forall a, b | 0 <= a < b < |lines| - 1
      ensures lines[1..][a].id != lines[1..][b].id
    {
      assert lines[1..][a] == lines[a + 1] && lines[1..][b] == lines[b + 1];
    }
    forall a, b | 0 <= a < |lines| - 1 && 0 <= b < |open|
      ensures lines[1..][a].id != open[b].id
    {
      assert lines[1..][a] == lines[a + 1];
    }
  }

  /** A total in the output belongs to an open section or to a line that
      opens one */
  lemma {:induction false} TotalsOrigin(lines: seq<Line>, needing: set<string>, stack: seq<Line>, s: Line)
    requires TotalCount(Inject(lines, needing, stack), s) > 0
    ensures s in stack || exists i :: 0 <= i < |lines| && Opens(lines[i], needing) && s == Marked(lines[i], needing)
    decreases |lines|
  {
    if |lines| == 0 {
      CloseOrigin(stack, s);
    } else {
      var k := Kept(stack, lines[0].id);
      var open := Reopen(lines[0], needing, stack);
      InjectStep(lines, needing, stack, s);
      CloseOrigin(stack[k..], s);
      if TotalCount(Close(stack[k..]), s) == 0 {
        TotalsOrigin(lines[1..], needing, open, s);
        if s in open {
          if !(Opens(lines[0], needing) && s == Marked(lines[0], needing)) {
            assert s in stack[..k];
          }
        } else {
          var i :| 0 <= i < |lines| - 1 && Opens(lines[1..][i], needing) && s == Marked(lines[1..][i], needing);
          assert lines[1..][i] == lines[i + 1];
        }
      }
    }
  }

  /** A section whose id no open section and no line has gets no total */
  lemma NoOtherTotal(lines: seq<Line>, needing: set<string>, stack: seq<Line>, s: Line)
    requires forall b :: 0 <= b < |stack| ==> stack[b].id != s.id
    requires forall a :: 0 <= a < |lines| ==> lines[a].id != s.id
    ensures TotalCount(Inject(lines, needing, stack), s) == 0
  {
    if TotalCount(Inject(lines, needing, stack), s) > 0 {
      TotalsOrigin(lines, needing, stack, s);
      assert false;
    }
  }

  /** The total of an open section comes after exactly the lines that stay
      inside it */
  lemma {:induction false} OpenSectionTotal(lines: seq<Line>, needing: set<string>, stack: seq<Line>, q: nat)
    requires q < |stack| && Nested(stack) && DistinctIds(lines, stack)
    ensures TotalCount(Inject(lines, needing, stack), stack[q]) == 1
    ensures RowsBefore(Inject(lines, needing, stack), stack[q]) == Within(lines, stack[q].id)
    decreases |lines|
  {
    var s := stack[q];
    if |lines| == 0 {
      CloseOnce(stack, q);
    } else {
      var k := Kept(stack, lines[0].id);
      var open := Reopen(lines[0], needing, stack);
      InjectStep(lines, needing, stack, s);
      StepInvariant(lines, needing, stack);
      CloseRows(stack[k..]);
      KeptExtends(stack, lines[0].id, q);
      if q >= k {
        ClosedHere(lines, needing, stack, q);
      } else {
        forall j | 0 <= j < |stack| - k
          ensures stack[k..][j] != s
        {
          assert stack[k + j].id != stack[q].id;
        }
        CloseOrigin(stack[k..], s);
        assert open[q] == s;
        OpenSectionTotal(lines[1..], needing, open, q);
      }
    }
  }

  /** A section the next line leaves is closed right away, once */
  lemma ClosedHere(lines: seq<Line>, needing: set<string>, stack: seq<Line>, q: nat)
    requires |lines| > 0 && q < |stack| && Nested(stack) && DistinctIds(lines, stack)
    requires Kept(stack, lines[0].id) <= q
    ensures TotalCount(Inject(lines, needing, stack), stack[q]) == 1
    ensures RowsBefore(Inject(lines, needing, stack), stack[q]) == 0
  {
    var s := stack[q];
    var k := Kept(stack, lines[0].id);
    var open := Reopen(lines[0], needing, stack);
    InjectStep(lines, needing, stack, s);
    StepInvariant(lines, needing, stack);
    CloseOnce(stack[k..], q - k);
    assert stack[k..][q - k] == s;
    forall b | 0 <= b < |open|
      ensures open[b].id != s.id
    {
      if b < k {
        assert open[b] == stack[b];
      }
    }
    forall a | 0 <= a < |lines| - 1
      ensures lines[1..][a].id != s.id
    {
      assert lines[1..][a] == lines[a + 1];
    }
    NoOtherTotal(lines[1..], needing, open, s);
  }

  /** The total of a section opened by a line comes after that line and
      exactly the following lines that stay inside it */
  lemma {:induction false} LineSectionTotal(lines: seq<Line>, needing: set<string>, stack: seq<Line>, i: nat)
    requires i < |lines| && Opens(lines[i], needing)
    requires Nested(stack) && DistinctIds(lines, stack)
    ensures TotalCount(Inject(lines, needing, stack), Marked(lines[i], needing)) == 1
    ensures RowsBefore(Inject(lines, needing, stack), Marked(lines[i], needing)) ==
      i + 1 + Within(lines[i + 1..], lines[i].id)
    decreases |lines|
  {
    var s := Marked(lines[i], needing);
    var k := Kept(stack, lines[0].id);
    var open := Reopen(lines[0], needing, stack);
    InjectStep(lines, needing, stack, s);
    StepInvariant(lines, needing, stack);
    CloseRows(stack[k..]);
    forall j | 0 <= j < |stack| - k
      ensures stack[k..][j] != s
    {
      assert stack[k + j].id != lines[i].id;
    }
    CloseOrigin(stack[k..], s);
    if i == 0 {
      assert open[|open| - 1] == s;
      OpenSectionTotal(lines[1..], needing, open, |open| - 1);
    } else {
      assert lines[1..][i - 1] == lines[i];
      assert lines[1..][i - 1 + 1..] == lines[i + 1..];
      LineSectionTotal(lines[1..], needing, open, i - 1);
    }
  }

  /** Ids in the report are unique */
  ghost predicate UniqueIds(lines: seq<Line>)
  {
    forall a, b :: 0 <= a < b < |lines| ==> lines[a].id != lines[b].id
  }

  /** The standard report with the feature on: every input line comes out
      once and in order; each section's total comes out once, right before
      the first later line whose id does not extend the section's id (or at
      the end), and no other total is added */
  lemma TotalsPlacement(lines: seq<Line>, i: nat, s: Line)
    requires UniqueIds(lines) && |NeedingTotals(lines)| > 0
    ensures var needing := NeedingTotals(lines);
      var out := AddTotalsBelow(lines, true, false);
      RowLines(out) == MarkedAll(lines, needing) &&
      (i < |lines| && Opens(lines[i], needing) ==>
        TotalCount(out, Marked(lines[i], needing)) == 1 &&
        RowsBefore(out, Marked(lines[i], needing)) == i + 1 + Within(lines[i + 1..], lines[i].id)) &&
      (TotalCount(out, s) > 0 ==>
        exists j :: 0 <= j < |lines| && Opens(lines[j], needing) && s == Marked(lines[j], needing))
  {
    var needing := NeedingTotals(lines);
    InjectRows(lines, needing, []);
    if i < |lines| && Opens(lines[i], needing) {
      LineSectionTotal(lines, needing, [], i);
    }
    if TotalCount(Inject(lines, needing, []), s) > 0 {
      TotalsOrigin(lines, needing, [], s);
    }
  }

  // ---------------------------------------------------------------------
  // The customised report's journal-items total

  /** The level-4 (journal item) lines */
  function JournalItems(lines: seq<Line>): (r: seq<Line>)
    ensures |r| <= |lines|
  {
    if |lines| == 0 then []
    else (if lines[0].level == 4 then [lines[0]] else []) + JournalItems(lines[1..])
  }

  /** The journal items are exactly the level-4 lines */
  lemma {:induction false} JournalItemsAre(lines: seq<Line>, x: Line)
    ensures x in JournalItems(lines) <==> x in lines && x.level == 4
    decreases |lines|
  {
    if |lines| > 0 {
      JournalItemsAre(lines[1..], x);
      assert lines == [lines[0]] + lines[1..];
    }
  }

  /** Columns 5 and 6 exist and carry raw amounts */
  predicate Summable(l: Line)
  {
    |l.columns| > 6 && l.columns[5].noFormat.Some? && l.columns[6].noFormat.Some?
  }

  /** The raw amount of column `c`, where there is one */
  function Raw(l: Line, c: nat): int
  {
    if |l.columns| > c && l.columns[c].noFormat.Some? then l.columns[c].noFormat.value else 0
  }

  /** The sum of column `c`'s raw amounts */
  function ColumnSum(lines: seq<Line>, c: nat): int
  {
    if |lines| == 0 then 0 else Raw(lines[0], c) + ColumnSum(lines[1..], c)
  }

  /** The journal-items total (`_genarate_new_total_line`); `totalId` is the
      generic id the framework makes for it and `format` its amount display */
  function JournalTotal(debit: int, credit: int, parent: string, totalId: string, format: int -> string): (r: Line)
  {
    var empty := Column(None, None);
    Line(totalId, Some(parent), 6, Some("Total Journal Items"), None, None, None, "total",
         false, false, None, "total",
         [empty, empty, empty, empty, empty,
          Column(Some(format(debit)), Some(debit)), Column(Some(format(credit)), Some(credit)),
          empty, empty])
  }

  /** The two sums over the journal items, in order; None at the first
      item without column 5 or 6 or without a raw amount in them, where
      the addition raises */
  method SumColumns(items: seq<Line>) returns (r: Option<(int, int)>)
    ensures r.None? <==> exists i :: 0 <= i < |items| && !Summable(items[i])
    ensures r.Some? ==> r.value == (ColumnSum(items, 5), ColumnSum(items, 6))
  {
    var debit, credit := 0, 0;
    var j := 0;
    while j < |items|
      invariant 0 <= j <= |items|
      invariant forall i :: 0 <= i < j ==> Summable(items[i])
      invariant debit == ColumnSum(items[..j], 5)
      invariant credit == ColumnSum(items[..j], 6)
    {
      var x := items[j];
      if !Summable(x) {
        return None;
      }
      SumSnoc(items[..j], x, 5);
      SumSnoc(items[..j], x, 6);
      assert items[..j + 1] == items[..j] + [x];
      debit := debit + x.columns[5].noFormat.value;
      credit := credit + x.columns[6].noFormat.value;
      j := j + 1;
    }
    assert items[..j] == items;
    return Some((debit, credit));
  }

  /** The journal items all sum exactly when every level-4 line does */
  lemma ItemsSummable(lines: seq<Line>)
    ensures (exists i :: 0 <= i < |JournalItems(lines)| && !Summable(JournalItems(lines)[i])) <==>
            (exists i :: 0 <= i < |lines| && lines[i].level == 4 && !Summable(lines[i]))
  {
    var items := JournalItems(lines);
    if exists i :: 0 <= i < |items| && !Summable(items[i]) {
      var i :| 0 <= i < |items| && !Summable(items[i]);
      JournalItemsAre(lines, items[i]);
      var k :| 0 <= k < |lines| && lines[k] == items[i];
    }
    if exists i :: 0 <= i < |lines| && lines[i].level == 4 && !Summable(lines[i]) {
      var i :| 0 <= i < |lines| && lines[i].level == 4 && !Summable(lines[i]);
      JournalItemsAre(lines, lines[i]);
      var k :| 0 <= k < |items| && items[k] == lines[i];
    }
  }

  /** The summation of the customised branch: None when a journal item has
      no column 5 or 6 or no raw amount in them (the sum raises); otherwise
      the total line, absent when there are no journal items or the first
      one has no parent */
  method CustomTotal(lines: seq<Line>, totalId: string, format: int -> string) returns (r: Option<Option<Line>>)
    ensures r.None? <==> exists i :: 0 <= i < |lines| && lines[i].level == 4 && !Summable(lines[i])
    ensures r.Some? ==>
      var items := JournalItems(lines);
      (r.value.Some? <==> |items| > 0 && Filled(items[0].parentId)) &&
      (r.value.Some? ==>
        var t := r.value.value;
        t.level == 6 && |t.columns| == 9 && t.parentId == items[0].parentId &&
        t.columns[5].noFormat == Some(ColumnSum(items, 5)) &&
        t.columns[6].noFormat == Some(ColumnSum(items, 6)))
  {
    var items := JournalItems(lines);
    ItemsSummable(lines);
    var sums := SumColumns(items);
    if sums.None? {
      return None;
    }
    if |items| > 0 && Filled(items[0].parentId) {
      var t := JournalTotal(sums.value.0, sums.value.1, items[0].parentId.value, totalId, format);
      assert t.columns[5].noFormat == Some(sums.value.0) && t.columns[6].noFormat == Some(sums.value.1);
      return Some(Some(t));
    }
    return Some(None);
  }

  /** `_add_totals_below_sections` on the customised report: the loop meant
      to close the sections still open appends the stack without popping it,
      so it never ends while one is open (None); otherwise the result is the
      standard report's, then the journal-items total when there is one */
  method AddTotalsBelowCustom(lines: seq<Line>, enabled: bool, ignore: bool, totalId: string, format: int -> string)
    returns (r: Option<seq<Item>>)
    ensures !enabled || ignore || |NeedingTotals(lines)| == 0 ==> r == Some(Rows(lines))
    ensures enabled && !ignore && |NeedingTotals(lines)| > 0 ==>
      (r.None? <==> |FinalOpen(lines, NeedingTotals(lines), [])| > 0 ||
                    exists i :: 0 <= i < |lines| && lines[i].level == 4 && !Summable(lines[i]))
    ensures r.Some? ==>
      var standard := AddTotalsBelow(lines, enabled, ignore);
      standard <= r.value && |r.value| <= |standard| + 1 &&
      (|r.value| > |standard| ==> r.value[|standard|].Row? && r.value[|standard|].line.level == 6)
    ensures r.Some? && enabled && !ignore && |NeedingTotals(lines)| > 0 ==>
      var standard := AddTotalsBelow(lines, enabled, ignore);
      var items := JournalItems(lines);
      (|r.value| > |standard| <==> |items| > 0 && Filled(items[0].parentId)) &&
      (|r.value| > |standard| ==>
        r.value[|standard|].Row? &&
        var t := r.value[|standard|].line;
        t.parentId == items[0].parentId && |t.columns| == 9 &&
        t.columns[5].noFormat == Some(ColumnSum(items, 5)) &&
        t.columns[6].noFormat == Some(ColumnSum(items, 6)))
  {
    if !enabled || ignore {
      return Some(Rows(lines));
    }
    var needing := NeedingTotals(lines);
    if |needing| == 0 {
      return Some(Rows(lines));
    }
    if |FinalOpen(lines, needing, [])| > 0 {
      return None;
    }
    var injected := Inject(lines, needing, []);
    var total := CustomTotal(lines, totalId, format);
    if total.None? {
      return None;
    }
    if total.value.Some? {
      return Some(injected + [Row(total.value.value)]);
    }
    return Some(injected);
  }

  /** A report whose last line opens a section leaves it open, so the
      customised report never finishes */
  lemma {:induction false} LastOpensHangs(lines: seq<Line>, needing: set<string>, stack: seq<Line>)
    requires |lines| > 0 && Opens(lines[|lines| - 1], needing)
    ensures |FinalOpen(lines, needing, stack)| > 0
    decreases |lines|
  {
    if |lines| > 1 {
      assert lines[1..][|lines[1..]| - 1] == lines[|lines| - 1];
      LastOpensHangs(lines[1..], needing, Reopen(lines[0], needing, stack));
    }
  }

  lemma {:induction false} SumSnoc(a: seq<Line>, x: Line, c: nat)
    ensures ColumnSum(a + [x], c) == ColumnSum(a, c) + Raw(x, c)
    decreases |a|
  {
    if |a| == 0 {
      assert a + [x] == [x];
    } else {
      assert (a + [x])[1..] == a[1..] + [x];
      SumSnoc(a[1..], x, c);
    }
  }
}
