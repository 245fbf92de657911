/** The report lines the framework generates, as the receivable report and
    its printed forms read them: flat records linked by parent id, each with
    a level and a list of columns. The generator itself is outside the model;
    its output is the input here. */
module ReportLines {
  import opened Wrappers
  import opened NumberSplit

  /** A column: its display text and, when present, the raw amount */
  datatype Column = Column(name: Option<string>, noFormat: Option<int>)

  /** A line dictionary. Keys a line may lack are None (or false, or empty
      for `cls`); `markup` is the markup encoded in the generic line id. */
  datatype Line = Line(
    id: string,
    parentId: Option<string>,
    level: int,
    name: Option<string>,
    ref: Option<string>,
    vat: Option<string>,
    caret: Option<string>,
    markup: string,
    unfoldable: bool,
    unfolded: bool,
    expandFunction: Option<string>,
    cls: string,
    columns: seq<Column>)

  /** A string value is truthy when present and not empty */
  predicate Filled(v: Option<string>)
  {
    v.Some? && |v.value| > 0
  }

  /** A top-level partner line: level 2 and no parent */
  predicate IsPartner(l: Line)
  {
    l.level == 2 && !Filled(l.parentId)
  }

  /** The lines whose parent is `parent` and whose level is `level`, in order */
  function Children(lines: seq<Line>, parent: string, level: int): (r: seq<Line>)
    ensures |r| <= |lines|
  {
    if |lines| == 0 then []
    else
      (if lines[0].parentId == Some(parent) && lines[0].level == level then [lines[0]] else [])
      + Children(lines[1..], parent, level)
  }

  /** The children are exactly the lines with that parent and level */
  lemma {:induction false} ChildrenAre(lines: seq<Line>, parent: string, level: int, x: Line)
    ensures x in Children(lines, parent, level) <==> x in lines && x.parentId == Some(parent) && x.level == level
    decreases |lines|
  {
    if |lines| > 0 {
      ChildrenAre(lines[1..], parent, level, x);
      assert lines == [lines[0]] + lines[1..];
    }
  }

  /** The partner lines, in order */
  function Partners(lines: seq<Line>): (r: seq<Line>)
    ensures |r| <= |lines|
  {
    if |lines| == 0 then []
    else (if IsPartner(lines[0]) then [lines[0]] else []) + Partners(lines[1..])
  }

  /** The partners are exactly the top-level level-2 lines */
  lemma {:induction false} PartnersAre(lines: seq<Line>, x: Line)
    ensures x in Partners(lines) <==> x in lines && IsPartner(x)
    decreases |lines|
  {
    if |lines| > 0 {
      PartnersAre(lines[1..], x);
      assert lines == [lines[0]] + lines[1..];
    }
  }

  /** The last column whose name is set, empty text included */
  function LastNamed(cols: seq<Column>): (r: Option<Column>)
    ensures r.Some? ==> r.value in cols && r.value.name.Some?
    ensures r.Some? ==> exists k :: 0 <= k < |cols| && cols[k] == r.value &&
                                    forall j :: k < j < |cols| ==> cols[j].name.None?
    ensures r.None? <==> forall i :: 0 <= i < |cols| ==> cols[i].name.None?
  {
    if |cols| == 0 then None
    else if cols[|cols| - 1].name.Some? then Some(cols[|cols| - 1])
    else LastNamed(cols[..|cols| - 1])
  }

  /** The last column whose name is non-empty */
  function LastFilled(cols: seq<Column>): (r: Option<Column>)
    ensures r.Some? ==> r.value in cols && Filled(r.value.name)
    ensures r.Some? ==> exists k :: 0 <= k < |cols| && cols[k] == r.value &&
                                    forall j :: k < j < |cols| ==> !Filled(cols[j].name)
    ensures r.None? <==> forall i :: 0 <= i < |cols| ==> !Filled(cols[i].name)
  {
    if |cols| == 0 then None
    else if Filled(cols[|cols| - 1].name) then Some(cols[|cols| - 1])
    else LastFilled(cols[..|cols| - 1])
  }

  /** The amount a column's text denotes: `_get_number_split(name)[1]`, read
      with its ",00" deletion limited to a decimal tail (GetNumberSplitFixed);
      None where the text is missing or does not parse */
  function Amount(name: Option<string>): (r: Option<int>)
    ensures name == Some("") ==> r == Some(0)
  {
    if name.None? then None
    else
      var p := GetNumberSplitFixed(name.value);
      if p.None? then None else Some(p.value.value)
  }

  /** How a printed report reads a column's text as an amount; the reports
      read with Amount */
  type Reader = Option<string> -> Option<int>

  /** A well-formed amount text, as the report prints it, denotes its amount;
      grouped by dots and without a ",00" tail, `_get_number_split` as
      written reads the same amount */
  lemma AmountReads(sign: string, n: nat, sep: char, dec: string, suffix: string)
    requires sign == "" || sign == "-"
    requires sep == ',' || sep == '.'
    requires dec == "" || dec == ",00"
    requires IsSuffix(suffix)
    ensures Amount(Some(sign + Grouped(n, sep) + dec + suffix)) == Some(SignedValue(sign, n))
    ensures sep == '.' && dec == "" ==>
      GetNumberSplit(sign + Grouped(n, sep) + dec + suffix).Some? &&
      GetNumberSplit(sign + Grouped(n, sep) + dec + suffix).value.value == SignedValue(sign, n)
  {
    FixedReads(sign, n, sep, dec, suffix);
    if sep == '.' && dec == "" {
      assert sign + Grouped(n, sep) + dec == sign + Grouped(n, '.');
      ViGroupedReads(sign, n, suffix);
    }
  }
}
