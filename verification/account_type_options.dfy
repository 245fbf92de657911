/** The account-type filter of the receivable report: its option list, the
    display name built from the selection, the search domain it stands for
    and the column title the printed reports derive from it
    (models/account_report.py, report/account_reports_pdf.py,
    report/debt_notif_pdf.py). */
module AccountTypeOptions {
  import opened Wrappers
  import opened Text

  datatype AccountOption = AccountOption(id: string, name: string, selected: bool)

  const TR := "trade_receivable"
  const NTR := "non_trade_receivable"
  const TP := "trade_payable"
  const NTP := "non_trade_payable"
  const IC := "is_customer"
  const IV := "is_vendor"

  /** The four trade / non-trade kinds; trade receivable and trade payable
      start selected */
  const TradeOptions: seq<AccountOption> := [
    AccountOption(TR, "Receivable", true),
    AccountOption(NTR, "Non Trade Receivable", false),
    AccountOption(TP, "Payable", true),
    AccountOption(NTP, "Non Trade Payable", false)
  ]

  /** The customer / vendor pair used by the customised report, none selected */
  const PartnerOptions: seq<AccountOption> := [
    AccountOption(IC, "Is Customer", false),
    AccountOption(IV, "Is Vendor", false)
  ]

  function BaseOptions(custom: bool): seq<AccountOption>
  {
    if custom then PartnerOptions else TradeOptions
  }

  /** The ids of the selected options */
  function SelectedIds(opts: seq<AccountOption>): (r: set<string>)
    ensures forall x :: x in r <==> exists i :: 0 <= i < |opts| && opts[i].selected && opts[i].id == x
  {
    if |opts| == 0 then {}
    else (if opts[0].selected then {opts[0].id} else {}) + SelectedIds(opts[1..])
  }

  /** Every option of `opts`, selected iff its id was selected in `previous` */
  function Reselect(opts: seq<AccountOption>, previous: set<string>): (r: seq<AccountOption>)
    ensures |r| == |opts|
    ensures forall i :: 0 <= i < |r| ==>
      r[i].id == opts[i].id && r[i].name == opts[i].name && (r[i].selected <==> opts[i].id in previous)
  {
    if |opts| == 0 then []
    else [opts[0].(selected := opts[0].id in previous)] + Reselect(opts[1..], previous)
  }

  /** `_init_options_account_type`: None when the report has no account-type
      filter (the options are left alone); `previous` is the account_type
      list of the previous options, None when there is none */
  function InitOptions(filterOn: bool, custom: bool, previous: Option<seq<AccountOption>>): (r: Option<seq<AccountOption>>)
  {
    if !filterOn then None
    else if previous.Some? && |previous.value| > 0 then
      Some(Reselect(BaseOptions(custom), SelectedIds(previous.value)))
    else Some(BaseOptions(custom))
  }

  /** The option list is fixed by the report kind; with no previous list the
      defaults stand, and otherwise an option is selected exactly when an
      option with its id was selected before */
  lemma InitOptionsShape(filterOn: bool, custom: bool, previous: Option<seq<AccountOption>>)
    ensures var r := InitOptions(filterOn, custom, previous);
      (r.Some? <==> filterOn) &&
      (r.Some? ==>
        |r.value| == (if custom then 2 else 4) &&
        (forall i :: 0 <= i < |r.value| ==>
          r.value[i].id == BaseOptions(custom)[i].id && r.value[i].name == BaseOptions(custom)[i].name) &&
        (previous.None? || |previous.value| == 0 ==> r.value == BaseOptions(custom)) &&
        (previous.Some? && |previous.value| > 0 ==>
          forall i :: 0 <= i < |r.value| ==>
            (r.value[i].selected <==>
              exists j :: 0 <= j < |previous.value| && previous.value[j].selected
                && previous.value[j].id == r.value[i].id)))
  {
  }

  /** The defaults: trade receivable and trade payable for the standard
      report, nothing for the customised one */
  lemma DefaultSelection(custom: bool)
    ensures SelectedIds(BaseOptions(custom))
      == if custom then {} else {TR, TP}
  {
    var b := BaseOptions(custom);
    if custom {
      assert !b[0].selected && !b[1].selected;
    } else {
      assert b[0].selected && !b[1].selected && b[2].selected && !b[3].selected;
      assert b[0].id == TR && b[2].id == TP;
    }
  }

  // ---------------------------------------------------------------------
  // Display name

  datatype Group = Group(members: set<string>, caption: string)

  /** The groupings tried, in this order */
  const Groups: seq<Group> := [
    Group({TR, TP, NTR, NTP}, "All receivable/payable"),
    Group({TR, NTR}, "All Receivable"),
    Group({TP, NTP}, "All Payable"),
    Group({TR, TP}, "Trade Partners"),
    Group({NTR, NTP}, "Non Trade Partners"),
    Group({IC, IV}, "Customer and Vendor")
  ]

  /** The union of the members of `gs` */
  function Members(gs: seq<Group>): set<string>
  {
    if |gs| == 0 then {} else gs[0].members + Members(gs[1..])
  }

  function Labels(gs: seq<Group>): (r: seq<string>)
    ensures |r| == |gs| && forall i :: 0 <= i < |gs| ==> r[i] == gs[i].caption
  {
    if |gs| == 0 then [] else [gs[0].caption] + Labels(gs[1..])
  }

  /** The groups of `gs` that claim their members out of `sel`, each tried in
      turn while ids are left: a group is taken when all of its members are
      still unclaimed */
  function Claim(gs: seq<Group>, sel: set<string>): (r: seq<Group>)
    ensures forall g :: g in r ==> g in gs
    ensures Members(r) <= sel
  {
    if |gs| == 0 then []
    else if |sel| > 0 && gs[0].members <= sel then
      [gs[0]] + Claim(gs[1..], sel - gs[0].members)
    else Claim(gs[1..], sel)
  }

  /** Number of groups of `gs` holding `x` */
  function Holders(gs: seq<Group>, x: string): nat
  {
    if |gs| == 0 then 0 else (if x in gs[0].members then 1 else 0) + Holders(gs[1..], x)
  }

  function Occurrences(xs: seq<string>, x: string): nat
  {
    if |xs| == 0 then 0 else (if xs[0] == x then 1 else 0) + Occurrences(xs[1..], x)
  }

  lemma MembersHolders(gs: seq<Group>, x: string)
    ensures x in Members(gs) <==> Holders(gs, x) > 0
  {
  }

  /** The claimed groups never share an id: each selected id is held by at
      most one of them, and ids outside the selection by none */
  lemma {:induction false} ClaimDisjoint(gs: seq<Group>, sel: set<string>, x: string)
    ensures Holders(Claim(gs, sel), x) == if x in Members(Claim(gs, sel)) then 1 else 0
  {
    if |gs| == 0 {
    } else if |sel| > 0 && gs[0].members <= sel {
      var rest := Claim(gs[1..], sel - gs[0].members);
      ClaimDisjoint(gs[1..], sel - gs[0].members, x);
      MembersHolders(rest, x);
      assert Claim(gs, sel) == [gs[0]] + rest;
      assert ([gs[0]] + rest)[1..] == rest;
    } else {
      ClaimDisjoint(gs[1..], sel, x);
    }
  }

  /** The selected ids left once the groups are claimed */
  function Unclaimed(opts: seq<AccountOption>): set<string>
  {
    SelectedIds(opts) - Members(Claim(Groups, SelectedIds(opts)))
  }

  /** `selected_options.get(id)`: the name of the last selected option with
      that id */
  function NameOf(opts: seq<AccountOption>, id: string): string
  {
    if |opts| == 0 then ""
    else if opts[|opts| - 1].selected && opts[|opts| - 1].id == id then opts[|opts| - 1].name
    else NameOf(opts[..|opts| - 1], id)
  }

  function Names(opts: seq<AccountOption>, ids: seq<string>): (r: seq<string>)
    ensures |r| == |ids|
  {
    if |ids| == 0 then [] else [NameOf(opts, ids[0])] + Names(opts, ids[1..])
  }

  /** `order` lists the unclaimed ids, each once: Python leaves the order of
      a set unspecified, so the display name is defined for every such order */
  ghost predicate Enumerates(order: seq<string>, s: set<string>)
  {
    (forall x :: x in order <==> x in s) && (forall x :: Occurrences(order, x) <= 1)
  }

  /** The account_display_name option */
  function DisplayName(opts: seq<AccountOption>, order: seq<string>): string
    requires Enumerates(order, Unclaimed(opts))
  {
    Join(Labels(Claim(Groups, SelectedIds(opts))) + Names(opts, order), ", ")
  }

  lemma OccurrencesIn(xs: seq<string>, x: string)
    ensures x in xs <==> Occurrences(xs, x) > 0
  {
  }

  /** Each selected id is named exactly once, either through the one group
      that claims it or on its own; ids not selected are not named */
  lemma NamedOnce(opts: seq<AccountOption>, order: seq<string>, x: string)
    requires Enumerates(order, Unclaimed(opts))
    ensures Holders(Claim(Groups, SelectedIds(opts)), x) + Occurrences(order, x)
      == if x in SelectedIds(opts) then 1 else 0
  {
    var c := Claim(Groups, SelectedIds(opts));
    ClaimDisjoint(Groups, SelectedIds(opts), x);
    OccurrencesIn(order, x);
  }

  /** A group whose members are all unclaimed is taken */
  lemma ClaimTake(gs: seq<Group>, sel: set<string>)
    requires |gs| > 0 && |sel| > 0 && gs[0].members <= sel
    ensures Claim(gs, sel) == [gs[0]] + Claim(gs[1..], sel - gs[0].members)
  {
  }

  /** A group with a member outside the unclaimed ids is passed over */
  lemma ClaimSkip(gs: seq<Group>, sel: set<string>, x: string)
    requires |gs| > 0 && x in gs[0].members && x !in sel
    ensures Claim(gs, sel) == Claim(gs[1..], sel)
  {
  }

  lemma ClaimNothing(gs: seq<Group>)
    ensures Claim(gs, {}) == []
  {
  }

  /** The six option ids differ (their lengths already do) */
  lemma IdsDistinct()
    ensures |{TR, NTR, TP, NTP, IC, IV}| == 6
  {
    assert |TR| == 16 && |NTR| == 20 && |TP| == 13 && |NTP| == 17 && |IC| == 11 && |IV| == 9;
  }

  /** All four trade kinds selected: the first group claims them all */
  lemma AllFourName(opts: seq<AccountOption>)
    requires |opts| == 4
    requires forall i :: 0 <= i < 4 ==> opts[i].id == TradeOptions[i].id && opts[i].selected
    ensures Unclaimed(opts) == {}
    ensures DisplayName(opts, []) == "All receivable/payable"
  {
    var sel := SelectedIds(opts);
    assert opts[0].selected && opts[1].selected && opts[2].selected && opts[3].selected;
    assert sel == Groups[0].members;
    ClaimTake(Groups, sel);
    ClaimNothing(Groups[1..]);
    var c := Claim(Groups, sel);
    assert c == [Groups[0]];
    assert Members(c) == sel;
    assert Labels(c) == [Groups[0].caption];
  }

  /** Trade receivable and trade payable alone are claimed by "Trade Partners" */
  lemma ClaimTradePartners(sel: set<string>)
    requires sel == {TR, TP}
    ensures Claim(Groups, sel) == [Groups[3]]
  {
    IdsDistinct();
    ClaimSkip(Groups, sel, NTP);
    ClaimSkip(Groups[1..], sel, NTR);
    ClaimSkip(Groups[2..], sel, NTP);
    ClaimTake(Groups[3..], sel);
    ClaimNothing(Groups[4..]);
  }

  /** The default selection reads "Trade Partners" */
  lemma DefaultName()
    ensures Unclaimed(TradeOptions) == {}
    ensures DisplayName(TradeOptions, []) == "Trade Partners"
  {
    DefaultSelection(false);
    var sel := SelectedIds(TradeOptions);
    ClaimTradePartners(sel);
    var c := Claim(Groups, sel);
    assert Members(c) == sel;
    assert Labels(c) == [Groups[3].caption];
  }

  /** The customer and vendor ids alone are claimed by the last group */
  lemma ClaimCustomerAndVendor(sel: set<string>)
    requires sel == {IC, IV}
    ensures Claim(Groups, sel) == [Groups[5]]
  {
    IdsDistinct();
    ClaimSkip(Groups, sel, TR);
    ClaimSkip(Groups[1..], sel, TR);
    ClaimSkip(Groups[2..], sel, TP);
    ClaimSkip(Groups[3..], sel, TR);
    ClaimSkip(Groups[4..], sel, NTR);
    ClaimTake(Groups[5..], sel);
    ClaimNothing(Groups[6..]);
  }

  /** Both partner kinds selected read "Customer and Vendor" */
  lemma CustomerAndVendorName(opts: seq<AccountOption>)
    requires |opts| == 2
    requires forall i :: 0 <= i < 2 ==> opts[i].id == PartnerOptions[i].id && opts[i].selected
    ensures Unclaimed(opts) == {}
    ensures DisplayName(opts, []) == "Customer and Vendor"
  {
    assert opts[0].selected && opts[1].selected;
    var sel := SelectedIds(opts);
    assert sel == {IC, IV};
    ClaimCustomerAndVendor(sel);
    var c := Claim(Groups, sel);
    assert Members(c) == sel;
    assert Labels(c) == [Groups[5].caption];
  }

  // ---------------------------------------------------------------------
  // Search domain

  datatype AccountKind = Receivable | Payable

  /** `[('account_id.non_trade', '=', nonTrade), ('account_id.account_type', '=', kind)]` */
  datatype Clause = Clause(nonTrade: bool, kind: AccountKind)

  /** The four clauses in the order the customised report lists them */
  const AllClauses: seq<Clause> := [
    Clause(false, Receivable), Clause(true, Receivable), Clause(false, Payable), Clause(true, Payable)
  ]

  function ClauseOf(id: string): Option<Clause>
  {
    if id == TR then Some(Clause(false, Receivable))
    else if id == TP then Some(Clause(false, Payable))
    else if id == NTR then Some(Clause(true, Receivable))
    else if id == NTP then Some(Clause(true, Payable))
    else None
  }

  /** The is_customer / is_vendor options; None where the key is absent */
  datatype PartnerFlags = PartnerFlags(isCustomer: Option<bool>, isVendor: Option<bool>)

  /** What `_get_options_account_type_domain` leaves behind: the disjuncts of
      the returned domain (none: no restriction) and the partner flags */
  datatype TypeDomain = TypeDomain(clauses: seq<Clause>, flags: PartnerFlags)

  /** A record whose account has this kind passes the domain */
  predicate Admits(clauses: seq<Clause>, c: Clause)
  {
    |clauses| == 0 || c in clauses
  }

  /** The customised report: the flags follow the options, later options
      overriding earlier ones */
  function SetFlags(opts: seq<AccountOption>, flags: PartnerFlags): PartnerFlags
  {
    if |opts| == 0 then flags
    else
      var o := opts[0];
      var f := if o.id == IC then flags.(isCustomer := Some(o.selected))
               else if o.id == IV then flags.(isVendor := Some(o.selected))
               else flags;
      SetFlags(opts[1..], f)
  }

  /** The standard report: each option's clause is found by id, an unknown id
      reusing the previous option's clause; None when the first option has
      an unknown id (the clause is unbound) */
  function Disjuncts(opts: seq<AccountOption>, last: Option<Clause>): Option<(seq<Clause>, seq<Clause>)>
  {
    if |opts| == 0 then Some(([], []))
    else
      var d := if ClauseOf(opts[0].id).Some? then ClauseOf(opts[0].id) else last;
      if d.None? then None
      else
        var rest := Disjuncts(opts[1..], d);
        if rest.None? then None
        else
          var (sel, all) := rest.value;
          Some((if opts[0].selected then [d.value] + sel else sel, [d.value] + all))
  }

  /** `_get_options_account_type_domain`; `opts` is the account_type option
      list, None when absent */
  function AccountTypeDomain(custom: bool, opts: Option<seq<AccountOption>>, flags: PartnerFlags): Option<TypeDomain>
  {
    if opts.None? || |opts.value| == 0 then Some(TypeDomain([], flags))
    else if custom then Some(TypeDomain(AllClauses, SetFlags(opts.value, flags)))
    else
      var d := Disjuncts(opts.value, None);
      if d.None? then None
      else
        var (sel, all) := d.value;
        Some(TypeDomain(if |sel| > 0 then sel else all, flags))
  }

  predicate KnownIds(opts: seq<AccountOption>)
  {
    forall i :: 0 <= i < |opts| ==> ClauseOf(opts[i].id).Some?
  }

  lemma {:induction false} DisjunctsKnown(opts: seq<AccountOption>, last: Option<Clause>)
    requires KnownIds(opts)
    ensures var d := Disjuncts(opts, last);
      d.Some? && (|d.value.0| > 0 <==> exists i :: 0 <= i < |opts| && opts[i].selected)
  {
    if |opts| > 0 {
      DisjunctsKnown(opts[1..], ClauseOf(opts[0].id));
      if exists i :: 0 <= i < |opts| && opts[i].selected {
        var i :| 0 <= i < |opts| && opts[i].selected;
        if i > 0 { assert opts[1..][i - 1] == opts[i]; }
      }
      if exists i :: 0 <= i < |opts[1..]| && opts[1..][i].selected {
        var i :| 0 <= i < |opts[1..]| && opts[1..][i].selected;
        assert opts[i + 1] == opts[1..][i];
      }
    }
  }

  /** The selected disjuncts are the clauses of the selected options */
  lemma {:induction false} DisjunctsSelected(opts: seq<AccountOption>, last: Option<Clause>, c: Clause)
    requires KnownIds(opts)
    ensures var d := Disjuncts(opts, last);
      d.Some? &&
      (c in d.value.0 <==> exists i :: 0 <= i < |opts| && opts[i].selected && ClauseOf(opts[i].id) == Some(c))
  {
    DisjunctsKnown(opts, last);
    if |opts| > 0 {
      DisjunctsSelected(opts[1..], ClauseOf(opts[0].id), c);
      var r := Disjuncts(opts[1..], ClauseOf(opts[0].id));
      if exists i :: 0 <= i < |opts| && opts[i].selected && ClauseOf(opts[i].id) == Some(c) {
        var i :| 0 <= i < |opts| && opts[i].selected && ClauseOf(opts[i].id) == Some(c);
        if i > 0 { assert opts[1..][i - 1] == opts[i]; }
      }
      if c in r.value.0 {
        var i :| 0 <= i < |opts[1..]| && opts[1..][i].selected && ClauseOf(opts[1..][i].id) == Some(c);
        assert opts[i + 1] == opts[1..][i];
      }
    }
  }

  /** The full list of disjuncts holds the clause of every option */
  lemma {:induction false} DisjunctsAll(opts: seq<AccountOption>, last: Option<Clause>, c: Clause)
    requires KnownIds(opts)
    ensures var d := Disjuncts(opts, last);
      d.Some? &&
      (c in d.value.1 <==> exists i :: 0 <= i < |opts| && ClauseOf(opts[i].id) == Some(c))
  {
    DisjunctsKnown(opts, last);
    if |opts| > 0 {
      DisjunctsAll(opts[1..], ClauseOf(opts[0].id), c);
      var r := Disjuncts(opts[1..], ClauseOf(opts[0].id));
      if exists i :: 0 <= i < |opts| && ClauseOf(opts[i].id) == Some(c) {
        var i :| 0 <= i < |opts| && ClauseOf(opts[i].id) == Some(c);
        if i > 0 { assert opts[1..][i - 1] == opts[i]; }
      }
      if c in r.value.1 {
        var i :| 0 <= i < |opts[1..]| && ClauseOf(opts[1..][i].id) == Some(c);
        assert opts[i + 1] == opts[1..][i];
      }
    }
  }
  /** The standard report with known ids: an account kind passes exactly
      when a selected option names it, or, with nothing selected, when any
      listed option names it */
  lemma StandardDomain(opts: seq<AccountOption>, flags: PartnerFlags, c: Clause)
    requires |opts| > 0 && KnownIds(opts)
    ensures var r := AccountTypeDomain(false, Some(opts), flags);
      r.Some? && r.value.flags == flags &&
      (Admits(r.value.clauses, c) <==>
        if exists i :: 0 <= i < |opts| && opts[i].selected
        then exists i :: 0 <= i < |opts| && opts[i].selected && ClauseOf(opts[i].id) == Some(c)
        else exists i :: 0 <= i < |opts| && ClauseOf(opts[i].id) == Some(c))
  {
    DisjunctsKnown(opts, None);
    DisjunctsSelected(opts, None, c);
    DisjunctsAll(opts, None, c);
    var d := Disjuncts(opts, None).value;
    DisjunctsAll(opts, None, ClauseOf(opts[0].id).value);
    assert ClauseOf(opts[0].id).value in d.1;
  }

  /** The first option's id must be known; otherwise the standard report fails */
  lemma StandardUnbound(opts: seq<AccountOption>, flags: PartnerFlags)
    requires |opts| > 0 && ClauseOf(opts[0].id).None?
    ensures AccountTypeDomain(false, Some(opts), flags).None?
  {
  }

  /** The last option with this id, if any */
  function LastWithId(opts: seq<AccountOption>, id: string): Option<AccountOption>
  {
    if |opts| == 0 then None
    else if opts[|opts| - 1].id == id then Some(opts[|opts| - 1])
    else LastWithId(opts[..|opts| - 1], id)
  }

  lemma {:induction false} SetFlagsLast(opts: seq<AccountOption>, flags: PartnerFlags)
    ensures var f := SetFlags(opts, flags);
      var c := LastWithId(opts, IC);
      var v := LastWithId(opts, IV);
      f.isCustomer == (if c.Some? then Some(c.value.selected) else flags.isCustomer) &&
      f.isVendor == (if v.Some? then Some(v.value.selected) else flags.isVendor)
    decreases |opts|
  {
    if |opts| > 0 {
      var o := opts[0];
      var f := if o.id == IC then flags.(isCustomer := Some(o.selected))
               else if o.id == IV then flags.(isVendor := Some(o.selected))
               else flags;
      SetFlagsLast(opts[1..], f);
      LastSplit(opts, IC);
      LastSplit(opts, IV);
    }
  }

  /** The last option with an id is found in the tail, unless the tail has none */
  lemma {:induction false} LastSplit(opts: seq<AccountOption>, id: string)
    requires |opts| > 0
    ensures LastWithId(opts, id) ==
      if LastWithId(opts[1..], id).Some? then LastWithId(opts[1..], id)
      else if opts[0].id == id then Some(opts[0]) else None
    decreases |opts|
  {
    if |opts| > 1 {
      var init := opts[..|opts| - 1];
      assert init[1..] == opts[1..][..|opts[1..]| - 1];
      assert init[0] == opts[0];
      LastSplit(init, id);
    }
  }

  /** The customised report: every account kind passes, and each partner
      flag mirrors the last option carrying its id (untouched when none does) */
  lemma CustomDomain(opts: seq<AccountOption>, flags: PartnerFlags, c: Clause)
    requires |opts| > 0
    ensures var r := AccountTypeDomain(true, Some(opts), flags);
      var cu := LastWithId(opts, IC);
      var ve := LastWithId(opts, IV);
      r.Some? && Admits(r.value.clauses, c) &&
      r.value.flags.isCustomer == (if cu.Some? then Some(cu.value.selected) else flags.isCustomer) &&
      r.value.flags.isVendor == (if ve.Some? then Some(ve.value.selected) else flags.isVendor)
  {
    assert AccountTypeDomain(true, Some(opts), flags) == Some(TypeDomain(AllClauses, SetFlags(opts, flags)));
    SetFlagsLast(opts, flags);
    match c
    case Clause(false, Receivable) => assert c == AllClauses[0];
    case Clause(true, Receivable) => assert c == AllClauses[1];
    case Clause(false, Payable) => assert c == AllClauses[2];
    case Clause(true, Payable) => assert c == AllClauses[3];
  }

  /** No account_type list: no restriction, flags untouched */
  lemma EmptyDomain(custom: bool, opts: Option<seq<AccountOption>>, flags: PartnerFlags, c: Clause)
    requires opts.None? || |opts.value| == 0
    ensures AccountTypeDomain(custom, opts, flags) == Some(TypeDomain([], flags))
    ensures Admits([], c)
  {
  }

  // ---------------------------------------------------------------------
  // Column title

  /** The three titles a report prints */
  datatype TitleLabels = TitleLabels(customer: string, vendor: string, both: string)

  /** account_report.py */
  const SheetTitles := TitleLabels("PH\U{1EA2}I THU", "PH\U{1EA2}I TR\U{1EA2}", "PH\U{1EA2}I THU/PH\U{1EA2}I TR\U{1EA2}")
  /** account_reports_pdf.py and debt_notif_pdf.py */
  const PrintTitles := TitleLabels("Ph\U{1EA3}i thu", "Ph\U{1EA3}i tr\U{1EA3}", "Ph\U{1EA3}i thu/ph\U{1EA3}i tr\U{1EA3}")

  /** The ids of the selected options, in order */
  function SelectedList(opts: seq<AccountOption>): (r: seq<string>)
    ensures forall x :: x in r <==> exists i :: 0 <= i < |opts| && opts[i].selected && opts[i].id == x
  {
    if |opts| == 0 then []
    else (if opts[0].selected then [opts[0].id] else []) + SelectedList(opts[1..])
  }

  function CountSelected(opts: seq<AccountOption>): nat
  {
    if |opts| == 0 then 0 else (if opts[0].selected then 1 else 0) + CountSelected(opts[1..])
  }

  /** `get_title_column_report` */
  function Title(opts: Option<seq<AccountOption>>, labels: TitleLabels): string
  {
    if opts.None? || |opts.value| == 0 then ""
    else
      var ids := SelectedList(opts.value);
      if |ids| == 1 then
        (if ids[0] == IC then labels.customer
         else if ids[0] == IV then labels.vendor
         else "")
      else labels.both
  }

  lemma {:induction false} SelectedCount(opts: seq<AccountOption>)
    ensures |SelectedList(opts)| == CountSelected(opts)
  {
    if |opts| > 0 {
      SelectedCount(opts[1..]);
    }
  }

  /** The only selected option of a list with exactly one selected */
  lemma {:induction false} OnlySelected(opts: seq<AccountOption>, k: nat)
    requires k < |opts| && opts[k].selected
    requires CountSelected(opts) == 1
    ensures SelectedList(opts) == [opts[k].id]
  {
    SelectedCount(opts);
    var r := SelectedList(opts);
    assert opts[k].id in r;
    assert r == [r[0]];
  }

  /** A single selected option is the only one */
  lemma {:induction false} OnlyOne(opts: seq<AccountOption>, k: nat)
    requires k < |opts| && opts[k].selected
    requires CountSelected(opts) == 1
    ensures forall j :: 0 <= j < |opts| && j != k ==> !opts[j].selected
  {
    if k > 0 {
      assert opts[1..][k - 1] == opts[k];
      if opts[0].selected { NonZero(opts[1..], k - 1); }
      OnlyOne(opts[1..], k - 1);
      forall j | 0 <= j < |opts| && j != k
        ensures !opts[j].selected
      {
        if j > 0 { assert opts[1..][j - 1] == opts[j]; }
      }
    } else {
      forall j | 0 < j < |opts|
        ensures !opts[j].selected
      {
        assert opts[1..][j - 1] == opts[j];
        if opts[j].selected { NonZero(opts[1..], j - 1); }
      }
    }
  }

  lemma {:induction false} NonZero(opts: seq<AccountOption>, k: nat)
    requires k < |opts| && opts[k].selected
    ensures CountSelected(opts) > 0
  {
    if k > 0 {
      assert opts[1..][k - 1] == opts[k];
      NonZero(opts[1..], k - 1);
    }
  }

  /** With a list present, the combined title appears exactly when the
      selection is not a single option; a single selection gives the customer
      or vendor title by its id, and nothing for any other id */
  lemma TitleRule(opts: seq<AccountOption>, labels: TitleLabels, k: nat)
    requires k < |opts|
    ensures CountSelected(opts) != 1 ==> Title(Some(opts), labels) == labels.both
    ensures CountSelected(opts) == 1 && opts[k].selected ==>
      Title(Some(opts), labels) ==
        if opts[k].id == IC then labels.customer
        else if opts[k].id == IV then labels.vendor
        else ""
  {
    SelectedCount(opts);
    if CountSelected(opts) == 1 && opts[k].selected {
      OnlySelected(opts, k);
    }
  }

  /** In the customised report, whatever the selection of the two partner
      options: the domain sets the flags to the selection, and the printed
      title is the customer title exactly when the flags say customer and
      not vendor, the vendor title exactly when they say vendor and not
      customer, and the combined title when both or neither are selected */
  lemma PartnerTitleAgreesWithFlags(customer: bool, vendor: bool, flags: PartnerFlags, labels: TitleLabels)
    requires labels.customer != labels.vendor
    requires labels.customer != labels.both && labels.vendor != labels.both
    ensures var opts := [AccountOption(IC, "Is Customer", customer), AccountOption(IV, "Is Vendor", vendor)];
      var r := AccountTypeDomain(true, Some(opts), flags);
      var title := Title(Some(opts), labels);
      r.Some? && r.value.flags == PartnerFlags(Some(customer), Some(vendor)) &&
      (title == labels.customer <==> r.value.flags == PartnerFlags(Some(true), Some(false))) &&
      (title == labels.vendor <==> r.value.flags == PartnerFlags(Some(false), Some(true))) &&
      (title == labels.both <==> customer == vendor)
  {
    var opts := [AccountOption(IC, "Is Customer", customer), AccountOption(IV, "Is Vendor", vendor)];
    IdsDistinct();
    assert opts[1..][1..] == [];
    assert SelectedList(opts[1..]) == (if vendor then [IV] else []);
    assert SelectedList(opts) == (if customer then [IC] else []) + (if vendor then [IV] else []);
    var f1 := flags.(isCustomer := Some(customer));
    assert SetFlags(opts, flags) == SetFlags(opts[1..], f1);
    assert SetFlags(opts[1..], f1) == SetFlags(opts[1..][1..], f1.(isVendor := Some(vendor)));
  }

  /** The printed and the sheet titles differ from one another */
  lemma TitlesDistinct()
    ensures PrintTitles.customer != PrintTitles.vendor
    ensures PrintTitles.customer != PrintTitles.both && PrintTitles.vendor != PrintTitles.both
    ensures SheetTitles.customer != SheetTitles.vendor
    ensures SheetTitles.customer != SheetTitles.both && SheetTitles.vendor != SheetTitles.both
  {
  }
}
