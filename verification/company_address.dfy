/** The one-line company (or partner) address printed in the report headers:
    `get_address_by` of models/account_report.py joins the parts, while the
    printed reports build the same text by appending ", " between parts
    (`get_company_address` of report/account_reports_pdf.py and
    report/debt_notif_pdf.py). */
module CompanyAddress {
  import opened Wrappers
  import opened Text

  /** The address fields read; `state` and `country` hold the name of the
      linked record, None when no record is linked */
  datatype Company = Company(street: Option<string>, street2: Option<string>, city: Option<string>,
                             state: Option<string>, country: Option<string>)

  /** A character field is truthy when set and not empty */
  predicate Filled(f: Option<string>)
  {
    f.Some? && |f.value| > 0
  }

  /** The five candidates in address order: the street, street2 and city
      when non-empty, then the names of the linked state and country */
  function Candidates(company: Company): seq<Option<string>>
  {
    [if Filled(company.street) then company.street else None,
     if Filled(company.street2) then company.street2 else None,
     if Filled(company.city) then company.city else None,
     company.state,
     company.country]
  }

  /** The present values, in order */
  function Present(xs: seq<Option<string>>): (r: seq<string>)
    ensures |r| <= |xs|
    ensures forall v :: v in r <==> Some(v) in xs
  {
    if |xs| == 0 then []
    else (if xs[0].Some? then [xs[0].value] else []) + Present(xs[1..])
  }

  /** The parts kept by `get_address_by` */
  function Parts(company: Option<Company>): (r: seq<string>)
  {
    if company.None? then [] else Present(Candidates(company.value))
  }

  /** `get_address_by` */
  function AddressBy(company: Option<Company>): string
  {
    Join(Parts(company), ", ")
  }

  /** A character field's part: its text when non-empty */
  function FieldPart(f: Option<string>): seq<string>
  {
    if Filled(f) then [f.value] else []
  }

  /** A linked record's part: its name when a record is linked */
  function LinkPart(f: Option<string>): seq<string>
  {
    if f.Some? then [f.value] else []
  }

  /** Without a company the address is empty; otherwise its parts are the
      non-empty street, street2 and city and the linked state and country
      names, in that order, at most five of them */
  lemma PartsAreFields(company: Option<Company>, v: string)
    ensures company.None? ==> AddressBy(company) == ""
    ensures company.Some? ==> |Parts(company)| <= 5
    ensures company.Some? ==>
      var c := company.value;
      Parts(company) == FieldPart(c.street) + (FieldPart(c.street2) + (FieldPart(c.city) +
                        (LinkPart(c.state) + LinkPart(c.country))))
    ensures company.Some? ==>
      (v in Parts(company) <==>
        ((Filled(company.value.street) && v == company.value.street.value) ||
         (Filled(company.value.street2) && v == company.value.street2.value) ||
         (Filled(company.value.city) && v == company.value.city.value) ||
         company.value.state == Some(v) || company.value.country == Some(v)))
  {
    if company.Some? {
      var c := company.value;
      PresentFive(Candidates(c));
    }
  }

  /** Five candidates keep their present values in order */
  lemma PresentFive(xs: seq<Option<string>>)
    requires |xs| == 5
    ensures Present(xs) ==
      LinkPart(xs[0]) + (LinkPart(xs[1]) + (LinkPart(xs[2]) + (LinkPart(xs[3]) + LinkPart(xs[4]))))
  {
    var t1 := xs[1..];
    var t2 := t1[1..];
    var t3 := t2[1..];
    var t4 := t3[1..];
    assert Present(t4) == LinkPart(xs[4]) + Present(t4[1..]);
    assert LinkPart(xs[4]) + [] == LinkPart(xs[4]);
    assert Present(t3) == LinkPart(xs[3]) + Present(t4);
    assert Present(t2) == LinkPart(xs[2]) + Present(t3);
    assert Present(t1) == LinkPart(xs[1]) + Present(t2);
  }

  /** One step of `get_company_address`: the part, after ", " unless the
      address is still empty */
  function Append(address: string, part: string): (r: string)
  {
    if |address| > 0 then address + ", " + part else address + part
  }

  /** The candidates appended one at a time, skipping the absent ones */
  function AppendPresent(address: string, xs: seq<Option<string>>): string
    decreases |xs|
  {
    if |xs| == 0 then address
    else AppendPresent(if xs[0].Some? then Append(address, xs[0].value) else address, xs[1..])
  }

  /** `get_company_address` */
  function PrintedAddress(company: Option<Company>): string
  {
    if company.None? then "" else AppendPresent("", Candidates(company.value))
  }

  /** A linked state or country always has a non-empty name */
  predicate NamedLinks(company: Option<Company>)
  {
    company.Some? ==>
      (company.value.state.Some? ==> |company.value.state.value| > 0) &&
      (company.value.country.Some? ==> |company.value.country.value| > 0)
  }

  /** Appending the present values of `xs` to a non-empty address joins
      them after it */
  lemma {:induction false} AppendJoin(address: string, xs: seq<Option<string>>)
    requires |address| > 0
    ensures AppendPresent(address, xs) == Join([address] + Present(xs), ", ")
    decreases |xs|
  {
    if |xs| > 0 {
      var rest := xs[1..];
      AppendJoin(if xs[0].Some? then Append(address, xs[0].value) else address, rest);
      if xs[0].Some? {
        var p := xs[0].value;
        var a := address + ", " + p;
        JoinFront(address, [p] + Present(rest));
        JoinFront(p, Present(rest));
        JoinFront(a, Present(rest));
        assert Present(xs) == [p] + Present(rest);
        if |Present(rest)| > 0 {
          var j := Join(Present(rest), ", ");
          assert a + ", " + j == address + ", " + (p + ", " + j);
        }
      } else {
        assert Present(xs) == Present(rest);
      }
    }
  }

  /** Join of a list with a given head */
  lemma JoinFront(head: string, rest: seq<string>)
    ensures Join([head] + rest, ", ") == if |rest| == 0 then head else head + ", " + Join(rest, ", ")
  {
    assert ([head] + rest)[1..] == rest;
  }

  /** From an empty address the first non-empty value starts the text */
  lemma {:induction false} AppendFromEmpty(xs: seq<Option<string>>)
    requires forall i :: 0 <= i < |xs| && xs[i].Some? ==> |xs[i].value| > 0
    ensures AppendPresent("", xs) == Join(Present(xs), ", ")
    decreases |xs|
  {
    if |xs| > 0 {
      if xs[0].Some? {
        assert Append("", xs[0].value) == xs[0].value;
        AppendJoin(xs[0].value, xs[1..]);
      } else {
        AppendFromEmpty(xs[1..]);
        assert Present(xs) == Present(xs[1..]);
      }
    }
  }

  /** Both reports print the same address when linked states and countries
      carry names */
  lemma PrintedMatchesJoined(company: Option<Company>)
    requires NamedLinks(company)
    ensures PrintedAddress(company) == AddressBy(company)
  {
    if company.Some? {
      AppendFromEmpty(Candidates(company.value));
    }
  }

  /** An empty value keeps its separator in the join but adds nothing when
      appended */
  lemma EmptyValue(e: string, k: string)
    requires |e| == 0 && |k| > 0
    ensures Join(Present([Some(e), Some(k)]), ", ") == ", " + k
    ensures AppendPresent(e, [Some(e), Some(k)]) == k
  {
    assert [Some(e), Some(k)][1..] == [Some(k)];
    assert Present([Some(k)]) == [k];
    assert Present([Some(e), Some(k)]) == [e, k];
    JoinFront(e, [k]);
    assert Join([k], ", ") == k;
    assert e + ", " + k == ", " + k;
    assert Append(e, e) == e;
    assert Append(e, k) == k;
    assert AppendPresent(e, [Some(k)]) == AppendPresent(k, []);
  }

  /** Absent candidates at the front change neither text */
  lemma SkipAbsent(address: string, xs: seq<Option<string>>, n: nat)
    requires n <= |xs| && forall i :: 0 <= i < n ==> xs[i].None?
    ensures Present(xs) == Present(xs[n..])
    ensures AppendPresent(address, xs) == AppendPresent(address, xs[n..])
    decreases n
  {
    if n > 0 {
      SkipAbsent(address, xs[1..], n - 1);
      assert xs[1..][n - 1..] == xs[n..];
    }
  }

  /** A linked state with an empty name is where the two disagree: the join
      keeps an empty part and its separator, the appended text does not */
  lemma EmptyStateName(company: Company)
    requires !Filled(company.street) && !Filled(company.street2) && !Filled(company.city)
    requires company.state.Some? && |company.state.value| == 0
    requires company.country.Some? && |company.country.value| > 0
    ensures AddressBy(Some(company)) == ", " + company.country.value
    ensures PrintedAddress(Some(company)) == company.country.value
  {
    var e, k := company.state.value, company.country.value;
    var cs := Candidates(company);
    SkipAbsent(e, cs, 3);
    assert cs[3..] == [Some(e), Some(k)];
    EmptyValue(e, k);
    assert e == "";
  }
}
