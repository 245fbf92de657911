/** Vietnamese amount-in-words (biz_detail_of_receivable_report/config.py).

    The first half models the source's functions as written (`ConvertNN`,
    `ConvertNNN`, `VietnamNumber`, `AmountToText`); the second half is an
    independent, word-by-word reading of a number (`Words`) and the lemmas that
    tie the two together. */
module VietnameseNumber {
  import opened Wrappers
  import opened Text

  /** Words for 0..19 */
  const To19: seq<string> := [
    "không", "một", "hai", "ba", "bốn", "năm", "sáu", "bảy", "tám", "chín",
    "mười", "mười một", "mười hai", "mười ba", "mười bốn", "mười lăm",
    "mười sáu", "mười bảy", "mười tám", "mười chín"]

  /** Words for 20, 30, ..., 90 */
  const Tens: seq<string> := [
    "hai mươi", "ba mươi", "bốn mươi", "năm mươi", "sáu mươi", "bảy mươi",
    "tám mươi", "chín mươi"]

  /** Thousand-group denominations: 10^0, 10^3, 10^6, 10^9, 10^12, 10^15 */
  const Denom: seq<string> := ["", "nghìn", "triệu", "tỷ", "nghìn tỷ", "trăm nghìn tỷ"]

  /** 10^15, the first value that no denomination covers */
  const Limit: nat := 1_000_000_000_000_000

  const Dong: string := " đồng"

  function Pow1000(k: nat): (r: nat)
    ensures r >= 1
  {
    if k == 0 then 1 else 1000 * Pow1000(k - 1)
  }

  // ---------------------------------------------------------------------------
  // The source's functions

  /** `_convert_nn`: 0..99; for larger values the loop over `tens` finds no
      block and the function returns `None` */
  function ConvertNN(val: nat): Option<string>
  {
    if 0 < val <= 9 then Some("" + To19[val])
    else if (9 < val < 20) || val == 0 then Some(To19[val])
    else TensLoop(val, 0)
  }

  /** The loop over `enumerate(tens)` in `_convert_nn`: block `v` covers
      `[20 + 10v, 30 + 10v)` */
  function TensLoop(val: nat, v: nat): Option<string>
    decreases |Tens| - v
  {
    if v >= |Tens| then None
    else if 20 + 10 * v + 10 > val then Some(TensBlock(val, v))
    else TensLoop(val, v + 1)
  }

  /** The body of that loop once the block is found: the tens word, then the
      unit word with "một" read "mốt". The source first sets the unit word to
      "lăm" and then overwrites it in both branches, so a unit 5 stays "năm". */
  function TensBlock(val: nat, v: nat): string
    requires v < |Tens|
  {
    var dcap := Tens[v];
    if val % 10 != 0 then
      var a := if To19[val % 10] == "một" then "mốt" else To19[val % 10];
      dcap + " " + a
    else dcap
  }

  /** `_convert_nnn`: hundreds digit, "trăm", then "lẻ" before a single unit.
      A hundreds digit past the end of `to_19` raises IndexError (`None`). */
  function ConvertNNN(val: nat): Option<string>
  {
    var m := val % 100;
    var rem := val / 100;
    if rem >= |To19| then None
    else
      var word := if rem > 0 then To19[rem] + " trăm" + (if m > 0 then " " else "") else "";
      var tmp := if rem > 0 && m < 10 then "lẻ " else "";
      if m > 0 then
        var nn :- ConvertNN(m);
        Some(word + tmp + nn)
      else Some(word)
  }

  /** `vietnam_number` on a non-negative value (its only caller passes `abs`) */
  function VietnamNumber(val: nat): Option<string>
    decreases val, 1
  {
    if val < 100 then ConvertNN(val)
    else if val < 1000 then ConvertNNN(val)
    else DenomLoop(val, 0)
  }

  /** The loop over the denominations in `vietnam_number`: the first `v` with
      `1000^v > val` picks denomination `v - 1`. */
  function DenomLoop(val: nat, v: nat): Option<string>
    requires val >= 1000
    requires v == 0 || Pow1000(v - 1) <= val
    decreases val, 0, |Denom| - v
  {
    if v >= |Denom| then None
    else if Pow1000(v) > val then
      assert v >= 2 by { assert Pow1000(1) == 1000; }
      DenomGroup(val, v - 1)
    else DenomLoop(val, v + 1)
  }

  /** The body of that loop for denomination `didx`: the leading group, the
      denomination word, then "lẻ " before a remainder below 100 */
  function DenomGroup(val: nat, didx: nat): Option<string>
    requires 1 <= didx < |Denom| && Pow1000(didx) <= val
    decreases val, 0, 0
  {
    var m := Pow1000(didx);
    var l := val / m;
    var r := val - l * m;
    assert r < val by { DivFloor(val, m); }
    var head :- ConvertNNN(l);
    var ret := head + " " + Denom[didx];
    if r > 0 then
      var tail :- VietnamNumber(r);
      Some(ret + " " + (if r < 100 then "lẻ " else "") + tail)
    else Some(ret)
  }

  /** `amount_to_text` for an integer amount: capitalised words and " đồng",
      or "Âm " and the lower-cased text for a negative amount. `None` where the
      source raises (no words for amounts of 10^15 or more). */
  function AmountToText(n: int): Option<string>
  {
    var negative := n < 0;
    var a: nat := if n < 0 then -n else n;
    var startWord :- VietnamNumber(a);
    if |startWord| == 0 then None
    else
      var finalResult := UpperFirst(startWord) + Dong;
      if negative then Some("Âm " + Lower(finalResult)) else Some(finalResult)
  }

  /** `amount2text` of debt_notif_pdf.py: with `integer`, the text before
      " đồng", lower-cased */
  function Amount2Text(n: int, integer: bool): Option<string>
  {
    var text :- AmountToText(n);
    if integer then Some(Lower(SplitFirst(text, Dong))) else Some(text)
  }

  // ---------------------------------------------------------------------------
  // Reference reading, word by word

  /** 0..99: a unit, "mười" and a unit (5 read "lăm"), or a tens digit,
      "mươi" and a unit (1 read "mốt") */
  function Under100(n: nat): (ws: seq<string>)
    requires n < 100
    ensures 1 <= |ws| <= 3
  {
    if n < 10 then [To19[n]]
    else if n < 20 then ["mười"] + (if n == 10 then [] else if n == 15 then ["lăm"] else [To19[n - 10]])
    else [To19[n / 10], "mươi"] + (if n % 10 == 0 then [] else if n % 10 == 1 then ["mốt"] else [To19[n % 10]])
  }

  /** 0..999: a hundreds digit and "trăm", then nothing, "lẻ" and a unit, or
      the reading of the last two digits */
  function Under1000(n: nat): (ws: seq<string>)
    requires n < 1000
    ensures 1 <= |ws| <= 5
  {
    if n < 100 then Under100(n)
    else
      [To19[n / 100], "trăm"]
      + (if n % 100 == 0 then [] else if n % 100 < 10 then ["lẻ", To19[n % 100]] else Under100(n % 100))
  }

  /** The words of denomination 1000^k */
  function Scale(k: nat): seq<string>
    requires 1 <= k <= 4
  {
    if k == 1 then ["nghìn"] else if k == 2 then ["triệu"] else if k == 3 then ["tỷ"] else ["nghìn", "tỷ"]
  }

  /** The largest k with 1000^k <= n */
  function Magnitude(n: nat): (k: nat)
    requires 1000 <= n < Limit
    ensures 1 <= k <= 4 && Pow1000(k) <= n < Pow1000(k + 1)
  {
    assert Pow1000(1) == 1000 && Pow1000(5) == Limit;
    if n < Pow1000(2) then 1 else if n < Pow1000(3) then 2 else if n < Pow1000(4) then 3 else 4
  }

  /** The reading of a number below 10^15: the leading group, its denomination,
      then "lẻ" before a remainder below 100 and the reading of the remainder */
  function Words(n: nat): (ws: seq<string>)
    requires n < Limit
    ensures |ws| > 0
    decreases n
  {
    if n < 1000 then Under1000(n)
    else
      var k := Magnitude(n);
      var q := n / Pow1000(k);
      var r := n % Pow1000(k);
      assert q < 1000 by { DivBelow(n, Pow1000(k), 1000); }
      Under1000(q) + Scale(k)
      + (if r == 0 then [] else if r < 100 then ["lẻ"] + Words(r) else Words(r))
  }

  /** The text the reading stands for: its words separated by single spaces */
  function Spelled(n: nat): string
    requires n < Limit
  {
    Join(Words(n), " ")
  }

  // ---------------------------------------------------------------------------
  // The source's tables agree with the word-by-word reading

  lemma TeensTable(n: nat)
    requires 10 <= n < 20
    ensures To19[n] == Join(Under100(n), " ")
  {
    if n == 15 {
      JoinTwo("mười", "lăm", " ");
    } else if n > 10 {
      assert Under100(n) == ["mười", To19[n - 10]];
      JoinTwo("mười", To19[n - 10], " ");
      TeenWord(n);
    }
  }

  lemma TeenWord(n: nat)
    requires 11 <= n < 20 && n != 15
    ensures To19[n] == "mười" + " " + To19[n - 10]
  {
    if n == 11 {
    } else if n == 12 {
    } else if n == 13 {
    } else if n == 14 {
    } else if n == 16 {
    } else if n == 17 {
    } else if n == 18 {
    } else {
    }
  }

  lemma TensTable(d: nat)
    requires 2 <= d <= 9
    ensures Tens[d - 2] == To19[d] + " mươi"
  {
  }

  lemma DenomTable(k: nat)
    requires 1 <= k <= 4
    ensures Denom[k] == Join(Scale(k), " ")
  {
  }

  lemma UnitIsMot(u: nat)
    requires 1 <= u <= 9
    ensures To19[u] == "một" <==> u == 1
  {
  }

  lemma {:induction false} TensLoopReads(val: nat, v: nat)
    requires 20 <= val < 100 && v <= val / 10 - 2
    ensures TensLoop(val, v) == Some(Join(Under100(val), " "))
    decreases val / 10 - 2 - v
  {
    if v < val / 10 - 2 {
      TensLoopReads(val, v + 1);
    } else if val % 10 == 0 {
      TensBlockRound(val);
    } else {
      TensBlockWithUnit(val);
    }
  }

  lemma TensBlockRound(val: nat)
    requires 20 <= val < 100 && val % 10 == 0
    ensures TensBlock(val, val / 10 - 2) == Join(Under100(val), " ")
  {
    var d := val / 10;
    TensTable(d);
    assert Under100(val) == [To19[d], "mươi"];
    JoinTwo(To19[d], "mươi", " ");
    SpacedWord(To19[d], "mươi", "");
  }

  lemma TensBlockWithUnit(val: nat)
    requires 20 <= val < 100 && val % 10 != 0
    ensures TensBlock(val, val / 10 - 2) == Join(Under100(val), " ")
  {
    var d := val / 10;
    var a := UnitAfterTens(val % 10);
    TensBlockShape(val);
    Under100Shape(val);
    TensTable(d);
    JoinThree(To19[d], "mươi", a, " ");
    SpacedWord(To19[d], "mươi", " " + a);
  }

  /** The unit word after a tens word */
  function UnitAfterTens(u: nat): string
    requires 1 <= u <= 9
  {
    if u == 1 then "mốt" else To19[u]
  }

  lemma TensBlockShape(val: nat)
    requires 20 <= val < 100 && val % 10 != 0
    ensures TensBlock(val, val / 10 - 2) == Tens[val / 10 - 2] + " " + UnitAfterTens(val % 10)
  {
    UnitIsMot(val % 10);
  }

  lemma Under100Shape(val: nat)
    requires 20 <= val < 100 && val % 10 != 0
    ensures Under100(val) == [To19[val / 10], "mươi", UnitAfterTens(val % 10)]
  {
  }

  /** `_convert_nn` spells 0..99 as the reference reading does */
  lemma ConvertNNReads(n: nat)
    requires n < 100
    ensures ConvertNN(n) == Some(Join(Under100(n), " "))
  {
    if 10 <= n < 20 {
      TeensTable(n);
    } else if n >= 20 {
      assert ConvertNN(n) == TensLoop(n, 0);
      TensLoopReads(n, 0);
    } else if n > 0 {
      assert "" + To19[n] == To19[n];
    }
  }

  /** `_convert_nnn` spells 1..999 as the reference reading does */
  lemma ConvertNNNReads(n: nat)
    requires 1 <= n < 1000
    ensures ConvertNNN(n) == Some(Join(Under1000(n), " "))
  {
    var m := n % 100;
    var h := n / 100;
    if h == 0 {
      ConvertNNReads(m);
      var nn := Join(Under100(m), " ");
      assert ConvertNNN(n) == Some("" + "" + nn);
      assert "" + "" + nn == nn;
    } else if m == 0 {
      HundredsRound(n);
    } else if m < 10 {
      HundredsWithUnit(n);
    } else {
      HundredsWithTens(n);
    }
  }

  lemma HundredsRound(n: nat)
    requires 100 <= n < 1000 && n % 100 == 0
    ensures ConvertNNN(n) == Some(Join(Under1000(n), " "))
  {
    var h := To19[n / 100];
    assert ConvertNNN(n) == Some(h + " trăm" + "");
    assert Under1000(n) == [h, "trăm"] + [];
    RoundText(h);
  }

  lemma RoundText(h: string)
    ensures h + " trăm" + "" == Join([h, "trăm"] + [], " ")
  {
    assert [h, "trăm"] + [] == [h, "trăm"];
    JoinTwo(h, "trăm", " ");
    assert " trăm" == " " + "trăm";
  }

  lemma HundredsWithUnit(n: nat)
    requires 100 <= n < 1000 && 1 <= n % 100 < 10
    ensures ConvertNNN(n) == Some(Join(Under1000(n), " "))
  {
    var m := n % 100;
    var h := To19[n / 100];
    var u := To19[m];
    ConvertNNReads(m);
    assert ConvertNN(m) == Some(u);
    assert ConvertNNN(n) == Some(h + " trăm" + " " + "lẻ " + u);
    assert Under1000(n) == [h, "trăm"] + ["lẻ", u];
    OddUnitText(h, u);
  }

  lemma OddUnitText(h: string, u: string)
    ensures h + " trăm" + " " + "lẻ " + u == Join([h, "trăm"] + ["lẻ", u], " ")
  {
    JoinAppend([h, "trăm"], ["lẻ", u], " ");
    JoinTwo(h, "trăm", " ");
    JoinTwo("lẻ", u, " ");
    assert " trăm" == " " + "trăm";
    assert "lẻ " == "lẻ" + " ";
  }

  lemma HundredsWithTens(n: nat)
    requires 100 <= n < 1000 && n % 100 >= 10
    ensures ConvertNNN(n) == Some(Join(Under1000(n), " "))
  {
    var m := n % 100;
    var h := To19[n / 100];
    ConvertNNReads(m);
    var nn := Join(Under100(m), " ");
    assert ConvertNNN(n) == Some(h + " trăm" + " " + "" + nn);
    assert Under1000(n) == [h, "trăm"] + Under100(m);
    JoinAppend([h, "trăm"], Under100(m), " ");
    HundredsText(h, nn);
  }

  lemma HundredsText(h: string, nn: string)
    ensures h + " trăm" + " " + "" + nn == Join([h, "trăm"], " ") + " " + nn
  {
    JoinTwo(h, "trăm", " ");
    assert " trăm" == " " + "trăm";
  }

  /** `a + " w" + rest` is `a`, a space, `w` and `rest` */
  lemma SpacedWord(a: string, w: string, rest: string)
    ensures a + (" " + w) + rest == a + " " + w + rest
    ensures a + " " + w + rest == a + (" " + w + rest)
  {
  }

  lemma Pow1000Mono(a: nat, b: nat)
    requires a <= b
    ensures Pow1000(a) <= Pow1000(b)
    decreases b - a
  {
    if a < b {
      Pow1000Mono(a + 1, b);
    }
  }

  lemma {:induction false} DenomLoopOverflow(val: nat, v: nat)
    requires val >= Limit
    requires v == 0 || Pow1000(v - 1) <= val
    ensures DenomLoop(val, v) == None
    decreases |Denom| - v
  {
    if v < |Denom| {
      Pow1000Mono(v, 5);
      assert Pow1000(5) == Limit;
      DenomLoopOverflow(val, v + 1);
    }
  }

  /** The denomination loop runs on, unchanged, up to block `k + 1` */
  lemma {:induction false} DenomLoopReaches(n: nat, v: nat, k: nat)
    requires n >= 1000 && k + 1 < |Denom| && v <= k + 1
    requires v == 0 || Pow1000(v - 1) <= n
    requires Pow1000(k) <= n
    ensures DenomLoop(n, v) == DenomLoop(n, k + 1)
    decreases k + 1 - v
  {
    if v <= k {
      Pow1000Mono(v, k);
      DenomLoopSkip(n, v);
      DenomLoopReaches(n, v + 1, k);
    }
  }

  lemma DenomLoopSkip(n: nat, v: nat)
    requires n >= 1000 && v < |Denom|
    requires v == 0 || Pow1000(v - 1) <= n
    requires Pow1000(v) <= n
    ensures DenomLoop(n, v) == DenomLoop(n, v + 1)
  {
  }

  /** The step of the denomination loop that finds the leading group */
  lemma {:induction false} DenomHit(n: nat)
    requires 1000 <= n < Limit
    ensures DenomGroup(n, Magnitude(n)) == Some(Spelled(n))
    decreases n, 0
  {
    var k := Magnitude(n);
    var q := n / Pow1000(k);
    var r := n % Pow1000(k);
    DivFloor(n, Pow1000(k));
    DivBelow(n, Pow1000(k), 1000);
    ConvertNNNReads(q);
    DenomTable(k);
    JoinAppend(Under1000(q), Scale(k), " ");
    var h := Join(Under1000(q), " ");
    WordsUnfold(n);
    if r == 0 {
      DenomGroupRound(n, k, h);
      assert Words(n) == Under1000(q) + Scale(k) + [];
      assert Under1000(q) + Scale(k) + [] == Under1000(q) + Scale(k);
    } else {
      VietnamNumberReads(r);
      DenomGroupRest(n, k, h, Spelled(r));
      GroupThenRest(Under1000(q) + Scale(k), Words(r), r < 100);
    }
  }

  /** What `Words` puts after a denomination for a remainder `r` */
  function Rest(r: nat): seq<string>
    requires r < Limit
  {
    if r == 0 then [] else if r < 100 then ["lẻ"] + Words(r) else Words(r)
  }

  /** The reading above 999 split into its leading group, denomination and
      rest, with the arithmetic that ties them to the number */
  lemma WordsGroup(n: nat) returns (q: nat, k: nat, r: nat)
    requires 1000 <= n < Limit
    ensures 1 <= k <= 4 && 1 <= q < 1000 && r < Pow1000(k) && r < n
    ensures n == q * Pow1000(k) + r
    ensures Words(n) == Under1000(q) + Scale(k) + Rest(r)
  {
    k := Magnitude(n);
    q := n / Pow1000(k);
    r := n % Pow1000(k);
    DivFloor(n, Pow1000(k));
    WordsUnfold(n);
  }

  /** One step of the reading above 999: the leading group, its scale, the rest */
  lemma WordsUnfold(n: nat)
    requires 1000 <= n < Limit
    ensures var k := Magnitude(n);
            var q := n / Pow1000(k);
            var r := n % Pow1000(k);
            q < 1000 &&
            Words(n) == Under1000(q) + Scale(k)
                        + (if r == 0 then [] else if r < 100 then ["lẻ"] + Words(r) else Words(r))
  {
    var k := Magnitude(n);
    DivBelow(n, Pow1000(k), 1000);
  }

  /** `DenomGroup` on an exact multiple of the scale: only the leading group */
  lemma DenomGroupRound(n: nat, k: nat, h: string)
    requires 1 <= k < |Denom| && Pow1000(k) <= n && n % Pow1000(k) == 0
    requires ConvertNNN(n / Pow1000(k)) == Some(h)
    ensures DenomGroup(n, k) == Some(h + " " + Denom[k])
  {
    DivFloor(n, Pow1000(k));
  }

  /** `DenomGroup` with a non-zero rest: the leading group, then the rest's text */
  lemma DenomGroupRest(n: nat, k: nat, h: string, tail: string)
    requires 1 <= k < |Denom| && Pow1000(k) <= n && n % Pow1000(k) > 0
    requires ConvertNNN(n / Pow1000(k)) == Some(h)
    requires VietnamNumber(n % Pow1000(k)) == Some(tail)
    ensures DenomGroup(n, k)
         == Some(h + " " + Denom[k] + " " + (if n % Pow1000(k) < 100 then "lẻ " else "") + tail)
  {
    DivFloor(n, Pow1000(k));
  }

  /** Joining a leading part with a remainder, "lẻ"-prefixed when `small` */
  lemma GroupThenRest(lead: seq<string>, ws: seq<string>, small: bool)
    requires |lead| > 0 && |ws| > 0
    ensures Join(lead + (if small then ["lẻ"] + ws else ws), " ")
         == Join(lead, " ") + " " + (if small then "lẻ " else "") + Join(ws, " ")
  {
    if small {
      GroupThenOddRest(lead, ws);
    } else {
      JoinAppend(lead, ws, " ");
      assert Join(lead, " ") + " " + "" + Join(ws, " ") == Join(lead, " ") + " " + Join(ws, " ");
    }
  }

  lemma GroupThenOddRest(lead: seq<string>, ws: seq<string>)
    requires |lead| > 0 && |ws| > 0
    ensures Join(lead + (["lẻ"] + ws), " ") == Join(lead, " ") + " " + "lẻ " + Join(ws, " ")
  {
    var a := Join(lead, " ");
    var b := Join(ws, " ");
    JoinAppend(lead, ["lẻ"] + ws, " ");
    JoinAppend(["lẻ"], ws, " ");
    assert Join(["lẻ"], " ") == "lẻ";
    assert a + " " + ("lẻ" + " " + b) == a + " " + "lẻ " + b;
  }

  /** `vietnam_number` spells every value below 10^15 exactly as the reference
      reading does, and has no words (returns `None`) from 10^15 on: the last
      denomination "trăm nghìn tỷ" is never used. */
  lemma {:induction false} VietnamNumberReads(n: nat)
    ensures n < Limit ==> VietnamNumber(n) == Some(Spelled(n))
    ensures n >= Limit ==> VietnamNumber(n) == None
    decreases n, 2
  {
    if n < 100 {
      ConvertNNReads(n);
    } else if n < 1000 {
      ConvertNNNReads(n);
    } else if n < Limit {
      var k := Magnitude(n);
      DenomLoopReaches(n, 0, k);
      assert DenomLoop(n, k + 1) == DenomGroup(n, k);
      DenomHit(n);
    } else {
      DenomLoopOverflow(n, 0);
    }
  }

  // ---------------------------------------------------------------------------
  // Arithmetic helpers

  lemma DivFloor(val: nat, m: nat)
    requires 1 <= m <= val
    ensures 1 <= val / m
    ensures val - (val / m) * m == val % m
    ensures val % m < m <= val
  {
  }

  lemma DivBelow(n: nat, p: nat, b: nat)
    requires p >= 1 && n < p * b
    ensures n / p < b
  {
  }

  lemma Pow1000Step(k: nat)
    ensures Pow1000(k + 1) == 1000 * Pow1000(k)
  {
  }

  // ---------------------------------------------------------------------------
  // The source function case by case, in its own terms

  /** 0..19 read as the table entry */
  lemma VietnamNumberSmall(n: nat)
    requires n < 20
    ensures VietnamNumber(n) == Some(To19[n])
  {
    if 0 < n <= 9 {
      assert "" + To19[n] == To19[n];
    }
  }

  /** 20..99: the tens word, then the unit word ("mốt" for 1) unless the unit is 0 */
  lemma VietnamNumberTens(n: nat)
    requires 20 <= n < 100
    ensures n % 10 == 0 ==> VietnamNumber(n) == Some(Tens[n / 10 - 2])
    ensures n % 10 != 0 ==> VietnamNumber(n) == Some(Tens[n / 10 - 2] + " " + UnitAfterTens(n % 10))
  {
    TensLoopFinds(n, 0);
    if n % 10 != 0 {
      TensBlockShape(n);
    }
  }

  lemma {:induction false} TensLoopFinds(val: nat, v: nat)
    requires 20 <= val < 100 && v <= val / 10 - 2
    ensures TensLoop(val, v) == Some(TensBlock(val, val / 10 - 2))
    decreases val / 10 - 2 - v
  {
    if v < val / 10 - 2 {
      TensLoopFinds(val, v + 1);
    }
  }

  /** 100..999: the hundreds digit and "trăm", then "lẻ" and a unit, or the
      text of the last two digits */
  lemma VietnamNumberHundreds(n: nat)
    requires 100 <= n < 1000
    ensures var h := To19[n / 100] + " trăm";
            var m := n % 100;
            VietnamNumber(m).Some? &&
            VietnamNumber(n) == Some(if m == 0 then h
                                     else if m < 10 then h + " lẻ " + To19[m]
                                     else h + " " + VietnamNumber(m).value)
  {
    var m := n % 100;
    ConvertNNReads(m);
    if m == 0 {
      HundredsAlone(n);
    } else if m < 10 {
      HundredsOddUnit(n);
    } else {
      HundredsThenTens(n);
    }
  }

  lemma HundredsAlone(n: nat)
    requires 100 <= n < 1000 && n % 100 == 0
    ensures VietnamNumber(n) == Some(To19[n / 100] + " trăm")
  {
    var h := To19[n / 100];
    assert VietnamNumber(n) == Some(h + " trăm" + "");
    assert h + " trăm" + "" == h + " trăm";
  }

  lemma HundredsOddUnit(n: nat)
    requires 100 <= n < 1000 && 0 < n % 100 < 10
    ensures VietnamNumber(n) == Some(To19[n / 100] + " trăm" + " lẻ " + To19[n % 100])
  {
    var h := To19[n / 100];
    var m := n % 100;
    VietnamNumberSmall(m);
    assert ConvertNN(m) == Some(To19[m]);
    assert VietnamNumber(n) == Some(h + " trăm" + " " + "lẻ " + To19[m]);
    OddUnitSpacing(h + " trăm", To19[m]);
  }

  lemma HundredsThenTens(n: nat)
    requires 100 <= n < 1000 && n % 100 >= 10
    ensures VietnamNumber(n % 100).Some?
    ensures VietnamNumber(n) == Some(To19[n / 100] + " trăm" + " " + VietnamNumber(n % 100).value)
  {
    var h := To19[n / 100];
    var m := n % 100;
    ConvertNNReads(m);
    var nn := ConvertNN(m).value;
    assert VietnamNumber(n) == Some(h + " trăm" + " " + "" + nn);
    assert h + " trăm" + " " + "" + nn == h + " trăm" + " " + nn;
  }

  lemma OddUnitSpacing(a: string, u: string)
    ensures a + " " + "lẻ " + u == a + " lẻ " + u
  {
  }

  /** 1000 up to 10^15: the text of the leading group, its denomination (never
      the last entry of the table), then "lẻ " before a remainder below 100 and
      the remainder's text */
  lemma VietnamNumberGroups(n: nat) returns (q: nat, k: nat, r: nat)
    requires 1000 <= n < Limit
    ensures 1 <= k <= 4 && 1 <= q < 1000 && r < Pow1000(k) && n == q * Pow1000(k) + r
    ensures VietnamNumber(q).Some? && (r > 0 ==> VietnamNumber(r).Some?)
    ensures VietnamNumber(n)
         == Some(VietnamNumber(q).value + " " + Denom[k]
                 + (if r == 0 then "" else " " + (if r < 100 then "lẻ " else "") + VietnamNumber(r).value))
  {
    k := Magnitude(n);
    q := n / Pow1000(k);
    r := n % Pow1000(k);
    DivFloor(n, Pow1000(k));
    DivBelow(n, Pow1000(k), 1000);
    DenomLoopReaches(n, 0, k);
    assert DenomLoop(n, k + 1) == DenomGroup(n, k);
    ConvertNNNReads(q);
    VietnamNumberReads(q);
    var h := ConvertNNN(q).value;
    if r == 0 {
      DenomGroupRound(n, k, h);
      assert h + " " + Denom[k] + "" == h + " " + Denom[k];
    } else {
      VietnamNumberReads(r);
      DenomGroupRest(n, k, h, VietnamNumber(r).value);
      GroupSpacing(h + " " + Denom[k], if r < 100 then "lẻ " else "", VietnamNumber(r).value);
    }
  }

  lemma GroupSpacing(a: string, odd: string, t: string)
    ensures a + " " + odd + t == a + (" " + odd + t)
  {
  }
}
