/** Reading Vietnamese amount words back into a number: the partner of
    `VietnameseNumber.VietnamNumber`. The parser accepts exactly the shapes the
    word-by-word reading produces, and the round-trip lemmas show that the text
    of every amount below 10^15 reads back as that amount, so no two amounts
    share a text. */
module VietnameseNumberParse {
  import opened Wrappers
  import opened Text
  import opened VietnameseNumber

  /** The digit a unit word stands for */
  function Digit(w: string): (d: Option<nat>)
    ensures d.Some? ==> d.value < 10
  {
    if w == "không" then Some(0)
    else if w == "một" then Some(1)
    else if w == "hai" then Some(2)
    else if w == "ba" then Some(3)
    else if w == "bốn" then Some(4)
    else if w == "năm" then Some(5)
    else if w == "sáu" then Some(6)
    else if w == "bảy" then Some(7)
    else if w == "tám" then Some(8)
    else if w == "chín" then Some(9)
    else None
  }

  /** A word that names a denomination */
  predicate IsScale(w: string)
  {
    w == "nghìn" || w == "triệu" || w == "tỷ"
  }

  /** A word a reading can start with */
  predicate Numeral(w: string)
  {
    Digit(w).Some? || w == "mười"
  }

  /** The words a reading is made of */
  predicate Vocab(w: string)
  {
    Numeral(w) || IsScale(w)
    || w == "mươi" || w == "trăm" || w == "lẻ" || w == "lăm" || w == "mốt"
  }

  /** Index of the first denomination word (`|ws|` when there is none) */
  function FirstScale(ws: seq<string>): (i: nat)
    ensures i <= |ws|
    ensures i < |ws| ==> IsScale(ws[i])
    ensures forall j :: 0 <= j < i ==> !IsScale(ws[j])
  {
    if |ws| == 0 then 0
    else if IsScale(ws[0]) then 0
    else 1 + FirstScale(ws[1..])
  }

  /** 0..99 from its words */
  function ParseUnder100(ws: seq<string>): (r: Option<nat>)
    ensures r.Some? ==> r.value < 100
  {
    if |ws| == 1 then
      if Digit(ws[0]).Some? then Digit(ws[0])
      else if ws[0] == "mười" then Some(10)
      else None
    else if |ws| == 2 then
      if ws[0] == "mười" then
        if ws[1] == "lăm" then Some(15)
        else if Digit(ws[1]).Some? && 1 <= Digit(ws[1]).value && Digit(ws[1]).value != 5 then
          Some(10 + Digit(ws[1]).value)
        else None
      else if ws[1] == "mươi" && Digit(ws[0]).Some? && 2 <= Digit(ws[0]).value then
        Some(10 * Digit(ws[0]).value)
      else None
    else if |ws| == 3 && ws[1] == "mươi" && Digit(ws[0]).Some? && 2 <= Digit(ws[0]).value then
      var d := Digit(ws[0]).value;
      if ws[2] == "mốt" then Some(10 * d + 1)
      else if Digit(ws[2]).Some? && 2 <= Digit(ws[2]).value then Some(10 * d + Digit(ws[2]).value)
      else None
    else None
  }

  /** 0..999 from its words */
  function ParseUnder1000(ws: seq<string>): (r: Option<nat>)
    ensures r.Some? ==> r.value < 1000
  {
    if |ws| >= 2 && ws[1] == "trăm" then
      if Digit(ws[0]).Some? && 1 <= Digit(ws[0]).value then
        var h := Digit(ws[0]).value;
        var rest := ws[2..];
        if |rest| == 0 then Some(100 * h)
        else if |rest| == 2 && rest[0] == "lẻ" then
          if Digit(rest[1]).Some? && 1 <= Digit(rest[1]).value then Some(100 * h + Digit(rest[1]).value)
          else None
        else
          var m :- ParseUnder100(rest);
          if 10 <= m then Some(100 * h + m) else None
      else None
    else ParseUnder100(ws)
  }

  /** The denomination at index `i`: "nghìn tỷ" is 10^12 */
  function ScaleOf(ws: seq<string>, i: nat): (k: nat)
    requires i < |ws|
    ensures 1 <= k <= 4
  {
    if ws[i] == "nghìn" && i + 1 < |ws| && ws[i + 1] == "tỷ" then 4
    else if ws[i] == "nghìn" then 1
    else if ws[i] == "triệu" then 2
    else 3
  }

  /** The number of words of the denomination at index `i` */
  function ScaleLength(k: nat): nat
  {
    if k == 4 then 2 else 1
  }

  /** A number from its words: the leading group up to the first denomination,
      then what follows the denomination */
  function ParseWords(ws: seq<string>): Option<nat>
    decreases |ws|, 1
  {
    var i := FirstScale(ws);
    if i == |ws| then ParseUnder1000(ws)
    else
      var k := ScaleOf(ws, i);
      var q :- ParseUnder1000(ws[..i]);
      if q == 0 || |ws| < i + ScaleLength(k) then None
      else ParseRest(q, k, ws[i + ScaleLength(k)..])
  }

  /** What follows a leading group `q` of denomination `k`: nothing, "lẻ" and
      a number below 100, or a number of 100 or more below the denomination */
  function ParseRest(q: nat, k: nat, rest: seq<string>): Option<nat>
    decreases |rest|, 2
  {
    if |rest| == 0 then Some(q * Pow1000(k))
    else if rest[0] == "lẻ" then
      var r :- ParseWords(rest[1..]);
      if 1 <= r < 100 then Some(q * Pow1000(k) + r) else None
    else
      var r :- ParseWords(rest);
      if 100 <= r < Pow1000(k) then Some(q * Pow1000(k) + r) else None
  }

  /** The number a space-separated text reads as */
  function ReadNumber(s: string): Option<nat>
  {
    ParseWords(Split(s, ' '))
  }

  // ---------------------------------------------------------------------------
  // Facts about the vocabulary

  lemma UnitDigit(d: nat)
    requires d < 10
    ensures Digit(To19[d]) == Some(d)
  {
    if d == 0 {
    } else if d == 1 {
    } else if d == 2 {
    } else if d == 3 {
    } else if d == 4 {
    } else if d == 5 {
    } else if d == 6 {
    } else if d == 7 {
    } else if d == 8 {
    } else {
    }
  }

  /** Unit words are none of the other words of a reading */
  lemma DigitWord(w: string)
    requires Digit(w).Some?
    ensures !IsScale(w) && w != "mười" && w != "mươi" && w != "trăm"
    ensures w != "lẻ" && w != "lăm" && w != "mốt"
  {
  }

  lemma UnitWordFacts(d: nat)
    requires d < 10
    ensures Numeral(To19[d]) && Vocab(To19[d]) && !IsScale(To19[d])
    ensures To19[d] != "mười" && To19[d] != "mươi" && To19[d] != "trăm"
    ensures To19[d] != "lẻ" && To19[d] != "lăm" && To19[d] != "mốt"
  {
    UnitDigit(d);
    DigitWord(To19[d]);
  }

  lemma NumeralWord(w: string)
    requires Numeral(w)
    ensures Vocab(w) && !IsScale(w) && w != "lẻ" && w != "mươi" && w != "trăm"
  {
    if Digit(w).Some? {
      DigitWord(w);
    }
  }

  /** A letter of a reading: ASCII lower case, or a precomposed letter above
      the Latin-1 capitals other than "đ" */
  predicate WordLetter(c: char)
  {
    ('a' <= c <= 'z') || (c > '\U{00DE}' && c != 'đ')
  }

  /** A word written only with such letters, starting with an ASCII one */
  predicate Lettered(w: string)
  {
    |w| > 0 && 'a' <= w[0] <= 'z' && forall i :: 0 <= i < |w| ==> WordLetter(w[i])
  }

  /** Every word of a reading is a single lower-case word without spaces and
      without the letter "đ" of "đồng" */
  lemma VocabFacts(w: string)
    requires Vocab(w)
    ensures |w| > 0 && ' ' !in w && 'đ' !in w && IsLower(w)
    ensures IsAsciiLowerLetter(w[0])
  {
    VocabLettered(w);
    WordLetters(w);
  }

  lemma VocabLettered(w: string)
    requires Vocab(w)
    ensures Lettered(w)
  {
  }

  lemma WordLetters(w: string)
    requires Lettered(w)
    ensures |w| > 0 && ' ' !in w && 'đ' !in w && IsLower(w)
    ensures IsAsciiLowerLetter(w[0])
  {
    IsLowerAll(w);
  }

  /** All words of a sequence are reading words */
  predicate AllVocab(ws: seq<string>)
  {
    forall i :: 0 <= i < |ws| ==> Vocab(ws[i])
  }

  /** No word of a sequence is a denomination */
  predicate NoScale(ws: seq<string>)
  {
    forall i :: 0 <= i < |ws| ==> !IsScale(ws[i])
  }

  // ---------------------------------------------------------------------------
  // Groups below 1000 read back

  lemma Under100Parse(n: nat)
    requires n < 100
    ensures ParseUnder100(Under100(n)) == Some(n)
  {
    if n < 10 {
      UnitDigit(n);
    } else if n == 10 || n == 15 {
    } else if n < 20 {
      TeenParse(n);
    } else {
      TensParse(n);
    }
  }

  lemma TeenParse(n: nat)
    requires 10 < n < 20 && n != 15
    ensures ParseUnder100(Under100(n)) == Some(n)
  {
    UnitDigit(n - 10);
    DigitWord(To19[n - 10]);
    assert Under100(n) == ["mười", To19[n - 10]];
  }

  lemma TensParse(n: nat)
    requires 20 <= n < 100
    ensures ParseUnder100(Under100(n)) == Some(n)
  {
    var d := n / 10;
    var e := n % 10;
    UnitDigit(d);
    DigitWord(To19[d]);
    if e == 0 {
      assert Under100(n) == [To19[d], "mươi"];
    } else if e == 1 {
      assert Under100(n) == [To19[d], "mươi", "mốt"];
    } else {
      UnitDigit(e);
      DigitWord(To19[e]);
      assert Under100(n) == [To19[d], "mươi", To19[e]];
    }
  }

  /** The words of 0..99 */
  lemma Under100Words(n: nat)
    requires n < 100
    ensures Numeral(Under100(n)[0])
    ensures |Under100(n)| >= 2 ==> Under100(n)[1] != "trăm"
    ensures forall i :: 0 <= i < |Under100(n)| ==> Vocab(Under100(n)[i]) && !IsScale(Under100(n)[i])
  {
    if n < 10 {
      UnitWordFacts(n);
    } else if n < 20 {
      if n != 10 && n != 15 {
        UnitWordFacts(n - 10);
      }
    } else {
      UnitWordFacts(n / 10);
      if n % 10 >= 2 {
        UnitWordFacts(n % 10);
      }
    }
  }

  lemma Under1000Parse(n: nat)
    requires n < 1000
    ensures ParseUnder1000(Under1000(n)) == Some(n)
  {
    if n < 100 {
      Under100Words(n);
      Under100Parse(n);
    } else {
      var h := n / 100;
      var m := n % 100;
      UnitDigit(h);
      var ws := Under1000(n);
      if m == 0 {
        assert ws[2..] == [];
      } else if m < 10 {
        UnitDigit(m);
        assert ws[2..] == ["lẻ", To19[m]];
      } else {
        Under100Words(m);
        Under100Parse(m);
        NumeralWord(Under100(m)[0]);
        assert ws[2..] == Under100(m);
      }
    }
  }

  /** The words of 0..999: vocabulary, no denomination, a numeral first */
  lemma Under1000Words(n: nat)
    requires n < 1000
    ensures Numeral(Under1000(n)[0])
    ensures AllVocab(Under1000(n)) && NoScale(Under1000(n))
  {
    if n < 100 {
      Under100Words(n);
    } else {
      UnitWordFacts(n / 100);
      var m := n % 100;
      if 0 < m < 10 {
        UnitWordFacts(m);
      } else if m >= 10 {
        Under100Words(m);
      }
    }
  }

  // ---------------------------------------------------------------------------
  // Whole readings read back

  lemma FirstScaleNone(ws: seq<string>)
    requires NoScale(ws)
    ensures FirstScale(ws) == |ws|
  {
  }

  lemma {:induction false} FirstScaleAfter(lead: seq<string>, more: seq<string>)
    requires NoScale(lead)
    requires |more| > 0 && IsScale(more[0])
    ensures FirstScale(lead + more) == |lead|
  {
    if |lead| > 0 {
      assert (lead + more)[1..] == lead[1..] + more;
      FirstScaleAfter(lead[1..], more);
    }
  }

  /** A leading group, a denomination and a rest parse as the group and the rest */
  lemma ParseAtScale(lead: seq<string>, q: nat, k: nat, rest: seq<string>)
    requires NoScale(lead)
    requires ParseUnder1000(lead) == Some(q) && q >= 1 && 1 <= k <= 4
    requires |rest| > 0 ==> rest[0] != "tỷ"
    ensures ParseWords(lead + Scale(k) + rest) == ParseRest(q, k, rest)
  {
    var ws := lead + Scale(k) + rest;
    assert ws == lead + (Scale(k) + rest);
    FirstScaleAfter(lead, Scale(k) + rest);
    assert ScaleOf(ws, |lead|) == k;
    assert ws[..|lead|] == lead;
    assert ws[|lead| + ScaleLength(k)..] == rest;
  }

  lemma ScaleJoinVocab(lead: seq<string>, k: nat, tail: seq<string>)
    requires 1 <= k <= 4 && AllVocab(lead) && AllVocab(tail)
    ensures AllVocab(lead + Scale(k) + tail)
  {
    var ws := lead + Scale(k) + tail;
    forall i | 0 <= i < |ws|
      ensures Vocab(ws[i])
    {
      if i < |lead| {
        assert ws[i] == lead[i];
      } else if i < |lead| + |Scale(k)| {
        assert ws[i] == Scale(k)[i - |lead|];
      } else {
        assert ws[i] == tail[i - |lead| - |Scale(k)|];
      }
    }
  }

  lemma OddVocab(ws: seq<string>)
    requires AllVocab(ws)
    ensures AllVocab(["lẻ"] + ws)
  {
    var t := ["lẻ"] + ws;
    forall i | 0 <= i < |t|
      ensures Vocab(t[i])
    {
      if i > 0 {
        assert t[i] == ws[i - 1];
      }
    }
  }

  /** The words of a reading: vocabulary, a numeral first */
  lemma {:induction false} WordsVocab(n: nat)
    requires n < Limit
    ensures Numeral(Words(n)[0])
    ensures AllVocab(Words(n))
    decreases n
  {
    if n < 1000 {
      Under1000Words(n);
    } else {
      var q, k, r := WordsGroup(n);
      Under1000Words(q);
      if r > 0 {
        WordsVocab(r);
        if r < 100 {
          OddVocab(Words(r));
        }
      }
      ScaleJoinVocab(Under1000(q), k, Rest(r));
    }
  }

  /** What follows a denomination parses as the remainder it was made from */
  lemma RestParse(q: nat, k: nat, r: nat, ws: seq<string>, tail: seq<string>)
    requires 1 <= k <= 4 && r < Pow1000(k)
    requires r == 0 ==> tail == []
    requires 0 < r < 100 ==> tail == ["lẻ"] + ws
    requires r >= 100 ==> tail == ws && |ws| > 0 && ws[0] != "lẻ"
    requires r > 0 ==> ParseWords(ws) == Some(r)
    ensures ParseRest(q, k, tail) == Some(q * Pow1000(k) + r)
  {
    if r == 0 {
    } else if r < 100 {
      OddRestParse(q, k, r, ws);
    } else {
      LargeRestParse(q, k, r, ws);
    }
  }

  lemma OddRestParse(q: nat, k: nat, r: nat, ws: seq<string>)
    requires 0 < r < 100 && ParseWords(ws) == Some(r)
    ensures ParseRest(q, k, ["lẻ"] + ws) == Some(q * Pow1000(k) + r)
  {
    assert (["lẻ"] + ws)[1..] == ws;
  }

  lemma LargeRestParse(q: nat, k: nat, r: nat, ws: seq<string>)
    requires 100 <= r < Pow1000(k) && ParseWords(ws) == Some(r)
    requires |ws| > 0 && ws[0] != "lẻ"
    ensures ParseRest(q, k, ws) == Some(q * Pow1000(k) + r)
  {
  }

  /** Every reading below 10^15 parses back to its number */
  lemma {:induction false} WordsParse(n: nat)
    requires n < Limit
    ensures ParseWords(Words(n)) == Some(n)
    decreases n
  {
    if n < 1000 {
      Under1000Words(n);
      FirstScaleNone(Words(n));
      Under1000Parse(n);
    } else {
      var q, k, r := WordsGroup(n);
      Under1000Words(q);
      Under1000Parse(q);
      var rw := if r == 0 then [] else Words(r);
      if r > 0 {
        WordsVocab(r);
        NumeralWord(Words(r)[0]);
        WordsParse(r);
      }
      ParseAtScale(Under1000(q), q, k, Rest(r));
      RestParse(q, k, r, rw, Rest(r));
    }
  }

  // ---------------------------------------------------------------------------
  // Texts read back

  /** A lower-case text starting with an ASCII letter, without "đ" */
  predicate PlainText(w: string)
  {
    |w| > 0 && IsAsciiLowerLetter(w[0]) && IsLower(w) && 'đ' !in w
  }

  /** The text of a reading is plain */
  lemma SpelledFacts(n: nat)
    requires n < Limit
    ensures PlainText(Spelled(n))
  {
    var ws := Words(n);
    WordsVocab(n);
    forall i | 0 <= i < |ws|
      ensures IsLower(ws[i]) && 'đ' !in ws[i]
    {
      VocabFacts(ws[i]);
    }
    VocabFacts(ws[0]);
    JoinFirst(ws, " ");
    IsLowerJoin(ws, " ");
    NotInJoin(ws, " ", 'đ');
  }

  /** The text of every number below 10^15 reads back as that number */
  lemma ReadSpelled(n: nat)
    requires n < Limit
    ensures ReadNumber(Spelled(n)) == Some(n)
  {
    var ws := Words(n);
    WordsVocab(n);
    forall i | 0 <= i < |ws|
      ensures ' ' !in ws[i]
    {
      VocabFacts(ws[i]);
    }
    SplitJoin(ws, ' ');
    WordsParse(n);
  }

  /** `vietnam_number` gives a text for exactly the numbers below 10^15, and the
      text reads back as the number */
  lemma VietnamNumberReadBack(n: nat)
    ensures VietnamNumber(n).Some? <==> n < Limit
    ensures n < Limit ==> ReadNumber(VietnamNumber(n).value) == Some(n)
  {
    VietnamNumberReads(n);
    if n < Limit {
      ReadSpelled(n);
    }
  }

  /** No two numbers share a text */
  lemma VietnamNumberInjective(a: nat, b: nat)
    requires VietnamNumber(a).Some? && VietnamNumber(a) == VietnamNumber(b)
    ensures a == b
  {
    VietnamNumberReadBack(a);
    VietnamNumberReadBack(b);
  }

  /** `amount_to_text`: the capitalised text and " đồng" for a non-negative
      amount, "Âm ", the text and " đồng" for a negative one, nothing from
      10^15 on either side */
  lemma AmountToTextReads(n: int)
    ensures (n >= Limit || -n >= Limit) <==> AmountToText(n) == None
    ensures 0 <= n < Limit ==> AmountToText(n) == Some(UpperFirst(Spelled(n)) + Dong)
    ensures 0 < -n < Limit ==> AmountToText(n) == Some("Âm " + Spelled(-n) + Dong)
  {
    var a: nat := if n < 0 then -n else n;
    VietnamNumberReads(a);
    if a < Limit {
      SpelledFacts(a);
      AmountOfText(n, Spelled(a));
    } else {
      AmountWithoutText(n);
    }
  }

  lemma AmountWithoutText(n: int)
    requires VietnamNumber(if n < 0 then -n else n) == None
    ensures AmountToText(n) == None
  {
  }

  /** `amount_to_text` from the text of the amount's magnitude */
  lemma AmountOfText(n: int, w: string)
    requires VietnamNumber(if n < 0 then -n else n) == Some(w) && PlainText(w)
    ensures n >= 0 ==> AmountToText(n) == Some(UpperFirst(w) + Dong)
    ensures n < 0 ==> AmountToText(n) == Some("Âm " + w + Dong)
  {
    if n < 0 {
      assert AmountToText(n) == Some("Âm " + Lower(UpperFirst(w) + Dong));
      LowerCapitalised(w);
      assert "Âm " + (w + Dong) == "Âm " + w + Dong;
    } else {
      assert AmountToText(n) == Some(UpperFirst(w) + Dong);
    }
  }

  lemma LowerCapitalised(w: string)
    requires PlainText(w)
    ensures Lower(UpperFirst(w) + Dong) == w + Dong
  {
    LowerUpperFirst(w);
    LowerAppend(UpperFirst(w), Dong);
    DongIsLower();
  }

  lemma DongIsLower()
    ensures Lower(Dong) == Dong
  {
    assert IsLower(Dong) by {
      IsLowerAll(Dong);
    }
    LowerOfLower(Dong);
  }

  /** An amount from its `amount_to_text` text */
  function ReadAmount(s: string): Option<int>
  {
    if StartsWith(s, "Âm ") then Negated(ReadNumber(SplitFirst(s[3..], Dong)))
    else ReadNumber(Lower(SplitFirst(s, Dong)))
  }

  /** The negative of a read magnitude; "Âm không" is not a reading */
  function Negated(v: Option<nat>): Option<int>
  {
    if v.None? || v.value == 0 then None else Some(-(v.value as int))
  }

  /** Every amount strictly between -10^15 and 10^15 reads back from its text */
  lemma AmountToTextReadBack(n: int)
    requires n < Limit && -n < Limit
    ensures AmountToText(n).Some? && ReadAmount(AmountToText(n).value) == Some(n)
  {
    AmountToTextReads(n);
    var a: nat := if n < 0 then -n else n;
    SpelledFacts(a);
    ReadSpelled(a);
    if n < 0 {
      ReadNegativeText(Spelled(a), a);
      assert "Âm " + Spelled(a) + Dong == "Âm " + (Spelled(a) + Dong);
    } else {
      ReadPositiveText(Spelled(a), a);
    }
  }

  lemma ReadNegativeText(w: string, v: nat)
    requires 'đ' !in w && ReadNumber(w) == Some(v) && v > 0
    ensures ReadAmount("Âm " + (w + Dong)) == Some(-(v as int))
  {
    SplitFirstBeforeSuffix(w, Dong);
    NegativeSign(w + Dong);
  }

  lemma NegativeSign(t: string)
    ensures ReadAmount("Âm " + t) == Negated(ReadNumber(SplitFirst(t, Dong)))
  {
    var s := "Âm " + t;
    assert s[..3] == "Âm ";
    assert s[3..] == t;
  }

  lemma ReadPositiveText(w: string, v: nat)
    requires PlainText(w) && ReadNumber(w) == Some(v)
    ensures ReadAmount(UpperFirst(w) + Dong) == Some(v)
  {
    var u := UpperFirst(w);
    var s := u + Dong;
    LowerUpperFirst(w);
    UpperFirstPlain(w);
    SplitFirstBeforeSuffix(u, Dong);
    assert !StartsWith(s, "Âm ") by {
      assert s[0] == u[0];
    }
    assert ReadAmount(s) == ReadNumber(Lower(u));
  }

  lemma UpperFirstPlain(w: string)
    requires PlainText(w)
    ensures 'đ' !in UpperFirst(w)
  {
    var u := UpperFirst(w);
    assert forall i :: 1 <= i < |u| ==> u[i] == w[i];
  }

  /** `amount2text`: with `integer`, the plain lower-case text ("âm " before a
      negative amount's), otherwise `amount_to_text` unchanged */
  lemma Amount2TextReads(n: int, integer: bool)
    ensures !integer ==> Amount2Text(n, integer) == AmountToText(n)
    ensures integer && 0 <= n < Limit ==> Amount2Text(n, integer) == Some(Spelled(n))
    ensures integer && 0 < -n < Limit ==> Amount2Text(n, integer) == Some("âm " + Spelled(-n))
    ensures (n >= Limit || -n >= Limit) ==> Amount2Text(n, integer) == None
  {
    AmountToTextReads(n);
    if integer && n < Limit && -n < Limit {
      var a: nat := if n < 0 then -n else n;
      SpelledFacts(a);
      if n < 0 {
        NegativePlain(Spelled(a));
      } else {
        PositivePlain(Spelled(a));
      }
    }
  }

  lemma NegativePlain(w: string)
    requires PlainText(w)
    ensures Lower(SplitFirst("Âm " + w + Dong, Dong)) == "âm " + w
  {
    SplitFirstBeforeSuffix("Âm " + w, Dong);
    LowerAppend("Âm ", w);
    LowerOfLower(w);
    assert Lower("Âm ") == "âm ";
  }

  lemma PositivePlain(w: string)
    requires PlainText(w)
    ensures Lower(SplitFirst(UpperFirst(w) + Dong, Dong)) == w
  {
    LowerUpperFirst(w);
    UpperFirstPlain(w);
    SplitFirstBeforeSuffix(UpperFirst(w), Dong);
  }
}
