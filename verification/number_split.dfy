/** Reading a formatted amount back into digits, a value and a currency
    symbol (`_get_number_split` in models/common.py).

    The report columns hold amounts already formatted for display, such as
    "$ 1,234.00" (en-US, with cents) or "1.234 ₫" (Vietnamese grouping).
    The source strips a fixed list of separators and symbols in a fixed order,
    keeps the text before the first ASCII space and hands it to `float()`. */
module NumberSplit {
  import opened Wrappers
  import opened Text

  /** What `_get_number_split` returns. `digits` is None where the source
      returns the integer 0 instead of a string (an empty input); `value` is
      the number `float()` reads; `symbol` is the currency token. */
  datatype NumberParts = NumberParts(digits: Option<string>, value: int, symbol: string)

  predicate IsDigit(c: char)
  {
    '0' <= c <= '9'
  }

  predicate AllDigits(s: string)
  {
    forall i :: 0 <= i < |s| ==> IsDigit(s[i])
  }

  function DigitChar(d: nat): (c: char)
    requires d < 10
    ensures IsDigit(c)
  {
    ('0' as int + d) as char
  }

  /** The number a string of decimal digits denotes (most significant first) */
  function DigitsValue(s: string): nat
    requires AllDigits(s)
  {
    if |s| == 0 then 0
    else DigitsValue(s[..|s| - 1]) * 10 + (s[|s| - 1] as int - '0' as int)
  }

  /** A value with an optional leading minus sign applied */
  function SignedValue(sign: string, v: nat): int
  {
    if sign == "-" then -(v as int) else v
  }

  /** `float(t)` on text that never holds a '.': an optional sign followed by
      at least one decimal digit; anything else raises `ValueError` (None) */
  function ParseFloat(t: string): Option<int>
  {
    if |t| > 1 && (t[0] == '-' || t[0] == '+') && AllDigits(t[1..]) then
      Some(SignedValue(if t[0] == '-' then "-" else "", DigitsValue(t[1..])))
    else if |t| > 0 && AllDigits(t) then Some(DigitsValue(t))
    else None
  }

  /** A text to delete; `str.replace` is only ever given non-empty ones here */
  type Pattern = p: string | |p| > 0 witness "."

  /** `s.replace(p0, "").replace(p1, "")...` over the patterns in order */
  function Strip(s: string, pats: seq<Pattern>): string
    decreases |pats|
  {
    if |pats| == 0 then s else Strip(Replace(s, pats[0], ""), pats[1..])
  }

  /** The deletions applied to an en-US amount ending in ".00", for the value
      (common.py line 5) and for the digit text (line 7) */
  const EnUsValueSteps: seq<Pattern> := ["$\U{00A0}", ",", ".00", "\U{00A0}\U{20AB}", "."]
  const EnUsDigitSteps: seq<Pattern> := ["$\U{00A0}", ",", ".00", ".0", "\U{00A0}\U{20AB}", "."]

  /** The deletions applied to every other amount, for the value (line 9) and
      for the digit text (line 11); the two lists differ in order */
  const ViValueSteps: seq<Pattern> := [",00", "$ ", "xa", "\U{20AB}", "$", ".", "\U{00A0}", ","]
  const ViDigitSteps: seq<Pattern> := ["$ ", "xa", ",00", "$", ".", "\U{20AB}", "\U{00A0}", ","]

  /** The stripped text up to the first ASCII space */
  function Cleaned(s: string, pats: seq<Pattern>): string
  {
    Split(Strip(s, pats), ' ')[0]
  }

  /** The second ASCII-space token with "₫" removed, or a single space */
  function SymbolOf(s: string): string
  {
    var parts := Split(s, ' ');
    Replace(if |parts| > 1 then parts[1] else " ", "\U{20AB}", "")
  }

  /** The text `float()` receives: the ".00" test picks the chain */
  function ValueText(s: string): string
  {
    Cleaned(s, if EndsWith(s, ".00") then EnUsValueSteps else ViValueSteps)
  }

  /** The digit text returned, under the same choice of chain */
  function DigitText(s: string): string
  {
    Cleaned(s, if EndsWith(s, ".00") then EnUsDigitSteps else ViDigitSteps)
  }

  /** The triple returned once the two texts are known: `float()` of the
      value text (the integer 0 and no digit text for an empty input) and the
      symbol; None where `float()` raises */
  function Assemble(s: string, valueText: string, digitText: string): (r: Option<NumberParts>)
    ensures r.Some? ==> (r.value.digits.None? <==> |s| == 0)
  {
    var value := if |s| == 0 then Some(0) else ParseFloat(valueText);
    if value.None? then None
    else
      var digits := if |s| == 0 then None else Some(digitText);
      Some(NumberParts(digits, value.value, SymbolOf(s)))
  }

  /** `_get_number_split(s)` */
  function GetNumberSplit(s: string): Option<NumberParts>
  {
    Assemble(s, ValueText(s), DigitText(s))
  }

  // ---------------------------------------------------------------------
  // Facts about the stripping chain

  lemma StripCons(s: string, p: Pattern, rest: seq<Pattern>)
        ensures Strip(s, [p] + rest) == Strip(Replace(s, p, ""), rest)
  {
    assert ([p] + rest)[1..] == rest;
  }

  /** Deletions never bring a character in */
  lemma StripKeepsOut(s: string, pats: seq<Pattern>, c: char)
    requires c !in s
    ensures c !in Strip(s, pats)
    decreases |pats|
  {
    if |pats| > 0 {
      ReplaceKeepsOut(s, pats[0], c);
      StripKeepsOut(Replace(s, pats[0], ""), pats[1..], c);
    }
  }

  /** A one-character pattern anywhere in the chain removes that character for good */
  lemma StripDeletes(s: string, pats: seq<Pattern>, i: nat, c: char)
    requires i < |pats| && pats[i] == [c]
    ensures c !in Strip(s, pats)
    decreases |pats|
  {
    if i == 0 {
      ReplaceChar(s, c);
      KeepMembers(s, {c});
      StripKeepsOut(Replace(s, pats[0], ""), pats[1..], c);
    } else {
      StripDeletes(Replace(s, pats[0], ""), pats[1..], i - 1, c);
    }
  }

  /** The characters deleted by the one-character patterns of a chain */
  function SingleChars(pats: seq<Pattern>): set<char>
  {
    if |pats| == 0 then {}
    else (if |pats[0]| == 1 then {pats[0][0]} else {}) + SingleChars(pats[1..])
  }

  /** When every longer pattern starts with a character absent from the text,
      the chain only deletes the characters of its one-character patterns */
  lemma {:induction false} StripSingles(s: string, pats: seq<Pattern>)
    requires forall i :: 0 <= i < |pats| && |pats[i]| > 1 ==> pats[i][0] !in s
    ensures Strip(s, pats) == Keep(s, SingleChars(pats))
    decreases |pats|
  {
    if |pats| == 0 {
      KeepNothing(s, {});
    } else {
      var p := pats[0];
      var s1 := Replace(s, p, "");
      if |p| == 1 {
        assert p == [p[0]];
        ReplaceChar(s, p[0]);
      } else {
        ReplaceAbsent(s, p, "");
        KeepNothing(s, {});
      }
      var first := if |p| == 1 then {p[0]} else {};
      assert s1 == Keep(s, first);
      KeepMembers(s, first);
      assert forall i :: 0 <= i < |pats[1..]| ==> pats[1..][i] == pats[i + 1];
      StripSingles(s1, pats[1..]);
      KeepKeep(s, first, SingleChars(pats[1..]));
    }
  }

  /** A chain none of whose patterns can start in the text leaves it alone */
  lemma StripAbsent(s: string, pats: seq<Pattern>)
    requires forall i :: 0 <= i < |pats| ==> pats[i][0] !in s
    ensures Strip(s, pats) == s
  {
    if |pats| > 0 {
      ReplaceAbsent(s, pats[0], "");
      StripAbsent(s, pats[1..]);
    }
  }

  // ---------------------------------------------------------------------
  // Facts about digit strings

  lemma DigitsValueSnoc(a: string, d: char)
    requires AllDigits(a) && IsDigit(d)
    ensures AllDigits(a + [d])
    ensures DigitsValue(a + [d]) == DigitsValue(a) * 10 + (d as int - '0' as int)
  {
    assert (a + [d])[..|a + [d]| - 1] == a;
  }

  /** `float()` reads a signed digit string as its signed value */
  lemma ParseSigned(sign: string, w: string)
    requires sign == "" || sign == "-"
    requires |w| > 0 && AllDigits(w)
    ensures ParseFloat(sign + w) == Some(SignedValue(sign, DigitsValue(w)))
  {
    if sign == "-" {
      assert (sign + w)[0] == '-';
      assert (sign + w)[1..] == w;
    } else {
      assert sign + w == w;
    }
  }

  /** The value of the digits that remain after deleting a separator */
  lemma KeepDigits(body: string, sep: char, drop: set<char>)
    requires forall i :: 0 <= i < |body| ==> IsDigit(body[i]) || body[i] == sep
    requires sep in drop && forall c :: c in drop ==> !IsDigit(c)
    ensures Keep(body, drop) == Keep(body, {sep})
    ensures AllDigits(Keep(body, drop))
  {
    if |body| > 0 {
      KeepDigits(body[1..], sep, drop);
    }
  }

  // ---------------------------------------------------------------------
  // What the source promises

  /** The first space-separated token after a chain that deletes commas and dots */
  lemma CleanedClean(s: string, steps: seq<Pattern>, i: nat, j: nat)
    requires i < |steps| && j < |steps|
    requires steps[i] == "," && steps[j] == "."
    ensures var d := Cleaned(s, steps); ',' !in d && '.' !in d && ' ' !in d
  {
    StripDeletes(s, steps, i, ',');
    StripDeletes(s, steps, j, '.');
    SplitHead(Strip(s, steps), ' ');
  }

  lemma DigitsFrom(s: string)
    requires GetNumberSplit(s).Some? && |s| > 0
    ensures GetNumberSplit(s).value.digits == Some(DigitText(s))
  {
  }

  lemma DigitTextNoSeparator(s: string)
    ensures var d := DigitText(s); ',' !in d && '.' !in d && ' ' !in d
  {
    if EndsWith(s, ".00") {
      CleanedClean(s, EnUsDigitSteps, 1, 5);
    } else {
      CleanedClean(s, ViDigitSteps, 7, 4);
    }
  }

  /** The digit text never holds a comma, a dot or an ASCII space */
  lemma DigitTextClean(s: string)
    requires GetNumberSplit(s).Some? && GetNumberSplit(s).value.digits.Some?
    ensures var d := GetNumberSplit(s).value.digits.value;
      ',' !in d && '.' !in d && ' ' !in d
  {
    DigitsFrom(s);
    DigitTextNoSeparator(s);
  }

  /** The symbol is a single space exactly when the text holds no ASCII space;
      otherwise it is the second space-separated token without "₫" */
  lemma SymbolRule(s: string)
    ensures SymbolOf(s) == " " <==> ' ' !in s
    ensures ' ' in s ==> |Split(s, ' ')| > 1 && SymbolOf(s) == Keep(Split(s, ' ')[1], {'\U{20AB}'})
    ensures '\U{20AB}' !in SymbolOf(s)
  {
    var parts := Split(s, ' ');
    if ' ' in s {
      SplitMany(s, ' ');
      SplitPartsClean(s, ' ');
      assert ' ' !in parts[1];
      ReplaceChar(parts[1], '\U{20AB}');
      KeepMembers(parts[1], {'\U{20AB}'});
      assert ' ' !in SymbolOf(s);
    } else {
      SplitNoSeparator(s, ' ');
      ReplaceAbsent(" ", "\U{20AB}", "");
    }
  }

  /** An en-US amount: optional "$ ", optional minus sign, digits grouped
      by commas, then ".00". The value is the number the digit text denotes,
      and the sign survives in both. */
  lemma EnUsReads(prefix: string, sign: string, body: string)
    requires prefix == "" || prefix == "$\U{00A0}"
    requires sign == "" || sign == "-"
    requires |body| > 0 && IsDigit(body[0])
    requires forall i :: 0 <= i < |body| ==> IsDigit(body[i]) || body[i] == ','
    ensures var w := Keep(body, {','});
      |w| > 0 && AllDigits(w) &&
      GetNumberSplit(prefix + sign + body + ".00")
        == Some(NumberParts(Some(sign + w), SignedValue(sign, DigitsValue(w)), " "))
  {
    var s := prefix + sign + body + ".00";
    var w := Keep(body, {','});
    KeepDigits(body, ',', {','});
    assert w[0] == body[0];
    EnUsCleaned(s, prefix, sign, body);
    ParseSigned(sign, w);
    SymbolRule(s);
  }

  /** The en-US chain: the "$ " prefix, the commas and the ".00" go, and
      nothing after them finds anything to delete */
  lemma EnUsStripped(prefix: string, sign: string, body: string, steps: seq<Pattern>)
    requires prefix == "" || prefix == "$\U{00A0}"
    requires sign == "" || sign == "-"
    requires forall i :: 0 <= i < |body| ==> IsDigit(body[i]) || body[i] == ','
    requires |steps| >= 3
    requires steps[0] == "$\U{00A0}" && steps[1] == "," && steps[2] == ".00"
    requires forall i :: 3 <= i < |steps| ==> steps[i][0] == '.' || steps[i][0] == '\U{00A0}'
    ensures Strip(prefix + sign + body + ".00", steps) == sign + Keep(body, {','})
  {
    EnUsHead(prefix, sign, body, steps);
    KeepDigits(body, ',', {','});
    EnUsTail(sign + Keep(body, {','}), steps);
  }

  lemma EnUsHead(prefix: string, sign: string, body: string, steps: seq<Pattern>)
    requires prefix == "" || prefix == "$\U{00A0}"
    requires sign == "" || sign == "-"
    requires forall i :: 0 <= i < |body| ==> IsDigit(body[i]) || body[i] == ','
    requires |steps| >= 3
    requires steps[0] == "$\U{00A0}" && steps[1] == "," && steps[2] == ".00"
    ensures Strip(prefix + sign + body + ".00", steps)
      == Strip(sign + Keep(body, {','}) + ".00", steps[2..])
  {
    var t := sign + body + ".00";
    assert prefix + sign + body + ".00" == prefix + t;
    NoDollar(sign, body);
    DropDollar(prefix, t, steps);
    assert steps[1..][0] == "," && steps[1..][1..] == steps[2..];
    DropCommas(sign, body, steps[1..]);
  }

  lemma EnUsTail(u: string, steps: seq<Pattern>)
    requires '.' !in u && '\U{00A0}' !in u
    requires |steps| >= 3
    requires steps[2] == ".00"
    requires forall i :: 3 <= i < |steps| ==> steps[i][0] == '.' || steps[i][0] == '\U{00A0}'
    ensures Strip(u + ".00", steps[2..]) == u
  {
    assert steps[2..][0] == ".00" && steps[2..][1..] == steps[3..];
    DropCents(u, steps[2..]);
    StripAbsent(u, steps[3..]);
  }

  lemma NoDollar(sign: string, body: string)
    requires sign == "" || sign == "-"
    requires forall i :: 0 <= i < |body| ==> IsDigit(body[i]) || body[i] == ','
    ensures '$' !in sign + body + ".00"
  {
    var t := sign + body + ".00";
    forall i | 0 <= i < |t|
      ensures t[i] != '$'
    {
      if |sign| <= i < |sign| + |body| {
        assert t[i] == body[i - |sign|];
      }
    }
  }

  lemma DropDollar(prefix: string, t: string, steps: seq<Pattern>)
    requires prefix == "" || prefix == "$\U{00A0}"
    requires '$' !in t
    requires |steps| > 0 && steps[0] == "$\U{00A0}"
    ensures Strip(prefix + t, steps) == Strip(t, steps[1..])
  {
    DollarPrefixGoes(prefix, t);
  }

  lemma DropCommas(sign: string, body: string, steps: seq<Pattern>)
    requires sign == "" || sign == "-"
    requires |steps| > 0 && steps[0] == ","
    ensures Strip(sign + body + ".00", steps) == Strip(sign + Keep(body, {','}) + ".00", steps[1..])
  {
    CommasGo(sign, body, ".00");
  }

  lemma DropCents(u: string, steps: seq<Pattern>)
    requires '.' !in u
    requires |steps| > 0 && steps[0] == ".00"
    ensures Strip(u + ".00", steps) == Strip(u, steps[1..])
  {
    ReplaceSuffix(u, ".00", "");
    assert u + "" == u;
  }

  lemma DollarPrefixGoes(prefix: string, t: string)
    requires prefix == "" || prefix == "$\U{00A0}"
    requires '$' !in t
    ensures Replace(prefix + t, "$\U{00A0}", "") == t
  {
    ReplaceAbsent(t, "$\U{00A0}", "");
    if prefix == "" {
      assert prefix + t == t;
    } else {
      var s := prefix + t;
      assert s[..2] == "$\U{00A0}" && s[2..] == t;
    }
  }

  lemma CommasGo(sign: string, body: string, tail: string)
    requires sign == "" || sign == "-"
    requires ',' !in tail
    ensures Replace(sign + body + tail, ",", "") == sign + Keep(body, {','}) + tail
  {
    ReplaceChar(sign + body + tail, ',');
    KeepAppend(sign + body, tail, {','});
    KeepAppend(sign, body, {','});
    KeepNothing(sign, {','});
    KeepNothing(tail, {','});
  }

  lemma EnUsCleaned(s: string, prefix: string, sign: string, body: string)
    requires prefix == "" || prefix == "$\U{00A0}"
    requires sign == "" || sign == "-"
    requires forall i :: 0 <= i < |body| ==> IsDigit(body[i]) || body[i] == ','
    requires s == prefix + sign + body + ".00"
    ensures EndsWith(s, ".00") && ' ' !in s
    ensures ValueText(s) == sign + Keep(body, {','}) && DigitText(s) == sign + Keep(body, {','})
  {
    EnUsChains(s, prefix, sign, body);
    SignedDigits(sign, body, ',');
    EnUsTexts(s, sign + Keep(body, {','}));
  }

  lemma EnUsChains(s: string, prefix: string, sign: string, body: string)
    requires prefix == "" || prefix == "$\U{00A0}"
    requires sign == "" || sign == "-"
    requires forall i :: 0 <= i < |body| ==> IsDigit(body[i]) || body[i] == ','
    requires s == prefix + sign + body + ".00"
    ensures EndsWith(s, ".00") && ' ' !in s
    ensures Strip(s, EnUsValueSteps) == sign + Keep(body, {','})
    ensures Strip(s, EnUsDigitSteps) == sign + Keep(body, {','})
  {
    EndsInCents(prefix + sign + body);
    EnUsNoSpace(prefix, sign, body);
    EnUsValueChain(prefix, sign, body);
    EnUsDigitChain(prefix, sign, body);
  }

  lemma EnUsNoSpace(prefix: string, sign: string, body: string)
    requires prefix == "" || prefix == "$\U{00A0}"
    requires sign == "" || sign == "-"
    requires forall i :: 0 <= i < |body| ==> IsDigit(body[i]) || body[i] == ','
    ensures ' ' !in prefix + sign + body + ".00"
  {
  }

  lemma EnUsValueChain(prefix: string, sign: string, body: string)
    requires prefix == "" || prefix == "$\U{00A0}"
    requires sign == "" || sign == "-"
    requires forall i :: 0 <= i < |body| ==> IsDigit(body[i]) || body[i] == ','
    ensures Strip(prefix + sign + body + ".00", EnUsValueSteps) == sign + Keep(body, {','})
  {
    EnUsStripped(prefix, sign, body, EnUsValueSteps);
  }

  lemma EnUsDigitChain(prefix: string, sign: string, body: string)
    requires prefix == "" || prefix == "$\U{00A0}"
    requires sign == "" || sign == "-"
    requires forall i :: 0 <= i < |body| ==> IsDigit(body[i]) || body[i] == ','
    ensures Strip(prefix + sign + body + ".00", EnUsDigitSteps) == sign + Keep(body, {','})
  {
    EnUsStripped(prefix, sign, body, EnUsDigitSteps);
  }

  /** A sign and the digits of a grouped number: digits, and at most a minus sign */
  lemma SignedDigits(sign: string, body: string, sep: char)
    requires sign == "" || sign == "-"
    requires !IsDigit(sep)
    requires forall i :: 0 <= i < |body| ==> IsDigit(body[i]) || body[i] == sep
    ensures var u := sign + Keep(body, {sep});
      forall i :: 0 <= i < |u| ==> IsDigit(u[i]) || u[i] == '-'
  {
    KeepDigits(body, sep, {sep});
  }

  /** With both en-US chains known, the texts the source reads follow */
  lemma EnUsTexts(s: string, u: string)
    requires EndsWith(s, ".00") && ' ' !in u
    requires Strip(s, EnUsValueSteps) == u && Strip(s, EnUsDigitSteps) == u
    ensures ValueText(s) == u && DigitText(s) == u
  {
    FirstToken(u);
  }

  lemma EndsInCents(a: string)
    ensures EndsWith(a + ".00", ".00")
  {
    assert (a + ".00")[|a|..] == ".00";
  }

  /** Text with no ASCII space is its own first token */
  lemma FirstToken(u: string)
    requires ' ' !in u
    ensures Split(u, ' ')[0] == u
  {
    SplitNoSeparator(u, ' ');
  }

  // ---------------------------------------------------------------------
  // The Vietnamese-style branch

  /** What may follow the number in a Vietnamese-style amount */
  predicate IsSuffix(x: string)
  {
    x == "" || x == " \U{20AB}" || x == "\U{00A0}\U{20AB}"
  }

  /** What the chains leave of a suffix: the ASCII space before "₫", if any */
  function SuffixRest(x: string): string
  {
    if x == " \U{20AB}" then " " else ""
  }

  /** The characters the Vietnamese-style chains delete one by one */
  const ViDrop: set<char> := {'\U{20AB}', '$', '.', '\U{00A0}', ','}

  lemma ViValueStripped(s: string)
    requires ',' !in s && '$' !in s && 'x' !in s
    ensures Strip(s, ViValueSteps) == Keep(s, ViDrop)
  {
    ValueShape();
    StripSingles(s, ViValueSteps);
  }

  lemma ViDigitStripped(s: string)
    requires ',' !in s && '$' !in s && 'x' !in s
    ensures Strip(s, ViDigitSteps) == Keep(s, ViDrop)
  {
    DigitShape();
    StripSingles(s, ViDigitSteps);
  }

  /** Every Vietnamese-style chain: its longer patterns start with '$', 'x'
      or ',', and its one-character patterns are the dropped characters */
  predicate ChainShape(pats: seq<Pattern>)
  {
    SingleChars(pats) == ViDrop &&
    forall i :: 0 <= i < |pats| && |pats[i]| > 1 ==> pats[i][0] in {'$', 'x', ','}
  }

  lemma ValueShape()
    ensures ChainShape(ViValueSteps)
  {
  }

  lemma DigitShape()
    ensures ChainShape(ViDigitSteps)
  {
  }

  lemma FixedValueShape()
    ensures ChainShape(ViValueStepsFixed)
  {
  }

  lemma FixedDigitShape()
    ensures ChainShape(ViDigitStepsFixed)
  {
  }

  lemma SuffixKept(x: string)
    requires IsSuffix(x)
    ensures Keep(x, ViDrop) == SuffixRest(x)
  {
  }

  /** Deleting the dropped characters from a signed, grouped amount */
  lemma ViKept(sign: string, body: string, sep: char, suffix: string)
    requires sign == "" || sign == "-"
    requires sep in ViDrop
    requires forall i :: 0 <= i < |body| ==> IsDigit(body[i]) || body[i] == sep
    requires IsSuffix(suffix)
    ensures Keep(sign + body + suffix, ViDrop) == sign + Keep(body, {sep}) + SuffixRest(suffix)
  {
    KeepAppend(sign + body, suffix, ViDrop);
    KeepAppend(sign, body, ViDrop);
    assert Keep(sign, ViDrop) == sign by {
      KeepNothing(sign, ViDrop);
    }
    KeepDigits(body, sep, ViDrop);
    SuffixKept(suffix);
  }

  lemma TokenBeforeSpace(u: string, rest: string)
    requires ' ' !in u && (rest == "" || rest == " ")
    ensures Split(u + rest, ' ')[0] == u
  {
    if rest == "" {
      assert u + rest == u;
      FirstToken(u);
    } else {
      assert u + rest == u + [' '] + "";
      SplitAfterPart(u, ' ', "");
    }
  }

  lemma NoSpaceLeft(sign: string, body: string, sep: char)
    requires sign == "" || sign == "-"
    requires forall i :: 0 <= i < |body| ==> IsDigit(body[i]) || body[i] == sep
    ensures ' ' !in sign + Keep(body, {sep})
  {
    KeepMembers(body, {sep});
  }

  /** With both Vietnamese-style chains known, the texts the source reads follow */
  lemma ViTexts(s: string, u: string, rest: string)
    requires !EndsWith(s, ".00") && ' ' !in u && (rest == "" || rest == " ")
    requires Strip(s, ViValueSteps) == u + rest && Strip(s, ViDigitSteps) == u + rest
    ensures ValueText(s) == u && DigitText(s) == u
  {
    TokenBeforeSpace(u, rest);
  }

  /** The symbol of a Vietnamese-style amount: empty after " ₫", a space otherwise */
  lemma SuffixSymbol(u: string, suffix: string)
    requires ' ' !in u && IsSuffix(suffix)
    ensures SymbolOf(u + suffix) == if suffix == " \U{20AB}" then "" else " "
  {
    if suffix == " \U{20AB}" {
      assert u + suffix == u + [' '] + "\U{20AB}";
      SplitAfterPart(u, ' ', "\U{20AB}");
      SplitNoSeparator("\U{20AB}", ' ');
      assert Split(u + suffix, ' ') == [u, "\U{20AB}"];
    } else {
      assert ' ' !in u + suffix;
      SplitNoSeparator(u + suffix, ' ');
      ReplaceAbsent(" ", "\U{20AB}", "");
    }
  }

  lemma ViChains(sign: string, body: string, suffix: string)
    requires sign == "" || sign == "-"
    requires forall i :: 0 <= i < |body| ==> IsDigit(body[i]) || body[i] == '.'
    requires IsSuffix(suffix)
    ensures Strip(sign + body + suffix, ViValueSteps) == sign + Keep(body, {'.'}) + SuffixRest(suffix)
    ensures Strip(sign + body + suffix, ViDigitSteps) == sign + Keep(body, {'.'}) + SuffixRest(suffix)
  {
    ViPlain(sign, body, suffix);
    ViValueStripped(sign + body + suffix);
    ViDigitStripped(sign + body + suffix);
    ViKept(sign, body, '.', suffix);
  }

  lemma ViPlain(sign: string, body: string, suffix: string)
    requires sign == "" || sign == "-"
    requires forall i :: 0 <= i < |body| ==> IsDigit(body[i]) || body[i] == '.'
    requires IsSuffix(suffix)
    ensures var s := sign + body + suffix; ',' !in s && '$' !in s && 'x' !in s
    ensures ' ' !in sign + body
  {
  }

  /** The texts the source reads from a Vietnamese-style amount */
  lemma ViCleaned(sign: string, body: string, suffix: string)
    requires sign == "" || sign == "-"
    requires forall i :: 0 <= i < |body| ==> IsDigit(body[i]) || body[i] == '.'
    requires IsSuffix(suffix)
    requires !EndsWith(sign + body + suffix, ".00")
    ensures ValueText(sign + body + suffix) == sign + Keep(body, {'.'})
    ensures DigitText(sign + body + suffix) == sign + Keep(body, {'.'})
  {
    ViChains(sign, body, suffix);
    NoSpaceLeft(sign, body, '.');
    ViTexts(sign + body + suffix, sign + Keep(body, {'.'}), SuffixRest(suffix));
  }

  /** A Vietnamese-style amount: optional minus sign, digits grouped by dots,
      then nothing, " ₫" or a no-break space and "₫". Every dot is deleted, and
      the value is the number the digit text denotes, sign included. */
  lemma ViReads(sign: string, body: string, suffix: string)
    requires sign == "" || sign == "-"
    requires |body| > 0 && IsDigit(body[0])
    requires forall i :: 0 <= i < |body| ==> IsDigit(body[i]) || body[i] == '.'
    requires IsSuffix(suffix)
    requires !EndsWith(sign + body + suffix, ".00")
    ensures var w := Keep(body, {'.'});
      |w| > 0 && AllDigits(w) &&
      GetNumberSplit(sign + body + suffix)
        == Some(NumberParts(Some(sign + w), SignedValue(sign, DigitsValue(w)),
                            if suffix == " \U{20AB}" then "" else " "))
  {
    var s := sign + body + suffix;
    var w := Keep(body, {'.'});
    ViCleaned(sign, body, suffix);
    ViParse(sign, body);
    ViSymbol(s, sign, body, suffix);
    AssembleReads(s, sign + w, SignedValue(sign, DigitsValue(w)),
                  if suffix == " \U{20AB}" then "" else " ");
  }

  lemma ViParse(sign: string, body: string)
    requires sign == "" || sign == "-"
    requires |body| > 0 && IsDigit(body[0])
    requires forall i :: 0 <= i < |body| ==> IsDigit(body[i]) || body[i] == '.'
    ensures var w := Keep(body, {'.'});
      |w| > 0 && AllDigits(w) && ParseFloat(sign + w) == Some(SignedValue(sign, DigitsValue(w)))
  {
    var w := Keep(body, {'.'});
    KeepDigits(body, '.', {'.'});
    assert w[0] == body[0];
    ParseSigned(sign, w);
  }

  lemma ViSymbol(s: string, sign: string, body: string, suffix: string)
    requires sign == "" || sign == "-"
    requires forall i :: 0 <= i < |body| ==> IsDigit(body[i]) || body[i] == '.'
    requires IsSuffix(suffix) && s == sign + body + suffix
    ensures SymbolOf(s) == if suffix == " \U{20AB}" then "" else " "
  {
    ViPlain(sign, body, suffix);
    assert s == (sign + body) + suffix;
    SuffixSymbol(sign + body, suffix);
  }

  // ---------------------------------------------------------------------
  // Amounts as the report formats them

  /** Three digits, with leading zeros */
  function Pad3(m: nat): (r: string)
    requires m < 1000
    ensures |r| == 3 && AllDigits(r)
  {
    [DigitChar(m / 100), DigitChar(m / 10 % 10), DigitChar(m % 10)]
  }

  /** A number below 1000 without leading zeros */
  function Small(n: nat): (r: string)
    requires n < 1000
    ensures 1 <= |r| <= 3 && AllDigits(r)
  {
    if n < 10 then [DigitChar(n)]
    else if n < 100 then [DigitChar(n / 10), DigitChar(n % 10)]
    else Pad3(n)
  }

  /** `n` written with a thousands separator, as the display formatting does */
  function Grouped(n: nat, sep: char): string
  {
    if n < 1000 then Small(n) else Grouped(n / 1000, sep) + [sep] + Pad3(n % 1000)
  }

  lemma DigitsValueThree(a: string, r: string)
    requires AllDigits(a) && |r| == 3 && AllDigits(r)
    ensures AllDigits(a + r)
    ensures DigitsValue(a + r) == DigitsValue(a) * 1000 + DigitsValue(r)
  {
    DigitsValueSnoc(a, r[0]);
    DigitsValueSnoc(a + [r[0]], r[1]);
    DigitsValueSnoc(a + [r[0]] + [r[1]], r[2]);
    assert a + [r[0]] + [r[1]] + [r[2]] == a + r;
    DigitsValueSnoc([], r[0]);
    DigitsValueSnoc([r[0]], r[1]);
    DigitsValueSnoc([r[0]] + [r[1]], r[2]);
    assert [r[0]] + [r[1]] + [r[2]] == r;
    assert [] + [r[0]] == [r[0]];
  }

  lemma Pad3Value(m: nat)
    requires m < 1000
    ensures DigitsValue(Pad3(m)) == m
  {
    var r := Pad3(m);
    DigitsValueSnoc([], r[0]);
    DigitsValueSnoc([r[0]], r[1]);
    DigitsValueSnoc([r[0]] + [r[1]], r[2]);
    assert [r[0]] + [r[1]] + [r[2]] == r;
    assert [] + [r[0]] == [r[0]];
  }

  lemma SmallValue(n: nat)
    requires n < 1000
    ensures DigitsValue(Small(n)) == n
  {
    if n < 10 {
      DigitsValueSnoc([], DigitChar(n));
      assert [] + [DigitChar(n)] == Small(n);
    } else if n < 100 {
      var r := Small(n);
      DigitsValueSnoc([], r[0]);
      DigitsValueSnoc([r[0]], r[1]);
      assert [] + [r[0]] == [r[0]];
      assert [r[0]] + [r[1]] == r;
    } else {
      Pad3Value(n);
    }
  }

  /** The shape of a grouped number: it starts with a digit and holds only
      digits and separators */
  lemma {:induction false} GroupedShape(n: nat, sep: char)
    ensures var g := Grouped(n, sep);
      |g| > 0 && IsDigit(g[0]) && forall i :: 0 <= i < |g| ==> IsDigit(g[i]) || g[i] == sep
  {
    if n >= 1000 {
      GroupedShape(n / 1000, sep);
      var a := Grouped(n / 1000, sep);
      var g := Grouped(n, sep);
      assert g == a + [sep] + Pad3(n % 1000);
      forall i | 0 <= i < |g|
        ensures IsDigit(g[i]) || g[i] == sep
      {
        if i < |a| {
          assert g[i] == a[i];
        } else if i > |a| {
          assert g[i] == Pad3(n % 1000)[i - |a| - 1];
        }
      }
    }
  }

  /** Deleting the separators of a grouped number leaves digits denoting `n` */
  lemma {:induction false} GroupedDigits(n: nat, sep: char)
    requires !IsDigit(sep)
    ensures AllDigits(Keep(Grouped(n, sep), {sep}))
    ensures DigitsValue(Keep(Grouped(n, sep), {sep})) == n
  {
    if n < 1000 {
      KeepNothing(Small(n), {sep});
      SmallValue(n);
    } else {
      GroupedDigits(n / 1000, sep);
      GroupedStep(n, sep);
      DigitsValueThree(Keep(Grouped(n / 1000, sep), {sep}), Pad3(n % 1000));
      Pad3Value(n % 1000);
    }
  }

  lemma GroupedStep(n: nat, sep: char)
    requires n >= 1000 && !IsDigit(sep)
    ensures Keep(Grouped(n, sep), {sep}) == Keep(Grouped(n / 1000, sep), {sep}) + Pad3(n % 1000)
  {
    var a := Grouped(n / 1000, sep);
    var p := Pad3(n % 1000);
    assert Grouped(n, sep) == a + [sep] + p;
    KeepAppend(a + [sep], p, {sep});
    KeepAppend(a, [sep], {sep});
    KeepNothing(p, {sep});
    assert Keep([sep], {sep}) == [];
  }

  /** The third character from the end of a grouped number is never a separator */
  lemma GroupedEnd(n: nat, sep: char)
    ensures var g := Grouped(n, sep); |g| >= 3 ==> IsDigit(g[|g| - 3])
  {
  }

  lemma GroupedNotCents(sign: string, n: nat, sep: char, suffix: string)
    requires sign == "" || sign == "-"
    requires IsSuffix(suffix)
    ensures !EndsWith(sign + Grouped(n, sep) + suffix, ".00")
  {
    var g := Grouped(n, sep);
    var s := sign + g + suffix;
    if suffix == "" {
      assert s == sign + g;
      GroupedEnd(n, sep);
      if |g| >= 3 {
        assert s[|s| - 3] == g[|g| - 3];
      } else if |s| >= 3 {
        assert s[0] == '-' && |s| == 3;
      }
    } else {
      assert s[|s| - 1] == '\U{20AB}';
    }
  }

  /** A Vietnamese-style amount as the report formats it reads back as the
      signed number, with the dots gone from the digit text */
  lemma ViGroupedReads(sign: string, n: nat, suffix: string)
    requires sign == "" || sign == "-"
    requires IsSuffix(suffix)
    ensures GetNumberSplit(sign + Grouped(n, '.') + suffix).Some?
    ensures var r := GetNumberSplit(sign + Grouped(n, '.') + suffix).value;
      r.value == SignedValue(sign, n) && r.digits == Some(sign + Keep(Grouped(n, '.'), {'.'}))
  {
    GroupedShape(n, '.');
    GroupedDigits(n, '.');
    GroupedNotCents(sign, n, '.', suffix);
    ViReads(sign, Grouped(n, '.'), suffix);
  }

  /** An en-US amount as the report formats it reads back as the signed number */
  lemma EnUsGroupedReads(prefix: string, sign: string, n: nat)
    requires prefix == "" || prefix == "$\U{00A0}"
    requires sign == "" || sign == "-"
    ensures GetNumberSplit(prefix + sign + Grouped(n, ',') + ".00").Some?
    ensures var r := GetNumberSplit(prefix + sign + Grouped(n, ',') + ".00").value;
      r.value == SignedValue(sign, n) && r.digits == Some(sign + Keep(Grouped(n, ','), {','}))
  {
    GroupedShape(n, ',');
    GroupedDigits(n, ',');
    EnUsReads(prefix, sign, Grouped(n, ','));
  }

  lemma EmptyInput()
    ensures GetNumberSplit("") == Some(NumberParts(None, 0, " "))
  {
    ReplaceAbsent(" ", "\U{20AB}", "");
  }

  /** Outside the ".00" branch every dot goes, so a fraction joins the
      integer part: "12.50" reads as 1250 */
  lemma FractionJoins(sign: string, whole: string, fraction: string, suffix: string)
    requires sign == "" || sign == "-"
    requires |whole| > 0 && AllDigits(whole) && AllDigits(fraction)
    requires fraction != "00"
    requires IsSuffix(suffix)
    ensures GetNumberSplit(sign + (whole + "." + fraction) + suffix).Some?
    ensures GetNumberSplit(sign + (whole + "." + fraction) + suffix).value.digits
      == Some(sign + (whole + fraction))
    ensures GetNumberSplit(sign + (whole + "." + fraction) + suffix).value.value
      == SignedValue(sign, DigitsValue(whole + fraction))
  {
    var body := whole + "." + fraction;
    FractionKept(whole, fraction);
    FractionShape(whole, fraction);
    FractionNotCents(sign, whole, fraction, suffix);
    assert body[0] == whole[0];
    ViReads(sign, body, suffix);
  }

  lemma FractionKept(whole: string, fraction: string)
    requires AllDigits(whole) && AllDigits(fraction)
    ensures Keep(whole + "." + fraction, {'.'}) == whole + fraction
  {
    KeepAppend(whole + ".", fraction, {'.'});
    KeepAppend(whole, ".", {'.'});
    KeepNothing(whole, {'.'});
    KeepNothing(fraction, {'.'});
    assert Keep(".", {'.'}) == "";
  }

  lemma FractionShape(whole: string, fraction: string)
    requires AllDigits(whole) && AllDigits(fraction)
    ensures var body := whole + "." + fraction;
      forall i :: 0 <= i < |body| ==> IsDigit(body[i]) || body[i] == '.'
  {
    var body := whole + "." + fraction;
    forall i | 0 <= i < |body|
      ensures IsDigit(body[i]) || body[i] == '.'
    {
      if i < |whole| {
        assert body[i] == whole[i];
      } else if i > |whole| {
        assert body[i] == fraction[i - |whole| - 1];
      }
    }
  }

  lemma FractionNotCents(sign: string, whole: string, fraction: string, suffix: string)
    requires |whole| > 0 && AllDigits(fraction) && fraction != "00"
    requires IsSuffix(suffix)
    ensures !EndsWith(sign + (whole + "." + fraction) + suffix, ".00")
  {
    var body := whole + "." + fraction;
    var s := sign + body + suffix;
    if suffix == "" {
      assert s == sign + whole + "." + fraction;
      if |fraction| >= 3 {
        assert s[|s| - 3] == fraction[|fraction| - 3];
      } else if |fraction| == 2 {
        assert s[|s| - 2..] == fraction;
      } else if |fraction| == 1 {
        assert s[|s| - 2] == '.';
      } else {
        assert s[|s| - 1] == '.';
      }
    } else {
      assert s[|s| - 1] == '\U{20AB}';
    }
  }

  // ---------------------------------------------------------------------
  // A ",00" that is not a decimal tail

  /** `s` with ",00" deleted only where it ends the number: at the end of the
      text or before a character that is not a digit */
  function DropDecimalTail(s: string): string
    decreases |s|
  {
    if |s| < 3 then s
    else if s[..3] == ",00" && (|s| == 3 || !IsDigit(s[3])) then DropDecimalTail(s[3..])
    else [s[0]] + DropDecimalTail(s[1..])
  }

  /** The Vietnamese-style chains with the ",00" deletion taken out */
  const ViValueStepsFixed: seq<Pattern> := ["$ ", "xa", "\U{20AB}", "$", ".", "\U{00A0}", ","]
  const ViDigitStepsFixed: seq<Pattern> := ["$ ", "xa", "$", ".", "\U{20AB}", "\U{00A0}", ","]

  function ValueTextFixed(s: string): string
  {
    if EndsWith(s, ".00") then Cleaned(s, EnUsValueSteps)
    else Cleaned(DropDecimalTail(s), ViValueStepsFixed)
  }

  function DigitTextFixed(s: string): string
  {
    if EndsWith(s, ".00") then Cleaned(s, EnUsDigitSteps)
    else Cleaned(DropDecimalTail(s), ViDigitStepsFixed)
  }

  /** `_get_number_split` with the ",00" deletion limited to a decimal tail */
  function GetNumberSplitFixed(s: string): Option<NumberParts>
  {
    Assemble(s, ValueTextFixed(s), DigitTextFixed(s))
  }

  /** Every comma is followed by at least three characters, the third a digit */
  predicate CommasFollowed(x: string)
  {
    forall i :: 0 <= i < |x| && x[i] == ',' ==> i + 3 < |x| && IsDigit(x[i + 3])
  }

  lemma {:induction false} GroupedCommas(n: nat)
    ensures CommasFollowed(Grouped(n, ','))
  {
    if n >= 1000 {
      GroupedCommas(n / 1000);
      var a := Grouped(n / 1000, ',');
      var p := Pad3(n % 1000);
      var g := Grouped(n, ',');
      assert g == a + [','] + p;
      forall i | 0 <= i < |g| && g[i] == ','
        ensures i + 3 < |g| && IsDigit(g[i + 3])
      {
        if i < |a| {
          assert a[i] == ',';
          assert g[i + 3] == a[i + 3];
        } else if i == |a| {
          assert g[i + 3] == p[2];
        } else {
          assert false;
        }
      }
    }
  }

  lemma SignCommas(sign: string, x: string)
    requires sign == "" || sign == "-"
    requires CommasFollowed(x)
    ensures CommasFollowed(sign + x)
  {
    var y := sign + x;
    forall i | 0 <= i < |y| && y[i] == ','
      ensures i + 3 < |y| && IsDigit(y[i + 3])
    {
      assert i >= |sign|;
      assert y[i] == x[i - |sign|];
      assert y[i + 3] == x[i - |sign| + 3];
    }
  }

  lemma NoCommas(x: string)
    requires ',' !in x
    ensures CommasFollowed(x)
  {
  }

  /** A grouped number passes through the fixed deletion untouched */
  lemma {:induction false} DropKeepsPrefix(x: string, t: string)
    requires CommasFollowed(x)
    ensures DropDecimalTail(x + t) == x + DropDecimalTail(t)
    decreases |x|
  {
    if |x| == 0 {
      assert x + t == t;
    } else if |x + t| < 3 {
      DropShort(t);
      DropShort(x + t);
    } else {
      var s := x + t;
      DropNoMatch(x, t);
      assert s[1..] == x[1..] + t;
      CommasFollowedTail(x);
      DropKeepsPrefix(x[1..], t);
      assert [x[0]] + (x[1..] + DropDecimalTail(t)) == x + DropDecimalTail(t);
    }
  }

  /** No ",00" decimal tail starts at the front of a grouped number */
  lemma DropNoMatch(x: string, t: string)
    requires CommasFollowed(x) && |x| > 0 && |x + t| >= 3
    ensures DropDecimalTail(x + t) == [x[0]] + DropDecimalTail((x + t)[1..])
  {
    var s := x + t;
    assert s[0] == x[0];
    if x[0] == ',' {
      assert 3 < |x| && IsDigit(x[3]);
      assert s[3] == x[3];
    } else {
      assert s[..3][0] != ',';
    }
    DropStep(s);
  }

  /** Where no decimal tail starts, the first character is copied */
  lemma DropStep(s: string)
    requires |s| >= 3 && !(s[..3] == ",00" && (|s| == 3 || !IsDigit(s[3])))
    ensures DropDecimalTail(s) == [s[0]] + DropDecimalTail(s[1..])
  {
  }

  lemma CommasFollowedTail(x: string)
    requires CommasFollowed(x) && |x| > 0
    ensures CommasFollowed(x[1..])
  {
    forall i | 0 <= i < |x[1..]| && x[1..][i] == ','
      ensures i + 3 < |x[1..]| && IsDigit(x[1..][i + 3])
    {
      assert x[i + 1] == ',';
    }
  }

  lemma DropShort(t: string)
    requires |t| < 3
    ensures DropDecimalTail(t) == t
  {
  }

  lemma DropNoComma(t: string)
    requires ',' !in t
    ensures DropDecimalTail(t) == t
    decreases |t|
  {
    if |t| >= 3 {
      assert t[..3][0] == t[0];
      DropNoComma(t[1..]);
      assert [t[0]] + t[1..] == t;
    }
  }

  /** A pattern whose first character is absent can be left out of the chain */
  lemma {:induction false} StripSkip(s: string, pats: seq<Pattern>, k: nat, c: char)
    requires k < |pats| && pats[k][0] == c && c !in s
    ensures Strip(s, pats) == Strip(s, pats[..k] + pats[k + 1..])
    decreases k
  {
    var q := pats[..k] + pats[k + 1..];
    if k == 0 {
      ReplaceAbsent(s, pats[0], "");
      assert q == pats[1..];
    } else {
      var s1 := Replace(s, pats[0], "");
      ReplaceKeepsOut(s, pats[0], c);
      StripSkip(s1, pats[1..], k - 1, c);
      assert q[0] == pats[0] && q[1..] == pats[1..][..k - 1] + pats[1..][k..];
    }
  }

  lemma ValueTextAgrees(s: string)
    requires ',' !in s && !EndsWith(s, ".00")
    ensures ValueTextFixed(s) == ValueText(s)
  {
    DropNoComma(s);
    StripSkip(s, ViValueSteps, 0, ',');
    assert ViValueSteps[..0] + ViValueSteps[1..] == ViValueStepsFixed;
  }

  lemma DigitTextAgrees(s: string)
    requires ',' !in s && !EndsWith(s, ".00")
    ensures DigitTextFixed(s) == DigitText(s)
  {
    DropNoComma(s);
    StripSkip(s, ViDigitSteps, 2, ',');
    assert ViDigitSteps[..2] + ViDigitSteps[3..] == ViDigitStepsFixed;
  }

  /** The fix changes nothing for a text without a comma */
  lemma FixedAgreesWithoutComma(s: string)
    requires ',' !in s
    ensures GetNumberSplitFixed(s) == GetNumberSplit(s)
  {
    if !EndsWith(s, ".00") {
      ValueTextAgrees(s);
      DigitTextAgrees(s);
    }
  }

  /** A trailing ",00" before the currency goes */
  lemma DropTail(dec: string, suffix: string)
    requires dec == "" || dec == ",00"
    requires IsSuffix(suffix)
    ensures DropDecimalTail(dec + suffix) == suffix
  {
    DropNoComma(suffix);
    if dec == ",00" {
      var s := dec + suffix;
      assert s[..3] == ",00";
      assert |s| == 3 || !IsDigit(s[3]);
      assert s[3..] == suffix;
    } else {
      assert dec + suffix == suffix;
    }
  }

  /** A ",00" before the currency is never the en-US ".00" */
  lemma DecNotCents(x: string, suffix: string)
    requires IsSuffix(suffix)
    ensures !EndsWith(x + ",00" + suffix, ".00")
  {
    var s := x + ",00" + suffix;
    if suffix == "" {
      assert s[|s| - 3] == ',';
    } else {
      assert s[|s| - 1] == '\U{20AB}';
    }
  }

  /** A grouped amount, with or without a decimal tail, is read by the Vietnamese-style branch */
  lemma FixedNotCents(sign: string, n: nat, sep: char, dec: string, suffix: string)
    requires sign == "" || sign == "-"
    requires dec == "" || dec == ",00"
    requires IsSuffix(suffix)
    ensures !EndsWith(sign + Grouped(n, sep) + dec + suffix, ".00")
  {
    if dec == "" {
      assert sign + Grouped(n, sep) + dec + suffix == sign + Grouped(n, sep) + suffix;
      GroupedNotCents(sign, n, sep, suffix);
    } else {
      DecNotCents(sign + Grouped(n, sep), suffix);
    }
  }

  /** The fixed deletion removes exactly the decimal tail of a grouped amount */
  lemma FixedDrop(sign: string, g: string, sep: char, dec: string, suffix: string)
    requires sign == "" || sign == "-"
    requires sep == ',' || sep == '.'
    requires sep == ',' ==> CommasFollowed(g)
    requires forall i :: 0 <= i < |g| ==> IsDigit(g[i]) || g[i] == sep
    requires dec == "" || dec == ",00"
    requires IsSuffix(suffix)
    ensures DropDecimalTail(sign + g + dec + suffix) == sign + g + suffix
  {
    if sep == '.' {
      assert ',' !in g;
      NoCommas(g);
    }
    SignCommas(sign, g);
    assert sign + g + dec + suffix == (sign + g) + (dec + suffix);
    DropKeepsPrefix(sign + g, dec + suffix);
    DropTail(dec, suffix);
  }

  lemma FixedPlain(sign: string, g: string, sep: char, dec: string, suffix: string)
    requires sign == "" || sign == "-"
    requires sep == ',' || sep == '.'
    requires forall i :: 0 <= i < |g| ==> IsDigit(g[i]) || g[i] == sep
    requires dec == "" || dec == ",00"
    requires IsSuffix(suffix)
    ensures var t := sign + g + suffix; '$' !in t && 'x' !in t
    ensures ' ' !in sign + g + dec
  {
  }

  /** With the deletion done, the fixed chains leave the number before any space */
  lemma FixedChains(t: string, u: string, rest: string)
    requires '$' !in t && 'x' !in t
    requires Keep(t, ViDrop) == u + rest && ' ' !in u && (rest == "" || rest == " ")
    ensures Cleaned(t, ViValueStepsFixed) == u && Cleaned(t, ViDigitStepsFixed) == u
  {
    FixedValueStripped(t);
    FixedDigitStripped(t);
    TokenBeforeSpace(u, rest);
  }

  lemma FixedValueStripped(s: string)
    requires '$' !in s && 'x' !in s
    ensures Strip(s, ViValueStepsFixed) == Keep(s, ViDrop)
  {
    FixedValueShape();
    StripSingles(s, ViValueStepsFixed);
  }

  lemma FixedDigitStripped(s: string)
    requires '$' !in s && 'x' !in s
    ensures Strip(s, ViDigitStepsFixed) == Keep(s, ViDrop)
  {
    FixedDigitShape();
    StripSingles(s, ViDigitStepsFixed);
  }

  lemma FixedTexts(s: string, t: string, u: string, rest: string)
    requires !EndsWith(s, ".00") && DropDecimalTail(s) == t
    requires '$' !in t && 'x' !in t
    requires Keep(t, ViDrop) == u + rest && ' ' !in u && (rest == "" || rest == " ")
    ensures ValueTextFixed(s) == u && DigitTextFixed(s) == u
  {
    FixedChains(t, u, rest);
  }

  /** A Vietnamese-style amount, grouped by dots or commas and with or without
      a ",00" tail, reads back under the fix as the signed number */
  lemma FixedReads(sign: string, n: nat, sep: char, dec: string, suffix: string)
    requires sign == "" || sign == "-"
    requires sep == ',' || sep == '.'
    requires dec == "" || dec == ",00"
    requires IsSuffix(suffix)
    ensures var w := Keep(Grouped(n, sep), {sep});
      GetNumberSplitFixed(sign + Grouped(n, sep) + dec + suffix)
        == Some(NumberParts(Some(sign + w), SignedValue(sign, n),
                            if suffix == " \U{20AB}" then "" else " "))
  {
    var g := Grouped(n, sep);
    var w := Keep(g, {sep});
    var s := sign + g + dec + suffix;
    var t := sign + g + suffix;
    GroupedShape(n, sep);
    GroupedDigits(n, sep);
    if sep == ',' {
      GroupedCommas(n);
    }
    FixedNotCents(sign, n, sep, dec, suffix);
    FixedDrop(sign, g, sep, dec, suffix);
    ViKept(sign, g, sep, suffix);
    NoSpaceLeft(sign, g, sep);
    FixedPlain(sign, g, sep, dec, suffix);
    FixedTexts(s, t, sign + w, SuffixRest(suffix));
    assert w[0] == g[0];
    ParseSigned(sign, w);
    assert s == (sign + g + dec) + suffix;
    SuffixSymbol(sign + g + dec, suffix);
  }

  // ---------------------------------------------------------------------
  // What the unconditional ",00" deletion does to a thousands group

  /** Deleting ",00" from a grouped thousand leaves one zero of the group */
  lemma ThousandLosesZeros(a: string, suffix: string)
    requires AllDigits(a) && IsSuffix(suffix)
    ensures Replace(a + ",000" + suffix, ",00", "") == a + "0" + suffix
  {
    var y := ",000" + suffix;
    assert a + ",000" + suffix == a + y;
    ReplacePrefix(a, y, ",00", "");
    assert y[..3] == ",00";
    assert y[3..] == "0" + suffix;
    ReplaceAbsent("0" + suffix, ",00", "");
    assert a + ("" + ("0" + suffix)) == a + "0" + suffix;
  }

  /** A ",000" thousands group before the currency is never the en-US ".00"
      either; DecNotCents does not cover it, since ",000" + suffix is ",00"
      followed by "0" and the suffix, which is not a currency suffix */
  lemma ThousandNotCents(a: string, suffix: string)
    requires IsSuffix(suffix)
    ensures !EndsWith(a + ",000" + suffix, ".00")
  {
    var s := a + ",000" + suffix;
    if suffix == "" {
      assert s[|s| - 3] == '0';
    } else {
      assert s[|s| - 1] == '\U{20AB}';
    }
  }

  /** What is left once the ",00" is gone: the digits and the suffix rest */
  lemma ThousandKept(v: string, suffix: string)
    requires AllDigits(v) && IsSuffix(suffix)
    ensures Keep(v + suffix, ViDrop) == v + SuffixRest(suffix)
    ensures '$' !in v + suffix && 'x' !in v + suffix
  {
    KeepAppend(v, suffix, ViDrop);
    KeepNothing(v, ViDrop);
    SuffixKept(suffix);
  }

  /** The value chain deletes ",00" first, then only single characters */
  lemma ThousandValueChain(s: string, v: string)
    requires Replace(s, ",00", "") == v && '$' !in v && 'x' !in v
    ensures Strip(s, ViValueSteps) == Keep(v, ViDrop)
  {
    assert ViValueSteps[1..] == ViValueStepsFixed;
    FixedValueStripped(v);
  }

  /** The digit chain meets "$ " and "xa" first, which are absent */
  lemma ThousandDigitChain(s: string, v: string)
    requires Replace(s, ",00", "") == v && '$' !in v && 'x' !in v
    requires '$' !in s && 'x' !in s
    ensures Strip(s, ViDigitSteps) == Keep(v, ViDrop)
  {
    ReplaceAbsent(s, "$ ", "");
    ReplaceAbsent(s, "xa", "");
    var rest := ViDigitSteps[3..];
    assert Strip(s, ViDigitSteps) == Strip(v, rest);
    assert SingleChars(rest) == ViDrop;
    StripSingles(v, rest);
  }

  lemma ParseUnsigned(w: string)
    requires |w| > 0 && AllDigits(w)
    ensures ParseFloat(w) == Some(DigitsValue(w))
  {
  }

  /** As written: "a,000" followed by a currency reads as "a0", a thousandth
      of the amount times ten */
  lemma AsWrittenDropsZeros(a: string, suffix: string)
    requires |a| > 0 && AllDigits(a) && IsSuffix(suffix)
    ensures GetNumberSplit(a + ",000" + suffix)
      == Some(NumberParts(Some(a + "0"), DigitsValue(a + "0"),
                          if suffix == " \U{20AB}" then "" else " "))
  {
    var s := a + ",000" + suffix;
    var v := a + "0";
    DigitsValueSnoc(a, '0');
    ThousandTexts(s, a, suffix);
    ThousandSymbol(s, a, suffix);
    ParseUnsigned(v);
    AssembleReads(s, v, DigitsValue(v), if suffix == " \U{20AB}" then "" else " ");
  }

  /** Once the texts, the parse and the symbol are known, so is the result */
  lemma AssembleReads(s: string, v: string, x: int, sym: string)
    requires |s| > 0 && ValueText(s) == v && DigitText(s) == v
    requires ParseFloat(v) == Some(x) && SymbolOf(s) == sym
    ensures GetNumberSplit(s) == Some(NumberParts(Some(v), x, sym))
  {
  }

  lemma ThousandSymbol(s: string, a: string, suffix: string)
    requires AllDigits(a) && IsSuffix(suffix) && s == a + ",000" + suffix
    ensures SymbolOf(s) == if suffix == " \U{20AB}" then "" else " "
  {
    assert s == (a + ",000") + suffix;
    SuffixSymbol(a + ",000", suffix);
  }

  lemma ThousandTexts(s: string, a: string, suffix: string)
    requires AllDigits(a) && IsSuffix(suffix) && s == a + ",000" + suffix
    ensures ValueText(s) == a + "0" && DigitText(s) == a + "0"
  {
    var v := a + "0";
    ThousandNotCents(a, suffix);
    ThousandLosesZeros(a, suffix);
    ThousandKept(v, suffix);
    assert '$' !in s && 'x' !in s;
    ThousandValueChain(s, v + suffix);
    ThousandDigitChain(s, v + suffix);
    ViTexts(s, v, SuffixRest(suffix));
  }

  /** As written, m thousand printed with a comma group reads as 10 * m */
  lemma AsWrittenThousands(m: nat, suffix: string)
    requires 1 <= m < 1000 && IsSuffix(suffix)
    ensures GetNumberSplit(Small(m) + ",000" + suffix).Some?
    ensures GetNumberSplit(Small(m) + ",000" + suffix).value.value == 10 * m
  {
    AsWrittenDropsZeros(Small(m), suffix);
    assert Small(m) + "0" == Small(m) + ['0'];
    DigitsValueSnoc(Small(m), '0');
    SmallValue(m);
  }

  /** Under the fix the same text reads as 1000 * m */
  lemma FixedThousands(m: nat, suffix: string)
    requires 1 <= m < 1000 && IsSuffix(suffix)
    ensures GetNumberSplitFixed(Small(m) + ",000" + suffix).Some?
    ensures GetNumberSplitFixed(Small(m) + ",000" + suffix).value.value == 1000 * m
  {
    var x := Small(m) + ",000" + suffix;
    GroupedThousands(m);
    FixedReadsUnsigned(x, 1000 * m, ',', "", suffix);
  }

  lemma GroupedThousands(m: nat)
    requires 1 <= m < 1000
    ensures Grouped(1000 * m, ',') == Small(m) + ",000"
  {
    var n := 1000 * m;
    assert n / 1000 == m && n % 1000 == 0;
    assert Pad3(0) == "000";
  }

  /** An unsigned amount under the fix */
  lemma FixedReadsUnsigned(x: string, n: nat, sep: char, dec: string, suffix: string)
    requires sep == ',' || sep == '.'
    requires dec == "" || dec == ",00"
    requires IsSuffix(suffix)
    requires x == Grouped(n, sep) + dec + suffix
    ensures GetNumberSplitFixed(x).Some? && GetNumberSplitFixed(x).value.value == n
  {
    var e: string := [];
    assert e + Grouped(n, sep) == Grouped(n, sep);
    assert SignedValue(e, n) == n by { assert |e| != |"-"|; }
    FixedValue(x, e, n, sep, dec, suffix);
  }

  lemma FixedValue(x: string, sign: string, n: nat, sep: char, dec: string, suffix: string)
    requires sign == "" || sign == "-"
    requires sep == ',' || sep == '.'
    requires dec == "" || dec == ",00"
    requires IsSuffix(suffix)
    requires x == sign + Grouped(n, sep) + dec + suffix
    ensures GetNumberSplitFixed(x).Some? && GetNumberSplitFixed(x).value.value == SignedValue(sign, n)
  {
    FixedReads(sign, n, sep, dec, suffix);
  }
}
