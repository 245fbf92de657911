/** The handful of Python `str` operations the reports rely on, over `string`
    (a sequence of Unicode scalar values). */
module Text {

  /** `sep.join(parts)` */
  function Join(parts: seq<string>, sep: string): string
  {
    if |parts| == 0 then ""
    else if |parts| == 1 then parts[0]
    else parts[0] + sep + Join(parts[1..], sep)
  }

  /** `s.split(c)` for a one-character separator; the result is never empty */
  function Split(s: string, c: char): (parts: seq<string>)
    ensures |parts| >= 1
  {
    if |s| == 0 then [""]
    else
      var rest := Split(s[1..], c);
      if s[0] == c then [""] + rest else [[s[0]] + rest[0]] + rest[1..]
  }

  predicate StartsWith(s: string, prefix: string)
  {
    |prefix| <= |s| && s[..|prefix|] == prefix
  }

  predicate EndsWith(s: string, suffix: string)
  {
    |suffix| <= |s| && s[|s| - |suffix|..] == suffix
  }

  /** `s.replace(pat, rep)`: every non-overlapping occurrence, scanning left to right */
  function Replace(s: string, pat: string, rep: string): string
    requires |pat| > 0
    decreases |s|
  {
    if |s| < |pat| then s
    else if s[..|pat|] == pat then rep + Replace(s[|pat|..], pat, rep)
    else [s[0]] + Replace(s[1..], pat, rep)
  }

  /** `s.split(pat)[0]`: the text before the first occurrence of `pat` */
  function SplitFirst(s: string, pat: string): string
    requires |pat| > 0
  {
    if StartsWith(s, pat) || |s| == 0 then "" else [s[0]] + SplitFirst(s[1..], pat)
  }

  /** `str.lower()` on one character, for the ASCII and Latin-1 letters; every
      other character is its own lower case here */
  function LowerChar(c: char): char
  {
    if 'A' <= c <= 'Z' || ('\U{00C0}' <= c <= '\U{00DE}' && c != '\U{00D7}') then
      (c as int + 32) as char
    else c
  }

  /** `str.upper()` on one ASCII character */
  function UpperChar(c: char): char
  {
    if 'a' <= c <= 'z' then (c as int - 32) as char else c
  }

  /** `s[0].upper() + s[1:]` on a non-empty string */
  function UpperFirst(s: string): (r: string)
    requires |s| > 0
    ensures |r| == |s| && r[0] == UpperChar(s[0]) && r[1..] == s[1..]
  {
    [UpperChar(s[0])] + s[1..]
  }

  function Lower(s: string): (r: string)
    ensures |r| == |s|
    ensures forall i :: 0 <= i < |s| ==> r[i] == LowerChar(s[i])
  {
    if |s| == 0 then "" else [LowerChar(s[0])] + Lower(s[1..])
  }

  /** No character of `s` changes under `lower()` */
  predicate IsLower(s: string)
  {
    |s| == 0 || (LowerChar(s[0]) == s[0] && IsLower(s[1..]))
  }

  predicate IsAsciiLowerLetter(c: char)
  {
    'a' <= c <= 'z'
  }

  lemma JoinTwo(a: string, b: string, sep: string)
    ensures Join([a, b], sep) == a + sep + b
  {
    assert [a, b][1..] == [b];
  }

  lemma JoinThree(a: string, b: string, c: string, sep: string)
    ensures Join([a, b, c], sep) == a + sep + b + sep + c
  {
    assert [a, b, c][1..] == [b, c];
    JoinTwo(b, c, sep);
  }

  lemma {:induction false} JoinAppend(a: seq<string>, b: seq<string>, sep: string)
    requires |a| > 0 && |b| > 0
    ensures Join(a + b, sep) == Join(a, sep) + sep + Join(b, sep)
  {
    var ab := a + b;
    assert ab[0] == a[0];
    if |a| == 1 {
      assert ab[1..] == b;
      assert Join(ab, sep) == a[0] + sep + Join(b, sep);
    } else {
      assert ab[1..] == a[1..] + b;
      JoinAppend(a[1..], b, sep);
      assert Join(ab, sep) == a[0] + sep + Join(a[1..] + b, sep);
      assert Join(a, sep) == a[0] + sep + Join(a[1..], sep);
    }
  }

  lemma JoinPrefix(a: seq<string>, b: seq<string>, sep: string)
    requires |a| > 0 && |b| > 0
    ensures StartsWith(Join(a + b, sep), Join(a, sep) + sep)
  {
    JoinAppend(a, b, sep);
  }

  lemma IsLowerAll(s: string)
    ensures IsLower(s) <==> forall i :: 0 <= i < |s| ==> LowerChar(s[i]) == s[i]
  {
    if |s| > 0 {
      IsLowerAll(s[1..]);
      assert forall i :: 1 <= i < |s| ==> s[i] == s[1..][i - 1];
    }
  }

  /** Lower-casing undoes `UpperFirst` on a lower-case word starting with an
      ASCII letter */
  lemma LowerUpperFirst(s: string)
    requires |s| > 0 && IsAsciiLowerLetter(s[0]) && IsLower(s)
    ensures Lower(UpperFirst(s)) == s
    ensures 'A' <= UpperFirst(s)[0] <= 'Z'
  {
    IsLowerAll(s);
    var u := UpperFirst(s);
    forall i | 0 <= i < |s|
      ensures Lower(u)[i] == s[i]
    {
      if i > 0 {
        assert u[i] == s[i];
      }
    }
  }

  lemma LowerOfLower(s: string)
    requires IsLower(s)
    ensures Lower(s) == s
  {
    IsLowerAll(s);
  }

  lemma LowerAppend(a: string, b: string)
    ensures Lower(a + b) == Lower(a) + Lower(b)
  {
  }

  lemma IsLowerAppend(a: string, b: string)
    requires IsLower(a) && IsLower(b)
    ensures IsLower(a + b)
  {
    IsLowerAll(a);
    IsLowerAll(b);
    IsLowerAll(a + b);
  }

  lemma IsLowerJoin(ts: seq<string>, sep: string)
    requires IsLower(sep)
    requires forall i :: 0 <= i < |ts| ==> IsLower(ts[i])
    ensures IsLower(Join(ts, sep))
  {
    if |ts| > 1 {
      IsLowerJoin(ts[1..], sep);
      IsLowerAppend(ts[0], sep);
      IsLowerAppend(ts[0] + sep, Join(ts[1..], sep));
    }
  }

  lemma JoinFirst(ts: seq<string>, sep: string)
    requires |ts| > 0 && |ts[0]| > 0
    ensures |Join(ts, sep)| > 0 && Join(ts, sep)[0] == ts[0][0]
  {
  }

  /** A character absent from every part and from the separator is absent from the join */
  lemma NotInJoin(ts: seq<string>, sep: string, c: char)
    requires c !in sep
    requires forall i :: 0 <= i < |ts| ==> c !in ts[i]
    ensures c !in Join(ts, sep)
  {
    if |ts| > 1 {
      NotInJoin(ts[1..], sep, c);
    }
  }

  lemma SplitNoSeparator(t: string, c: char)
    requires c !in t
    ensures Split(t, c) == [t]
  {
    if |t| > 0 {
      SplitNoSeparator(t[1..], c);
      assert [t[0]] + t[1..] == t;
    }
  }

  lemma SplitAfterPart(t: string, c: char, u: string)
    requires c !in t
    ensures Split(t + [c] + u, c) == [t] + Split(u, c)
  {
    if |t| == 0 {
      assert t + [c] + u == [c] + u;
      assert ([c] + u)[1..] == u;
    } else {
      assert (t + [c] + u)[1..] == t[1..] + [c] + u;
      SplitAfterPart(t[1..], c, u);
      assert [t[0]] + t[1..] == t;
    }
  }

  /** Splitting a join on its one-character separator gives the parts back */
  lemma {:induction false} SplitJoin(ts: seq<string>, c: char)
    requires |ts| > 0
    requires forall i :: 0 <= i < |ts| ==> c !in ts[i]
    ensures Split(Join(ts, [c]), c) == ts
  {
    if |ts| == 1 {
      SplitNoSeparator(ts[0], c);
    } else {
      SplitJoin(ts[1..], c);
      SplitAfterPart(ts[0], c, Join(ts[1..], [c]));
      assert [ts[0]] + ts[1..] == ts;
    }
  }

  /** `(w + pat).split(pat)[0] == w` when the second character of `pat` cannot
      start inside `w` */
  lemma {:induction false} SplitFirstBeforeSuffix(w: string, pat: string)
    requires |pat| >= 2 && pat[1] != pat[0] && pat[1] !in w
    ensures SplitFirst(w + pat, pat) == w
  {
    if |w| == 0 {
      assert StartsWith(w + pat, pat);
    } else {
      var s := w + pat;
      assert s[1] != pat[1];
      assert s[1..] == w[1..] + pat;
      SplitFirstBeforeSuffix(w[1..], pat);
      assert [w[0]] + w[1..] == w;
    }
  }

  /** `s` with every character of `drop` deleted */
  function Keep(s: string, drop: set<char>): (r: string)
    ensures |r| <= |s|
  {
    if |s| == 0 then ""
    else if s[0] in drop then Keep(s[1..], drop)
    else [s[0]] + Keep(s[1..], drop)
  }

  lemma KeepMembers(s: string, drop: set<char>)
    ensures forall x :: x in Keep(s, drop) <==> x in s && x !in drop
  {
    if |s| > 0 {
      KeepMembers(s[1..], drop);
    }
  }

  lemma KeepAppend(a: string, b: string, drop: set<char>)
    ensures Keep(a + b, drop) == Keep(a, drop) + Keep(b, drop)
  {
    if |a| > 0 {
      assert (a + b)[1..] == a[1..] + b;
      assert (a + b)[0] == a[0];
      KeepAppend(a[1..], b, drop);
    } else {
      assert a + b == b;
    }
  }

  lemma KeepNothing(s: string, drop: set<char>)
    requires forall i :: 0 <= i < |s| ==> s[i] !in drop
    ensures Keep(s, drop) == s
  {
    if |s| > 0 {
      KeepNothing(s[1..], drop);
      assert [s[0]] + s[1..] == s;
    }
  }

  lemma KeepKeep(s: string, a: set<char>, b: set<char>)
    ensures Keep(Keep(s, a), b) == Keep(s, a + b)
  {
    if |s| > 0 {
      KeepKeep(s[1..], a, b);
    }
  }

  /** Replacing a one-character pattern by nothing deletes that character */
  lemma ReplaceChar(s: string, c: char)
    ensures Replace(s, [c], "") == Keep(s, {c})
  {
    if |s| > 0 {
      ReplaceChar(s[1..], c);
      assert s[..1] == [s[0]];
    }
  }

  /** A pattern whose first character does not occur leaves the text alone */
  lemma ReplaceAbsent(s: string, pat: string, rep: string)
    requires |pat| > 0 && pat[0] !in s
    ensures Replace(s, pat, rep) == s
  {
    if |s| >= |pat| {
      assert s[..|pat|][0] == s[0];
      ReplaceAbsent(s[1..], pat, rep);
      assert [s[0]] + s[1..] == s;
    }
  }

  /** A pattern that only occurs as the suffix is replaced there and nowhere else */
  lemma ReplaceSuffix(d: string, pat: string, rep: string)
    requires |pat| > 0 && pat[0] !in d
    ensures Replace(d + pat, pat, rep) == d + rep
  {
    ReplacePrefix(d, pat, pat, rep);
    assert pat[..|pat|] == pat && pat[|pat|..] == "";
    assert Replace(pat, pat, rep) == rep + "";
  }

  /** A prefix holding no first character of the pattern is copied through */
  lemma {:induction false} ReplacePrefix(d: string, y: string, pat: string, rep: string)
    requires |pat| > 0 && pat[0] !in d
    ensures Replace(d + y, pat, rep) == d + Replace(y, pat, rep)
    decreases |d|
  {
    var s := d + y;
    if |d| == 0 {
      assert s == y;
    } else if |s| < |pat| {
      assert Replace(y, pat, rep) == y;
    } else {
      ReplaceStep(s, pat, rep);
      assert s[1..] == d[1..] + y;
      ReplacePrefix(d[1..], y, pat, rep);
      assert [d[0]] + d[1..] == d;
    }
  }

  /** Where the pattern cannot start, the first character is copied */
  lemma ReplaceStep(s: string, pat: string, rep: string)
    requires |pat| > 0 && |s| >= |pat| && s[0] != pat[0]
    ensures Replace(s, pat, rep) == [s[0]] + Replace(s[1..], pat, rep)
  {
    assert s[..|pat|][0] == s[0];
  }

  /** Deleting a pattern never brings in a character */
  lemma ReplaceKeepsOut(s: string, pat: string, c: char)
    requires |pat| > 0 && c !in s
    ensures c !in Replace(s, pat, "")
    decreases |s|
  {
    if |s| >= |pat| {
      if s[..|pat|] == pat {
        ReplaceKeepsOut(s[|pat|..], pat, c);
      } else {
        ReplaceKeepsOut(s[1..], pat, c);
      }
    }
  }

  /** The first part of a split holds no separator and nothing from outside the text */
  lemma SplitHead(t: string, c: char)
    ensures c !in Split(t, c)[0]
    ensures forall x :: x in Split(t, c)[0] ==> x in t
  {
    if |t| > 0 {
      SplitHead(t[1..], c);
    }
  }

  /** No part of a split holds the separator */
  lemma SplitPartsClean(t: string, c: char)
    ensures forall i :: 0 <= i < |Split(t, c)| ==> c !in Split(t, c)[i]
  {
    if |t| > 0 {
      SplitPartsClean(t[1..], c);
    }
  }

  /** A text holding the separator splits into at least two parts */
  lemma SplitMany(t: string, c: char)
    requires c in t
    ensures |Split(t, c)| > 1
  {
    if t[0] != c {
      assert c in t[1..];
      SplitMany(t[1..], c);
    }
  }
}
