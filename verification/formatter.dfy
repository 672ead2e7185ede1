/** The solve handler's result formatting (backend/main.py lines 64, 69 and
    72): each root labelled `x_{k} = root` in solver order, joined with
    ` \quad `.
 */
module Formatter {
  import opened Text
  import opened Decimal
  import opened Outcomes

  /** `' \\quad '` in the source: space, backslash, `quad`, space. */
  const Separator: string := " \\quad "

  /** `f'x_{{{k}}} = {sol}'`: the doubled braces are literal braces, so the
      label reads `x_{k}`. Every label reads back as the index and the root it
      was made from, so distinct (index, root) pairs give distinct labels. */
  function Label(k: nat, sol: string): (r: string)
    ensures ParseLabel(r) == Some((k, sol))
  {
    var r := "x_{" + Show(k) + "} = " + sol;
    ParseLabelOf(r, Show(k), sol);
    ValueShow(k);
    r
  }

  /** `latex_solutions`: the roots labelled 1, 2, ... in solver order. */
  function Entries(sols: seq<string>): seq<string> {
    seq(|sols|, i requires 0 <= i < |sols| => Label(i + 1, sols[i]))
  }

  /** `' \\quad '.join(latex_solutions)`. No roots give the empty string and
      one root gives its label alone. */
  function FormatSolutions(sols: seq<string>): (r: string)
    ensures r == [] <==> sols == []
    ensures |sols| == 1 ==> r == Label(1, sols[0])
  {
    var es := Entries(sols);
    if es == [] then Join(es, Separator)
    else JoinPrefix(es, Separator); Join(es, Separator)
  }

  /** One more root from the solver adds exactly one entry, labelled with the
      next index, after a separator. */
  lemma {:induction false} FormatAppend(sols: seq<string>, t: string)
    ensures FormatSolutions(sols + [t]) ==
      if sols == [] then Label(1, t)
      else FormatSolutions(sols) + Separator + Label(|sols| + 1, t)
  {
    assert Entries(sols + [t]) == Entries(sols) + [Label(|sols| + 1, t)];
    if sols != [] {
      JoinSnoc(Entries(sols), Label(|sols| + 1, t), Separator);
    }
  }

  /** Two roots are two labels around one separator. */
  lemma {:induction false} FormatPair(a: string, b: string)
    ensures FormatSolutions([a, b]) == Label(1, a) + Separator + Label(2, b)
  {
    assert [a, b] == [a] + [b];
    FormatAppend([a], b);
  }

  /** Two roots `-2` and `2` format as `x_{1} = -2 \quad x_{2} = 2`. */
  lemma {:induction false} FormatExample(sols: seq<string>)
    requires sols == ["-2", "2"]
    ensures FormatSolutions(sols) == "x_{1} = -2 \\quad x_{2} = 2"
  {
    var a, b := sols[0], sols[1];
    assert sols == [a, b];
    FormatPair(a, b);
    assert Label(1, a) == "x_{1} = -2" by { assert Show(1) == "1"; }
    assert Label(2, b) == "x_{2} = 2" by { assert Show(2) == "2"; }
  }

  lemma {:induction false} LabelNoBackslash(k: nat, sol: string)
    requires '\\' !in sol
    ensures '\\' !in Label(k, sol)
  {
    var d := Show(k);
    assert '\\' !in d by {
      forall i | 0 <= i < |d| ensures d[i] != '\\' { assert IsDigit(d[i]); }
    }
  }

  /** When no root text holds a backslash, the LaTeX holds exactly one per
      separator: `n` roots give `n - 1` separators, so the entries can be told
      apart again. */
  lemma {:induction false} FormatSeparators(sols: seq<string>)
    requires forall i :: 0 <= i < |sols| ==> '\\' !in sols[i]
    ensures Count(FormatSolutions(sols), '\\') == if sols == [] then 0 else |sols| - 1
  {
    if sols != [] {
      var n := |sols|;
      var init, t := sols[..n - 1], sols[n - 1];
      assert sols == init + [t];
      FormatSeparators(init);
      FormatAppend(init, t);
      LabelNoBackslash(n, t);
      CountZero(Label(n, t), '\\');
      if init != [] {
        CountAppend(FormatSolutions(init) + Separator, Label(n, t), '\\');
        CountAppend(FormatSolutions(init), Separator, '\\');
        assert Count(Separator, '\\') == 1;
      }
    }
  }

  // ---------------------------------------------------------------- reading labels back

  /** Length of the run of digits that opens `s`. */
  function DigitRun(s: string): (n: nat)
    ensures n <= |s| && AllDigits(s[..n])
    ensures n < |s| ==> !IsDigit(s[n])
  {
    if s != [] && IsDigit(s[0]) then
      var n := 1 + DigitRun(s[1..]);
      assert s[..n] == [s[0]] + s[1..][..n - 1];
      n
    else 0
  }

  lemma {:induction false} DigitRunOf(d: string, rest: string)
    requires AllDigits(d)
    requires rest == [] || !IsDigit(rest[0])
    ensures DigitRun(d + rest) == |d|
  {
    if d != [] {
      assert (d + rest)[1..] == d[1..] + rest;
      DigitRunOf(d[1..], rest);
    } else {
      assert d + rest == rest;
    }
  }

  /** Reads an entry `x_{k} = root` back into its index and root. */
  function ParseLabel(e: string): Option<(nat, string)>
  {
    if |e| < 3 || e[..3] != "x_{" then None
    else
      var t := e[3..];
      var n := DigitRun(t);
      if n == 0 || |t| < n + 4 || t[n..n + 4] != "} = " then None
      else Some((Value(t[..n]), t[n + 4..]))
  }

  lemma {:induction false} ParseLabelOf(e: string, d: string, sol: string)
    requires d != [] && AllDigits(d)
    requires e == "x_{" + d + "} = " + sol
    ensures ParseLabel(e) == Some((Value(d), sol))
  {
    var t := d + ("} = " + sol);
    assert e[..3] == "x_{" && e[3..] == t;
    DigitRunOf(d, "} = " + sol);
    assert t[..|d|] == d;
    assert t[|d|..|d| + 4] == "} = ";
    assert t[|d| + 4..] == sol;
  }
}
