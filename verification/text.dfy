/** The Python string primitives the backend relies on: `c in s` (through a
    count of `c`), `str.isdigit`, `str.split` on one character, `str.join`,
    and `str.strip` with its whitespace test (ASCII only).
 */
module Text {

  /** `str.isdigit` on one character, restricted to ASCII. Python also accepts
      non-ASCII digits (superscripts such as '²', other scripts' digits); those
      are not modelled. */
  predicate IsDigit(c: char) {
    '0' <= c <= '9'
  }

  /** `str.isspace` on one character, restricted to ASCII: tab, line feed,
      vertical tab, form feed, carriage return, the four separators
      U+001C..U+001F and space. Non-ASCII spaces are not modelled. */
  predicate IsSpace(c: char) {
    c == ' ' || c == '\t' || c == '\n' || c == '\r'
    || c == '\U{0B}' || c == '\U{0C}' || ('\U{1C}' <= c <= '\U{1F}')
  }

  predicate AllSpace(s: string) {
    forall i :: 0 <= i < |s| ==> IsSpace(s[i])
  }

  /** Number of occurrences of `c` in `s`. */
  function Count(s: string, c: char): (n: nat)
    ensures n <= |s|
  {
    if s == [] then 0 else (if s[0] == c then 1 else 0) + Count(s[1..], c)
  }

  /** `c` occurs exactly when it is counted. */
  lemma {:induction false} CountZero(s: string, c: char)
    ensures Count(s, c) == 0 <==> c !in s
  {
    if s != [] {
      CountZero(s[1..], c);
      assert s == [s[0]] + s[1..];
    }
  }

  lemma {:induction false} CountAppend(a: string, b: string, c: char)
    ensures Count(a + b, c) == Count(a, c) + Count(b, c)
  {
    if a == [] {
      assert a + b == b;
    } else {
      assert (a + b)[1..] == a[1..] + b;
      CountAppend(a[1..], b, c);
    }
  }

  // ---------------------------------------------------------------- join / split

  /** `sep.join(parts)`. */
  function Join(parts: seq<string>, sep: string): string
  {
    if |parts| == 0 then []
    else if |parts| == 1 then parts[0]
    else parts[0] + sep + Join(parts[1..], sep)
  }

  /** The join opens with the first part. */
  lemma JoinPrefix(parts: seq<string>, sep: string)
    requires |parts| > 0
    ensures parts[0] <= Join(parts, sep)
  {
    if |parts| > 1 {
      assert Join(parts, sep) == parts[0] + (sep + Join(parts[1..], sep));
    }
  }

  /** Appending one part appends the separator and that part. */
  lemma {:induction false} JoinSnoc(parts: seq<string>, x: string, sep: string)
    requires |parts| > 0
    ensures Join(parts + [x], sep) == Join(parts, sep) + sep + x
  {
    if |parts| == 1 {
      assert (parts + [x])[1..] == [x];
    } else {
      assert (parts + [x])[1..] == parts[1..] + [x];
      JoinSnoc(parts[1..], x, sep);
    }
  }

  /** `s.split(c)` for a one-character separator: the pieces between the
      occurrences of `c`, empty pieces included. */
  function Split(s: string, c: char): (parts: seq<string>)
    ensures |parts| == Count(s, c) + 1
    ensures forall i :: 0 <= i < |parts| ==> c !in parts[i]
  {
    if s == [] then [[]]
    else
      var rest := Split(s[1..], c);
      if s[0] == c then [[]] + rest
      else
        assert c !in [s[0]] + rest[0];
        [[s[0]] + rest[0]] + rest[1..]
  }

  /** Putting a character in front of the first part puts it in front of the join. */
  lemma {:induction false} JoinPrependChar(a: char, parts: seq<string>, sep: string)
    requires |parts| > 0
    ensures Join([[a] + parts[0]] + parts[1..], sep) == [a] + Join(parts, sep)
  {
    var q := [[a] + parts[0]] + parts[1..];
    if |parts| > 1 {
      assert q[1..] == parts[1..];
      assert Join(q, sep) == ([a] + parts[0]) + sep + Join(parts[1..], sep);
    }
  }

  /** Joining the pieces with the separator gives the string back. */
  lemma {:induction false} JoinSplit(s: string, c: char)
    ensures Join(Split(s, c), [c]) == s
  {
    if s != [] {
      var rest := Split(s[1..], c);
      JoinSplit(s[1..], c);
      if s[0] == c {
        assert ([[]] + rest)[1..] == rest;
      } else {
        JoinPrependChar(s[0], rest, [c]);
      }
      assert [s[0]] + s[1..] == s;
    }
  }

  /** A string without the separator is a single piece. */
  lemma {:induction false} SplitAbsent(s: string, c: char)
    requires c !in s
    ensures Split(s, c) == [s]
  {
    if s != [] {
      assert c !in s[1..];
      SplitAbsent(s[1..], c);
      assert [s[0]] + s[1..] == s;
    }
  }

  /** The first occurrence of the separator ends the first piece. */
  lemma {:induction false} SplitFirst(a: string, b: string, c: char)
    requires c !in a
    ensures Split(a + [c] + b, c) == [a] + Split(b, c)
  {
    if a == [] {
      assert (a + [c] + b)[1..] == b;
    } else {
      assert (a + [c] + b)[1..] == a[1..] + [c] + b;
      assert c !in a[1..];
      SplitFirst(a[1..], b, c);
      var rest := Split(a[1..] + [c] + b, c);
      assert rest[0] == a[1..] && rest[1..] == Split(b, c);
      assert [a[0]] + a[1..] == a;
    }
  }

  /** Splitting a join of separator-free pieces gives the pieces back. */
  lemma {:induction false} SplitJoin(parts: seq<string>, c: char)
    requires |parts| > 0
    requires forall i :: 0 <= i < |parts| ==> c !in parts[i]
    ensures Split(Join(parts, [c]), c) == parts
  {
    if |parts| == 1 {
      SplitAbsent(parts[0], c);
    } else {
      SplitJoin(parts[1..], c);
      SplitFirst(parts[0], Join(parts[1..], [c]), c);
      assert [parts[0]] + parts[1..] == parts;
    }
  }

  // ---------------------------------------------------------------- strip

  lemma {:induction false} AllSpaceConcat(a: string, b: string)
    requires AllSpace(a) && AllSpace(b)
    ensures AllSpace(a + b)
  {
    forall i | 0 <= i < |a + b| ensures IsSpace((a + b)[i]) {
      if i < |a| { assert (a + b)[i] == a[i]; } else { assert (a + b)[i] == b[i - |a|]; }
    }
  }

  /** `s.lstrip()`: the suffix left after removing leading whitespace. */
  function StripStart(s: string): (r: string)
    ensures |r| <= |s| && r == s[|s| - |r|..]
    ensures AllSpace(s[..|s| - |r|])
    ensures r == [] || !IsSpace(r[0])
  {
    if s != [] && IsSpace(s[0]) then
      var r := StripStart(s[1..]);
      assert s[..|s| - |r|] == [s[0]] + s[1..][..|s| - 1 - |r|];
      AllSpaceConcat([s[0]], s[1..][..|s| - 1 - |r|]);
      r
    else s
  }

  /** `s.rstrip()`: the prefix left after removing trailing whitespace. */
  function StripEnd(s: string): (r: string)
    ensures |r| <= |s| && r == s[..|r|]
    ensures AllSpace(s[|r|..])
    ensures r == [] || !IsSpace(r[|r| - 1])
  {
    if s != [] && IsSpace(s[|s| - 1]) then
      var r := StripEnd(s[..|s| - 1]);
      assert s[|r|..] == s[..|s| - 1][|r|..] + [s[|s| - 1]];
      AllSpaceConcat(s[..|s| - 1][|r|..], [s[|s| - 1]]);
      r
    else s
  }

  /** `r` sits at offset `a` of `s` with nothing but whitespace around it. */
  predicate PaddedAt(s: string, r: string, a: nat) {
    a + |r| <= |s| && s[a..a + |r|] == r && AllSpace(s[..a]) && AllSpace(s[a + |r|..])
  }

  /** A whitespace-padded prefix of a whitespace-padded suffix is padded in the whole. */
  lemma {:induction false} PaddedWithin(s: string, t: string, r: string, a: nat)
    requires a <= |s| && t == s[a..] && AllSpace(s[..a])
    requires |r| <= |t| && r == t[..|r|] && AllSpace(t[|r|..])
    ensures PaddedAt(s, r, a)
  {
    assert s[a..a + |r|] == t[..|r|];
    assert s[a + |r|..] == t[|r|..];
  }

  /** Where `s.strip()` starts in `s`: the length of its leading whitespace. */
  function StripOffset(s: string): nat {
    |s| - |StripStart(s)|
  }

  /** `s.strip()`: whitespace removed from both ends. */
  function Strip(s: string): (r: string)
    ensures PaddedAt(s, r, StripOffset(s))
    ensures r == [] || (!IsSpace(r[0]) && !IsSpace(r[|r| - 1]))
  {
    var t := StripStart(s);
    var r := StripEnd(t);
    PaddedWithin(s, t, r, |s| - |t|);
    r
  }

  /** Leading whitespace up to the first non-space character is what lstrip removes. */
  lemma {:induction false} StripStartUnique(s: string, a: nat)
    requires a <= |s| && AllSpace(s[..a])
    requires a == |s| || !IsSpace(s[a])
    ensures StripStart(s) == s[a..]
  {
    if a > 0 {
      assert s[..a][0] == s[0];
      assert s[1..][..a - 1] == s[..a][1..];
      StripStartUnique(s[1..], a - 1);
      assert s[1..][a - 1..] == s[a..];
    }
  }

  /** Trailing whitespace after the last non-space character is what rstrip removes. */
  lemma {:induction false} StripEndUnique(s: string, b: nat)
    requires b <= |s| && AllSpace(s[b..])
    requires b == 0 || !IsSpace(s[b - 1])
    ensures StripEnd(s) == s[..b]
  {
    if b < |s| {
      assert s[b..][|s| - 1 - b] == s[|s| - 1];
      assert s[..|s| - 1][b..] == s[b..][..|s| - 1 - b];
      StripEndUnique(s[..|s| - 1], b);
      assert s[..|s| - 1][..b] == s[..b];
    }
  }

  lemma {:induction false} AllSpaceJoin(s: string, a: nat)
    requires a <= |s| && AllSpace(s[..a]) && AllSpace(s[a..])
    ensures AllSpace(s)
  {
    forall i | 0 <= i < |s| ensures IsSpace(s[i]) {
      if i < a { assert s[..a][i] == s[i]; } else { assert s[a..][i - a] == s[i]; }
    }
  }

  lemma {:induction false} StripComposes(s: string)
    ensures Strip(s) == StripEnd(StripStart(s))
  {
  }

  /** A string of whitespace strips to nothing. */
  lemma {:induction false} StripBlank(s: string)
    requires AllSpace(s)
    ensures Strip(s) == []
  {
    assert s[..|s|] == s;
    StripStartUnique(s, |s|);
  }

  /** A non-empty core with non-space ends, between whitespace, is what strip keeps. */
  lemma {:induction false} StripCore(s: string, a: nat, b: nat)
    requires a < b <= |s|
    requires AllSpace(s[..a]) && AllSpace(s[b..])
    requires !IsSpace(s[a]) && !IsSpace(s[b - 1])
    ensures Strip(s) == s[a..b]
  {
    StripCoreParts(s, a, b);
    StripComposes(s);
  }

  lemma {:induction false} StripCoreParts(s: string, a: nat, b: nat)
    requires a < b <= |s|
    requires AllSpace(s[..a]) && AllSpace(s[b..])
    requires !IsSpace(s[a]) && !IsSpace(s[b - 1])
    ensures StripEnd(StripStart(s)) == s[a..b]
  {
    var t := s[a..];
    assert StripStart(s) == t by { StripStartUnique(s, a); }
    assert StripEnd(t) == s[a..b] by { StripEndOfSuffix(s, a, b); }
  }

  lemma {:induction false} StripEndOfSuffix(s: string, a: nat, b: nat)
    requires a < b <= |s|
    requires AllSpace(s[b..]) && !IsSpace(s[b - 1])
    ensures StripEnd(s[a..]) == s[a..b]
  {
    var t := s[a..];
    assert t[b - a..] == s[b..] && t[b - a - 1] == s[b - 1];
    StripEndUnique(t, b - a);
    assert t[..b - a] == s[a..b];
  }

  /** Strip is the unique whitespace trim whose ends are not whitespace: any
      split of `s` into leading whitespace, a core that neither starts nor
      ends with whitespace, and trailing whitespace has `Strip(s)` as core. */
  lemma {:induction false} StripUnique(s: string, a: nat, b: nat)
    requires a <= b <= |s|
    requires AllSpace(s[..a]) && AllSpace(s[b..])
    requires a == b || (!IsSpace(s[a]) && !IsSpace(s[b - 1]))
    ensures Strip(s) == s[a..b]
  {
    if a == b {
      AllSpaceJoin(s, a);
      StripBlank(s);
    } else {
      StripCore(s, a, b);
    }
  }

  /** Every character of a slice occurs in the whole. */
  lemma {:induction false} SliceChars(s: string, r: string, a: nat)
    requires a + |r| <= |s| && r == s[a..a + |r|]
    ensures forall c :: c in r ==> c in s
  {
    forall c | c in r ensures c in s {
      var k :| 0 <= k < |r| && r[k] == c;
      assert s[a + k] == c;
    }
  }

  lemma {:induction false} PaddedChars(s: string, r: string, a: nat)
    requires PaddedAt(s, r, a)
    ensures forall c :: c in r ==> c in s
  {
    SliceChars(s, r, a);
  }

  /** Every character of the stripped string occurs in the original. */
  lemma {:induction false} StripChars(s: string)
    ensures forall c :: c in Strip(s) ==> c in s
  {
    PaddedChars(s, Strip(s), StripOffset(s));
  }
}
