/** The notation normalizer of backend/main.py: the three string rewrites the
    handlers apply before handing an expression to SymPy or to `eval`.

      1. `PowerRewrite`  -- `s.replace('^', '**')`
      2. `ImplicitMul`   -- a `*` before every `x` whose predecessor is a digit
      3. `Canonicalize`  -- `a = b` becomes `(a)-(b)` (solve path only)
 */
module Notation {
  import opened Text
  import opened Outcomes

  // ---------------------------------------------------------------- power rewrite

  /** `s.replace('^', '**')`. */
  function PowerRewrite(s: string): (r: string)
    ensures '^' !in r
    ensures |r| == |s| + Count(s, '^')
  {
    if s == [] then [] else (if s[0] == '^' then "**" else [s[0]]) + PowerRewrite(s[1..])
  }

  lemma {:induction false} PowerRewriteAppend(a: string, b: string)
    ensures PowerRewrite(a + b) == PowerRewrite(a) + PowerRewrite(b)
  {
    if a != [] {
      assert (a + b)[1..] == a[1..] + b;
      PowerRewriteAppend(a[1..], b);
    } else {
      assert a + b == b;
    }
  }

  /** Position by position: the character at index `i` of the input lands at
      index `i` plus the number of `^` before it; a `^` becomes `**` there and
      every other character is copied unchanged. */
  lemma {:induction false} PowerRewriteAt(s: string, i: nat)
    requires i < |s|
    ensures var r, j := PowerRewrite(s), i + Count(s[..i], '^');
      if s[i] == '^' then j + 1 < |r| && r[j] == '*' && r[j + 1] == '*'
      else j < |r| && r[j] == s[i]
  {
    assert s == s[..i] + ([s[i]] + s[i + 1..]);
    PowerRewriteAppend(s[..i], [s[i]] + s[i + 1..]);
    PowerRewriteAppend([s[i]], s[i + 1..]);
  }

  /** Characters other than `^` and `*` keep their multiplicity; each `^`
      contributes two `*`. */
  lemma {:induction false} PowerRewriteCount(s: string, c: char)
    ensures c != '^' && c != '*' ==> Count(PowerRewrite(s), c) == Count(s, c)
    ensures Count(PowerRewrite(s), '*') == Count(s, '*') + 2 * Count(s, '^')
  {
    if s != [] {
      var head, tail := if s[0] == '^' then "**" else [s[0]], PowerRewrite(s[1..]);
      assert PowerRewrite(s) == head + tail;
      assert s == [s[0]] + s[1..];
      PowerRewriteCount(s[1..], c);
      CountAppend(head, tail, c);
      CountAppend(head, tail, '*');
      CountAppend([s[0]], s[1..], c);
      CountAppend([s[0]], s[1..], '*');
      CountAppend([s[0]], s[1..], '^');
    }
  }

  /** The rewrite changes a string exactly when it holds a `^`; in particular
      it is idempotent. */
  lemma {:induction false} PowerRewriteFixpoint(s: string)
    ensures PowerRewrite(s) == s <==> '^' !in s
  {
    if '^' !in s && s != [] {
      assert '^' !in s[1..];
      PowerRewriteFixpoint(s[1..]);
      assert [s[0]] + s[1..] == s;
    }
  }

  lemma {:induction false} PowerRewriteIdempotent(s: string)
    ensures PowerRewrite(PowerRewrite(s)) == PowerRewrite(s)
  {
    PowerRewriteFixpoint(PowerRewrite(s));
  }

  /** Reads `**` back as `^`: the inverse of the rewrite on inputs that hold no
      `*` of their own (on others the rewrite merges `^` with `**`). */
  function PowerRestore(r: string): string
  {
    if r == [] then []
    else if |r| >= 2 && r[0] == '*' && r[1] == '*' then ['^'] + PowerRestore(r[2..])
    else [r[0]] + PowerRestore(r[1..])
  }

  lemma {:induction false} PowerRestoreRewrite(s: string)
    requires '*' !in s
    ensures PowerRestore(PowerRewrite(s)) == s
  {
    if s != [] {
      var rest := PowerRewrite(s[1..]);
      assert '*' !in s[1..];
      PowerRestoreRewrite(s[1..]);
      if s[0] == '^' {
        assert ("**" + rest)[2..] == rest;
      } else {
        assert ([s[0]] + rest)[1..] == rest;
      }
      assert [s[0]] + s[1..] == s;
    }
  }

  lemma {:induction false} PowerRewriteHead(a: string)
    requires a == "x^"
    ensures PowerRewrite(a) == "x**"
  {
    assert a[1..] == "^" && a[1..][1..] == [];
  }

  /** A leading `x^` becomes `x**` in front of a `^`-free rest. */
  lemma {:induction false} PowerRewriteLeadingPower(h: string, t: string)
    requires h == "x^" && '^' !in t
    ensures PowerRewrite(h + t) == "x**" + t
  {
    assert PowerRewrite(h + t) == PowerRewrite(h) + PowerRewrite(t) by { PowerRewriteAppend(h, t); }
    assert PowerRewrite(t) == t by { PowerRewriteFixpoint(t); }
    assert PowerRewrite(h) == "x**" by { PowerRewriteHead(h); }
  }

  /** `x^2` and `x**2` rewrite to the same string, so without the `*`-free
      condition the rewrite could not be undone. */
  lemma {:induction false} PowerRewriteMerges(a: string, b: string)
    requires a == "x^2" && b == "x**2"
    ensures PowerRewrite(a) == PowerRewrite(b) == b
  {
    assert a == a[..2] + a[2..] && a[..2] == "x^" && a[2..] == "2";
    PowerRewriteLeadingPower(a[..2], a[2..]);
    PowerRewriteFixpoint(b);
  }

  // ---------------------------------------------------------------- implicit multiplication

  /** The comprehension's test at index `i`: `i > 0 and c == 'x' and
      s[i-1].isdigit()`, evaluated on the string as it stands before the
      comprehension (never on its growing output). */
  predicate NeedsStar(s: string, i: nat)
    requires i < |s|
  {
    i > 0 && s[i] == 'x' && IsDigit(s[i - 1])
  }

  /** No `x` is immediately preceded by a digit. */
  predicate NoImplicitProduct(s: string) {
    forall i :: 0 <= i < |s| ==> !NeedsStar(s, i)
  }

  /** What the comprehension emits for index `i`: `"*x"` or the character itself. */
  function Piece(s: string, i: nat): string
    requires i < |s|
  {
    if NeedsStar(s, i) then ['*', s[i]] else [s[i]]
  }

  /** Number of indices `i..` at which a `*` is inserted. */
  function StarSites(s: string, i: nat): (n: nat)
    requires i <= |s|
    ensures n <= |s| - i
    decreases |s| - i
  {
    if i == |s| then 0 else (if NeedsStar(s, i) then 1 else 0) + StarSites(s, i + 1)
  }

  /** There are no sites exactly when no `x` from index `i` on follows a digit. */
  lemma {:induction false} StarSitesZero(s: string, i: nat)
    requires i <= |s|
    ensures StarSites(s, i) == 0 <==> forall j :: i <= j < |s| ==> !NeedsStar(s, j)
    decreases |s| - i
  {
    if i < |s| {
      StarSitesZero(s, i + 1);
    }
  }

  /** Joining two strings without an implicit product creates none, unless the
      seam puts a digit right before an `x`. */
  lemma {:induction false} NoProductAppend(a: string, b: string)
    requires NoImplicitProduct(a) && NoImplicitProduct(b)
    requires a != [] && b != [] && b[0] == 'x' ==> !IsDigit(a[|a| - 1])
    ensures NoImplicitProduct(a + b)
  {
    var ab := a + b;
    forall k | 0 <= k < |ab| ensures !NeedsStar(ab, k) {
      if 0 < k < |a| {
        assert !NeedsStar(a, k);
      } else if k > |a| {
        assert !NeedsStar(b, k - |a|);
      }
    }
  }

  lemma {:induction false} NoProductSlice(s: string, a: nat, b: nat)
    requires a <= b <= |s| && NoImplicitProduct(s)
    ensures NoImplicitProduct(s[a..b])
  {
    var t := s[a..b];
    forall k | 0 <= k < |t| ensures !NeedsStar(t, k) {
      assert k > 0 ==> !NeedsStar(s, a + k);
    }
  }

  lemma {:induction false} NoProductOfSlice(s: string, r: string, a: nat, b: nat)
    requires a <= b <= |s| && r == s[a..b] && NoImplicitProduct(s)
    ensures NoImplicitProduct(r)
  {
    NoProductSlice(s, a, b);
  }

  /** The comprehension's output for indices `i..`. */
  function ImplicitMulFrom(s: string, i: nat): (r: string)
    requires i <= |s|
    ensures |r| == |s| - i + StarSites(s, i)
    decreases |s| - i
  {
    if i == |s| then [] else Piece(s, i) + ImplicitMulFrom(s, i + 1)
  }

  /** The output for indices `i..` opens with the piece for index `i` and has
      no digit directly before an `x`, the seam between pieces included. */
  lemma {:induction false} ImplicitMulFromSettled(s: string, i: nat)
    requires i <= |s|
    ensures i < |s| ==> ImplicitMulFrom(s, i)[0] == (if NeedsStar(s, i) then '*' else s[i])
    ensures NoImplicitProduct(ImplicitMulFrom(s, i))
    decreases |s| - i
  {
    if i < |s| {
      var p, rest := Piece(s, i), ImplicitMulFrom(s, i + 1);
      ImplicitMulFromSettled(s, i + 1);
      assert NoImplicitProduct(p);
      NoProductAppend(p, rest);
    }
  }

  /** The implicit-multiplication rewrite: the output is one longer per `x`
      that follows a digit, starts with the input's first character, and leaves
      no digit directly before an `x`. */
  function ImplicitMul(s: string): (r: string)
    ensures |r| == |s| + StarSites(s, 0)
    ensures |s| > 0 ==> r[0] == s[0]
    ensures NoImplicitProduct(r)
  {
    ImplicitMulFromSettled(s, 0);
    ImplicitMulFrom(s, 0)
  }

  /** Marks the characters of `ImplicitMulFrom(s, i)` that were inserted. */
  function InsertionMaskFrom(s: string, i: nat): (m: seq<bool>)
    requires i <= |s|
    ensures |m| == |ImplicitMulFrom(s, i)|
    decreases |s| - i
  {
    if i == |s| then []
    else (if NeedsStar(s, i) then [true, false] else [false]) + InsertionMaskFrom(s, i + 1)
  }

  function InsertionMask(s: string): (m: seq<bool>)
    ensures |m| == |ImplicitMul(s)|
  {
    InsertionMaskFrom(s, 0)
  }

  /** The characters of `r` whose mark is false, in order. */
  function Delete(r: string, m: seq<bool>): (d: string)
    requires |m| == |r|
  {
    if r == [] then [] else (if m[0] then [] else [r[0]]) + Delete(r[1..], m[1..])
  }

  lemma {:induction false} DeleteAppend(a: string, ma: seq<bool>, b: string, mb: seq<bool>)
    requires |a| == |ma| && |b| == |mb|
    ensures Delete(a + b, ma + mb) == Delete(a, ma) + Delete(b, mb)
  {
    if a == [] {
      assert a + b == b && ma + mb == mb;
    } else {
      assert (a + b)[1..] == a[1..] + b;
      assert (ma + mb)[1..] == ma[1..] + mb;
      DeleteAppend(a[1..], ma[1..], b, mb);
    }
  }

  /** Each inserted character is a `*` directly before an `x` whose
      predecessor in the input is a digit. */
  predicate InsertionsWellPlaced(s: string, i: nat, r: string, m: seq<bool>)
    requires i <= |s| && |m| == |r|
  {
    forall j :: 0 <= j < |m| && m[j] ==>
      && r[j] == '*' && j + 1 < |r| && r[j + 1] == 'x'
      && (j == 0 ==> i > 0 && IsDigit(s[i - 1]))
      && (j > 0 ==> IsDigit(r[j - 1]))
  }

  lemma {:induction false} ImplicitMulDeleteFrom(s: string, i: nat)
    requires i <= |s|
    ensures Delete(ImplicitMulFrom(s, i), InsertionMaskFrom(s, i)) == s[i..]
    decreases |s| - i
  {
    if i < |s| {
      var p, rest := Piece(s, i), ImplicitMulFrom(s, i + 1);
      var mp: seq<bool> := if NeedsStar(s, i) then [true, false] else [false];
      ImplicitMulDeleteFrom(s, i + 1);
      DeleteAppend(p, mp, rest, InsertionMaskFrom(s, i + 1));
      assert Delete(p, mp) == [s[i]] by {
        if NeedsStar(s, i) { assert p[1..] == [s[i]] && mp[1..] == [false]; }
      }
      assert [s[i]] + s[i + 1..] == s[i..];
    }
  }

  /** Prepending the piece for index `i` keeps every insertion well placed. */
  lemma {:induction false} WellPlacedPrepend(s: string, i: nat, rest: string, mrest: seq<bool>)
    requires i < |s| && |rest| == |mrest|
    requires InsertionsWellPlaced(s, i + 1, rest, mrest)
    ensures var mp: seq<bool> := if NeedsStar(s, i) then [true, false] else [false];
      InsertionsWellPlaced(s, i, Piece(s, i) + rest, mp + mrest)
  {
    var p := Piece(s, i);
    var mp: seq<bool> := if NeedsStar(s, i) then [true, false] else [false];
    var r, m := p + rest, mp + mrest;
    forall j | 0 <= j < |m| && m[j]
      ensures r[j] == '*' && j + 1 < |r| && r[j + 1] == 'x'
      ensures j == 0 ==> i > 0 && IsDigit(s[i - 1])
      ensures j > 0 ==> IsDigit(r[j - 1])
    {
      if j >= |p| {
        var k := j - |p|;
        assert m[j] == mrest[k] && r[j] == rest[k] && r[j + 1] == rest[k + 1];
        if k > 0 {
          assert r[j - 1] == rest[k - 1];
        } else {
          assert r[j - 1] == p[|p| - 1] == s[i];
        }
      }
    }
  }

  lemma {:induction false} ImplicitMulPlacementFrom(s: string, i: nat)
    requires i <= |s|
    ensures InsertionsWellPlaced(s, i, ImplicitMulFrom(s, i), InsertionMaskFrom(s, i))
    decreases |s| - i
  {
    if i < |s| {
      ImplicitMulPlacementFrom(s, i + 1);
      WellPlacedPrepend(s, i, ImplicitMulFrom(s, i + 1), InsertionMaskFrom(s, i + 1));
    }
  }

  /** Deleting the marked characters gives back the input exactly, and every
      marked character is a `*` standing between a digit and an `x`: the
      rewrite inserts a `*` before each `x` that follows a digit, nowhere else,
      and never at index 0. */
  lemma {:induction false} ImplicitMulErasure(s: string)
    ensures Delete(ImplicitMul(s), InsertionMask(s)) == s
    ensures var r, m := ImplicitMul(s), InsertionMask(s);
      forall j :: 0 <= j < |m| && m[j] ==>
        0 < j && j + 1 < |r| && r[j] == '*' && r[j + 1] == 'x' && IsDigit(r[j - 1])
  {
    ImplicitMulDeleteFrom(s, 0);
    ImplicitMulPlacementFrom(s, 0);
  }

  lemma {:induction false} ImplicitMulNoSites(s: string, i: nat)
    requires i <= |s| && StarSites(s, i) == 0
    ensures ImplicitMulFrom(s, i) == s[i..]
    decreases |s| - i
  {
    if i < |s| {
      ImplicitMulNoSites(s, i + 1);
      assert [s[i]] + s[i + 1..] == s[i..];
    }
  }

  /** The rewrite changes a string exactly when some `x` follows a digit; so
      applying it twice is applying it once. */
  lemma {:induction false} ImplicitMulFixpoint(s: string)
    ensures ImplicitMul(s) == s <==> NoImplicitProduct(s)
    ensures ImplicitMul(ImplicitMul(s)) == ImplicitMul(s)
  {
    StarSitesZero(s, 0);
    if NoImplicitProduct(s) {
      ImplicitMulNoSites(s, 0);
    }
    StarSitesZero(ImplicitMul(s), 0);
    ImplicitMulNoSites(ImplicitMul(s), 0);
  }

  /** Only `*` is added: every other character keeps its multiplicity. */
  lemma {:induction false} ImplicitMulCountFrom(s: string, i: nat, c: char)
    requires i <= |s|
    ensures Count(ImplicitMulFrom(s, i), c) == Count(s[i..], c) + (if c == '*' then StarSites(s, i) else 0)
    decreases |s| - i
  {
    if i < |s| {
      var p, rest := Piece(s, i), ImplicitMulFrom(s, i + 1);
      assert ImplicitMulFrom(s, i) == p + rest;
      assert Count(rest, c) == Count(s[i + 1..], c) + (if c == '*' then StarSites(s, i + 1) else 0) by {
        ImplicitMulCountFrom(s, i + 1, c);
      }
      assert Count(p + rest, c) == Count(p, c) + Count(rest, c) by { CountAppend(p, rest, c); }
      assert Count(s[i..], c) == Count([s[i]], c) + Count(s[i + 1..], c) by {
        assert s[i..] == [s[i]] + s[i + 1..];
        CountAppend([s[i]], s[i + 1..], c);
      }
      PieceCount(s, i, c);
    }
  }

  lemma {:induction false} PieceCount(s: string, i: nat, c: char)
    requires i < |s|
    ensures Count(Piece(s, i), c) == Count([s[i]], c) + (if c == '*' && NeedsStar(s, i) then 1 else 0)
  {
    if NeedsStar(s, i) {
      assert Piece(s, i) == ['*'] + [s[i]];
      CountAppend(['*'], [s[i]], c);
    }
  }

  lemma {:induction false} ImplicitMulCount(s: string, c: char)
    requires c != '*'
    ensures Count(ImplicitMul(s), c) == Count(s, c)
  {
    ImplicitMulCountFrom(s, 0, c);
    assert s[0..] == s;
  }

  /** The seam between `u` and `v` puts a digit right before an `x`. */
  predicate Seam(u: string, v: string) {
    u != [] && v != [] && v[0] == 'x' && IsDigit(u[|u| - 1])
  }

  /** Over the indices of `u`, the comprehension on `u + v` emits what it
      emits on `u` alone. */
  lemma {:induction false} ImplicitMulFromPrefix(u: string, v: string, i: nat)
    requires i <= |u|
    ensures ImplicitMulFrom(u + v, i) == ImplicitMulFrom(u, i) + ImplicitMulFrom(u + v, |u|)
    decreases |u| - i
  {
    if i < |u| {
      var s := u + v;
      assert Piece(s, i) == Piece(u, i) by {
        assert s[i] == u[i];
        if i > 0 { assert s[i - 1] == u[i - 1]; }
      }
      ImplicitMulFromPrefix(u, v, i + 1);
    }
  }

  /** Over the indices of `v`, the comprehension on `u + v` emits what it
      emits on `v` alone, the seam aside. */
  lemma {:induction false} ImplicitMulFromSuffix(u: string, v: string, j: nat)
    requires j <= |v| && (j > 0 || !Seam(u, v))
    ensures ImplicitMulFrom(u + v, |u| + j) == ImplicitMulFrom(v, j)
    decreases |v| - j
  {
    if j < |v| {
      var s := u + v;
      assert Piece(s, |u| + j) == Piece(v, j) by {
        assert s[|u| + j] == v[j];
        if j > 0 { assert s[|u| + j - 1] == v[j - 1]; }
        else if u != [] { assert s[|u| - 1] == u[|u| - 1]; }
      }
      ImplicitMulFromSuffix(u, v, j + 1);
    }
  }

  /** The rewrite works piece by piece: rewriting `u + v` rewrites `u` and `v`
      apart, plus one `*` exactly when the seam puts a digit before an `x`. */
  lemma {:induction false} ImplicitMulAppend(u: string, v: string)
    ensures ImplicitMul(u + v) == ImplicitMul(u) + (if Seam(u, v) then "*" else "") + ImplicitMul(v)
  {
    var s := u + v;
    assert ImplicitMul(s) == ImplicitMul(u) + ImplicitMulFrom(s, |u|) by {
      ImplicitMulFromPrefix(u, v, 0);
    }
    if Seam(u, v) {
      assert Piece(s, |u|) == "*" + [v[0]] by {
        assert s[|u|] == v[0] && s[|u| - 1] == u[|u| - 1];
      }
      assert ImplicitMulFrom(s, |u| + 1) == ImplicitMulFrom(v, 1) by {
        ImplicitMulFromSuffix(u, v, 1);
      }
      assert ImplicitMul(v) == [v[0]] + ImplicitMulFrom(v, 1) by {
        assert !NeedsStar(v, 0);
      }
    } else {
      ImplicitMulFromSuffix(u, v, 0);
    }
  }

  /** The comment's example (line 47): `5x` becomes `5*x`. A longer digit run
      such as `12x` gets its `*` too, and `x5` is left alone. */
  lemma ImplicitMulExamples()
    ensures ImplicitMul("5x") == "5*x"
    ensures ImplicitMul("12x") == "12*x"
    ensures ImplicitMul("x5") == "x5"
  {
    assert NeedsStar("5x", 1);
    assert NeedsStar("12x", 2);
  }

  // ---------------------------------------------------------------- canonicalization

  /** `if '=' in s: left, right = s.split('='); s = f"({left.strip()})-({right.strip()})"`.
      A split into more than two parts makes the unpacking raise. */
  function Canonicalize(s: string): (r: Result<string>)
    ensures '=' !in s ==> r == Ok(s)
    ensures r.Err? <==> Count(s, '=') >= 2
    ensures r.Err? ==> r.failure == TooManyValues(2, Count(s, '=') + 1)
    ensures r.Ok? ==> '=' !in r.value
  {
    CountZero(s, '=');
    if '=' !in s then Ok(s)
    else
      var parts := Split(s, '=');
      if |parts| != 2 then Err(TooManyValues(2, |parts|))
      else
        ZeroFormNoEquals(parts[0], parts[1]);
        Ok(ZeroForm(parts[0], parts[1]))
  }

  /** The characters the zero form adds around the two sides. */
  predicate ZeroFormPunctuation(c: char) {
    c == '(' || c == ')' || c == '-'
  }

  /** The zero form `(left)-(right)` of an equation `left = right`. It adds
      only `(`, `)` and `-` to the characters of the two sides. */
  function ZeroForm(left: string, right: string): (r: string)
    ensures forall c :: c in r ==> c in left || c in right || ZeroFormPunctuation(c)
  {
    StripChars(left);
    StripChars(right);
    BracketChars(Strip(left), Strip(right));
    "(" + Strip(left) + ")-(" + Strip(right) + ")"
  }

  /** With exactly one `=`, at index `k`, the sides are the text before and
      after it, each stripped of surrounding whitespace. */
  lemma {:induction false} CanonicalizeOneEquals(s: string, k: nat)
    requires k < |s| && s[k] == '='
    requires '=' !in s[..k] && '=' !in s[k + 1..]
    ensures Canonicalize(s) == Ok(ZeroForm(s[..k], s[k + 1..]))
  {
    assert s == s[..k] + ['='] + s[k + 1..];
    SplitFirst(s[..k], s[k + 1..], '=');
    SplitAbsent(s[k + 1..], '=');
  }

  /** A string with exactly one `=` has it at a unique index. */
  lemma {:induction false} OneEqualsAt(s: string) returns (k: nat)
    requires Count(s, '=') == 1
    ensures k < |s| && s[k] == '='
    ensures '=' !in s[..k] && '=' !in s[k + 1..]
  {
    CountZero(s, '=');
    k :| 0 <= k < |s| && s[k] == '=';
    assert s == s[..k] + ([s[k]] + s[k + 1..]);
    CountAppend(s[..k], [s[k]] + s[k + 1..], '=');
    CountAppend([s[k]], s[k + 1..], '=');
    CountZero(s[..k], '=');
    CountZero(s[k + 1..], '=');
  }

  lemma {:induction false} BracketChars(l: string, r: string)
    ensures forall c :: c in "(" + l + ")-(" + r + ")" ==> c in l || c in r || ZeroFormPunctuation(c)
  {
  }

  lemma {:induction false} BracketNoProduct(l: string, r: string)
    requires NoImplicitProduct(l) && NoImplicitProduct(r)
    ensures NoImplicitProduct("(" + l + ")-(" + r + ")")
  {
    NoProductAppend("(", l);
    NoProductAppend("(" + l, ")-(");
    NoProductAppend("(" + l + ")-(", r);
    NoProductAppend("(" + l + ")-(" + r, ")");
  }

  lemma {:induction false} ZeroFormNoEquals(left: string, right: string)
    requires '=' !in left && '=' !in right
    ensures '=' !in ZeroForm(left, right)
  {
    assert !ZeroFormPunctuation('=');
  }

  /** The zero form of two sides without implicit products has none. */
  lemma {:induction false} ZeroFormNoProduct(left: string, right: string)
    requires NoImplicitProduct(left) && NoImplicitProduct(right)
    ensures NoImplicitProduct(ZeroForm(left, right))
  {
    StripNoProduct(left);
    StripNoProduct(right);
    BracketNoProduct(Strip(left), Strip(right));
  }

  /** The zero form of the two sides of an `=` adds only `(`, `)` and `-`
      to the characters of the equation. */
  lemma {:induction false} SidesChars(s: string, k: nat)
    requires k < |s|
    ensures forall c :: c in ZeroForm(s[..k], s[k + 1..]) ==> c in s || ZeroFormPunctuation(c)
  {
    assert forall c :: c in s[..k] ==> c in s;
    assert forall c :: c in s[k + 1..] ==> c in s;
  }

  /** The zero form of the two sides of an `=` has no implicit product when
      the equation has none. */
  lemma {:induction false} SidesNoProduct(s: string, k: nat)
    requires k < |s| && NoImplicitProduct(s)
    ensures NoImplicitProduct(ZeroForm(s[..k], s[k + 1..]))
  {
    NoProductSlice(s, 0, k);
    assert s[0..k] == s[..k];
    NoProductSlice(s, k + 1, |s|);
    assert s[k + 1..|s|] == s[k + 1..];
    ZeroFormNoProduct(s[..k], s[k + 1..]);
  }

  /** Canonicalization adds only `(`, `)` and `-`, and keeps a string free of
      implicit products free of them. */
  lemma {:induction false} CanonicalizeKeeps(s: string)
    requires Count(s, '=') < 2
    ensures forall c :: c in Canonicalize(s).value ==> c in s || ZeroFormPunctuation(c)
    ensures NoImplicitProduct(s) ==> NoImplicitProduct(Canonicalize(s).value)
  {
    CountZero(s, '=');
    if '=' in s {
      var k := OneEqualsAt(s);
      CanonicalizeOneEquals(s, k);
      SidesChars(s, k);
      if NoImplicitProduct(s) {
        SidesNoProduct(s, k);
      }
    }
  }

  lemma {:induction false} StripNoProduct(s: string)
    requires NoImplicitProduct(s)
    ensures NoImplicitProduct(Strip(s))
  {
    var a := StripOffset(s);
    var r := Strip(s);
    NoProductOfSlice(s, r, a, a + |r|);
  }

  // ---------------------------------------------------------------- pipelines

  /** The optimize handler's rewrite (lines 85-92): powers, then implicit
      multiplication; an `=` passes through untouched. */
  function NormalizeFunction(s: string): (r: string)
    ensures '^' !in r && NoImplicitProduct(r)
    ensures forall c :: c != '^' && c != '*' ==> Count(r, c) == Count(s, c)
  {
    var p := PowerRewrite(s);
    assert forall c :: c != '^' && c != '*' ==> Count(p, c) == Count(s, c) by {
      forall c | c != '^' && c != '*' { PowerRewriteCount(s, c); }
    }
    assert forall c :: c != '*' ==> Count(ImplicitMul(p), c) == Count(p, c) by {
      forall c | c != '*' { ImplicitMulCount(p, c); }
    }
    assert '^' !in ImplicitMul(p) by {
      ImplicitMulCount(p, '^');
      CountZero(p, '^');
      CountZero(ImplicitMul(p), '^');
    }
    ImplicitMul(p)
  }

  /** The solve handler's rewrite (lines 45-57): the function rewrite, then
      canonicalization. It fails exactly when the input holds two or more `=`;
      otherwise the result holds no `^`, no `=` and no implicit product. */
  function NormalizeEquation(s: string): (r: Result<string>)
    ensures r.Err? <==> Count(s, '=') >= 2
    ensures r.Err? ==> r.failure == TooManyValues(2, Count(s, '=') + 1)
    ensures '=' !in s ==> r == Ok(NormalizeFunction(s))
    ensures r.Ok? ==> '^' !in r.value && '=' !in r.value && NoImplicitProduct(r.value)
  {
    var f := NormalizeFunction(s);
    assert Count(f, '=') == Count(s, '=');
    CountZero(s, '=');
    CountZero(f, '=');
    var r := Canonicalize(f);
    if r.Ok? then CanonicalizeKeeps(f); r else r
  }

  /** Sides with no surrounding whitespace appear verbatim in the zero form. */
  lemma {:induction false} ZeroFormTight(l: string, r: string)
    requires l != [] && !IsSpace(l[0]) && !IsSpace(l[|l| - 1])
    requires r != [] && !IsSpace(r[0]) && !IsSpace(r[|r| - 1])
    ensures ZeroForm(l, r) == "(" + l + ")-(" + r + ")"
  {
    StripUnique(l, 0, |l|);
    StripUnique(r, 0, |r|);
    assert l[0..|l|] == l && r[0..|r|] == r;
  }

  /** A string whose only `x` can be its first character has no implicit product. */
  lemma {:induction false} NoXAfterStart(s: string)
    requires s != [] && 'x' !in s[1..]
    ensures NoImplicitProduct(s)
  {
    forall i | 0 < i < |s| ensures s[i] != 'x' {
      assert s[1..][i - 1] == s[i];
    }
  }

  // The examples below take the sides of the equation `x^2-4=0` as parameters
  // equal to literals and join them with `=`: an input that is not itself a
  // literal keeps the verifier from evaluating the whole pipeline on it.

  /** Rewriting an equation rewrites its left side and leaves a `^`-free right side alone. */
  lemma {:induction false} PowerRewriteSides(a: string, b: string)
    requires '^' !in b
    ensures PowerRewrite(a + "=" + b) == PowerRewrite(a) + "=" + b
  {
    PowerRewriteAppend(a + "=", b);
    PowerRewriteAppend(a, "=");
    PowerRewriteFixpoint("=");
    PowerRewriteFixpoint(b);
  }

  lemma {:induction false} PowerExample(a: string, b: string)
    requires a == "x^2-4" && b == "0"
    ensures PowerRewrite(a + "=" + b) == "x**2-4" + "=" + b
  {
    assert PowerRewrite(a + "=" + b) == PowerRewrite(a) + "=" + b by { PowerRewriteSides(a, b); }
    PowerLeftExample(a);
  }

  lemma {:induction false} PowerLeftExample(a: string)
    requires a == "x^2-4"
    ensures PowerRewrite(a) == "x**2-4"
  {
    assert a == a[..2] + a[2..] && a[..2] == "x^" && a[2..] == "2-4";
    PowerRewriteLeadingPower(a[..2], a[2..]);
  }

  lemma {:induction false} FunctionExample(a: string, b: string)
    requires a == "x^2-4" && b == "0"
    ensures NormalizeFunction(a + "=" + b) == "x**2-4" + "=" + b
  {
    var s := "x**2-4" + "=" + b;
    assert PowerRewrite(a + "=" + b) == s by { PowerExample(a, b); }
    assert NoImplicitProduct(s) by {
      assert s[1..] == "**2-4=0";
      NoXAfterStart(s);
    }
    ImplicitMulFixpoint(s);
  }

  /** The optimize input `x^2`, given as `x^` and `2`,
      becomes `x**2`. */
  lemma {:induction false} SquareExample(h: string, t: string)
    requires h == "x^" && t == "2"
    ensures NormalizeFunction(h + t) == "x**2"
  {
    var s := "x**" + t;
    assert s == "x**2" && s[1..] == "**2";
    assert PowerRewrite(h + t) == s by { PowerRewriteLeadingPower(h, t); }
    assert NoImplicitProduct(s) by { NoXAfterStart(s); }
    ImplicitMulFixpoint(s);
  }

  /** An equation `l=r` with `=`-free sides canonicalizes to their zero form. */
  lemma {:induction false} CanonicalizeSides(l: string, r: string)
    requires '=' !in l && '=' !in r
    ensures Canonicalize(l + "=" + r) == Ok(ZeroForm(l, r))
  {
    var s := l + "=" + r;
    assert s[..|l|] == l && s[|l|] == '=' && s[|l| + 1..] == r;
    CanonicalizeOneEquals(s, |l|);
  }

  /** Sides without `=` and without surrounding whitespace are bracketed verbatim. */
  lemma {:induction false} CanonicalizeTight(l: string, r: string)
    requires '=' !in l && '=' !in r
    requires l != [] && !IsSpace(l[0]) && !IsSpace(l[|l| - 1])
    requires r != [] && !IsSpace(r[0]) && !IsSpace(r[|r| - 1])
    ensures Canonicalize(l + "=" + r) == Ok("(" + l + ")-(" + r + ")")
  {
    CanonicalizeSides(l, r);
    ZeroFormTight(l, r);
  }

  lemma {:induction false} CanonicalizeExample(l: string, r: string)
    requires l == "x**2-4" && r == "0"
    ensures Canonicalize(l + "=" + r) == Ok("(x**2-4)-(0)")
  {
    var z := "(" + l + ")-(" + r + ")";
    assert z == "(x**2-4)-(0)";
    assert Canonicalize(l + "=" + r) == Ok(z) by {
      assert l[0] == 'x' && l[|l| - 1] == '4' && r[0] == '0';
      CanonicalizeTight(l, r);
    }
  }

  /** The equation `x^2-4=0` normalizes to `(x**2-4)-(0)`. */
  lemma {:induction false} NormalizeEquationExample(a: string, b: string)
    requires a == "x^2-4" && b == "0"
    ensures NormalizeEquation(a + "=" + b) == Ok("(x**2-4)-(0)")
  {
    var l := "x**2-4";
    assert NormalizeFunction(a + "=" + b) == l + "=" + b by { FunctionExample(a, b); }
    CanonicalizeExample(l, b);
  }

  /** The docstring's equation (line 41) after the power rewrite, cut where
      the digit-`x` rewrite acts. */
  lemma {:induction false} QuadraticPower(h: string, t: string, b: string)
    requires h == "x^" && t == "2 + 5x + 6 " && b == " 0"
    ensures PowerRewrite(h + t + "=" + b) == "x**2 + " + "5x" + " + 6 = 0"
  {
    assert PowerRewrite(h + t) == "x**" + t by {
      assert '^' !in t;
      PowerRewriteLeadingPower(h, t);
    }
    assert PowerRewrite(h + t + "=" + b) == PowerRewrite(h + t) + "=" + b by {
      assert '^' !in b;
      PowerRewriteSides(h + t, b);
    }
    QuadraticCut(t, b);
  }

  lemma {:induction false} QuadraticCut(t: string, b: string)
    requires t == "2 + 5x + 6 " && b == " 0"
    ensures "x**" + t + "=" + b == "x**2 + " + "5x" + " + 6 = 0"
  {
  }

  /** Only the `5x` in the middle gets a `*`. */
  lemma {:induction false} QuadraticStar(p1: string, p2: string, p3: string)
    requires p1 == "x**2 + " && p2 == "5x" && p3 == " + 6 = 0"
    ensures ImplicitMul(p1 + p2 + p3) == p1 + "5*x" + p3
  {
    assert ImplicitMul(p1) == p1 by {
      assert p1[1..] == "**2 + ";
      NoXAfterStart(p1);
      ImplicitMulFixpoint(p1);
    }
    assert ImplicitMul(p3) == p3 by {
      assert p3[1..] == "+ 6 = 0";
      NoXAfterStart(p3);
      ImplicitMulFixpoint(p3);
    }
    assert ImplicitMul(p2) == "5*x" by { ImplicitMulExamples(); }
    assert ImplicitMul(p1 + p2) == p1 + "5*x" by {
      ImplicitMulAppend(p1, p2);
      assert !Seam(p1, p2);
    }
    ImplicitMulAppend(p1 + p2, p3);
    assert !Seam(p1 + p2, p3);
  }

  /** The docstring's equation (line 41) after both rewrites: the power
      becomes `**` and `5x` gets its `*`. */
  lemma {:induction false} QuadraticFunction(h: string, t: string, b: string)
    requires h == "x^" && t == "2 + 5x + 6 " && b == " 0"
    ensures NormalizeFunction(h + t + "=" + b) == "x**2 + 5*x + 6 " + "=" + b
  {
    var p1, p2, p3 := "x**2 + ", "5x", " + 6 = 0";
    assert PowerRewrite(h + t + "=" + b) == p1 + p2 + p3 by { QuadraticPower(h, t, b); }
    assert ImplicitMul(p1 + p2 + p3) == p1 + "5*x" + p3 by { QuadraticStar(p1, p2, p3); }
    assert p1 + "5*x" + p3 == "x**2 + 5*x + 6 " + "=" + b;
  }

  /** Stripping the left side drops the space before the `=`. */
  lemma {:induction false} QuadraticStripLeft(l: string)
    requires l == "x**2 + 5*x + 6 "
    ensures Strip(l) == "x**2 + 5*x + 6"
  {
    var m := |l| - 1;
    assert l[..0] == [] && l[m..] == " " && !IsSpace(l[0]) && !IsSpace(l[m - 1]);
    StripUnique(l, 0, m);
    assert l[0..m] == "x**2 + 5*x + 6";
  }

  /** Stripping the right side drops the space after the `=`. */
  lemma {:induction false} QuadraticStripRight(r: string)
    requires r == " 0"
    ensures Strip(r) == "0"
  {
    assert r[..1] == " " && r[2..] == [] && !IsSpace(r[1]);
    StripUnique(r, 1, 2);
    assert r[1..2] == "0";
  }

  /** Both sides are stripped inside the zero form. */
  lemma {:induction false} QuadraticZeroForm(l: string, r: string)
    requires l == "x**2 + 5*x + 6 " && r == " 0"
    ensures ZeroForm(l, r) == "(x**2 + 5*x + 6)-(0)"
  {
    var sl, sr := "x**2 + 5*x + 6", "0";
    assert "(" + sl + ")-(" + sr + ")" == "(x**2 + 5*x + 6)-(0)";
    assert Strip(l) == sl by { QuadraticStripLeft(l); }
    assert Strip(r) == sr by { QuadraticStripRight(r); }
  }

  lemma {:induction false} QuadraticCanonical(l: string, r: string)
    requires l == "x**2 + 5*x + 6 " && r == " 0"
    ensures Canonicalize(l + "=" + r) == Ok("(x**2 + 5*x + 6)-(0)")
  {
    assert '=' !in l && '=' !in r;
    CanonicalizeSides(l, r);
    QuadraticZeroForm(l, r);
  }

  /** The docstring's equation `x^2 + 5x + 6 = 0` (line 41), given as `x^`,
      the rest of the left side and the right side, normalizes to
      `(x**2 + 5*x + 6)-(0)`. */
  lemma {:induction false} QuadraticExample(h: string, t: string, b: string)
    requires h == "x^" && t == "2 + 5x + 6 " && b == " 0"
    ensures NormalizeEquation(h + t + "=" + b) == Ok("(x**2 + 5*x + 6)-(0)")
  {
    var l := "x**2 + 5*x + 6 ";
    assert NormalizeFunction(h + t + "=" + b) == l + "=" + b by { QuadraticFunction(h, t, b); }
    QuadraticCanonical(l, b);
  }
}
