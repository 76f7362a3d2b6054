/** Character-level helpers: Python's whitespace stripping, ASCII decimal
    digits, and the code-point ordering that both Python and SQLite's BINARY
    collation use for strings. */
module Text {

  /** Python's `str.isspace`: the characters `str.strip()` removes. */
  predicate IsSpace(c: char) {
    var n := c as int;
    || n == 0x20 || 0x09 <= n <= 0x0D || 0x1C <= n <= 0x1F
    || n == 0x85 || n == 0xA0 || n == 0x1680 || 0x2000 <= n <= 0x200A
    || n == 0x2028 || n == 0x2029 || n == 0x202F || n == 0x205F || n == 0x3000
  }

  predicate AllSpace(s: string) {
    forall i :: 0 <= i < |s| ==> IsSpace(s[i])
  }

  /** A string with nothing left to strip at either end. */
  predicate Trimmed(s: string) {
    s == [] || (!IsSpace(s[0]) && !IsSpace(s[|s| - 1]))
  }

  function StripLeading(s: string): (r: string)
    ensures |r| <= |s| && r == s[|s| - |r|..]
    ensures AllSpace(s[..|s| - |r|])
    ensures r == [] || !IsSpace(r[0])
  {
    if s != [] && IsSpace(s[0]) then StripLeading(s[1..]) else s
  }

  function StripTrailing(s: string): (r: string)
    ensures |r| <= |s| && r == s[..|r|]
    ensures AllSpace(s[|r|..])
    ensures r == [] || !IsSpace(r[|r| - 1])
  {
    if s != [] && IsSpace(s[|s| - 1]) then StripTrailing(s[..|s| - 1]) else s
  }

  /** `str.strip()` without arguments: the longest infix with no whitespace
      at either end such that only whitespace was cut off around it. */
  function Strip(s: string): (r: string)
    ensures Trimmed(r)
    ensures |r| <= |s|
  {
    StripTrailing(StripLeading(s))
  }

  lemma {:induction false} StripLeadingPadded(pre: string, rest: string)
    requires AllSpace(pre)
    requires rest == [] || !IsSpace(rest[0])
    ensures StripLeading(pre + rest) == rest
    decreases |pre|
  {
    if pre == [] {
      assert pre + rest == rest;
    } else {
      assert (pre + rest)[1..] == pre[1..] + rest;
      StripLeadingPadded(pre[1..], rest);
    }
  }

  lemma {:induction false} StripTrailingPadded(rest: string, post: string)
    requires AllSpace(post)
    requires rest == [] || !IsSpace(rest[|rest| - 1])
    ensures StripTrailing(rest + post) == rest
    decreases |post|
  {
    if post == [] {
      assert rest + post == rest;
    } else {
      var n := |rest + post|;
      assert (rest + post)[n - 1] == post[|post| - 1];
      assert (rest + post)[..n - 1] == rest + post[..|post| - 1];
      StripTrailingPadded(rest, post[..|post| - 1]);
    }
  }

  /** Stripping recovers exactly the core of any whitespace-padded string:
      this pins `Strip` down completely. */
  lemma StripPadded(pre: string, core: string, post: string)
    requires AllSpace(pre) && AllSpace(post)
    requires Trimmed(core)
    ensures Strip(pre + core + post) == core
  {
    if core == [] {
      assert pre + core + post == pre + post;
      StripLeadingPadded(pre + post, []);
      assert pre + post + [] == pre + post;
      StripTrailingPadded([], []);
    } else {
      assert pre + core + post == pre + (core + post);
      StripLeadingPadded(pre, core + post);
      StripTrailingPadded(core, post);
    }
  }

  /** Stripping twice is stripping once. */
  lemma StripIdempotent(s: string)
    ensures Strip(Strip(s)) == Strip(s)
  {
    var t := Strip(s);
    assert [] + t + [] == t;
    StripPadded([], t, []);
  }

  predicate IsDigit(c: char) {
    '0' <= c <= '9'
  }

  predicate AllDigits(s: string) {
    forall i :: 0 <= i < |s| ==> IsDigit(s[i])
  }

  function DigitValue(c: char): (d: nat)
    requires IsDigit(c)
    ensures d < 10
  {
    c as int - '0' as int
  }

  function DigitChar(d: nat): (c: char)
    requires d < 10
    ensures IsDigit(c) && DigitValue(c) == d
  {
    ('0' as int + d) as char
  }

  /** Python's `int()` on a string of ASCII decimal digits. */
  function DecimalValue(s: string): nat
    requires AllDigits(s)
  {
    if s == [] then 0 else DecimalValue(s[..|s| - 1]) * 10 + DigitValue(s[|s| - 1])
  }

  /** A number below 100 as exactly two digits, zero-padded (`%02d`). */
  function TwoDigits(n: nat): (s: string)
    requires n < 100
    ensures |s| == 2 && AllDigits(s) && DecimalValue(s) == n
  {
    var s := [DigitChar(n / 10), DigitChar(n % 10)];
    assert s[..1] == [s[0]] && s[..1][..0] == [];
    assert DecimalValue(s[..1]) == n / 10;
    s
  }

  /** Strict lexicographic order by code point: Python's `<` on `str`, and
      SQLite's BINARY collation on UTF-8 text. */
  predicate LexLess(a: string, b: string) {
    if a == [] then b != []
    else b != [] && (a[0] < b[0] || (a[0] == b[0] && LexLess(a[1..], b[1..])))
  }

  lemma {:induction false} LexLessIrreflexive(a: string)
    ensures !LexLess(a, a)
  {
    if a != [] {
      LexLessIrreflexive(a[1..]);
    }
  }

  lemma {:induction false} LexLessTransitive(a: string, b: string, c: string)
    requires LexLess(a, b) && LexLess(b, c)
    ensures LexLess(a, c)
  {
    if a != [] && a[0] == b[0] && b[0] == c[0] {
      LexLessTransitive(a[1..], b[1..], c[1..]);
    }
  }

  lemma {:induction false} LexLessTotal(a: string, b: string)
    ensures a == b || LexLess(a, b) || LexLess(b, a)
  {
    if a != [] && b != [] && a[0] == b[0] {
      LexLessTotal(a[1..], b[1..]);
      if a[1..] == b[1..] {
        assert a == [a[0]] + a[1..] && b == [b[0]] + b[1..];
      }
    }
  }

  /** Every non-empty finite set of strings has a least element. */
  lemma {:induction false} LeastNameExists(names: set<string>)
    requires names != {}
    ensures exists m :: m in names && forall x :: x in names && x != m ==> LexLess(m, x)
    decreases |names|
  {
    var x :| x in names;
    var rest := names - {x};
    assert names == rest + {x};
    assert |rest| == |names| - 1;
    if rest == {} {
      assert names == {x};
    } else {
      LeastNameExists(rest);
      var m :| m in rest && forall y :: y in rest && y != m ==> LexLess(m, y);
      LeastOfOneMore(rest, m, x);
    }
  }

  /** Adding a name to a set with a least element: the new least is the
      smaller of the old least and the added name. */
  lemma LeastOfOneMore(rest: set<string>, m: string, x: string)
    requires m in rest && forall y :: y in rest && y != m ==> LexLess(m, y)
    ensures exists l :: l in rest + {x} && forall y :: y in rest + {x} && y != l ==> LexLess(l, y)
  {
    LexLessTotal(m, x);
    if m == x || LexLess(m, x) {
      assert m in rest + {x};
      assert forall y :: y in rest + {x} && y != m ==> LexLess(m, y);
    } else {
      forall y | y in rest + {x} && y != x
        ensures LexLess(x, y)
      {
        if y != m {
          LexLessTransitive(x, m, y);
        }
      }
      assert x in rest + {x};
    }
  }

  /** The names of a finite set in ascending order, as `ORDER BY name`
      returns them. */
  function SortedNames(names: set<string>): (r: seq<string>)
    ensures forall i, j :: 0 <= i < j < |r| ==> LexLess(r[i], r[j])
    ensures forall n :: n in r <==> n in names
    decreases |names|
  {
    if names == {} then []
    else
      LeastNameExists(names);
      LexLessAsymmetricAll();
      var m :| m in names && forall x :: x in names && x != m ==> LexLess(m, x);
      var rest := SortedNames(names - {m});
      forall j | 0 <= j < |rest|
        ensures LexLess(m, rest[j])
      {
        assert rest[j] in rest;
        assert rest[j] in names && rest[j] != m;
      }
      [m] + rest
  }

  lemma LexLessAsymmetricAll()
    ensures forall a, b :: LexLess(a, b) ==> !LexLess(b, a)
  {
    forall a, b | LexLess(a, b)
      ensures !LexLess(b, a)
    {
      if LexLess(b, a) {
        LexLessTransitive(a, b, a);
        LexLessIrreflexive(a);
      }
    }
  }
}
