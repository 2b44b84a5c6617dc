/**
 * The handful of Python `str`, `list` and `int` operations the modelled code
 * relies on: `sep.join(xs)`, `[x] * n`, `itertools.chain`, `str.strip()`,
 * `str(n)` for naturals, `str.find`, `str.replace(old, new, 1)` and
 * `str.split(c)`, each with the property that pins its meaning down.
 */
module Strings {
  import opened Base

  /** `[x] * n` */
  function Repeat<T>(x: T, n: nat): (r: seq<T>)
    ensures |r| == n
    ensures forall i :: 0 <= i < n ==> r[i] == x
  {
    if n == 0 then [] else [x] + Repeat(x, n - 1)
  }

  /** `list(itertools.chain.from_iterable(xss))` */
  function Flatten<T>(xss: seq<seq<T>>): seq<T>
  {
    if |xss| == 0 then [] else xss[0] + Flatten(xss[1..])
  }

  function TotalLength<T>(xss: seq<seq<T>>): nat
  {
    if |xss| == 0 then 0 else |xss[0]| + TotalLength(xss[1..])
  }

  lemma {:induction false} FlattenLength<T>(xss: seq<seq<T>>)
    ensures |Flatten(xss)| == TotalLength(xss)
  {
    if |xss| > 0 {
      FlattenLength(xss[1..]);
    }
  }

  lemma {:induction false} FlattenAppend<T>(a: seq<seq<T>>, b: seq<seq<T>>)
    ensures Flatten(a + b) == Flatten(a) + Flatten(b)
  {
    if |a| == 0 {
      assert a + b == b;
    } else {
      assert (a + b)[1..] == a[1..] + b;
      FlattenAppend(a[1..], b);
    }
  }

  /** `sep.join(xs)` */
  function Join(sep: string, xs: seq<string>): string
  {
    if |xs| == 0 then "" else if |xs| == 1 then xs[0] else xs[0] + sep + Join(sep, xs[1..])
  }

  /** A joined string is as long as its parts plus one separator between each two. */
  lemma {:induction false} JoinLength(sep: string, xs: seq<string>)
    requires |xs| >= 1
    ensures |Join(sep, xs)| == TotalLength(xs) + (|xs| - 1) * |sep|
  {
    if |xs| > 1 {
      JoinLength(sep, xs[1..]);
    }
  }

  /** `s.split(c)` for a one-character separator. */
  function Split(s: string, c: char): (r: seq<string>)
    ensures |r| >= 1
    ensures forall i :: 0 <= i < |r| ==> c !in r[i]
  {
    if |s| == 0 then [""]
    else if s[0] == c then [""] + Split(s[1..], c)
    else
      var rest := Split(s[1..], c);
      [[s[0]] + rest[0]] + rest[1..]
  }

  lemma {:induction false} SplitWithoutSeparator(x: string, c: char)
    requires c !in x
    ensures Split(x, c) == [x]
  {
    if |x| > 0 {
      SplitWithoutSeparator(x[1..], c);
      assert [x[0]] + x[1..] == x;
    }
  }

  lemma {:induction false} SplitAtFirstSeparator(x: string, c: char, y: string)
    requires c !in x
    ensures Split(x + [c] + y, c) == [x] + Split(y, c)
  {
    var s := x + [c] + y;
    if |x| == 0 {
      assert s[1..] == y;
    } else {
      assert s[1..] == x[1..] + [c] + y;
      SplitAtFirstSeparator(x[1..], c, y);
      assert [x[0]] + x[1..] == x;
    }
  }

  /** Splitting a joined list on its one-character separator gives the list back. */
  lemma {:induction false} SplitJoin(xs: seq<string>, c: char)
    requires |xs| >= 1
    requires forall i :: 0 <= i < |xs| ==> c !in xs[i]
    ensures Split(Join([c], xs), c) == xs
  {
    if |xs| == 1 {
      SplitWithoutSeparator(xs[0], c);
    } else {
      SplitJoin(xs[1..], c);
      SplitAtFirstSeparator(xs[0], c, Join([c], xs[1..]));
      assert [xs[0]] + xs[1..] == xs;
    }
  }

  /** Python's `str.isspace()` for one character. */
  predicate IsSpace(c: char)
  {
    || c == ' ' || c == '\t' || c == '\n' || c == '\r' || c == '\U{000B}' || c == '\U{000C}'
    || '\U{001C}' <= c <= '\U{001F}' || c == '\U{0085}' || c == '\U{00A0}' || c == '\U{1680}'
    || '\U{2000}' <= c <= '\U{200A}' || c == '\U{2028}' || c == '\U{2029}' || c == '\U{202F}'
    || c == '\U{205F}' || c == '\U{3000}'
  }

  predicate AllSpace(s: string)
  {
    forall i :: 0 <= i < |s| ==> IsSpace(s[i])
  }

  /** Neither end of `s` is white space. */
  predicate Trimmed(s: string)
  {
    |s| > 0 ==> !IsSpace(s[0]) && !IsSpace(s[|s| - 1])
  }

  /** `s.lstrip()`: the longest suffix of `s` that does not start with white space. */
  function LStrip(s: string): (r: string)
    ensures |r| <= |s| && r == s[|s| - |r|..]
    ensures AllSpace(s[..|s| - |r|])
    ensures |r| > 0 ==> !IsSpace(r[0])
  {
    if |s| > 0 && IsSpace(s[0]) then LStrip(s[1..]) else s
  }

  /** `s.rstrip()`: the longest prefix of `s` that does not end with white space. */
  function RStrip(s: string): (r: string)
    ensures |r| <= |s| && r == s[..|r|]
    ensures AllSpace(s[|r|..])
    ensures |r| > 0 ==> !IsSpace(r[|r| - 1])
  {
    if |s| > 0 && IsSpace(s[|s| - 1]) then RStrip(s[..|s| - 1]) else s
  }

  /** `s.strip()` */
  function Strip(s: string): (r: string)
    ensures Trimmed(r)
    ensures |r| <= |s|
  {
    var l := LStrip(s);
    var r := RStrip(l);
    assert |r| > 0 ==> r[0] == l[0];
    r
  }

  lemma {:induction false} LStripOf(a: string, m: string)
    requires AllSpace(a)
    requires |m| > 0 ==> !IsSpace(m[0])
    ensures LStrip(a + m) == m
  {
    if |a| > 0 {
      assert (a + m)[1..] == a[1..] + m;
      LStripOf(a[1..], m);
    } else {
      assert a + m == m;
    }
  }

  lemma {:induction false} RStripOf(m: string, b: string)
    requires AllSpace(b)
    requires |m| > 0 ==> !IsSpace(m[|m| - 1])
    ensures RStrip(m + b) == m
  {
    if |b| > 0 {
      assert (m + b)[..|m + b| - 1] == m + b[..|b| - 1];
      RStripOf(m, b[..|b| - 1]);
    } else {
      assert m + b == m;
    }
  }

  /**
   * `strip` removes exactly the white space around the text: whatever white
   * space surrounds a trimmed middle, the middle is what comes back.
   */
  lemma StripOf(a: string, m: string, b: string)
    requires AllSpace(a) && AllSpace(b) && Trimmed(m)
    ensures Strip(a + m + b) == m
  {
    if |m| == 0 {
      assert a + m + b == a + b;
      LStripOf(a + b, "");
      assert a + b + "" == a + b;
      assert RStrip("") == "";
    } else {
      assert a + m + b == a + (m + b);
      LStripOf(a, m + b);
      RStripOf(m, b);
    }
  }

  /** `s.strip()` drops only white space from either end. */
  lemma StripSlice(s: string)
    ensures exists a, b :: AllSpace(a) && AllSpace(b) && s == a + Strip(s) + b
  {
    var l := LStrip(s);
    var r := RStrip(l);
    assert Strip(s) == r;
    Recompose(s, l, r);
    assert AllSpace(s[..|s| - |l|]) && AllSpace(l[|r|..]);
  }

  /** A suffix `l` of `s` and a prefix `r` of `l` put `s` back together with what lies around `r`. */
  lemma Recompose(s: string, l: string, r: string)
    requires |l| <= |s| && l == s[|s| - |l|..] && |r| <= |l| && r == l[..|r|]
    ensures s == s[..|s| - |l|] + r + l[|r|..]
  {
    assert l == r + l[|r|..];
  }

  /** Stripping twice is stripping once. */
  lemma StripIdempotent(s: string)
    ensures Strip(Strip(s)) == Strip(s)
  {
    var r := Strip(s);
    StripOf("", r, "");
    assert "" + r + "" == r;
  }

  predicate IsDigit(c: char)
  {
    '0' <= c <= '9'
  }

  function DigitChar(d: nat): (c: char)
    requires d < 10
    ensures IsDigit(c)
  {
    (48 + d) as char
  }

  function DigitValue(c: char): (d: nat)
    requires IsDigit(c)
    ensures d < 10
  {
    (c as int) - 48
  }

  /** `str(n)` for a natural number: decimal digits, no leading zero. */
  function NatToString(n: nat): (r: string)
    ensures |r| >= 1
    ensures forall i :: 0 <= i < |r| ==> IsDigit(r[i])
    ensures |r| > 1 ==> r[0] != '0'
  {
    if n < 10 then [DigitChar(n)] else NatToString(n / 10) + [DigitChar(n % 10)]
  }

  /** `int(s)` for a string of decimal digits. */
  function DecimalValue(s: string): nat
    requires forall i :: 0 <= i < |s| ==> IsDigit(s[i])
  {
    if |s| == 0 then 0 else 10 * DecimalValue(s[..|s| - 1]) + DigitValue(s[|s| - 1])
  }

  /** Reading back the decimal text of `n` gives `n`. */
  lemma {:induction false} DecimalRoundTrip(n: nat)
    ensures DecimalValue(NatToString(n)) == n
  {
    var s := NatToString(n);
    if n >= 10 {
      DecimalRoundTrip(n / 10);
      assert s[..|s| - 1] == NatToString(n / 10);
    }
  }

  /** Different numbers have different decimal texts. */
  lemma NatToStringInjective(m: nat, n: nat)
    requires NatToString(m) == NatToString(n)
    ensures m == n
  {
    DecimalRoundTrip(m);
    DecimalRoundTrip(n);
  }

  /** `pat` occurs in `s` starting at index `i`. */
  predicate OccursAt(s: string, pat: string, i: nat)
  {
    i + |pat| <= |s| && s[i..i + |pat|] == pat
  }

  /** `s.find(pat, start)`, with `None` for Python's `-1`. */
  function FindFrom(s: string, pat: string, start: nat): (r: Option<nat>)
    requires start <= |s|
    ensures r.Some? ==> start <= r.value && OccursAt(s, pat, r.value)
    ensures forall j: nat :: start <= j && (r.None? || j < r.value) ==> !OccursAt(s, pat, j)
    decreases |s| - start
  {
    if OccursAt(s, pat, start) then Some(start)
    else if start == |s| then None
    else FindFrom(s, pat, start + 1)
  }

  /** `s.find(pat)` */
  function Find(s: string, pat: string): Option<nat>
  {
    FindFrom(s, pat, 0)
  }

  /** `s.replace(old, new, 1)` */
  function ReplaceFirst(s: string, target: string, repl: string): string
  {
    match Find(s, target)
    case None => s
    case Some(k) => s[..k] + repl + s[k + |target|..]
  }

  /** The replacement happens at the first occurrence, and only there. */
  lemma ReplaceFirstAt(a: string, target: string, b: string, repl: string)
    requires forall j: nat :: j < |a| ==> !OccursAt(a + target + b, target, j)
    ensures ReplaceFirst(a + target + b, target, repl) == a + repl + b
  {
    var s := a + target + b;
    assert OccursAt(s, target, |a|) by {
      assert s[|a|..|a| + |target|] == target;
    }
    var k := Find(s, target);
    assert k == Some(|a|);
    assert s[..|a|] == a;
    assert s[|a| + |target|..] == b;
  }

  /** A pattern that starts with a character absent from `a` cannot start inside `a`. */
  lemma NoOccurrenceBefore(a: string, rest: string, pat: string)
    requires |pat| > 0 && pat[0] !in a
    ensures forall j: nat :: j < |a| ==> !OccursAt(a + rest, pat, j)
  {
  }

  /** When the text before an occurrence cannot start one, that occurrence is the one replaced. */
  lemma ReplaceFirstAfter(a: string, target: string, b: string, repl: string)
    requires |target| > 0 && target[0] !in a
    ensures ReplaceFirst(a + target + b, target, repl) == a + repl + b
  {
    NoOccurrenceBefore(a, target + b, target);
    assert a + (target + b) == a + target + b;
    ReplaceFirstAt(a, target, b, repl);
  }

  /** Replacing in a string where `target` does not occur leaves it alone. */
  lemma ReplaceFirstAbsent(s: string, target: string, repl: string)
    requires forall j: nat :: j <= |s| ==> !OccursAt(s, target, j)
    ensures ReplaceFirst(s, target, repl) == s
  {
  }
}
