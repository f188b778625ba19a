/**
  The JavaScript string and number built-ins that the image manager relies on,
  stated over `string` (a sequence of code points): whitespace as `\s` and
  `String.prototype.trim` see it, `substring(0, n)`, `slice(-n)`,
  `startsWith`, `split(sep)[1]`, ASCII `toLowerCase`, `Array.prototype.join`
  and `Number.prototype.toString(radix)`.
*/
module JsString {
  import opened Wrappers

  /** The characters matched by `\s` and removed by `trim()`: the ECMAScript
      WhiteSpace and LineTerminator code points. */
  predicate IsJsSpace(c: char) {
    c == '\t' || c == '\n' || c == '\U{000B}' || c == '\U{000C}' || c == '\r' ||
    c == ' ' || c == '\U{00A0}' || c == '\U{1680}' ||
    ('\U{2000}' <= c <= '\U{200A}') ||
    c == '\U{2028}' || c == '\U{2029}' || c == '\U{202F}' || c == '\U{205F}' ||
    c == '\U{3000}' || c == '\U{FEFF}'
  }

  predicate NoSpace(s: string) {
    forall i :: 0 <= i < |s| ==> !IsJsSpace(s[i])
  }

  /** `s` with its leading whitespace removed. */
  function TrimStart(s: string): (r: string)
    ensures |r| <= |s| && r == s[|s| - |r|..]
    ensures r == [] || !IsJsSpace(r[0])
    ensures forall i :: 0 <= i < |s| - |r| ==> IsJsSpace(s[i])
  {
    if s == [] || !IsJsSpace(s[0]) then s else TrimStart(s[1..])
  }

  /** `s` with its trailing whitespace removed. */
  function TrimEnd(s: string): (r: string)
    ensures |r| <= |s| && r == s[..|r|]
    ensures r == [] || !IsJsSpace(r[|r| - 1])
    ensures forall i :: |r| <= i < |s| ==> IsJsSpace(s[i])
  {
    if s == [] || !IsJsSpace(s[|s| - 1]) then s else TrimEnd(s[..|s| - 1])
  }

  /** `String.prototype.trim`. */
  function Trim(s: string): (r: string)
    ensures |r| <= |s|
    ensures r == [] || (!IsJsSpace(r[0]) && !IsJsSpace(r[|r| - 1]))
    ensures NoSpace(s) ==> r == s
  {
    TrimEnd(TrimStart(s))
  }

  /** `substring(0, n)`: the first `n` units, or all of `s` when it is shorter. */
  function Take<T>(s: seq<T>, n: nat): (r: seq<T>)
    ensures |r| == if |s| <= n then |s| else n
    ensures r == s[..|r|]
  {
    if |s| <= n then s else s[..n]
  }

  /** `slice(-n)` for `n > 0`: the last `n` elements, or all of `s` when it is shorter. */
  function LastN<T>(s: seq<T>, n: nat): (r: seq<T>)
    ensures |r| == if |s| <= n then |s| else n
    ensures r == s[|s| - |r|..]
  {
    if |s| <= n then s else s[|s| - n..]
  }

  /** The elements of `s` that satisfy `keep`, in order (`replace` with a
      global negated character class). */
  function Filter<T>(s: seq<T>, keep: T -> bool): (r: seq<T>)
    ensures |r| <= |s|
    ensures forall i :: 0 <= i < |r| ==> keep(r[i])
    ensures (forall i :: 0 <= i < |s| ==> keep(s[i])) ==> r == s
    ensures r == [] <==> forall i :: 0 <= i < |s| ==> !keep(s[i])
  {
    if s == [] then []
    else
      var rest := Filter(s[1..], keep);
      assert forall i :: 1 <= i < |s| ==> s[i] == s[1..][i - 1];
      if keep(s[0]) then [s[0]] + rest else rest
  }

  lemma {:induction false} FilterAppend<T>(a: seq<T>, b: seq<T>, keep: T -> bool)
    ensures Filter(a + b, keep) == Filter(a, keep) + Filter(b, keep)
  {
    if a != [] {
      var s := a + b;
      assert s[0] == a[0] && s[1..] == a[1..] + b;
      FilterAppend(a[1..], b, keep);
      if keep(a[0]) {
        assert Filter(s, keep) == [a[0]] + Filter(s[1..], keep);
        assert Filter(a, keep) == [a[0]] + Filter(a[1..], keep);
      } else {
        assert Filter(s, keep) == Filter(s[1..], keep);
        assert Filter(a, keep) == Filter(a[1..], keep);
      }
    } else {
      assert a + b == b;
    }
  }

  predicate StartsWith(s: string, prefix: string) {
    |prefix| <= |s| && s[..|prefix|] == prefix
  }

  /** The index of the first `c` in `s` at or after `from`, if any. */
  function IndexOfFrom(s: string, c: char, from: nat): (r: Option<nat>)
    decreases |s| - from
    ensures r.Some? ==> from <= r.value < |s| && s[r.value] == c
    ensures r.Some? ==> forall i :: from <= i < r.value ==> s[i] != c
    ensures r.None? ==> forall i :: from <= i < |s| ==> s[i] != c
  {
    if from >= |s| then None
    else if s[from] == c then Some(from)
    else IndexOfFrom(s, c, from + 1)
  }

  /** `s.split(sep)[1]` for a one-character separator: the text between the
      first and the second `sep` (or the end), and `None` (JavaScript's
      `undefined`) when `s` has no `sep`. */
  function SecondField(s: string, sep: char): (r: Option<string>)
    ensures r.None? <==> forall i :: 0 <= i < |s| ==> s[i] != sep
    ensures r.Some? ==> forall i :: 0 <= i < |r.value| ==> r.value[i] != sep
    ensures r.Some? ==> exists k :: FirstSep(s, sep, k) && StartsWith(s[k + 1..], r.value) &&
                                    (|r.value| == |s| - k - 1 || s[k + 1 + |r.value|] == sep)
  {
    match IndexOfFrom(s, sep, 0)
    case None => None
    case Some(k) =>
      match IndexOfFrom(s, sep, k + 1)
      case None => assert FirstSep(s, sep, k); Some(s[k + 1..])
      case Some(m) =>
        assert FirstSep(s, sep, k) && s[k + 1..][..m - k - 1] == s[k + 1..m];
        Some(s[k + 1..m])
  }

  /** The second field of `a`, `sep`, `b` is `b` when neither part holds `sep`. */
  lemma SecondFieldOf(a: string, sep: char, b: string)
    requires forall i :: 0 <= i < |a| ==> a[i] != sep
    requires forall i :: 0 <= i < |b| ==> b[i] != sep
    ensures SecondField(a + [sep] + b, sep) == Some(b)
  {
    var s := a + [sep] + b;
    assert s[|a|] == sep;
    assert forall i :: 0 <= i < |a| ==> s[i] == a[i];
    assert forall i :: |a| < i < |s| ==> s[i] == b[i - |a| - 1];
    assert IndexOfFrom(s, sep, 0) == Some(|a|);
    assert IndexOfFrom(s, sep, |a| + 1) == None;
    assert s[|a| + 1..] == b;
  }

  /** `k` is the position of the first `sep` in `s`. */
  predicate FirstSep(s: string, sep: char, k: int) {
    0 <= k < |s| && s[k] == sep && forall i :: 0 <= i < k ==> s[i] != sep
  }

  function LowerAsciiChar(c: char): (r: char)
    ensures 'A' <= c <= 'Z' ==> 'a' <= r <= 'z'
    ensures !('A' <= c <= 'Z') ==> r == c
  {
    if 'A' <= c <= 'Z' then (c as int + 32) as char else c
  }

  /** `toLowerCase()` restricted to the ASCII letters. */
  function LowerAscii(s: string): (r: string)
    ensures |r| == |s|
    ensures forall i :: 0 <= i < |s| ==> r[i] == LowerAsciiChar(s[i])
  {
    seq(|s|, i requires 0 <= i < |s| => LowerAsciiChar(s[i]))
  }

  /** `Array.prototype.join(sep)`. */
  function Join(parts: seq<string>, sep: string): string {
    if parts == [] then ""
    else if |parts| == 1 then parts[0]
    else parts[0] + sep + Join(parts[1..], sep)
  }

  /* ---------------- Number.prototype.toString(radix) ---------------- */

  /** The digit character of value `d`: `0`-`9`, then `a`-`z`. */
  function Digit(d: nat): (c: char)
    requires d < 36
  {
    if d < 10 then ('0' as int + d) as char else ('a' as int + d - 10) as char
  }

  predicate IsDigitChar(c: char) {
    ('0' <= c <= '9') || ('a' <= c <= 'z')
  }

  function DigitValue(c: char): (d: nat)
    requires IsDigitChar(c)
    ensures d < 36 && Digit(d) == c
  {
    if c <= '9' then c as int - '0' as int else c as int - 'a' as int + 10
  }

  /** `n.toString(radix)` for a non-negative integer `n`. */
  function Radix(n: nat, radix: nat): (r: string)
    requires 2 <= radix <= 36
    ensures |r| > 0
    ensures forall i :: 0 <= i < |r| ==> IsDigitChar(r[i])
  {
    if n < radix then [Digit(n)]
    else DivMod(n, radix); Radix(n / radix, radix) + [Digit(n % radix)]
  }

  /** The value of a string of digits read in base `radix`. */
  function FromRadix(s: string, radix: nat): int
    requires 2 <= radix <= 36
    requires forall i :: 0 <= i < |s| ==> IsDigitChar(s[i])
  {
    if s == [] then 0
    else
      var init := s[..|s| - 1];
      DigitsInit(s, init);
      FromRadix(init, radix) * radix + DigitValue(s[|s| - 1])
  }

  lemma DigitsInit(s: string, init: string)
    requires s != [] && init == s[..|s| - 1]
    requires forall i :: 0 <= i < |s| ==> IsDigitChar(s[i])
    ensures forall i :: 0 <= i < |init| ==> IsDigitChar(init[i])
  {
    assert forall i :: 0 <= i < |init| ==> init[i] == s[i];
  }

  /** Reading back the digits written by `Radix` gives the number. */
  lemma {:induction false} RadixRoundTrip(n: nat, radix: nat)
    requires 2 <= radix <= 36
    ensures FromRadix(Radix(n, radix), radix) == n
  {
    var r := Radix(n, radix);
    if n < radix {
      assert r[..0] == [];
    } else {
      var q, m := n / radix, n % radix;
      DivMod(n, radix);
      RadixRoundTrip(q, radix);
      FromRadixSnoc(Radix(q, radix), m, radix);
      assert r == Radix(q, radix) + [Digit(m)];
      assert FromRadix(r, radix) == FromRadix(Radix(q, radix), radix) * radix + m;
      assert FromRadix(r, radix) == q * radix + m;
    }
  }

  lemma FromRadixSnoc(s: string, d: nat, radix: nat)
    requires 2 <= radix <= 36 && d < radix
    requires forall i :: 0 <= i < |s| ==> IsDigitChar(s[i])
    ensures FromRadix(s + [Digit(d)], radix) == FromRadix(s, radix) * radix + d
  {
    var t := s + [Digit(d)];
    assert t[..|t| - 1] == s;
  }

  lemma DivMod(n: nat, radix: nat)
    requires 2 <= radix <= n
    ensures (n / radix) * radix + n % radix == n
    ensures n % radix < radix && n / radix < n
  {
  }

  /** Different numbers have different renderings in a given radix. */
  lemma RadixInjective(m: nat, n: nat, radix: nat)
    requires 2 <= radix <= 36
    ensures Radix(m, radix) == Radix(n, radix) ==> m == n
  {
    RadixRoundTrip(m, radix);
    RadixRoundTrip(n, radix);
  }
}
