/** String primitives that the Python back end and the TypeScript front end
    rely on: substring search (`str.find` / `String.prototype.indexOf`),
    prefix tests, whitespace trimming with each language's own notion of
    whitespace, Python slicing with negative bounds, and decimal rendering
    of integers (`str(int)` / template literals). */
module Text {

  /* ---------------------------------------------------------------- */
  /* Prefixes, suffixes and occurrences                               */
  /* ---------------------------------------------------------------- */

  predicate StartsWith(s: string, p: string) {
    |p| <= |s| && s[..|p|] == p
  }

  predicate EndsWith(s: string, p: string) {
    |p| <= |s| && s[|s| - |p|..] == p
  }

  /** `p` occurs in `s` starting at index `i`. */
  predicate OccursAt(s: string, p: string, i: int) {
    0 <= i && i + |p| <= |s| && s[i..i + |p|] == p
  }

  /** Python's `p in s`. */
  predicate Contains(s: string, p: string) {
    exists i | 0 <= i <= |s| :: OccursAt(s, p, i)
  }

  /** Python's `s.find(p, from)` and JavaScript's `s.indexOf(p, from)`:
      the first index at or after `from` where `p` occurs, or -1. */
  function Find(s: string, p: string, from: nat): (r: int)
    ensures r == -1 || (from <= r && r + |p| <= |s|)
    decreases |s| - from
  {
    if from + |p| > |s| then -1
    else if s[from..from + |p|] == p then from
    else Find(s, p, from + 1)
  }

  /** What `Find` answers is an occurrence. */
  lemma {:induction false} FindFound(s: string, p: string, from: nat)
    requires Find(s, p, from) != -1
    ensures OccursAt(s, p, Find(s, p, from))
    decreases |s| - from
  {
    if from + |p| <= |s| && s[from..from + |p|] != p {
      FindFound(s, p, from + 1);
    }
  }

  /** `Find` misses no earlier occurrence: before its answer, or anywhere
      from `from` on when it answers -1, `p` does not occur. */
  lemma {:induction false} FindIsLeftmost(s: string, p: string, from: nat)
    ensures Find(s, p, from) == -1 ==> forall i :: from <= i ==> !OccursAt(s, p, i)
    ensures Find(s, p, from) != -1 ==> forall i :: from <= i < Find(s, p, from) ==> !OccursAt(s, p, i)
    decreases |s| - from
  {
    if from + |p| <= |s| && s[from..from + |p|] != p {
      FindIsLeftmost(s, p, from + 1);
    }
  }

  lemma FindContains(s: string, p: string)
    ensures Find(s, p, 0) != -1 <==> Contains(s, p)
  {
    FindIsLeftmost(s, p, 0);
    if Find(s, p, 0) != -1 {
      FindFound(s, p, 0);
    }
  }

  /** An occurrence lying wholly inside `a` is also the first one in `a + b`. */
  lemma FindInPrefix(a: string, b: string, p: string)
    requires Find(a, p, 0) != -1
    ensures Find(a + b, p, 0) == Find(a, p, 0)
  {
    var k := Find(a, p, 0);
    FindIsLeftmost(a, p, 0);
    FindFound(a, p, 0);
    assert (a + b)[k..k + |p|] == a[k..k + |p|];
    forall i | 0 <= i < k
      ensures !OccursAt(a + b, p, i)
    {
      assert !OccursAt(a, p, i);
      assert (a + b)[i..i + |p|] == a[i..i + |p|];
    }
    FindIsFirst(a + b, p, k);
  }

  /** An index where `p` occurs and before which it never occurs is what
      `Find` returns. */
  lemma FindIsFirst(s: string, p: string, k: nat)
    requires OccursAt(s, p, k)
    requires forall i :: 0 <= i < k ==> !OccursAt(s, p, i)
    ensures Find(s, p, 0) == k
  {
    FindIsLeftmost(s, p, 0);
    if Find(s, p, 0) != -1 {
      FindFound(s, p, 0);
    }
  }

  /** Searching from `from` finds the first occurrence when none starts
      earlier. */
  lemma FindSkip(s: string, p: string, from: nat)
    requires forall i :: 0 <= i < from ==> !OccursAt(s, p, i)
    ensures Find(s, p, from) == Find(s, p, 0)
  {
    FindIsLeftmost(s, p, 0);
    FindIsLeftmost(s, p, from);
    if Find(s, p, 0) != -1 {
      FindFound(s, p, 0);
    }
    if Find(s, p, from) != -1 {
      FindFound(s, p, from);
    }
  }

  /** No occurrence at all means none from any later start either. */
  lemma FindNoneFrom(s: string, p: string, from: nat)
    requires Find(s, p, 0) == -1
    ensures Find(s, p, from) == -1
  {
    FindIsLeftmost(s, p, 0);
    if Find(s, p, from) != -1 {
      FindFound(s, p, from);
    }
  }

  /** Searching a suffix is searching the whole from where the suffix
      starts: positions shift by `from`. */
  lemma {:induction false} FindShift(s: string, p: string, from: nat, k: nat)
    requires from <= |s|
    ensures Find(s[from..], p, k) == -1 <==> Find(s, p, from + k) == -1
    ensures Find(s[from..], p, k) != -1 ==> Find(s, p, from + k) == from + Find(s[from..], p, k)
    decreases |s| - from - k
  {
    var t := s[from..];
    if k + |p| <= |t| {
      assert t[k..k + |p|] == s[from + k..from + k + |p|];
      if t[k..k + |p|] != p {
        FindShift(s, p, from, k + 1);
      }
    }
  }

  /** An occurrence that lies wholly inside `a` does not see what follows. */
  lemma OccursInPrefix(a: string, b: string, p: string, i: nat)
    requires i + |p| <= |a|
    ensures OccursAt(a + b, p, i) <==> OccursAt(a, p, i)
  {
    assert (a + b)[i..i + |p|] == a[i..i + |p|];
  }

  /** A string occurs where it is spliced in. */
  lemma OccursInMiddle(a: string, p: string, b: string)
    ensures OccursAt(a + p + b, p, |a|)
  {
    assert (a + p + b)[|a|..|a| + |p|] == p;
  }

  /** No character of `s` is `c`. */
  predicate Lacks(s: string, c: char) {
    forall i :: 0 <= i < |s| ==> s[i] != c
  }

  /* ---------------------------------------------------------------- */
  /* Whitespace and trimming                                          */
  /* ---------------------------------------------------------------- */

  /** Whose definition of whitespace applies: JavaScript's
      `String.prototype.trim` or Python's `str.strip` / regex `\s`. */
  datatype Whitespace = JsWhitespace | PyWhitespace

  /** ECMAScript WhiteSpace and LineTerminator code points. */
  predicate IsJsSpace(c: char) {
    var n := c as int;
    n == 0x09 || n == 0x0A || n == 0x0B || n == 0x0C || n == 0x0D || n == 0x20
    || n == 0xA0 || n == 0x1680 || (0x2000 <= n <= 0x200A)
    || n == 0x2028 || n == 0x2029 || n == 0x202F || n == 0x205F || n == 0x3000
    || n == 0xFEFF
  }

  /** The code points for which Python's `str.isspace()` holds. */
  predicate IsPySpace(c: char) {
    var n := c as int;
    (0x09 <= n <= 0x0D) || (0x1C <= n <= 0x20) || n == 0x85 || n == 0xA0
    || n == 0x1680 || (0x2000 <= n <= 0x200A) || n == 0x2028 || n == 0x2029
    || n == 0x202F || n == 0x205F || n == 0x3000
  }

  predicate IsSpace(w: Whitespace, c: char) {
    match w
    case JsWhitespace => IsJsSpace(c)
    case PyWhitespace => IsPySpace(c)
  }

  predicate AllSpace(s: string, w: Whitespace) {
    forall i :: 0 <= i < |s| ==> IsSpace(w, s[i])
  }

  /** Neither end of `s` is whitespace (an empty string qualifies). */
  predicate Tight(s: string, w: Whitespace) {
    |s| == 0 || (!IsSpace(w, s[0]) && !IsSpace(w, s[|s| - 1]))
  }

  /** `s.trim()` (JavaScript) or `s.strip()` (Python): `s` without its
      leading and trailing whitespace. Characters are dropped one at a time
      from either end; the order does not affect the result. */
  function Trim(s: string, w: Whitespace): (r: string)
    ensures |r| <= |s|
    decreases |s|
  {
    if |s| == 0 then s
    else if IsSpace(w, s[0]) then Trim(s[1..], w)
    else if IsSpace(w, s[|s| - 1]) then Trim(s[..|s| - 1], w)
    else s
  }

  /** The trimmed text has no whitespace at its ends, is empty exactly when
      the input was all whitespace, and leaves a tight input untouched. */
  lemma {:induction false} TrimSpec(s: string, w: Whitespace)
    ensures Tight(Trim(s, w), w)
    ensures Trim(s, w) == "" <==> AllSpace(s, w)
    ensures Tight(s, w) ==> Trim(s, w) == s
    decreases |s|
  {
    if |s| > 0 && IsSpace(w, s[0]) {
      TrimSpec(s[1..], w);
      assert forall i :: 0 < i < |s| ==> s[i] == s[1..][i - 1];
    } else if |s| > 0 && IsSpace(w, s[|s| - 1]) {
      TrimSpec(s[..|s| - 1], w);
      assert forall i :: 0 <= i < |s| - 1 ==> s[i] == s[..|s| - 1][i];
    }
  }

  lemma AllSpaceConcat(a: string, b: string, w: Whitespace)
    requires AllSpace(a, w) && AllSpace(b, w)
    ensures AllSpace(a + b, w)
  {
  }

  /** Trimming removes exactly the padding around a tight, non-empty core. */
  lemma {:induction false} TrimPadded(lead: string, x: string, trail: string, w: Whitespace)
    requires AllSpace(lead, w) && AllSpace(trail, w)
    requires x != "" && Tight(x, w)
    ensures Trim(lead + x + trail, w) == x
    decreases |lead| + |trail|
  {
    var s := lead + x + trail;
    if |lead| > 0 {
      assert s[0] == lead[0];
      assert s[1..] == lead[1..] + x + trail;
      TrimPadded(lead[1..], x, trail, w);
    } else if |trail| > 0 {
      assert s[0] == x[0];
      assert s[|s| - 1] == trail[|trail| - 1];
      assert s[..|s| - 1] == lead + x + trail[..|trail| - 1];
      TrimPadded(lead, x, trail[..|trail| - 1], w);
    } else {
      assert s == x;
    }
  }

  /** How many characters `Trim` drops from the front. */
  function TrimStart(s: string, w: Whitespace): nat
    decreases |s|
  {
    if |s| == 0 then 0
    else if IsSpace(w, s[0]) then 1 + TrimStart(s[1..], w)
    else if IsSpace(w, s[|s| - 1]) then TrimStart(s[..|s| - 1], w)
    else 0
  }

  /** The trimmed text is the slice of the original that starts after the
      dropped leading whitespace. */
  predicate TrimmedSlice(s: string, w: Whitespace) {
    TrimStart(s, w) + |Trim(s, w)| <= |s|
    && Trim(s, w) == s[TrimStart(s, w)..TrimStart(s, w) + |Trim(s, w)|]
  }

  lemma {:induction false} TrimIsSlice(s: string, w: Whitespace)
    ensures TrimmedSlice(s, w)
    decreases |s|
  {
    if |s| > 0 && IsSpace(w, s[0]) {
      TrimIsSlice(s[1..], w);
      TrimDropsFront(s, w);
    } else if |s| > 0 && IsSpace(w, s[|s| - 1]) {
      TrimIsSlice(s[..|s| - 1], w);
      TrimDropsBack(s, w);
    } else {
      assert s[0..|s|] == s;
    }
  }

  lemma TrimDropsFront(s: string, w: Whitespace)
    requires |s| > 0 && IsSpace(w, s[0]) && TrimmedSlice(s[1..], w)
    ensures TrimmedSlice(s, w)
  {
    var r, k := Trim(s[1..], w), TrimStart(s[1..], w);
    assert Trim(s, w) == r && TrimStart(s, w) == 1 + k;
    assert r == s[1..][k..k + |r|];
    assert s[1..] == s[1..|s|];
    SliceOfSlice(s, 1, |s|, k, |r|);
    assert r == s[1 + k..1 + k + |r|];
  }

  lemma TrimDropsBack(s: string, w: Whitespace)
    requires |s| > 0 && !IsSpace(w, s[0]) && IsSpace(w, s[|s| - 1]) && TrimmedSlice(s[..|s| - 1], w)
    ensures TrimmedSlice(s, w)
  {
    var r, k := Trim(s[..|s| - 1], w), TrimStart(s[..|s| - 1], w);
    assert Trim(s, w) == r && TrimStart(s, w) == k;
    assert r == s[..|s| - 1][k..k + |r|];
    assert s[..|s| - 1] == s[0..|s| - 1];
    SliceOfSlice(s, 0, |s| - 1, k, |r|);
    assert r == s[k..k + |r|];
  }

  lemma SliceOfSlice<T>(s: seq<T>, a: nat, b: nat, k: nat, m: nat)
    requires a <= b <= |s| && k + m <= b - a
    ensures s[a..b][k..k + m] == s[a + k..a + k + m]
  {
    var t, u := s[a..b][k..k + m], s[a + k..a + k + m];
    forall i | 0 <= i < m
      ensures t[i] == u[i]
    {
      assert t[i] == s[a..b][k + i] == s[a + k + i];
    }
  }

  /** A string that starts with a word whose first and last characters
      are not whitespace keeps that word when trimmed. */
  lemma {:induction false} TrimKeepsLead(s: string, k: nat, w: Whitespace)
    requires 0 < k <= |s| && !IsSpace(w, s[0]) && !IsSpace(w, s[k - 1])
    ensures StartsWith(Trim(s, w), s[..k])
    decreases |s|
  {
    if IsSpace(w, s[|s| - 1]) {
      var t := s[..|s| - 1];
      TrimKeepsLead(t, k, w);
      assert t[..k] == s[..k];
    }
  }

  /** Trimming a string that has no whitespace at its ends changes nothing. */
  lemma TrimTight(x: string, w: Whitespace)
    requires Tight(x, w)
    ensures Trim(x, w) == x
  {
    TrimSpec(x, w);
  }

  /* ---------------------------------------------------------------- */
  /* Python slicing                                                   */
  /* ---------------------------------------------------------------- */

  /** Python index normalisation for slice bounds: a negative bound counts
      from the end, and every bound is clamped to `0..|s|`. */
  function SliceBound(len: nat, n: int): (k: nat)
    ensures k <= len
  {
    if n >= 0 then (if n <= len then n else len)
    else if len + n >= 0 then len + n else 0
  }

  /** Python's `s[:n]`. */
  function PyPrefix(s: string, n: int): string {
    s[..SliceBound(|s|, n)]
  }

  /** Python's `s[n:]`. */
  function PySuffix(s: string, n: int): string {
    s[SliceBound(|s|, n)..]
  }

  /* ---------------------------------------------------------------- */
  /* Sequences of strings                                             */
  /* ---------------------------------------------------------------- */

  /** `"".join(parts)` */
  function Concat(parts: seq<string>): string {
    if |parts| == 0 then "" else Concat(parts[..|parts| - 1]) + parts[|parts| - 1]
  }

  lemma ConcatAppend(a: seq<string>, b: seq<string>)
    ensures Concat(a + b) == Concat(a) + Concat(b)
    decreases |b|
  {
    if |b| == 0 {
      assert a + b == a;
    } else {
      var init, last := b[..|b| - 1], b[|b| - 1];
      assert (a + b)[..|a + b| - 1] == a + init;
      assert (a + b)[|a + b| - 1] == last;
      ConcatAppend(a, init);
      assert Concat(b) == Concat(init) + last;
      assert (Concat(a) + Concat(init)) + last == Concat(a) + (Concat(init) + last);
    }
  }

  /** Each part sits in the concatenation right after the parts before it. */
  lemma ConcatHasPart(parts: seq<string>, k: nat)
    requires k < |parts|
    ensures OccursAt(Concat(parts), parts[k], |Concat(parts[..k])|)
  {
    assert parts == parts[..k] + [parts[k]] + parts[k + 1..];
    ConcatAppend(parts[..k] + [parts[k]], parts[k + 1..]);
    ConcatAppend(parts[..k], [parts[k]]);
    ConcatSingle(parts[k]);
    OccursInMiddle(Concat(parts[..k]), parts[k], Concat(parts[k + 1..]));
  }

  /** Later parts sit further right. */
  lemma ConcatPrefixGrows(parts: seq<string>, k: nat)
    requires k < |parts|
    ensures |Concat(parts[..k + 1])| == |Concat(parts[..k])| + |parts[k]|
  {
    assert parts[..k + 1] == parts[..k] + [parts[k]];
    ConcatAppend(parts[..k], [parts[k]]);
    ConcatSingle(parts[k]);
  }

  /** Where the `k`-th part starts in the concatenation. */
  function PartAt(parts: seq<string>, k: nat): nat
    requires k <= |parts|
  {
    |Concat(parts[..k])|
  }

  /** Every part sits at its offset, and the offsets of non-empty parts
      strictly increase. */
  lemma PartsInOrder(parts: seq<string>)
    ensures forall k :: 0 <= k < |parts| ==> OccursAt(Concat(parts), parts[k], PartAt(parts, k))
    ensures forall k :: 0 <= k < |parts| ==> PartAt(parts, k + 1) == PartAt(parts, k) + |parts[k]|
  {
    forall k | 0 <= k < |parts|
      ensures OccursAt(Concat(parts), parts[k], PartAt(parts, k))
      ensures PartAt(parts, k + 1) == PartAt(parts, k) + |parts[k]|
    {
      ConcatHasPart(parts, k);
      ConcatPrefixGrows(parts, k);
    }
  }

  /** Non-empty parts follow each other: the concatenation starts with
      the first, and each later one starts further right. */
  lemma PartsAdvance(parts: seq<string>)
    requires |parts| > 0
    requires forall k :: 0 <= k < |parts| - 1 ==> parts[k] != ""
    ensures StartsWith(Concat(parts), parts[0])
    ensures forall k :: 0 <= k < |parts| - 1 ==> PartAt(parts, k) < PartAt(parts, k + 1)
  {
    PartsInOrder(parts);
    assert parts[..0] == [];
  }

  lemma ConcatSingle(x: string)
    ensures Concat([x]) == x
  {
    assert [x][..0] == [];
  }

  /** `sep.join(parts)` */
  function Join(sep: string, parts: seq<string>): string {
    if |parts| == 0 then ""
    else if |parts| == 1 then parts[0]
    else Join(sep, parts[..|parts| - 1]) + sep + parts[|parts| - 1]
  }

  /** Joining strings none of which contains `c`, with a separator free of
      `c`, yields a string free of `c`. */
  lemma JoinLacks(sep: string, parts: seq<string>, c: char)
    requires Lacks(sep, c)
    requires forall i :: 0 <= i < |parts| ==> Lacks(parts[i], c)
    ensures Lacks(Join(sep, parts), c)
  {
    if |parts| > 1 {
      JoinLacks(sep, parts[..|parts| - 1], c);
    }
  }

  /** `c * n` in Python. */
  function Repeat(c: char, n: nat): (r: string)
    ensures |r| == n
    ensures forall i :: 0 <= i < n ==> r[i] == c
  {
    if n == 0 then "" else Repeat(c, n - 1) + [c]
  }

  /* ---------------------------------------------------------------- */
  /* Decimal numerals                                                 */
  /* ---------------------------------------------------------------- */

  predicate IsDigit(c: char) {
    '0' <= c <= '9'
  }

  function DigitChar(d: nat): (c: char)
    requires d < 10
    ensures IsDigit(c)
  {
    "0123456789"[d]
  }

  function DigitValue(c: char): (d: nat)
    requires IsDigit(c)
    ensures d < 10
  {
    (c as int) - ('0' as int)
  }

  /** The shortest decimal numeral of `n`. */
  function NatDigits(n: nat): (r: string)
    ensures |r| > 0
    decreases n
  {
    if n < 10 then [DigitChar(n)] else NatDigits(n / 10) + [DigitChar(n % 10)]
  }

  /** A numeral is made of digits. */
  lemma {:induction false} NatDigitsAreDigits(n: nat)
    ensures forall i :: 0 <= i < |NatDigits(n)| ==> IsDigit(NatDigits(n)[i])
    decreases n
  {
    if n >= 10 {
      NatDigitsAreDigits(n / 10);
    }
  }

  /** `str(n)` in Python, `${n}` in JavaScript, for an integer `n`. */
  function Decimal(n: int): (r: string)
    ensures |r| > 0
  {
    if n < 0 then "-" + NatDigits(-n) else NatDigits(n)
  }

  /** Reads a string of decimal digits as a number. */
  function ParseDigits(s: string): nat
    requires forall i :: 0 <= i < |s| ==> IsDigit(s[i])
  {
    if |s| == 0 then 0 else 10 * ParseDigits(s[..|s| - 1]) + DigitValue(s[|s| - 1])
  }

  lemma {:induction false} ParseNatDigits(n: nat)
    ensures forall i :: 0 <= i < |NatDigits(n)| ==> IsDigit(NatDigits(n)[i])
    ensures ParseDigits(NatDigits(n)) == n
    decreases n
  {
    NatDigitsAreDigits(n);
    if n >= 10 {
      var r := NatDigits(n);
      assert r[..|r| - 1] == NatDigits(n / 10);
      ParseNatDigits(n / 10);
      assert DigitValue(DigitChar(n % 10)) == n % 10;
    } else {
      assert DigitValue(DigitChar(n)) == n;
    }
  }

  /** A numeral starts with a minus sign exactly when the number is negative. */
  lemma DecimalSign(n: int)
    ensures n < 0 <==> Decimal(n)[0] == '-'
  {
    if n >= 0 {
      NatDigitsAreDigits(n);
      assert IsDigit(NatDigits(n)[0]);
    }
  }

  /** Decimal rendering is injective: distinct integers print differently. */
  lemma DecimalInjective(a: int, b: int)
    requires Decimal(a) == Decimal(b)
    ensures a == b
  {
    DecimalSign(a);
    DecimalSign(b);
    var u: nat := if a < 0 then -a else a;
    var v: nat := if b < 0 then -b else b;
    assert NatDigits(u) == NatDigits(v) by {
      if a < 0 {
        assert NatDigits(u) == Decimal(a)[1..];
        assert NatDigits(v) == Decimal(b)[1..];
      }
    }
    ParseNatDigits(u);
    ParseNatDigits(v);
  }

  /* ---------------------------------------------------------------- */
  /* Case                                                             */
  /* ---------------------------------------------------------------- */

  function UpperChar(c: char): char {
    if 'a' <= c <= 'z' then ((c as int) - 32) as char else c
  }

  function LowerChar(c: char): char {
    if 'A' <= c <= 'Z' then ((c as int) + 32) as char else c
  }

  /** Python's `str.upper()` restricted to ASCII letters. */
  function AsciiUpper(s: string): string {
    seq(|s|, i requires 0 <= i < |s| => UpperChar(s[i]))
  }

  /** Python's `str.lower()` restricted to ASCII letters. */
  function AsciiLower(s: string): string {
    seq(|s|, i requires 0 <= i < |s| => LowerChar(s[i]))
  }
}
