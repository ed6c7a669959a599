/**
 * The pieces of the C library that the three servers lean on, modelled on byte strings:
 * NUL-terminated buffers, `%d` printing, `strtol`-style scanning (used by `sscanf("%d")`
 * and `atoi`), `strstr`, `strtok` and `snprintf`/`strncpy` truncation.
 *
 * A `string` here is a C byte string: every `char` stands for one byte.
 */
module CText {
  import opened Wrappers

  const NUL: char := '\0'

  /** `isspace` in the C locale. */
  predicate IsSpace(c: char) {
    c == ' ' || c == '\t' || c == '\n' || c == '\r' || c == '\U{0B}' || c == '\U{0C}'
  }

  predicate IsDigit(c: char) {
    '0' <= c <= '9'
  }

  predicate AllDigits(s: string) {
    forall k :: 0 <= k < |s| ==> IsDigit(s[k])
  }

  /** The C string a NUL-terminated buffer denotes: every byte before the first NUL. */
  function CStr(buf: string): (s: string)
    ensures s <= buf
    ensures NUL !in s
    ensures |s| < |buf| ==> buf[|s|] == NUL
  {
    if |buf| == 0 || buf[0] == NUL then [] else [buf[0]] + CStr(buf[1..])
  }

  /** A buffer of `size` bytes written by `snprintf` or by `strncpy` plus a terminating NUL
      keeps at most `size - 1` bytes of the text it was given. */
  function Bounded(s: string, size: nat): (r: string)
    requires size >= 1
    ensures r <= s
    ensures |r| == if |s| < size then |s| else size - 1
  {
    if |s| < size then s else s[..size - 1]
  }

  // ---------------------------------------------------------------------------
  // Decimal numbers: printing with %d and reading them back
  // ---------------------------------------------------------------------------

  function DigitChar(d: nat): (c: char)
    requires d < 10
    ensures IsDigit(c)
  {
    ('0' as int + d) as char
  }

  /** The number a run of decimal digits denotes, read left to right. */
  function DecimalValue(s: string): nat
    requires AllDigits(s)
  {
    ValueIn(s, 0, |s|)
  }

  /** The digits `%d` prints for a non-negative number. */
  function Digits(n: nat): (s: string)
    ensures 1 <= |s|
    ensures AllDigits(s)
    ensures DecimalValue(s) == n
    ensures s[0] == '0' ==> n == 0
  {
    if n < 10 then [DigitChar(n)]
    else
      var p := Digits(n / 10);
      var s := p + [DigitChar(n % 10)];
      CopyAtFront(p, [DigitChar(n % 10)]);
      ValueOfPrefix(s, 0, p, |p|);
      s
  }

  /** `printf("%d", n)`. */
  function IntToString(n: int): (s: string)
    ensures 1 <= |s|
    ensures n >= 0 ==> AllDigits(s)
    ensures n < 0 ==> s[0] == '-' && forall k :: 1 <= k < |s| ==> IsDigit(s[k])
  {
    if n < 0 then "-" + Digits(-n) else Digits(n)
  }

  const INT_MAX: int := 0x7fff_ffff
  const INT_MIN: int := -0x8000_0000

  predicate IsInt32(n: int) {
    INT_MIN <= n <= INT_MAX
  }

  /** A number below 10^k prints with at most k digits. */
  lemma {:induction false} DigitsLength(n: nat, k: nat, bound: nat)
    requires n < bound
    requires bound == Pow10(k)
    ensures |Digits(n)| <= if k == 0 then 1 else k
    decreases k
  {
    if n >= 10 {
      assert Pow10(0) == 1 && Pow10(1) == 10;
      assert k >= 2;
      DigitsLength(n / 10, k - 1, Pow10(k - 1));
    }
  }

  function Pow10(k: nat): (p: nat)
    ensures p >= 1
  {
    if k == 0 then 1 else 10 * Pow10(k - 1)
  }

  // ---------------------------------------------------------------------------
  // strtol-style scanning
  // ---------------------------------------------------------------------------

  /** Index of the first non-space byte at or after `i`. */
  function SkipSpace(s: string, i: nat): (j: nat)
    requires i <= |s|
    ensures i <= j <= |s|
    ensures j < |s| ==> !IsSpace(s[j])
    decreases |s| - i
  {
    if i < |s| && IsSpace(s[i]) then SkipSpace(s, i + 1) else i
  }

  /** End of the maximal run of digits that starts at `i`. */
  function DigitRun(s: string, i: nat): (j: nat)
    requires i <= |s|
    ensures i <= j <= |s|
    ensures j < |s| ==> !IsDigit(s[j])
    decreases |s| - i
  {
    if i < |s| && IsDigit(s[i]) then DigitRun(s, i + 1) else i
  }

  /** The value of one decimal digit (0 for any other byte, which never occurs in a run). */
  function DigitValue(c: char): (v: nat)
    ensures v < 10
  {
    if IsDigit(c) then c as int - '0' as int else 0
  }

  /** The number the digits `s[i..j]` denote, read left to right. */
  function ValueIn(s: string, i: nat, j: nat): nat
    requires i <= j <= |s|
    decreases j - i
  {
    if j == i then 0 else ValueIn(s, i, j - 1) * 10 + DigitValue(s[j - 1])
  }

  /** A number read by the `%d` conversion or by `strtol`: its value and the index just past it. */
  datatype Scanned = Scanned(value: int, next: nat)

  /** The digits at `k`: `None` when there is none, else their value and the index past them. */
  function ScanDigits(s: string, k: nat): (r: Option<Scanned>)
    requires k <= |s|
    ensures r.Some? ==> k < r.value.next <= |s| && r.value.value >= 0
    ensures r.Some? ==> r.value.next == |s| || !IsDigit(s[r.value.next])
  {
    var e := DigitRun(s, k);
    if e == k then None else Some(Scanned(ValueIn(s, k, e), e))
  }

  /** The `%d` conversion at index `i`: leading white space, an optional sign, then at least
      one decimal digit. `None` is a matching failure (no digit where one was needed). */
  function ScanDecimal(s: string, i: nat): (r: Option<Scanned>)
    requires i <= |s|
    ensures r.Some? ==> i < r.value.next <= |s|
    ensures r.Some? ==> r.value.next == |s| || !IsDigit(s[r.value.next])
  {
    var j := SkipSpace(s, i);
    if j < |s| && s[j] == '-' then
      match ScanDigits(s, j + 1)
      case None => None
      case Some(m) => Some(Scanned(-m.value, m.next))
    else if j < |s| && s[j] == '+' then ScanDigits(s, j + 1)
    else ScanDigits(s, j)
  }

  /** `atoi`: the `strtol` value of the string's prefix, 0 when it does not start with a number. */
  function Atoi(s: string): int {
    match ScanDecimal(s, 0)
    case Some(r) => r.value
    case None => 0
  }

  /** A digit run ends exactly where the digits stop. */
  lemma {:induction false} DigitRunIs(s: string, i: nat, e: nat)
    requires i <= e <= |s|
    requires forall m :: i <= m < e ==> IsDigit(s[m])
    requires e == |s| || !IsDigit(s[e])
    ensures DigitRun(s, i) == e
    decreases e - i
  {
    if i < e {
      DigitRunIs(s, i + 1, e);
    }
  }

  lemma NoSkip(s: string, i: nat)
    requires i < |s| && !IsSpace(s[i])
    ensures SkipSpace(s, i) == i
  {
  }

  /** The text `s` holds a copy of the first `n` bytes of `t` starting at index `i`. */
  predicate CopyPrefix(s: string, i: nat, t: string, n: nat)
    requires n <= |t|
    decreases n
  {
    i + n <= |s| && (n == 0 || (s[i + n - 1] == t[n - 1] && CopyPrefix(s, i, t, n - 1)))
  }

  /** The text `s` holds a copy of `t` starting at index `i`. */
  predicate CopyAt(s: string, i: nat, t: string) {
    CopyPrefix(s, i, t, |t|)
  }

  lemma {:induction false} CopyPrefixBytes(s: string, i: nat, t: string, n: nat)
    requires n <= |t|
    ensures CopyPrefix(s, i, t, n) <==> i + n <= |s| && forall k :: 0 <= k < n ==> s[i + k] == t[k]
    decreases n
  {
    if n > 0 {
      CopyPrefixBytes(s, i, t, n - 1);
    }
  }

  /** A copy, byte by byte. */
  lemma CopyAtBytes(s: string, i: nat, t: string)
    ensures CopyAt(s, i, t) <==> i + |t| <= |s| && forall k :: 0 <= k < |t| ==> s[i + k] == t[k]
  {
    CopyPrefixBytes(s, i, t, |t|);
  }

  /** The front of a concatenation is a copy of its first part. */
  lemma CopyAtFront(x: string, y: string)
    ensures CopyAt(x + y, 0, x)
  {
    assert forall k :: 0 <= k < |x| ==> (x + y)[0 + k] == x[k];
    CopyAtBytes(x + y, 0, x);
  }

  /** The back of a concatenation is a copy of its second part. */
  lemma CopyAtBack(x: string, y: string)
    ensures CopyAt(x + y, |x|, y)
  {
    forall k | 0 <= k < |y| ensures (x + y)[|x| + k] == y[k] {
    }
    CopyAtBytes(x + y, |x|, y);
  }

  /** A copy of `t` right after byte `i` extends to a copy of `[s[i]] + t` at `i`. */
  lemma CopyAtCons(s: string, i: nat, t: string)
    requires i < |s| && CopyAt(s, i + 1, t)
    ensures CopyAt(s, i, [s[i]] + t)
  {
    CopyAtBytes(s, i + 1, t);
    forall k | 0 <= k < 1 + |t| ensures s[i + k] == ([s[i]] + t)[k] {
      if k > 0 {
        assert s[i + 1 + (k - 1)] == t[k - 1];
      }
    }
    CopyAtBytes(s, i, [s[i]] + t);
  }

  /** A copy of `x + y` is a copy of `x` followed by a copy of `y`. */
  lemma CopyAtSplit(s: string, i: nat, x: string, y: string)
    requires CopyAt(s, i, x + y)
    ensures CopyAt(s, i, x) && CopyAt(s, i + |x|, y)
  {
    CopyAtBytes(s, i, x + y);
    forall k | 0 <= k < |x| ensures s[i + k] == x[k] {
      assert (x + y)[k] == x[k];
    }
    forall k | 0 <= k < |y| ensures s[i + |x| + k] == y[k] {
      assert s[i + (|x| + k)] == (x + y)[|x| + k];
    }
    CopyAtBytes(s, i, x);
    CopyAtBytes(s, i + |x|, y);
  }

  /** The four parts of `a + b + c + d`, each at its offset. */
  lemma CopyAtFour(a: string, b: string, c: string, d: string)
    ensures var s := a + b + c + d;
      CopyAt(s, 0, a) && CopyAt(s, |a|, b) && CopyAt(s, |a| + |b|, c) &&
      CopyAt(s, |a| + |b| + |c|, d) && |s| == |a| + |b| + |c| + |d|
  {
    CopyAtFront(a + b + c, d);
    CopyAtBack(a + b + c, d);
    CopyAtSplit(a + b + c + d, 0, a + b, c);
    CopyAtSplit(a + b + c + d, 0, a, b);
  }

  /** The five parts of `a + b + c + d + e`, each at its offset. */
  lemma CopyAtFive(a: string, b: string, c: string, d: string, e: string)
    ensures var s := a + b + c + d + e;
      CopyAt(s, 0, a) && CopyAt(s, |a|, b) && CopyAt(s, |a| + |b|, c) &&
      CopyAt(s, |a| + |b| + |c|, d) && CopyAt(s, |a| + |b| + |c| + |d|, e) &&
      |s| == |a| + |b| + |c| + |d| + |e|
  {
    CopyAtFront(a + b + c + d, e);
    CopyAtBack(a + b + c + d, e);
    CopyAtSplit(a + b + c + d + e, 0, a + b + c, d);
    CopyAtSplit(a + b + c + d + e, 0, a + b, c);
    CopyAtSplit(a + b + c + d + e, 0, a, b);
  }

  /** The digit run at `k` covers exactly a copy of the digit string `d`. */
  lemma DigitsAt(s: string, k: nat, d: string)
    requires CopyAt(s, k, d) && AllDigits(d)
    requires k + |d| == |s| || !IsDigit(s[k + |d|])
    ensures DigitRun(s, k) == k + |d|
  {
    CopyAtBytes(s, k, d);
    forall m | k <= m < k + |d| ensures IsDigit(s[m]) {
      assert s[k + (m - k)] == d[m - k];
    }
    DigitRunIs(s, k, k + |d|);
  }

  /** Where the text agrees with `d` on its first `n` bytes, the digits there denote the
      same number as those of `d`. */
  lemma {:induction false} ValueOfPrefix(s: string, k: nat, d: string, n: nat)
    requires n <= |d| && CopyPrefix(s, k, d, n)
    ensures ValueIn(s, k, k + n) == ValueIn(d, 0, n)
    decreases n
  {
    if n > 0 {
      ValueOfPrefix(s, k, d, n - 1);
    }
  }

  /** A copy of the digit string `d` at `k` denotes the same number as `d`. */
  lemma ValueOfCopy(s: string, k: nat, d: string)
    requires CopyAt(s, k, d) && AllDigits(d)
    ensures ValueIn(s, k, k + |d|) == DecimalValue(d)
  {
    ValueOfPrefix(s, k, d, |d|);
  }

  /** The digits at `k` are a copy of the digit string `d`. */
  lemma ScanDigitsOf(s: string, k: nat, d: string)
    requires CopyAt(s, k, d) && 1 <= |d| && AllDigits(d)
    requires k + |d| == |s| || !IsDigit(s[k + |d|])
    ensures ScanDigits(s, k) == Some(Scanned(DecimalValue(d), k + |d|))
  {
    DigitsAt(s, k, d);
    ValueOfCopy(s, k, d);
  }

  /** `%d` on a run of digits with no sign in front. */
  lemma ScanUnsigned(s: string, i: nat, v: int, e: nat)
    requires i < |s| && IsDigit(s[i])
    requires ScanDigits(s, i) == Some(Scanned(v, e))
    ensures ScanDecimal(s, i) == Some(Scanned(v, e))
  {
    NoSkip(s, i);
  }

  /** `%d` on a minus sign followed by a run of digits: the negated value of the digits. */
  lemma ScanNegative(s: string, i: nat, n: int, e: nat)
    requires i < |s| && s[i] == '-'
    requires ScanDigits(s, i + 1) == Some(Scanned(-n, e))
    ensures ScanDecimal(s, i) == Some(Scanned(n, e))
  {
    NoSkip(s, i);
  }

  /** Where the text holds a copy of the printed form of `n`, followed by a non-digit or by
      the end, a scan that starts at the copy stops right after it and yields `n`. */
  lemma ScanPrintedAt(s: string, i: nat, n: int)
    requires CopyAt(s, i, IntToString(n))
    requires i + |IntToString(n)| == |s| || !IsDigit(s[i + |IntToString(n)|])
    ensures ScanDecimal(s, i) == Some(Scanned(n, i + |IntToString(n)|))
  {
    if n < 0 {
      NegativeLayout(s, i, n);
      ScanMagnitudeAt(s, i, Digits(-n), n);
    } else {
      ScanDigitsStringAt(s, i, Digits(n));
    }
  }

  /** A copy of the digit string `d` at `i + 1`, preceded by a minus sign: the number `n`
      whose magnitude the digits denote. */
  lemma ScanMagnitudeAt(s: string, i: nat, d: string, n: int)
    requires 1 <= |d| && AllDigits(d) && n + DecimalValue(d) == 0
    requires i < |s| && s[i] == '-' && CopyAt(s, i + 1, d)
    requires i + 1 + |d| == |s| || !IsDigit(s[i + 1 + |d|])
    ensures ScanDecimal(s, i) == Some(Scanned(n, i + 1 + |d|))
  {
    var e := i + 1 + |d|;
    ScanDigitsOf(s, i + 1, d);
    assert ScanDigits(s, i + 1) == Some(Scanned(-n, e));
    ScanNegative(s, i, n, e);
  }

  /** The printed form of a negative number is a minus sign and then its magnitude's digits. */
  lemma NegativeLayout(s: string, i: nat, n: int)
    requires n < 0
    requires CopyAt(s, i, IntToString(n))
    ensures |IntToString(n)| == 1 + |Digits(-n)|
    ensures i < |s| && s[i] == '-' && CopyAt(s, i + 1, Digits(-n))
  {
    var d := Digits(-n);
    var q := IntToString(n);
    assert q == "-" + d;
    CopyAtBytes(s, i, q);
    assert s[i + 0] == q[0];
    forall k | 0 <= k < |d| ensures s[i + 1 + k] == d[k] {
      assert s[i + (k + 1)] == q[k + 1];
    }
    CopyAtBytes(s, i + 1, d);
  }

  /** A copy of a digit string at `i`. */
  lemma ScanDigitsStringAt(s: string, i: nat, d: string)
    requires 1 <= |d| && AllDigits(d) && CopyAt(s, i, d)
    requires i + |d| == |s| || !IsDigit(s[i + |d|])
    ensures ScanDecimal(s, i) == Some(Scanned(DecimalValue(d), i + |d|))
  {
    CopyAtBytes(s, i, d);
    assert s[i + 0] == d[0];
    ScanDigitsOf(s, i, d);
    ScanUnsigned(s, i, DecimalValue(d), i + |d|);
  }

  /** `atoi` inverts `%d` printing. */
  lemma AtoiIntToString(n: int)
    ensures Atoi(IntToString(n)) == n
  {
    var q := IntToString(n);
    CopyAtBytes(q, 0, q);
    ScanPrintedAt(q, 0, n);
  }

  /** `%d` of a 32-bit value prints at most eleven bytes. */
  lemma Int32Length(n: int)
    requires IsInt32(n)
    ensures |IntToString(n)| <= 11
  {
    assert Pow10(10) == 10_000_000_000;
    DigitsLength(if n < 0 then -n else n, 10, Pow10(10));
  }

  // ---------------------------------------------------------------------------
  // strstr
  // ---------------------------------------------------------------------------

  predicate OccursAt(s: string, pat: string, k: nat) {
    k + |pat| <= |s| && s[k..k + |pat|] == pat
  }

  /** `strstr(s + i, pat)`: the first index at or after `i` where `pat` occurs. */
  function FindFrom(s: string, pat: string, i: nat): (r: Option<nat>)
    requires i <= |s|
    ensures r.Some? ==> i <= r.value && OccursAt(s, pat, r.value)
    ensures r.Some? ==> forall k :: i <= k < r.value ==> !OccursAt(s, pat, k)
    ensures r.None? ==> forall k :: i <= k <= |s| ==> !OccursAt(s, pat, k)
    decreases |s| - i
  {
    if OccursAt(s, pat, i) then Some(i)
    else if i == |s| then None
    else FindFrom(s, pat, i + 1)
  }

  function Find(s: string, pat: string): (r: Option<nat>)
    ensures r.Some? ==> OccursAt(s, pat, r.value)
    ensures r.Some? ==> forall k :: 0 <= k < r.value ==> !OccursAt(s, pat, k)
    ensures r.None? ==> forall k :: 0 <= k <= |s| ==> !OccursAt(s, pat, k)
  {
    FindFrom(s, pat, 0)
  }

  /** The first occurrence is the only index meeting the two defining conditions, so any
      index shown to meet them is what `Find` returns. */
  lemma FindIsFirst(s: string, pat: string, k: nat)
    requires OccursAt(s, pat, k)
    requires forall m :: 0 <= m < k ==> !OccursAt(s, pat, m)
    ensures Find(s, pat) == Some(k)
  {
  }

  // ---------------------------------------------------------------------------
  // strtok with a one-byte delimiter set
  // ---------------------------------------------------------------------------

  /** Index of the first `d` at or after index 1, or `|s|`. */
  function TokenEnd(s: string, d: char): (k: nat)
    requires |s| > 0
    ensures 1 <= k <= |s|
    ensures forall m :: 1 <= m < k ==> s[m] != d
    ensures k < |s| ==> s[k] == d
    decreases |s|
  {
    if |s| == 1 || s[1] == d then 1 else 1 + TokenEnd(s[1..], d)
  }

  /** The bytes of `s` other than `d`, in order. */
  function Without(s: string, d: char): (r: string)
    ensures d !in r
  {
    if |s| == 0 then []
    else (if s[0] == d then [] else [s[0]]) + Without(s[1..], d)
  }

  function Concat(ts: seq<string>): string {
    if |ts| == 0 then [] else ts[0] + Concat(ts[1..])
  }

  /** The tokens successive `strtok(…, "d")` calls return: the maximal non-empty runs of
      bytes other than `d`. */
  function Tokens(s: string, d: char): (ts: seq<string>)
    ensures forall t :: t in ts ==> |t| > 0 && d !in t
    ensures Concat(ts) == Without(s, d)
    decreases |s|
  {
    if |s| == 0 then []
    else if s[0] == d then Tokens(s[1..], d)
    else
      var k := TokenEnd(s, d);
      WithoutSplit(s, d, k);
      [s[..k]] + Tokens(s[k..], d)
  }

  lemma {:induction false} WithoutSplit(s: string, d: char, k: nat)
    requires k <= |s|
    requires forall m :: 0 <= m < k ==> s[m] != d
    ensures Without(s, d) == s[..k] + Without(s[k..], d)
    decreases k
  {
    if k > 0 {
      WithoutSplit(s[1..], d, k - 1);
      assert s[1..][k - 1..] == s[k..];
      assert [s[0]] + s[1..][..k - 1] == s[..k];
    }
  }

  /** Tokens joined with the delimiter. */
  function Join(ts: seq<string>, d: char): string {
    if |ts| == 0 then []
    else if |ts| == 1 then ts[0]
    else ts[0] + [d] + Join(ts[1..], d)
  }

  /** `strtok` splits a `d`-joined list of non-empty, `d`-free tokens back into that list. */
  lemma {:induction false} TokensOfJoin(ts: seq<string>, d: char)
    requires forall t :: t in ts ==> |t| > 0 && d !in t
    ensures Tokens(Join(ts, d), d) == ts
    decreases |ts|
  {
    if |ts| == 1 {
      TokensOfOne(ts[0], d);
    } else if |ts| > 1 {
      assert ts[0] in ts;
      TokensOfFirst(ts[0], d, Join(ts[1..], d));
      forall u | u in ts[1..] ensures |u| > 0 && d !in u { assert u in ts; }
      TokensOfJoin(ts[1..], d);
      assert ts == [ts[0]] + ts[1..];
    }
  }

  /** A single non-empty, `d`-free token is read whole. */
  lemma TokensOfOne(t: string, d: char)
    requires |t| > 0 && d !in t
    ensures Tokens(t, d) == [t]
  {
    assert forall m :: 0 <= m < |t| ==> t[m] in t;
    assert TokenEnd(t, d) == |t|;
    assert t[..|t|] == t;
    assert t[|t|..] == [];
  }

  /** The first token ends at the first delimiter, which is then skipped. */
  lemma TokensOfFirst(t: string, d: char, rest: string)
    requires |t| > 0 && d !in t
    ensures Tokens(t + [d] + rest, d) == [t] + Tokens(rest, d)
  {
    var s := t + [d] + rest;
    assert s[0] == t[0] && t[0] in t;
    assert forall m :: 0 <= m < |t| ==> s[m] == t[m] && t[m] in t;
    assert s[|t|] == d;
    assert TokenEnd(s, d) == |t|;
    assert s[..|t|] == t;
    var after := s[|t|..];
    assert after == [d] + rest;
    assert after[1..] == rest;
    assert Tokens(after, d) == Tokens(rest, d);
  }

  /** `strstr(s, t) != NULL`. */
  predicate Contains(s: string, t: string) {
    exists i: nat :: i <= |s| && OccursAt(s, t, i)
  }

  lemma ContainsMiddle(a: string, t: string, b: string)
    ensures Contains(a + t + b, t)
  {
    var s := a + t + b;
    assert s[|a|..|a| + |t|] == t;
    assert OccursAt(s, t, |a|);
  }

  lemma ContainsGrow(s: string, t: string, a: string, b: string)
    requires Contains(s, t)
    ensures Contains(a + s + b, t)
  {
    var i: nat :| i <= |s| && OccursAt(s, t, i);
    var w := a + s + b;
    assert w[|a| + i..|a| + i + |t|] == s[i..i + |t|];
    assert OccursAt(w, t, |a| + i);
  }

  /** The combined length of the first `n` strings. */
  function LengthTo(ts: seq<string>, n: nat): nat
    requires n <= |ts|
  {
    if n == 0 then 0 else LengthTo(ts, n - 1) + |ts[n - 1]|
  }

  /** Dropping the first string takes its length off the total. */
  lemma {:induction false} LengthToShift(ts: seq<string>, n: nat)
    requires 1 <= n <= |ts|
    ensures LengthTo(ts, n) == |ts[0]| + LengthTo(ts[1..], n - 1)
    decreases n
  {
    if n > 1 {
      LengthToShift(ts, n - 1);
    }
  }

  /** A joined list is as long as its strings together plus one separator between each two. */
  lemma {:induction false} JoinLength(ts: seq<string>, d: char)
    requires |ts| > 0
    ensures |Join(ts, d)| == LengthTo(ts, |ts|) + |ts| - 1
    decreases |ts|
  {
    LengthToShift(ts, |ts|);
    if |ts| > 1 {
      JoinLength(ts[1..], d);
    }
  }

  /** Every joined token occurs in the joined text. */
  lemma {:induction false} JoinContains(ts: seq<string>, d: char, i: nat)
    requires i < |ts|
    ensures Contains(Join(ts, d), ts[i])
    decreases i
  {
    if |ts| == 1 {
      ContainsMiddle([], ts[0], []);
      assert [] + ts[0] + [] == Join(ts, d);
    } else if i == 0 {
      ContainsMiddle([], ts[0], [d] + Join(ts[1..], d));
      assert [] + ts[0] + ([d] + Join(ts[1..], d)) == Join(ts, d);
    } else {
      JoinContains(ts[1..], d, i - 1);
      ContainsGrow(Join(ts[1..], d), ts[i], ts[0] + [d], []);
      assert ts[0] + [d] + Join(ts[1..], d) + [] == Join(ts, d);
    }
  }
}
