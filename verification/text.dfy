/**
 * String facilities shared by the scrapers, the countdown code and the bot: the character
 * classes the source tests, trim(), split(':'), decimal values of digit strings, and the
 * two regular-expression shapes the source uses, `lit(k+)` and `(\d{6})`.
 */
module Text {
  import opened Wrappers

  predicate IsDigit(c: char) { '0' <= c <= '9' }

  predicate AllDigits(s: string) { forall i :: 0 <= i < |s| ==> IsDigit(s[i]) }

  /** ECMAScript WhiteSpace and LineTerminator code points: what trim() removes and parseInt skips. */
  predicate IsJsSpace(c: char) {
    || c == '\t' || c == '\n' || c == '\U{000B}' || c == '\U{000C}' || c == '\r' || c == ' '
    || c == '\U{00A0}' || c == '\U{1680}' || ('\U{2000}' <= c <= '\U{200A}')
    || c == '\U{2028}' || c == '\U{2029}' || c == '\U{202F}' || c == '\U{205F}'
    || c == '\U{3000}' || c == '\U{FEFF}'
  }

  /** The characters a regular-expression `.` does not match. */
  predicate IsLineTerminator(c: char) {
    c == '\n' || c == '\r' || c == '\U{2028}' || c == '\U{2029}'
  }

  function DigitValue(c: char): nat
    requires IsDigit(c)
  {
    c as int - '0' as int
  }

  function DigitChar(d: nat): (c: char)
    requires d < 10
    ensures IsDigit(c) && DigitValue(c) == d
  {
    ('0' as int + d) as char
  }

  function Pow10(n: nat): nat {
    if n == 0 then 1 else 10 * Pow10(n - 1)
  }

  /** The mathematical value of a string of decimal digits; the empty string counts as 0. */
  function DecimalValue(s: string): nat
    requires AllDigits(s)
  {
    if s == [] then 0 else 10 * DecimalValue(s[..|s| - 1]) + DigitValue(s[|s| - 1])
  }

  lemma {:induction false} DecimalAppend(a: string, b: string)
    requires AllDigits(a) && AllDigits(b)
    ensures AllDigits(a + b)
    ensures DecimalValue(a + b) == DecimalValue(a) * Pow10(|b|) + DecimalValue(b)
    decreases |b|
  {
    if b == [] {
      assert a + b == a;
    } else {
      var b' := b[..|b| - 1];
      assert (a + b)[..|a + b| - 1] == a + b';
      assert (a + b)[|a + b| - 1] == b[|b| - 1];
      DecimalAppend(a, b');
      var x, p, y, d := DecimalValue(a), Pow10(|b'|), DecimalValue(b'), DigitValue(b[|b| - 1]);
      assert Pow10(|b|) == 10 * p;
      assert DecimalValue(b) == 10 * y + d;
      assert DecimalValue(a + b) == 10 * (x * p + y) + d;
      Regroup(x, p, y, d);
    }
  }

  lemma Regroup(x: int, p: int, y: int, d: int)
    ensures 10 * (x * p + y) + d == x * (10 * p) + (10 * y + d)
  {
    assert 10 * (x * p) == x * (10 * p);
  }

  /** Leading zeros do not change a decimal value (what makes padStart harmless to parseInt). */
  lemma LeadingZero(s: string)
    requires AllDigits(s)
    ensures AllDigits("0" + s) && DecimalValue("0" + s) == DecimalValue(s)
  {
    DecimalAppend("0", s);
    assert DecimalValue("0") == 10 * DecimalValue("0"[..0]) + 0;
  }

  /** The decimal representation of n without leading zeros, as String(n) gives it. */
  function NatToString(n: nat): (s: string)
    ensures |s| >= 1 && AllDigits(s)
    ensures DecimalValue(s) == n
    ensures n < 10 <==> |s| == 1
  {
    if n < 10 then
      [DigitChar(n)]
    else
      var t := NatToString(n / 10);
      assert (t + [DigitChar(n % 10)])[..|t|] == t;
      t + [DigitChar(n % 10)]
  }

  /** The decimal digits of s, in order: s.replace(/\D/g, ''). */
  function Digits(s: string): (r: string)
    ensures AllDigits(r) && |r| <= |s|
  {
    if s == [] then [] else (if IsDigit(s[0]) then [s[0]] else []) + Digits(s[1..])
  }

  lemma {:induction false} DigitsOfDigits(s: string)
    requires AllDigits(s)
    ensures Digits(s) == s
  {
    if s != [] {
      DigitsOfDigits(s[1..]);
      assert [s[0]] + s[1..] == s;
    }
  }

  /** s with every occurrence of c removed: s.replace(/c/g, '') for a one-character pattern. */
  function Remove(s: string, c: char): (r: string)
    ensures |r| <= |s|
    ensures forall x :: x in r ==> x in s && x != c
  {
    if s == [] then [] else (if s[0] == c then [] else [s[0]]) + Remove(s[1..], c)
  }

  lemma {:induction false} RemoveAbsent(s: string, c: char)
    requires c !in s
    ensures Remove(s, c) == s
  {
    if s != [] {
      RemoveAbsent(s[1..], c);
      assert [s[0]] + s[1..] == s;
    }
  }

  lemma {:induction false} RemoveAppend(a: string, b: string, c: char)
    ensures Remove(a + b, c) == Remove(a, c) + Remove(b, c)
  {
    if a == [] {
      assert a + b == b;
    } else {
      assert (a + b)[1..] == a[1..] + b;
      RemoveAppend(a[1..], b, c);
    }
  }

  /** The longest prefix of s made of decimal digits. */
  function LeadingDigits(s: string): (r: string)
    ensures |r| <= |s| && r == s[..|r|] && AllDigits(r)
    ensures |r| < |s| ==> !IsDigit(s[|r|])
  {
    if s != [] && IsDigit(s[0]) then [s[0]] + LeadingDigits(s[1..]) else []
  }

  lemma {:induction false} LeadingDigitsOfDigits(s: string)
    requires AllDigits(s)
    ensures LeadingDigits(s) == s
  {
    if s != [] {
      LeadingDigitsOfDigits(s[1..]);
      assert [s[0]] + s[1..] == s;
    }
  }

  /** s contains sub as a contiguous substring: String.prototype.includes. */
  predicate Contains(s: string, sub: string) {
    exists i :: 0 <= i <= |s| - |sub| && OccursAt(s, sub, i)
  }

  predicate OccursAt(s: string, sub: string, i: int) {
    0 <= i && i + |sub| <= |s| && s[i..i + |sub|] == sub
  }

  /** An occurrence inside a prefix of s is an occurrence in that prefix. */
  lemma OccursInPrefix(s: string, q: string, sub: string, j: nat)
    requires |q| <= |s| && s[..|q|] == q
    requires OccursAt(s, sub, j) && j + |sub| <= |q|
    ensures OccursAt(q, sub, j)
  {
    assert q[j..j + |sub|] == s[..|q|][j..j + |sub|];
  }

  /** The ASCII part of toLowerCase. */
  function LowerChar(c: char): char {
    if 'A' <= c <= 'Z' then (c as int + 32) as char else c
  }

  function ToLower(s: string): (r: string)
    ensures |r| == |s| && forall i :: 0 <= i < |s| ==> r[i] == LowerChar(s[i])
  {
    seq(|s|, i requires 0 <= i < |s| => LowerChar(s[i]))
  }

  // ---------------------------------------------------------------------------------------
  // trim()

  /** The number of white-space characters s starts with. */
  function LeadingSpaces(s: string): (n: nat)
    ensures n <= |s|
  {
    if s != [] && IsJsSpace(s[0]) then 1 + LeadingSpaces(s[1..]) else 0
  }

  /** The number of white-space characters s ends with. */
  function TrailingSpaces(s: string): (n: nat)
    ensures n <= |s|
  {
    if s != [] && IsJsSpace(s[|s| - 1]) then 1 + TrailingSpaces(s[..|s| - 1]) else 0
  }

  lemma {:induction false} LeadingSpacesSpec(s: string)
    ensures forall i :: 0 <= i < LeadingSpaces(s) ==> IsJsSpace(s[i])
    ensures LeadingSpaces(s) < |s| ==> !IsJsSpace(s[LeadingSpaces(s)])
  {
    if s != [] && IsJsSpace(s[0]) {
      LeadingSpacesSpec(s[1..]);
      assert forall i :: 1 <= i < |s| ==> s[1..][i - 1] == s[i];
    }
  }

  lemma {:induction false} TrailingSpacesSpec(s: string)
    ensures forall i :: |s| - TrailingSpaces(s) <= i < |s| ==> IsJsSpace(s[i])
    ensures TrailingSpaces(s) < |s| ==> !IsJsSpace(s[|s| - TrailingSpaces(s) - 1])
  {
    if s != [] && IsJsSpace(s[|s| - 1]) {
      TrailingSpacesSpec(s[..|s| - 1]);
      assert forall i :: 0 <= i < |s| - 1 ==> s[..|s| - 1][i] == s[i];
    }
  }

  /** String.prototype.trimStart. */
  function TrimStart(s: string): string {
    s[LeadingSpaces(s)..]
  }

  /** String.prototype.trim: s without its leading and trailing white space (TrimSpec). */
  function Trim(s: string): (r: string)
    ensures |r| <= |s|
  {
    var t := TrimStart(s);
    t[..|t| - TrailingSpaces(t)]
  }

  /** Trim removes exactly a white-space prefix and a white-space suffix, and leaves no white
      space at either end. */
  lemma TrimSpec(s: string)
    ensures var r := Trim(s);
            exists a, b :: 0 <= a <= b <= |s| && r == s[a..b]
                           && (forall i :: 0 <= i < a ==> IsJsSpace(s[i]))
                           && (forall i :: b <= i < |s| ==> IsJsSpace(s[i]))
    ensures var r := Trim(s); |r| > 0 ==> !IsJsSpace(r[0]) && !IsJsSpace(r[|r| - 1])
  {
    var a := LeadingSpaces(s);
    var t := s[a..];
    var b := a + |t| - TrailingSpaces(t);
    LeadingSpacesSpec(s);
    TrailingSpacesSpec(t);
    assert Trim(s) == s[a..b];
    assert forall i :: b <= i < |s| ==> s[i] == t[i - a];
  }

  lemma TrimPlain(s: string)
    requires forall i :: 0 <= i < |s| ==> !IsJsSpace(s[i])
    ensures Trim(s) == s
  {
    assert LeadingSpaces(s) == 0;
    assert TrailingSpaces(s) == 0;
  }

  // ---------------------------------------------------------------------------------------
  // split(':')

  function Count(s: string, c: char): nat {
    if s == [] then 0 else (if s[0] == c then 1 else 0) + Count(s[1..], c)
  }

  /** s.split(sep) for a one-character separator: the pieces between separators, empty ones kept. */
  function Split(s: string, sep: char): (parts: seq<string>)
    ensures |parts| == Count(s, sep) + 1
    ensures forall k :: 0 <= k < |parts| ==> sep !in parts[k]
  {
    if s == [] then
      [[]]
    else
      var rest := Split(s[1..], sep);
      if s[0] == sep then [[]] + rest else [[s[0]] + rest[0]] + rest[1..]
  }

  /** parts.join(sep): the inverse of Split. */
  function Join(parts: seq<string>, sep: char): string {
    if |parts| == 0 then []
    else if |parts| == 1 then parts[0]
    else parts[0] + [sep] + Join(parts[1..], sep)
  }

  lemma {:induction false} JoinSplit(s: string, sep: char)
    ensures Join(Split(s, sep), sep) == s
  {
    if s != [] {
      var rest := Split(s[1..], sep);
      JoinSplit(s[1..], sep);
      if s[0] == sep {
        assert ([[]] + rest)[1..] == rest;
      } else {
        var parts := [[s[0]] + rest[0]] + rest[1..];
        if |rest| == 1 {
          assert parts == [[s[0]] + rest[0]];
        } else {
          assert parts[1..] == rest[1..];
          assert Join(rest, sep) == rest[0] + [sep] + Join(rest[1..], sep);
        }
      }
    }
  }

  lemma {:induction false} SplitPrefix(p: string, t: string, sep: char)
    requires sep !in p
    ensures Split(p + t, sep) == [p + Split(t, sep)[0]] + Split(t, sep)[1..]
  {
    if p != [] {
      assert (p + t)[1..] == p[1..] + t;
      SplitPrefix(p[1..], t, sep);
      assert [p[0]] + (p[1..] + Split(t, sep)[0]) == p + Split(t, sep)[0];
    } else {
      var r := Split(t, sep);
      assert p + t == t;
      assert p + r[0] == r[0];
      assert r == [r[0]] + r[1..];
    }
  }

  lemma {:induction false} SplitJoin(parts: seq<string>, sep: char)
    requires |parts| >= 1
    requires forall k :: 0 <= k < |parts| ==> sep !in parts[k]
    ensures Split(Join(parts, sep), sep) == parts
  {
    if |parts| == 1 {
      SplitPrefix(parts[0], [], sep);
      assert parts[0] + [] == parts[0];
    } else {
      var rest := Join(parts[1..], sep);
      assert Join(parts, sep) == parts[0] + ([sep] + rest);
      SplitJoin(parts[1..], sep);
      SplitPrefix(parts[0], [sep] + rest, sep);
      var tail := Split([sep] + rest, sep);
      assert ([sep] + rest)[0] == sep && ([sep] + rest)[1..] == rest;
      assert tail == [[]] + Split(rest, sep);
      assert tail[0] == [] && tail[1..] == parts[1..];
      assert parts[0] + tail[0] == parts[0];
      assert parts == [parts[0]] + parts[1..];
    }
  }

  // ---------------------------------------------------------------------------------------
  // The regular-expression shape lit(k+): a literal followed by a greedy run of one class.

  datatype CharClass =
    | PriceChars   // [\d.,]
    | IdChars      // [a-f0-9-]
    | LineChars    // .

  predicate InClass(c: char, k: CharClass) {
    match k
    case PriceChars => IsDigit(c) || c == '.' || c == ','
    case IdChars => IsDigit(c) || ('a' <= c <= 'f') || c == '-'
    case LineChars => !IsLineTerminator(c)
  }

  /** The longest prefix of t inside class k: what a greedy k+ consumes. */
  function Run(t: string, k: CharClass): (r: string)
    ensures |r| <= |t| && r == t[..|r|]
    ensures forall i :: 0 <= i < |r| ==> InClass(r[i], k)
    ensures |r| < |t| ==> !InClass(t[|r|], k)
  {
    if t != [] && InClass(t[0], k) then [t[0]] + Run(t[1..], k) else []
  }

  /** lit(k+) matches s starting at index i. */
  predicate MatchAt(s: string, lit: string, k: CharClass, i: int) {
    0 <= i && i + |lit| < |s| && s[i..i + |lit|] == lit && InClass(s[i + |lit|], k)
  }

  /** i is the leftmost index where lit(k+) matches s. */
  predicate LeftmostMatch(s: string, lit: string, k: CharClass, i: int) {
    MatchAt(s, lit, k, i) && forall j :: 0 <= j < i ==> !MatchAt(s, lit, k, j)
  }

  function FirstMatchFrom(s: string, lit: string, k: CharClass, from: nat): (r: Option<nat>)
    ensures r.Some? ==> from <= r.value && MatchAt(s, lit, k, r.value)
                        && forall j :: from <= j < r.value ==> !MatchAt(s, lit, k, j)
    ensures r.None? ==> forall j :: from <= j ==> !MatchAt(s, lit, k, j)
    decreases |s| - from
  {
    if from + |lit| >= |s| then None
    else if MatchAt(s, lit, k, from) then Some(from)
    else FirstMatchFrom(s, lit, k, from + 1)
  }

  /** The capture group of s.match(/lit(k+)/), or None when the expression does not match. */
  function Capture(s: string, lit: string, k: CharClass): (r: Option<string>)
    ensures r.None? <==> forall i :: !MatchAt(s, lit, k, i)
    ensures r.Some? ==> exists i :: LeftmostMatch(s, lit, k, i) && r.value == Run(s[i + |lit|..], k)
    ensures r.Some? ==> |r.value| > 0 && forall j :: 0 <= j < |r.value| ==> InClass(r.value[j], k)
  {
    match FirstMatchFrom(s, lit, k, 0)
    case None => None
    case Some(i) =>
      assert LeftmostMatch(s, lit, k, i);
      Some(Run(s[i + |lit|..], k))
  }

  /** A match at index i whose run reaches the end of s or a character outside the class. */
  lemma CaptureAt(s: string, lit: string, k: CharClass, i: nat, run: string)
    requires LeftmostMatch(s, lit, k, i)
    requires i + |lit| + |run| <= |s| && s[i + |lit|..i + |lit| + |run|] == run
    requires forall j :: 0 <= j < |run| ==> InClass(run[j], k)
    requires i + |lit| + |run| == |s| || !InClass(s[i + |lit| + |run|], k)
    ensures Capture(s, lit, k) == Some(run)
  {
    var r := FirstMatchFrom(s, lit, k, 0);
    assert r == Some(i);
    RunOfPrefix(s[i + |lit|..], run, k);
  }

  lemma {:induction false} RunOfPrefix(t: string, run: string, k: CharClass)
    requires |run| <= |t| && t[..|run|] == run
    requires forall j :: 0 <= j < |run| ==> InClass(run[j], k)
    requires |run| == |t| || !InClass(t[|run|], k)
    ensures Run(t, k) == run
  {
    if run != [] {
      RunOfPrefix(t[1..], run[1..], k);
      assert [t[0]] + run[1..] == run;
    }
  }

  // ---------------------------------------------------------------------------------------
  // The regular expression (\d{6}): six consecutive decimal digits.

  predicate SixDigitsAt(s: string, i: int) {
    0 <= i && i + 6 <= |s| && AllDigits(s[i..i + 6])
  }

  function FirstSixFrom(s: string, from: nat): (r: Option<nat>)
    ensures r.Some? ==> from <= r.value && SixDigitsAt(s, r.value)
                        && forall j :: from <= j < r.value ==> !SixDigitsAt(s, j)
    ensures r.None? ==> forall j :: from <= j ==> !SixDigitsAt(s, j)
    decreases |s| - from
  {
    if from + 6 > |s| then None
    else if SixDigitsAt(s, from) then Some(from)
    else FirstSixFrom(s, from + 1)
  }

  /** The capture group of s.match(/(\d{6})/): the leftmost six consecutive digits. */
  function SixDigits(s: string): (r: Option<string>)
    ensures r.None? <==> forall i :: !SixDigitsAt(s, i)
    ensures r.Some? ==> |r.value| == 6 && AllDigits(r.value)
    ensures r.Some? ==> exists i :: SixDigitsAt(s, i) && r.value == s[i..i + 6]
                                    && forall j :: 0 <= j < i ==> !SixDigitsAt(s, j)
  {
    match FirstSixFrom(s, 0)
    case None => None
    case Some(i) => Some(s[i..i + 6])
  }
}
