/**
 Strings as the source uses them: decimal numerals, Go's string order, white space,
 substring search, and the usual split and join.
 */
module Text {
  import opened Wrappers

  // ---- decimal numerals -------------------------------------------------

  predicate IsDigit(c: char) {
    '0' <= c <= '9'
  }

  predicate AllDigits(s: string) {
    forall i | 0 <= i < |s| :: IsDigit(s[i])
  }

  function Digit(d: nat): (c: char)
    requires d < 10
    ensures IsDigit(c)
  {
    "0123456789"[d]
  }

  function DigitValue(c: char): (d: nat)
    requires IsDigit(c)
    ensures d < 10
  {
    (c as int) - ('0' as int)
  }

  /** The text `%d` prints. */
  function Decimal(n: nat): (s: string)
    ensures s != "" && AllDigits(s)
  {
    if n < 10 then [Digit(n)] else Decimal(n / 10) + [Digit(n % 10)]
  }

  function Value(s: string): nat
    requires AllDigits(s)
  {
    if s == "" then 0 else Value(s[..|s| - 1]) * 10 + DigitValue(s[|s| - 1])
  }

  lemma {:induction false} ValueOfDecimal(n: nat)
    ensures Value(Decimal(n)) == n
  {
    if n >= 10 {
      ValueOfDecimal(n / 10);
      assert Decimal(n)[..|Decimal(n)| - 1] == Decimal(n / 10);
    }
  }

  /** Itoa: the text of an integer of either sign. */
  function Itoa(n: int): string {
    if n < 0 then "-" + Decimal(-n) else Decimal(n)
  }

  lemma ItoaInjective(m: int, n: int)
    requires Itoa(m) == Itoa(n)
    ensures m == n
  {
    var a, b := if m < 0 then -m else m, if n < 0 then -n else n;
    ValueOfDecimal(a);
    ValueOfDecimal(b);
    assert m < 0 ==> Itoa(m)[0] == '-' && Itoa(m)[1..] == Decimal(a);
    assert n < 0 ==> Itoa(n)[0] == '-' && Itoa(n)[1..] == Decimal(b);
    assert IsDigit(Decimal(a)[0]) && IsDigit(Decimal(b)[0]);
  }

  /** ParseUint(s, 10, bits) with limit == 2^bits. */
  function ParseUint(s: string, limit: nat): Option<nat> {
    if s == "" || !AllDigits(s) || Value(s) >= limit then None else Some(Value(s))
  }

  // ---- Go's order on strings --------------------------------------------

  predicate Less(a: string, b: string) {
    b != "" && (a == "" || a[0] < b[0] || (a[0] == b[0] && Less(a[1..], b[1..])))
  }

  lemma {:induction false} LessTransitive(a: string, b: string, c: string)
    requires Less(a, b) && Less(b, c)
    ensures Less(a, c)
  {
    if a != "" && a[0] == b[0] == c[0] {
      LessTransitive(a[1..], b[1..], c[1..]);
    }
  }

  lemma {:induction false} LessTotal(a: string, b: string)
    ensures Less(a, b) || a == b || Less(b, a)
    ensures !(Less(a, b) && Less(b, a))
    ensures !Less(a, a)
  {
    if a != "" {
      LessTotal(a[1..], a[1..]);
      if b != "" && a[0] == b[0] {
        LessTotal(a[1..], b[1..]);
        assert a[1..] == b[1..] ==> a == [a[0]] + a[1..] == [b[0]] + b[1..] == b;
      }
    }
  }

  /** Equal-length heads are compared first; the tails only break a tie. */
  lemma {:induction false} LessOfConcat(x: string, y: string, u: string, v: string)
    requires |x| == |y|
    ensures Less(x + u, y + v) <==> Less(x, y) || (x == y && Less(u, v))
  {
    if x == "" {
      assert x + u == u && y + v == v;
    } else {
      LessOfConcat(x[1..], y[1..], u, v);
      assert (x + u)[1..] == x[1..] + u && (y + v)[1..] == y[1..] + v;
      assert x == y <==> x[0] == y[0] && x[1..] == y[1..] by {
        assert x == [x[0]] + x[1..] && y == [y[0]] + y[1..];
      }
    }
  }

  /** On digit strings of one length, string order is numeric order. */
  lemma {:induction false} LessIsNumeric(x: string, y: string)
    requires AllDigits(x) && AllDigits(y) && |x| == |y|
    ensures Less(x, y) <==> Value(x) < Value(y)
    ensures x == y <==> Value(x) == Value(y)
  {
    if x != "" {
      var n := |x| - 1;
      LessIsNumeric(x[..n], y[..n]);
      LessOfConcat(x[..n], y[..n], [x[n]], [y[n]]);
      assert x == x[..n] + [x[n]] && y == y[..n] + [y[n]];
      assert Less([x[n]], [y[n]]) <==> DigitValue(x[n]) < DigitValue(y[n]);
      assert x[n] == y[n] <==> DigitValue(x[n]) == DigitValue(y[n]);
    }
  }

  // ---- white space --------------------------------------------------------

  /** Unicode White_Space, the characters strings.TrimSpace removes, as ranges of code points. */
  const WHITE_SPACE: seq<(int, int)> :=
    [(9, 13), (32, 32), (0x85, 0x85), (0xA0, 0xA0), (0x1680, 0x1680), (0x2000, 0x200A),
     (0x2028, 0x2029), (0x202F, 0x202F), (0x205F, 0x205F), (0x3000, 0x3000)]

  predicate InRanges(n: int, ranges: seq<(int, int)>) {
    ranges != [] && (ranges[0].0 <= n <= ranges[0].1 || InRanges(n, ranges[1..]))
  }

  predicate IsSpace(c: char, spaces: seq<(int, int)> := WHITE_SPACE) {
    InRanges(c as int, spaces)
  }

  /** The characters JavaScript's trim removes: not U+0085, but the byte order mark. */
  const JS_SPACE: seq<(int, int)> :=
    [(9, 13), (32, 32), (0xA0, 0xA0), (0x1680, 0x1680), (0x2000, 0x200A),
     (0x2028, 0x2029), (0x202F, 0x202F), (0x205F, 0x205F), (0x3000, 0x3000), (0xFEFF, 0xFEFF)]

  lemma {:induction false} InRangesMeans(n: int, ranges: seq<(int, int)>)
    ensures InRanges(n, ranges) <==> exists i | 0 <= i < |ranges| :: ranges[i].0 <= n <= ranges[i].1
  {
    if ranges != [] {
      InRangesMeans(n, ranges[1..]);
      assert forall i | 1 <= i < |ranges| :: ranges[i] == ranges[1..][i - 1];
    }
  }

  lemma VisibleAsciiIsNotSpace(c: char)
    requires '!' <= c <= '~'
    ensures !IsSpace(c)
  {
    InRangesMeans(c as int, WHITE_SPACE);
  }

  function TrimLeft(s: string, spaces: seq<(int, int)> := WHITE_SPACE): (r: string)
    ensures r == "" || !IsSpace(r[0], spaces)
    ensures |r| <= |s| && r == s[|s| - |r|..]
  {
    if s != "" && IsSpace(s[0], spaces) then TrimLeft(s[1..], spaces) else s
  }

  function TrimRight(s: string, spaces: seq<(int, int)> := WHITE_SPACE): (r: string)
    ensures r == "" || !IsSpace(r[|r| - 1], spaces)
    ensures |r| <= |s| && r == s[..|r|]
  {
    if s != "" && IsSpace(s[|s| - 1], spaces) then TrimRight(s[..|s| - 1], spaces) else s
  }

  function TrimSpace(s: string, spaces: seq<(int, int)> := WHITE_SPACE): string {
    TrimRight(TrimLeft(s, spaces), spaces)
  }

  predicate Trimmed(s: string, spaces: seq<(int, int)> := WHITE_SPACE) {
    s == "" || (!IsSpace(s[0], spaces) && !IsSpace(s[|s| - 1], spaces))
  }

  lemma FixedIffTrimmed(s: string, spaces: seq<(int, int)> := WHITE_SPACE)
    ensures TrimSpace(s, spaces) == s <==> Trimmed(s, spaces)
    ensures Trimmed(TrimSpace(s, spaces), spaces)
  {
  }

  predicate AllSpace(s: string, spaces: seq<(int, int)> := WHITE_SPACE) {
    forall i | 0 <= i < |s| :: IsSpace(s[i], spaces)
  }

  lemma {:induction false} TrimLeftSkips(s: string, spaces: seq<(int, int)>, i: nat)
    requires i < |s| - |TrimLeft(s, spaces)|
    ensures IsSpace(s[i], spaces)
  {
    if i > 0 {
      TrimLeftSkips(s[1..], spaces, i - 1);
    }
  }

  lemma {:induction false} TrimRightSkips(s: string, spaces: seq<(int, int)>, i: nat)
    requires |TrimRight(s, spaces)| <= i < |s|
    ensures IsSpace(s[i], spaces)
  {
    if i < |s| - 1 {
      TrimRightSkips(s[..|s| - 1], spaces, i);
    }
  }

  lemma TrimLeftMeans(s: string, spaces: seq<(int, int)>) returns (a: string)
    ensures s == a + TrimLeft(s, spaces) && AllSpace(a, spaces)
  {
    a := s[..|s| - |TrimLeft(s, spaces)|];
    forall i | 0 <= i < |a| ensures IsSpace(a[i], spaces) { TrimLeftSkips(s, spaces, i); }
  }

  lemma TrimRightMeans(s: string, spaces: seq<(int, int)>) returns (b: string)
    ensures s == TrimRight(s, spaces) + b && AllSpace(b, spaces)
  {
    b := s[|TrimRight(s, spaces)|..];
    forall i | 0 <= i < |b| ensures IsSpace(b[i], spaces) { TrimRightSkips(s, spaces, |TrimRight(s, spaces)| + i); }
  }

  /** Trimming takes away white space at both ends and nothing else. */
  lemma TrimMeans(s: string, spaces: seq<(int, int)>) returns (a: string, t: string, b: string)
    ensures t == TrimSpace(s, spaces) && s == a + t + b && AllSpace(a, spaces) && AllSpace(b, spaces)
  {
    a := TrimLeftMeans(s, spaces);
    var l := TrimLeft(s, spaces);
    b := TrimRightMeans(l, spaces);
    t := TrimRight(l, spaces);
    AppendAssociates(a, t, b);
  }

  lemma AppendAssociates(a: string, t: string, b: string)
    ensures a + (t + b) == a + t + b
  {
  }

  // ---- case ---------------------------------------------------------------

  function LowerChar(c: char): char {
    if 'A' <= c <= 'Z' then ((c as int) + 32) as char else c
  }

  function Lower(s: string): string {
    if s == "" then "" else Lower(s[..|s| - 1]) + [LowerChar(s[|s| - 1])]
  }

  // ---- substring search ---------------------------------------------------

  predicate OccursAt(s: string, sep: string, i: nat) {
    i + |sep| <= |s| && s[i..i + |sep|] == sep
  }

  predicate Contains(s: string, sep: string) {
    exists i: nat | i <= |s| :: OccursAt(s, sep, i)
  }

  /** strings.Index: the first occurrence, or none. */
  function Index(s: string, sep: string, from: nat := 0): (r: Option<nat>)
    requires from <= |s| + 1
    ensures r.Some? ==> from <= r.value && OccursAt(s, sep, r.value)
    ensures r.Some? ==> forall i: nat | from <= i < r.value :: !OccursAt(s, sep, i)
    ensures r.None? ==> forall i: nat | from <= i :: !OccursAt(s, sep, i)
    decreases |s| + 1 - from
  {
    if from > |s| then None
    else if OccursAt(s, sep, from) then Some(from)
    else Index(s, sep, from + 1)
  }

  lemma HeadAndRest<T>(a: seq<T>, b: seq<T>) returns (head: T, rest: seq<T>)
    requires a != []
    ensures a == [head] + rest && a + b == [head] + (rest + b) && |rest| < |a|
  {
    head, rest := a[0], a[1..];
  }

  // ---- split and join -------------------------------------------------------

  function Split(s: string, sep: char): (r: seq<string>)
    ensures r != []
  {
    if s == "" then [""]
    else if s[0] == sep then [""] + Split(s[1..], sep)
    else var r := Split(s[1..], sep); [[s[0]] + r[0]] + r[1..]
  }

  function Join(parts: seq<string>, sep: char): string {
    if parts == [] then ""
    else if |parts| == 1 then parts[0]
    else parts[0] + [sep] + Join(parts[1..], sep)
  }

  lemma SplitOfCons(c: char, s: string, sep: char)
    ensures Split([c] + s, sep) ==
            if c == sep then [""] + Split(s, sep) else [[c] + Split(s, sep)[0]] + Split(s, sep)[1..]
  {
    assert ([c] + s)[1..] == s;
  }

  /** A separator anywhere splits the text in two. */
  lemma {:induction false} SplitAtSeparator(x: string, sep: char, y: string)
    ensures Split(x + [sep] + y, sep) == Split(x, sep) + Split(y, sep)
  {
    if x == "" {
      assert x + [sep] + y == [sep] + y;
      SplitOfCons(sep, y, sep);
    } else {
      var c, d := x[0], x[1..];
      SplitAtSeparator(d, sep, y);
      assert x == [c] + d && x + [sep] + y == [c] + (d + [sep] + y);
      SplitOfCons(c, d, sep);
      SplitOfCons(c, d + [sep] + y, sep);
      HeadOfConcat(Split(d, sep), Split(y, sep), c);
    }
  }

  lemma HeadOfConcat(r: seq<string>, u: seq<string>, c: char)
    requires r != []
    ensures [""] + (r + u) == ([""] + r) + u
    ensures [[c] + (r + u)[0]] + (r + u)[1..] == ([[c] + r[0]] + r[1..]) + u
  {
    assert (r + u)[1..] == r[1..] + u;
  }

  lemma {:induction false} SplitOfConcat(a: string, sep: char, rest: string)
    requires sep !in a
    ensures Split(a + [sep] + rest, sep) == [a] + Split(rest, sep)
    ensures Split(a, sep) == [a]
  {
    if a == "" {
      assert (a + [sep] + rest)[1..] == rest;
    } else {
      SplitOfConcat(a[1..], sep, rest);
      assert (a + [sep] + rest)[1..] == a[1..] + [sep] + rest;
      assert a == [a[0]] + a[1..];
    }
  }

  lemma {:induction false} SplitOfJoin(parts: seq<string>, sep: char)
    requires parts != []
    requires forall p | p in parts :: sep !in p
    ensures Split(Join(parts, sep), sep) == parts
  {
    if |parts| == 1 {
      SplitOfConcat(parts[0], sep, "");
    } else {
      SplitOfJoin(parts[1..], sep);
      SplitOfConcat(parts[0], sep, Join(parts[1..], sep));
    }
  }

  lemma {:induction false} SplitPartsAvoid(s: string, sep: char)
    ensures forall p | p in Split(s, sep) :: sep !in p && forall c | c in p :: c in s
  {
    if s != "" {
      SplitPartsAvoid(s[1..], sep);
    }
  }
}
