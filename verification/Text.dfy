// String operations shared by the models: splitting and joining on one
// character, searching, decimal numerals and the code-unit order in which
// JavaScript and Go compare strings.
module Text {

  datatype Option<+T> = None | Some(value: T)

  // ---------------------------------------------------------------- searching

  /** Position of the first `c` in `s`, or -1. */
  function IndexOf(s: string, c: char): (i: int)
    ensures -1 <= i < |s|
    ensures i == -1 <==> c !in s
    ensures i >= 0 ==> s[i] == c && c !in s[..i]
  {
    if s == [] then -1
    else if s[0] == c then 0
    else
      var r := IndexOf(s[1..], c);
      if r == -1 then -1 else
        assert s[..r + 1] == [s[0]] + s[1..][..r];
        r + 1
  }

  /** `pat` occurs in `s` at position `k`. */
  predicate OccursAt(s: string, pat: string, k: int) {
    0 <= k <= |s| - |pat| && s[k..k + |pat|] == pat
  }

  /** Position of the last occurrence of `pat` in `s`, or -1. */
  function LastIndexOf(s: string, pat: string): (i: int)
    ensures i == -1 || OccursAt(s, pat, i)
    ensures forall k :: OccursAt(s, pat, k) ==> k <= i
  {
    LastIndexFrom(s, pat, |s|)
  }

  function LastIndexFrom(s: string, pat: string, k: nat): (i: int)
    ensures i == -1 || (i <= k && OccursAt(s, pat, i))
    ensures forall j :: j <= k && OccursAt(s, pat, j) ==> j <= i
  {
    if OccursAt(s, pat, k) then k
    else if k == 0 then -1
    else LastIndexFrom(s, pat, k - 1)
  }

  predicate StartsWith(s: string, pre: string) {
    |pre| <= |s| && s[..|pre|] == pre
  }

  predicate EndsWith(s: string, post: string) {
    |post| <= |s| && s[|s| - |post|..] == post
  }

  /** The text before the first `c`, or the whole of `s` when there is none. */
  function Before(s: string, c: char): string {
    if c in s then s[..IndexOf(s, c)] else s
  }

  // ------------------------------------------------------- splitting, joining

  /** `s.split(c)`: the pieces between the separators, at least one. */
  function Split(s: string, c: char): (parts: seq<string>)
    ensures |parts| >= 1
    ensures forall p :: p in parts ==> c !in p
    ensures Join(parts, c) == s
  {
    var i := IndexOf(s, c);
    if i == -1 then [s]
    else
      assert s == s[..i] + [c] + s[i + 1..];
      [s[..i]] + Split(s[i + 1..], c)
  }

  /** `parts.join(c)`; the join of no parts is the empty string. */
  function Join(parts: seq<string>, c: char): string {
    if parts == [] then ""
    else if |parts| == 1 then parts[0]
    else parts[0] + [c] + Join(parts[1..], c)
  }

  lemma {:induction false} FirstIndexUnique(a: string, b: string, c: char)
    requires c !in a
    ensures IndexOf(a + [c] + b, c) == |a|
  {
    if a != [] {
      assert (a + [c] + b)[1..] == a[1..] + [c] + b;
      FirstIndexUnique(a[1..], b, c);
    }
  }

  /** Splitting undoes joining whenever no piece holds the separator. */
  lemma {:induction false} SplitOfJoin(parts: seq<string>, c: char)
    requires |parts| >= 1
    requires forall p :: p in parts ==> c !in p
    ensures Split(Join(parts, c), c) == parts
  {
    if |parts| == 1 {
      assert IndexOf(parts[0], c) == -1;
    } else {
      var rest := Join(parts[1..], c);
      FirstIndexUnique(parts[0], rest, c);
      SplitOfJoin(parts[1..], c);
      var s := parts[0] + [c] + rest;
      assert s[..|parts[0]|] == parts[0] && s[|parts[0]| + 1..] == rest;
    }
  }

  lemma {:induction false} JoinAppend(a: seq<string>, b: seq<string>, c: char)
    requires a != [] && b != []
    ensures Join(a + b, c) == Join(a, c) + [c] + Join(b, c)
  {
    if |a| == 1 {
      assert (a + b)[1..] == b;
    } else {
      assert (a + b)[1..] == a[1..] + b;
      JoinAppend(a[1..], b, c);
    }
  }

  /** A joined text holds only the separator and what its pieces hold. */
  lemma {:induction false} JoinLacks(parts: seq<string>, c: char, d: char)
    requires d != c && forall p :: p in parts ==> d !in p
    ensures d !in Join(parts, c)
  {
    if |parts| > 1 {
      assert parts[0] in parts;
      JoinLacks(parts[1..], c, d);
    } else if |parts| == 1 {
      assert parts[0] in parts;
    }
  }

  // ------------------------------------------------------------------ numerals

  predicate IsDigit(c: char) { '0' <= c <= '9' }

  /** The pattern `^\d+$`. */
  predicate IsNumeral(s: string) {
    s != [] && forall i :: 0 <= i < |s| ==> IsDigit(s[i])
  }

  /** The value a decimal numeral denotes; leading zeros are allowed. */
  function Value(s: string): nat
    requires forall i :: 0 <= i < |s| ==> IsDigit(s[i])
  {
    if s == [] then 0 else
      assert IsDigit(s[|s| - 1]);
      10 * Value(s[..|s| - 1]) + (s[|s| - 1] as int - '0' as int)
  }

  /** The canonical numeral of `n`. */
  function Print(n: nat): (s: string)
    ensures IsNumeral(s) && Value(s) == n
  {
    var last := [('0' as int + n % 10) as char];
    if n < 10 then
      assert last[..|last| - 1] == [];
      last
    else
      var front := Print(n / 10);
      assert (front + last)[..|front + last| - 1] == front;
      front + last
  }

  const U64_MAX: nat := 0xFFFF_FFFF_FFFF_FFFF

  /** Rust's `parse::<u64>()`: digits after an optional plus sign, within 64 bits. */
  function ParseU64(s: string): Option<nat> {
    var digits := if s != [] && s[0] == '+' then s[1..] else s;
    if IsNumeral(digits) && Value(digits) <= U64_MAX then Some(Value(digits)) else None
  }

  /** A numeral with or without a plus sign is read as its value when that fits; nothing else is read. */
  lemma {:induction false} U64Reads(s: string)
    ensures IsNumeral(s) ==> ParseU64(s) == (if Value(s) < 0x1_0000_0000_0000_0000 then Some(Value(s)) else None)
    ensures s != "" && s[0] == '+' && IsNumeral(s[1..]) ==>
              ParseU64(s) == if Value(s[1..]) < 0x1_0000_0000_0000_0000 then Some(Value(s[1..])) else None
    ensures !IsNumeral(s) && (s == "" || s[0] != '+' || !IsNumeral(s[1..])) ==> ParseU64(s).None?
  {
    hide Value;
    assert IsNumeral(s) ==> IsDigit(s[0]);
  }

  // ------------------------------------------------------------- string order

  /** Code-unit lexicographic order. */
  predicate Less(a: string, b: string) {
    b != [] && (a == [] || a[0] < b[0] || (a[0] == b[0] && Less(a[1..], b[1..])))
  }

  predicate AtMost(a: string, b: string) { a == b || Less(a, b) }

  lemma {:induction false} LessIrreflexive(a: string)
    ensures !Less(a, a)
  {
    if a != [] { LessIrreflexive(a[1..]); }
  }

  lemma {:induction false} LessTransitive(a: string, b: string, c: string)
    requires Less(a, b) && Less(b, c)
    ensures Less(a, c)
  {
    if a != [] && a[0] == b[0] && b[0] == c[0] { LessTransitive(a[1..], b[1..], c[1..]); }
  }

  lemma {:induction false} LessTotal(a: string, b: string)
    ensures Less(a, b) || a == b || Less(b, a)
  {
    if a != [] && b != [] && a[0] == b[0] {
      LessTotal(a[1..], b[1..]);
      assert a == [a[0]] + a[1..] && b == [b[0]] + b[1..];
    }
  }

  lemma {:induction false} LessAsymmetric(a: string, b: string)
    requires Less(a, b)
    ensures !Less(b, a)
  {
    if Less(b, a) {
      LessTransitive(a, b, a);
      LessIrreflexive(a);
    }
  }

  /** A common prefix does not influence the order. */
  lemma {:induction false} LessAfterPrefix(p: string, a: string, b: string)
    ensures Less(p + a, p + b) == Less(a, b)
  {
    if p == [] {
      assert p + a == a && p + b == b;
    } else {
      assert (p + a)[1..] == p[1..] + a && (p + b)[1..] == p[1..] + b;
      LessAfterPrefix(p[1..], a, b);
    }
  }

  /** Texts of one length that differ are ordered the same whatever follows. */
  lemma {:induction false} LessBeforeSuffix(a: string, b: string, x: string, y: string)
    requires |a| == |b| && a != b
    ensures Less(a + x, b + y) == Less(a, b)
  {
    if a[0] == b[0] {
      assert (a + x)[1..] == a[1..] + x && (b + y)[1..] == b[1..] + y;
      assert a == [a[0]] + a[1..] && b == [b[0]] + b[1..];
      LessBeforeSuffix(a[1..], b[1..], x, y);
    }
  }

  /** Numerals of one length are in string order exactly when they are in numeric order. */
  lemma {:induction false} NumeralOrder(x: string, y: string)
    requires IsNumeral(x) && IsNumeral(y) && |x| == |y|
    ensures Value(x) < Value(y) <==> Less(x, y)
    decreases |x|
  {
    var fx, fy := x[..|x| - 1], y[..|y| - 1];
    var lx, ly := x[|x| - 1..], y[|y| - 1..];
    assert x == fx + lx && y == fy + ly;
    assert IsDigit(x[|x| - 1]) && IsDigit(y[|y| - 1]);
    if fx == fy {
      LessAfterPrefix(fx, lx, ly);
    } else {
      NumeralOrder(fx, fy);
      NumeralOrder(fy, fx);
      LessTotal(fx, fy);
      LessBeforeSuffix(fx, fy, lx, ly);
    }
  }
}
