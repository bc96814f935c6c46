/** `conv_num` of task.py and its three branch parsers: a string is trimmed
    and lower-cased, then read as a hexadecimal integer (`0x` / `-0x`
    prefix), as a number with a decimal point, or as a decimal integer.
    Every rejection is `None`. Characters are treated by their ASCII
    meaning (whitespace, upper case, digits). */
module NumberParser {
  import opened Numerals

  datatype Option<T> = None | Some(value: T)

  /** A successful result: a Python `int`, or a Python `float`, modelled as
      the exact real number the digit sums denote (no IEEE rounding). */
  datatype Number = Int(i: int) | Float(x: real)

  // ---------------------------------------------------------------------------
  // Characters and the string operations conv_num relies on
  // ---------------------------------------------------------------------------

  /** `c.isspace()` on ASCII: space, tab, line feed, vertical tab, form feed,
      carriage return and the four separators 0x1c..0x1f. */
  predicate IsSpace(c: char) {
    c == ' ' || 9 <= c as int <= 13 || 28 <= c as int <= 31
  }

  predicate AllSpace(s: string) {
    forall i :: 0 <= i < |s| ==> IsSpace(s[i])
  }

  predicate IsUpper(c: char) {
    'A' <= c <= 'Z'
  }

  /** `c.lower()` on ASCII. */
  function LowerChar(c: char): (r: char)
    ensures !IsUpper(r)
    ensures !IsUpper(c) ==> r == c
    ensures IsSpace(r) <==> IsSpace(c)
  {
    if IsUpper(c) then (c as int - 'A' as int + 'a' as int) as char else c
  }

  /** `s.lower()` */
  function Lower(s: string): string {
    seq(|s|, i requires 0 <= i < |s| => LowerChar(s[i]))
  }

  /** `s.lstrip()`: drops the longest all-whitespace prefix. */
  function LStrip(s: string): string {
    if s != [] && IsSpace(s[0]) then LStrip(s[1..]) else s
  }

  /** LStrip leaves a suffix that does not start with whitespace, and
      everything it drops is whitespace. */
  lemma {:induction false} LStripSpec(s: string)
    ensures var r := LStrip(s);
      && |r| <= |s| && r == s[|s| - |r|..]
      && AllSpace(s[..|s| - |r|])
      && (r != [] ==> !IsSpace(r[0]))
    decreases |s|
  {
    if s != [] && IsSpace(s[0]) {
      LStripSpec(s[1..]);
      var r := LStrip(s);
      assert s[..|s| - |r|] == [s[0]] + s[1..][..|s| - 1 - |r|];
    }
  }

  /** `s.rstrip()`: drops the longest all-whitespace suffix. */
  function RStrip(s: string): string {
    if s != [] && IsSpace(s[|s| - 1]) then RStrip(s[..|s| - 1]) else s
  }

  /** RStrip leaves a prefix that does not end in whitespace, and everything
      it drops is whitespace. */
  lemma {:induction false} RStripSpec(s: string)
    ensures var r := RStrip(s);
      && |r| <= |s| && r == s[..|r|]
      && AllSpace(s[|r|..])
      && (r != [] ==> !IsSpace(r[|r| - 1]))
    decreases |s|
  {
    if s != [] && IsSpace(s[|s| - 1]) {
      RStripSpec(s[..|s| - 1]);
      var r := RStrip(s);
      assert s[|r|..] == s[..|s| - 1][|r|..] + [s[|s| - 1]];
    }
  }

  /** `s.strip()` */
  function Strip(s: string): string {
    RStrip(LStrip(s))
  }

  /** `s.startswith(p)` */
  predicate StartsWith(s: string, p: string) {
    |p| <= |s| && s[..|p|] == p
  }

  /** `s[k:]`, which is empty when k is past the end. */
  function Drop(s: string, k: nat): string {
    if k <= |s| then s[k..] else []
  }

  /** k minus signs. */
  function Dashes(k: nat): string {
    seq(k, _ => '-')
  }

  /** `s.lstrip("-")`: drops every leading minus sign, not just one. */
  function LStripDash(s: string): string {
    if s != [] && s[0] == '-' then LStripDash(s[1..]) else s
  }

  /** A string is the minus signs lstrip("-") drops followed by what it
      keeps, which does not start with a minus sign. */
  lemma {:induction false} LStripDashSpec(s: string)
    ensures var r := LStripDash(s);
      && |r| <= |s| && s == Dashes(|s| - |r|) + r
      && (r != [] ==> r[0] != '-')
    decreases |s|
  {
    if s != [] && s[0] == '-' {
      LStripDashSpec(s[1..]);
      var r := LStripDash(s);
      assert Dashes(|s| - |r|) == ['-'] + Dashes(|s| - 1 - |r|);
    }
  }

  /** Removing leading minus signs leaves the count of any other character alone. */
  lemma LStripDashKeeps(s: string, c: char)
    requires c != '-'
    ensures multiset(LStripDash(s))[c] == multiset(s)[c]
  {
    LStripDashSpec(s);
    var r := LStripDash(s);
    var d := Dashes(|s| - |r|);
    assert multiset(s) == multiset(d) + multiset(r);
    assert c !in d;
  }

  /** Index of the first `.`; what `split(".")` cuts at. */
  function DotIndex(s: string): (k: nat)
    requires '.' in s
    ensures k < |s|
  {
    if s[0] == '.' then 0 else DotIndex(s[1..]) + 1
  }

  /** DotIndex finds a dot, and no dot comes before it. */
  lemma {:induction false} DotIndexSpec(s: string)
    requires '.' in s
    ensures s[DotIndex(s)] == '.' && '.' !in s[..DotIndex(s)]
  {
    if s[0] != '.' {
      DotIndexSpec(s[1..]);
      var k := DotIndex(s[1..]);
      assert s[..k + 1] == [s[0]] + s[1..][..k];
    }
  }

  // ---------------------------------------------------------------------------
  // Hexadecimal digits
  // ---------------------------------------------------------------------------

  const HexDigits := "0123456789abcdef"

  predicate IsHexDigit(c: char) {
    '0' <= c <= '9' || 'a' <= c <= 'f'
  }

  predicate AllHexDigits(s: string) {
    forall i :: 0 <= i < |s| ==> IsHexDigit(s[i])
  }

  /** `"0123456789abcdef".index(c)` for a hex digit c. */
  function HexDigitValue(c: char): (d: int)
    requires IsHexDigit(c)
    ensures 0 <= d < 16
  {
    if '0' <= c <= '9' then DigitValue(c) else c as int - 'a' as int + 10
  }

  /** HexDigitValue(c) is the position of c in `"0123456789abcdef"`, as
      `.index` finds it (task.py:41). */
  lemma HexDigitValueIsIndex(c: char)
    requires IsHexDigit(c)
    ensures HexDigits[HexDigitValue(c)] == c
    ensures forall j :: 0 <= j < |HexDigits| && HexDigits[j] == c ==> j == HexDigitValue(c)
  {
  }

  /** The hex digit character of value d. */
  function HexChar(d: int): (c: char)
    requires 0 <= d < 16
    ensures IsHexDigit(c) && HexDigitValue(c) == d
  {
    if d < 10 then DigitChar(d) else ('a' as int + d - 10) as char
  }

  /** Base-16 value of a hex digit string, accumulated left to right. */
  function HexValue(h: string): int
    requires AllHexDigits(h)
  {
    if h == [] then 0 else HexValue(h[..|h| - 1]) * 16 + HexDigitValue(h[|h| - 1])
  }

  /** The shortest lower-case hexadecimal digit string of n. */
  function HexString(n: nat): (r: string)
    ensures r != [] && AllHexDigits(r)
  {
    if n < 16 then [HexChar(n)] else HexString(n / 16) + [HexChar(n % 16)]
  }

  /** Reading back the digits of HexString(n) gives n. */
  lemma {:induction false} HexStringRoundTrip(n: nat)
    ensures HexValue(HexString(n)) == n
  {
    var r := HexString(n);
    if n < 16 {
      assert r[..0] == [];
    } else {
      HexStringRoundTrip(n / 16);
      assert r[..|r| - 1] == HexString(n / 16);
    }
  }

  // ---------------------------------------------------------------------------
  // The parsers
  // ---------------------------------------------------------------------------

  /** `-v if is_negative else v` on an int (task.py:43, 76) ... */
  function Negated(negative: bool, v: int): int {
    if negative then -v else v
  }

  /** ... and on a float (task.py:64). */
  function NegatedReal(negative: bool, x: real): real {
    if negative then -x else x
  }

  /** The digits after the `0x` or `-0x` prefix (task.py:33-34). */
  function HexPart(u: string): string {
    if StartsWith(u, "-0x") then u[3..] else Drop(u, 2)
  }

  /** What parse_hex returns (task.py:31-43): the base-16 value of the digits
      after the prefix, negated for `-0x`; None when they are empty or hold
      anything but `0-9a-f`. The method ParseHex computes it with a loop. */
  function HexBranch(u: string): Option<Number> {
    var h := HexPart(u);
    if h == [] || !AllHexDigits(h) then None
    else Some(Int(Negated(StartsWith(u, "-0x"), HexValue(h))))
  }

  /** parse_hex, with its accumulation loop `v = v * 16 + digit`. */
  method ParseHex(u: string) returns (r: Option<Number>)
    ensures r == HexBranch(u)
  {
    var isNegative := StartsWith(u, "-0x");
    var hexPart := if isNegative then u[3..] else Drop(u, 2);
    if hexPart == [] || !AllHexDigits(hexPart) {
      return None;
    }
    var decimalValue := 0;
    for k := 0 to |hexPart|
      invariant decimalValue == HexValue(hexPart[..k])
    {
      assert hexPart[..k + 1][..k] == hexPart[..k];
      decimalValue := decimalValue * 16 + HexDigitValue(hexPart[k]);
    }
    assert hexPart[..|hexPart|] == hexPart;
    r := Some(Int(Negated(isNegative, decimalValue)));
  }

  /** parse_float (task.py:46-64). Python's `split` raises when there is no
      dot; conv_num only calls it when there is one. */
  function ParseFloat(u: string): Option<Number>
    requires '.' in u
  {
    var negative := StartsWith(u, "-");
    var v := LStripDash(u);
    LStripDashKeeps(u, '.');
    if multiset(v)['.'] > 1 then None
    else
      var k := DotIndex(v);
      FloatFromParts(negative, v[..k], v[k + 1..])
  }

  /** The checks and the sums parse_float makes once the text is split at
      its dot (task.py:53-64). */
  function FloatFromParts(negative: bool, left: string, right: string): Option<Number> {
    if left != [] && !AllDigits(left) then None
    else if right != [] && !AllDigits(right) then None
    else
      var integerValue := if left != [] then DecimalSum(left) else 0;
      if right == [] then
        // the sum over no fractional digits is the int 0, so the result is an int
        Some(Int(Negated(negative, integerValue)))
      else
        var result := integerValue as real + FracSum(right);
        Some(Float(NegatedReal(negative, result)))
  }

  /** parse_integer (task.py:67-76). `"".isdigit()` is false, so a bare run
      of minus signs is rejected. */
  function ParseInteger(u: string): Option<Number> {
    var negative := StartsWith(u, "-");
    var v := LStripDash(u);
    if v == [] || !AllDigits(v) then None
    else Some(Int(Negated(negative, DecimalSum(v))))
  }

  /** conv_num (task.py:11-28). The hex test comes before the dot test. */
  function ConvNum(s: string): Option<Number> {
    var t := Strip(s);
    if t == [] then None
    else
      var u := Lower(t);
      if StartsWith(u, "0x") || StartsWith(u, "-0x") then HexBranch(u)
      else if '.' in u then ParseFloat(u)
      else ParseInteger(u)
  }

  // ---------------------------------------------------------------------------
  // What conv_num accepts and what it returns
  // ---------------------------------------------------------------------------

  /** A character that strip() and lower() leave alone. */
  predicate Plain(c: char) {
    !IsSpace(c) && !IsUpper(c)
  }

  /** A non-empty string of characters that strip() and lower() leave alone. */
  predicate Normal(u: string) {
    u != [] && forall i :: 0 <= i < |u| ==> Plain(u[i])
  }

  predicate HexPrefixed(u: string) {
    StartsWith(u, "0x") || StartsWith(u, "-0x")
  }

  lemma NormalFixed(u: string)
    requires Normal(u)
    ensures Strip(u) == u && Lower(u) == u
  {
    assert LStrip(u) == u;
  }

  lemma DispatchHex(u: string)
    requires Normal(u) && HexPrefixed(u)
    ensures ConvNum(u) == HexBranch(u)
  {
    NormalFixed(u);
  }

  lemma DispatchPoint(u: string)
    requires Normal(u) && !HexPrefixed(u) && '.' in u
    ensures ConvNum(u) == ParseFloat(u)
  {
    NormalFixed(u);
  }

  lemma DispatchInteger(u: string)
    requires Normal(u) && !HexPrefixed(u) && '.' !in u
    ensures ConvNum(u) == ParseInteger(u)
  {
    NormalFixed(u);
  }

  /** The value of k minus signs, the digits l, a dot and the digits r. */
  function PointValue(k: nat, l: string, r: string): Number {
    if r == [] then Int(Negated(k > 0, DecimalSum(l)))
    else
      var x := DecimalSum(l) as real + FracSum(r);
      Float(NegatedReal(k > 0, x))
  }

  /** The empty string and an all-whitespace string are rejected (task.py:17-18). */
  lemma ConvNumBlank(s: string)
    requires AllSpace(s)
    ensures ConvNum(s) == None
  {
    LStripSpec(s);
  }

  /** Any string means the same as its `strip().lower()` form (task.py:17-20). */
  lemma ConvNumNormalized(s: string)
    ensures ConvNum(s) == ConvNum(Lower(Strip(s)))
  {
    var t := Strip(s);
    LStripSpec(s);
    RStripSpec(LStrip(s));
    if t != [] {
      var u := Lower(t);
      assert LStrip(u) == u;
      assert RStrip(u) == u;
      assert Lower(u) == u;
    }
  }

  /** s and t have whitespace at the same positions. */
  predicate SameSpaces(s: string, t: string) {
    |s| == |t| && forall i :: 0 <= i < |s| ==> (IsSpace(s[i]) <==> IsSpace(t[i]))
  }

  lemma {:induction false} LStripAligned(s: string, t: string)
    requires SameSpaces(s, t)
    ensures |LStrip(s)| == |LStrip(t)|
    decreases |s|
  {
    if s != [] && IsSpace(s[0]) {
      LStripAligned(s[1..], t[1..]);
    }
  }

  lemma {:induction false} RStripAligned(s: string, t: string)
    requires SameSpaces(s, t)
    ensures |RStrip(s)| == |RStrip(t)|
    decreases |s|
  {
    if s != [] && IsSpace(s[|s| - 1]) {
      RStripAligned(s[..|s| - 1], t[..|t| - 1]);
    }
  }

  /** strip() keeps a slice s[a..b] of its argument. */
  lemma StripSlice(s: string) returns (a: nat, b: nat)
    ensures a == |s| - |LStrip(s)| && b == a + |Strip(s)| && b <= |s|
    ensures Strip(s) == s[a..b]
  {
    LStripSpec(s);
    RStripSpec(LStrip(s));
    a := |s| - |LStrip(s)|;
    b := a + |Strip(s)|;
  }

  /** Strings that agree up to letter case have whitespace at the same places. */
  lemma AlikeSameSpaces(s: string, t: string)
    requires |s| == |t| && forall i :: 0 <= i < |s| ==> LowerChar(s[i]) == LowerChar(t[i])
    ensures SameSpaces(s, t)
  {
    forall i | 0 <= i < |s| ensures IsSpace(s[i]) <==> IsSpace(t[i]) {
      assert IsSpace(LowerChar(s[i])) == IsSpace(LowerChar(t[i]));
    }
  }

  lemma LStripSameSpaces(s: string, t: string)
    requires SameSpaces(s, t)
    ensures SameSpaces(LStrip(s), LStrip(t))
  {
    LStripAligned(s, t);
    LStripSpec(s);
    LStripSpec(t);
    var a := |s| - |LStrip(s)|;
    forall i | 0 <= i < |LStrip(s)| ensures IsSpace(LStrip(s)[i]) <==> IsSpace(LStrip(t)[i]) {
      assert LStrip(s)[i] == s[a + i] && LStrip(t)[i] == t[a + i];
    }
  }

  /** Strings that agree up to letter case have the same normal form. */
  lemma NormalizedAlike(s: string, t: string)
    requires |s| == |t| && forall i :: 0 <= i < |s| ==> LowerChar(s[i]) == LowerChar(t[i])
    ensures Lower(Strip(s)) == Lower(Strip(t))
  {
    AlikeSameSpaces(s, t);
    LStripAligned(s, t);
    LStripSameSpaces(s, t);
    RStripAligned(LStrip(s), LStrip(t));
    var a, b := StripSlice(s);
    var a', b' := StripSlice(t);
    LowerSlicesAlike(s, t, a, b);
  }

  lemma LowerSlicesAlike(s: string, t: string, a: nat, b: nat)
    requires |s| == |t| && forall i :: 0 <= i < |s| ==> LowerChar(s[i]) == LowerChar(t[i])
    requires a <= b <= |s|
    ensures Lower(s[a..b]) == Lower(t[a..b])
  {
    var x, y := Lower(s[a..b]), Lower(t[a..b]);
    forall i | 0 <= i < b - a ensures x[i] == y[i] {
      assert s[a..b][i] == s[a + i] && t[a..b][i] == t[a + i];
    }
  }

  /** Two strings that agree up to letter case parse alike: in particular
      hex digits and the `x` of the prefix may be upper case (task.py:20). */
  lemma ConvNumIgnoresCase(s: string, t: string)
    requires |s| == |t| && forall i :: 0 <= i < |s| ==> LowerChar(s[i]) == LowerChar(t[i])
    ensures ConvNum(s) == ConvNum(t)
  {
    NormalizedAlike(s, t);
    ConvNumNormalized(s);
    ConvNumNormalized(t);
  }

  // --- the hex branch ---

  /** The prefix of a hexadecimal literal. */
  function HexPrefix(negative: bool): string {
    if negative then "-0x" else "0x"
  }

  lemma HexLiteralNormal(u: string, negative: bool, h: string)
    requires u == HexPrefix(negative) + h && AllHexDigits(h)
    ensures Normal(u)
  {
    forall i | 0 <= i < |u| ensures Plain(u[i]) {
      if i >= |HexPrefix(negative)| {
        assert u[i] == h[i - |HexPrefix(negative)|];
      }
    }
  }

  lemma HexLiteralPrefix(u: string, negative: bool, h: string)
    requires u == HexPrefix(negative) + h
    ensures HexPrefixed(u) && StartsWith(u, "-0x") == negative && HexPart(u) == h
  {
    assert StartsWith(u, HexPrefix(negative));
    if !negative {
      assert u[0] == '0';
    }
  }

  /** Every non-empty lower-case hex digit string after `0x` / `-0x` is
      accepted with its base-16 value, negated for `-0x` (task.py:22-23, 31-43). */
  lemma ConvNumHex(negative: bool, h: string)
    requires h != [] && AllHexDigits(h)
    ensures ConvNum(HexPrefix(negative) + h)
         == Some(Int(Negated(negative, HexValue(h))))
  {
    var u := HexPrefix(negative) + h;
    HexLiteralNormal(u, negative, h);
    HexLiteralPrefix(u, negative, h);
    DispatchHex(u);
    HexBranchValue(u, negative, h);
  }

  lemma HexBranchValue(u: string, negative: bool, h: string)
    requires HexPart(u) == h && StartsWith(u, "-0x") == negative
    requires h != [] && AllHexDigits(h)
    ensures HexBranch(u) == Some(Int(Negated(negative, HexValue(h))))
  {
  }

  /** A dot after a hex prefix lands in the digits, which then are not all hex. */
  lemma HexPartDot(u: string)
    requires HexPrefixed(u) && '.' in u
    ensures !AllHexDigits(HexPart(u))
  {
    var h := HexPart(u);
    var p := |u| - |h|;
    assert p == 2 || p == 3;
    assert forall i :: 0 <= i < p ==> u[i] != '.' by {
      if StartsWith(u, "-0x") {
        assert u[..3] == "-0x";
      } else {
        assert u[..2] == "0x";
      }
    }
    var i :| 0 <= i < |u| && u[i] == '.';
    assert h[i - p] == '.';
  }

  /** Once the text starts with `0x` or `-0x` it is read as hex and nothing
      else: it is accepted exactly when the rest is non-empty and all hex
      digits, with their value, and a `.` anywhere makes it None, because
      the hex test of task.py:22 runs before the dot test of task.py:25. */
  lemma ConvNumHexBranch(s: string)
    requires HexPrefixed(Lower(Strip(s)))
    ensures var u := Lower(Strip(s)); var h := HexPart(u);
      && (ConvNum(s).Some? <==> h != [] && AllHexDigits(h))
      && (ConvNum(s).Some? ==>
            ConvNum(s) == Some(Int(Negated(StartsWith(u, "-0x"), HexValue(h)))))
      && ('.' in u ==> ConvNum(s) == None)
  {
    var u := Lower(Strip(s));
    assert ConvNum(s) == HexBranch(u);
    if '.' in u {
      HexPartDot(u);
    }
  }

  // --- the integer branch ---

  lemma {:induction false} LStripDashOf(k: nat, l: string)
    requires l == [] || l[0] != '-'
    ensures LStripDash(Dashes(k) + l) == l
  {
    if k == 0 {
      assert Dashes(0) + l == l;
    } else {
      var s := Dashes(k) + l;
      assert s[0] == '-' && s[1..] == Dashes(k - 1) + l;
      LStripDashOf(k - 1, l);
    }
  }

  /** With no `x` in it, a string has no hex prefix. */
  lemma NoHexPrefix(u: string)
    requires 'x' !in u
    ensures !HexPrefixed(u)
  {
    if |u| >= 2 {
      assert u[..2][1] == u[1];
    }
    if |u| >= 3 {
      assert u[..3][2] == u[2];
    }
  }

  lemma IntegerLiteralNormal(u: string, k: nat, l: string)
    requires u == Dashes(k) + l && u != [] && AllDigits(l)
    ensures Normal(u)
  {
    forall i | 0 <= i < |u| ensures Plain(u[i]) {
      if i >= k {
        assert u[i] == l[i - k];
      }
    }
  }

  lemma IntegerLiteralShape(u: string, k: nat, l: string)
    requires u == Dashes(k) + l && AllDigits(l)
    ensures !HexPrefixed(u) && '.' !in u
    ensures LStripDash(u) == l && (StartsWith(u, "-") <==> k > 0)
  {
    forall i | 0 <= i < |u| ensures u[i] != 'x' && u[i] != '.' {
      if i >= k {
        assert u[i] == l[i - k];
      }
    }
    NoHexPrefix(u);
    LStripDashOf(k, l);
    if k == 0 {
      assert u == l;
    }
  }

  /** Minus signs followed by decimal digits, with no dot: the decimal value,
      negated when there was at least one sign (`"--12"` is -12); a string of
      signs alone, like a bare `-`, is None (task.py:67-76). */
  lemma ConvNumInteger(k: nat, l: string)
    requires AllDigits(l)
    ensures ConvNum(Dashes(k) + l) == if l == [] then None else Some(Int(Negated(k > 0, DecimalSum(l))))
  {
    var u := Dashes(k) + l;
    if u != [] {
      IntegerLiteralNormal(u, k, l);
      IntegerLiteralShape(u, k, l);
      DispatchInteger(u);
    }
  }

  /** Conversely, every string the integer branch accepts is minus signs
      followed by a non-empty run of digits, with that value. */
  lemma ConvNumIntegerShape(s: string) returns (k: nat, l: string)
    requires !HexPrefixed(Lower(Strip(s))) && '.' !in Lower(Strip(s))
    requires ConvNum(s).Some?
    ensures Lower(Strip(s)) == Dashes(k) + l && l != [] && AllDigits(l)
    ensures ConvNum(s) == Some(Int(Negated(k > 0, DecimalSum(l))))
  {
    var u := Lower(Strip(s));
    assert ConvNum(s) == ParseInteger(u);
    l := LStripDash(u);
    LStripDashSpec(u);
    k := |u| - |l|;
    assert StartsWith(u, "-") <==> k > 0;
  }

  // --- the decimal-point branch ---

  lemma {:induction false} FirstDot(l: string, r: string)
    requires '.' !in l
    ensures DotIndex(l + "." + r) == |l|
  {
    var v := l + "." + r;
    if l != [] {
      assert v[1..] == l[1..] + "." + r;
      FirstDot(l[1..], r);
    }
  }

  /** How `split(".")` cuts digits, one dot and digits. */
  lemma PointSplit(v: string, l: string, r: string)
    requires v == l + "." + r && AllDigits(l) && AllDigits(r)
    ensures '.' in v && multiset(v)['.'] == 1
    ensures DotIndex(v) == |l| && v[..|l|] == l && v[|l| + 1..] == r
  {
    assert v[|l|] == '.';
    assert '.' !in l && '.' !in r;
    assert multiset(v) == multiset(l) + multiset(["."[0]]) + multiset(r);
    FirstDot(l, r);
  }

  lemma PointLiteralNormal(u: string, k: nat, l: string, r: string)
    requires u == Dashes(k) + (l + "." + r) && AllDigits(l) && AllDigits(r)
    ensures Normal(u)
  {
    forall i | 0 <= i < |u| ensures Plain(u[i]) {
      if k <= i < k + |l| {
        assert u[i] == l[i - k];
      } else if i > k + |l| {
        assert u[i] == r[i - k - |l| - 1];
      }
    }
  }

  lemma PointLiteralNoX(u: string, k: nat, l: string, r: string)
    requires u == Dashes(k) + (l + "." + r) && AllDigits(l) && AllDigits(r)
    ensures 'x' !in u && u[k + |l|] == '.'
  {
    forall i | 0 <= i < |u| ensures u[i] != 'x' {
      if k <= i < k + |l| {
        assert u[i] == l[i - k];
      } else if i > k + |l| {
        assert u[i] == r[i - k - |l| - 1];
      }
    }
  }

  lemma PointLiteralShape(u: string, k: nat, l: string, r: string)
    requires u == Dashes(k) + (l + "." + r) && AllDigits(l) && AllDigits(r)
    ensures !HexPrefixed(u) && '.' in u
    ensures LStripDash(u) == l + "." + r && (StartsWith(u, "-") <==> k > 0)
  {
    PointLiteralNoX(u, k, l, r);
    NoHexPrefix(u);
    LStripDashOf(k, l + "." + r);
    DashesPrefix(u, k, l, r);
  }

  lemma ParseFloatParts(u: string, l: string, r: string)
    requires '.' in u && LStripDash(u) == l + "." + r
    requires AllDigits(l) && AllDigits(r)
    ensures ParseFloat(u) == FloatFromParts(StartsWith(u, "-"), l, r)
  {
    PointSplit(LStripDash(u), l, r);
  }

  lemma FloatFromPartsValue(k: nat, l: string, r: string)
    requires AllDigits(l) && AllDigits(r)
    ensures FloatFromParts(k > 0, l, r) == Some(PointValue(k, l, r))
  {
    if l == [] {
      assert DecimalSum(l) == 0;
    }
  }

  lemma ParseFloatValue(u: string, k: nat, l: string, r: string)
    requires '.' in u && LStripDash(u) == l + "." + r && (StartsWith(u, "-") <==> k > 0)
    requires AllDigits(l) && AllDigits(r)
    ensures ParseFloat(u) == Some(PointValue(k, l, r))
  {
    ParseFloatParts(u, l, r);
    FloatFromPartsValue(k, l, r);
  }

  /** Minus signs, digits, one dot, digits (either run may be empty): the
      integer part plus the exact fraction, negated under a sign. With no
      digits after the dot the result is an int, so `"."` is 0 and `"123."`
      is 123 (task.py:25-26, 46-64). */
  lemma ConvNumPoint(k: nat, l: string, r: string)
    requires AllDigits(l) && AllDigits(r)
    ensures ConvNum(Dashes(k) + l + "." + r) == Some(PointValue(k, l, r))
  {
    var u := Dashes(k) + (l + "." + r);
    assert Dashes(k) + l + "." + r == u;
    PointLiteralNormal(u, k, l, r);
    PointLiteralShape(u, k, l, r);
    DispatchPoint(u);
    ParseFloatValue(u, k, l, r);
  }

  /** parse_float rejects a string whose two sides of the dot are not both
      empty-or-digits. */
  lemma ParseFloatDigits(u: string)
    requires '.' in u && ParseFloat(u).Some?
    ensures var v := LStripDash(u);
      '.' in v && AllDigits(v[..DotIndex(v)]) && AllDigits(v[DotIndex(v) + 1..])
  {
    LStripDashKeeps(u, '.');
  }

  lemma SplitAtDot(v: string, d: nat) returns (l: string, r: string)
    requires d < |v| && v[d] == '.'
    ensures l == v[..d] && r == v[d + 1..] && v == l + "." + r
  {
    l, r := v[..d], v[d + 1..];
  }

  lemma DashesPrefix(u: string, k: nat, l: string, r: string)
    requires u == Dashes(k) + (l + "." + r) && (l == [] || l[0] != '-')
    ensures u == Dashes(k) + l + "." + r
    ensures StartsWith(u, "-") <==> k > 0
  {
    if k > 0 {
      assert u[0] == '-';
    } else {
      assert u == l + "." + r;
      assert u[0] != '-';
    }
  }

  /** A string is its leading minus signs, the text before its first dot
      in the rest, the dot, and the text after it. */
  lemma DashDotSplit(u: string) returns (k: nat, l: string, r: string)
    requires '.' in LStripDash(u)
    ensures var v := LStripDash(u);
      && l == v[..DotIndex(v)] && r == v[DotIndex(v) + 1..]
      && v == l + "." + r && u == Dashes(k) + l + "." + r
      && (StartsWith(u, "-") <==> k > 0)
  {
    var v := LStripDash(u);
    LStripDashSpec(u);
    DotIndexSpec(v);
    k := |u| - |v|;
    l, r := SplitAtDot(v, DotIndex(v));
    DashesPrefix(u, k, l, r);
  }

  lemma ParseFloatManyDots(u: string)
    requires '.' in u && multiset(u)['.'] > 1
    ensures ParseFloat(u) == None
  {
    LStripDashKeeps(u, '.');
  }

  /** What parse_float accepts: more than one dot is None, and an accepted
      string is minus signs, digits, one dot and digits. */
  lemma ParseFloatShape(u: string) returns (k: nat, l: string, r: string)
    requires '.' in u
    ensures multiset(u)['.'] > 1 ==> ParseFloat(u) == None
    ensures ParseFloat(u).Some? ==>
      && u == Dashes(k) + l + "." + r
      && AllDigits(l) && AllDigits(r)
      && ParseFloat(u) == Some(PointValue(k, l, r))
  {
    k, l, r := 0, [], [];
    if multiset(u)['.'] > 1 {
      ParseFloatManyDots(u);
    }
    if ParseFloat(u).Some? {
      ParseFloatDigits(u);
      k, l, r := DashDotSplit(u);
      ParseFloatValue(u, k, l, r);
    }
  }

  /** Conversely, for text with a dot and no hex prefix: more than one dot
      is None, and every accepted string is minus signs, digits, one dot and
      digits, with the value ConvNumPoint gives (task.py:46-64). */
  lemma ConvNumPointShape(s: string) returns (k: nat, l: string, r: string)
    requires !HexPrefixed(Lower(Strip(s))) && '.' in Lower(Strip(s))
    ensures multiset(Lower(Strip(s)))['.'] > 1 ==> ConvNum(s) == None
    ensures ConvNum(s).Some? ==>
      && Lower(Strip(s)) == Dashes(k) + l + "." + r
      && AllDigits(l) && AllDigits(r)
      && ConvNum(s) == Some(PointValue(k, l, r))
  {
    var u := Lower(Strip(s));
    assert ConvNum(s) == ParseFloat(u);
    k, l, r := ParseFloatShape(u);
  }

  // --- round trips ---

  /** conv_num reads back `str(n)` and `"-" + str(n)` (task.py:75-76). */
  lemma ConvNumDecimalRoundTrip(n: nat)
    ensures ConvNum(DecimalString(n)) == Some(Int(n))
    ensures ConvNum("-" + DecimalString(n)) == Some(Int(-(n as int)))
  {
    var d := DecimalString(n);
    DecimalStringRoundTrip(n);
    ConvNumInteger(0, d);
    ConvNumInteger(1, d);
    assert Dashes(0) + d == d;
    assert Dashes(1) == "-";
  }

  /** conv_num reads back n's hex digits after `0x`, and -n after `-0x`
      (task.py:39-43). */
  lemma ConvNumHexRoundTrip(negative: bool, n: nat)
    ensures ConvNum(HexPrefix(negative) + HexString(n)) == Some(Int(Negated(negative, n)))
  {
    HexStringRoundTrip(n);
    HexLiteralValue(negative, HexString(n), n);
  }

  lemma HexLiteralValue(negative: bool, h: string, n: nat)
    requires h != [] && AllHexDigits(h) && HexValue(h) == n
    ensures ConvNum(HexPrefix(negative) + h) == Some(Int(Negated(negative, n)))
  {
    ConvNumHex(negative, h);
  }
}
