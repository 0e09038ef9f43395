/** String helpers used throughout the model: the code-unit order that
    JavaScript's default sort applies to strings, joining with a separator,
    POSIX basenames and decimal rendering of numbers. */
module Strings {

  /** Strict lexicographic order on code units: a proper prefix sorts first,
      otherwise the first differing character decides. This is the order of
      `Array.prototype.sort()` without a comparator. */
  predicate Less(a: string, b: string)
  {
    if |a| == 0 then |b| > 0
    else if |b| == 0 then false
    else if a[0] != b[0] then a[0] < b[0]
    else Less(a[1..], b[1..])
  }

  predicate LessEq(a: string, b: string)
  {
    a == b || Less(a, b)
  }

  lemma {:induction false} LessIrreflexive(a: string)
    ensures !Less(a, a)
  {
    if |a| > 0 {
      LessIrreflexive(a[1..]);
    }
  }

  lemma {:induction false} LessTransitive(a: string, b: string, c: string)
    requires Less(a, b) && Less(b, c)
    ensures Less(a, c)
  {
    if |a| > 0 && a[0] == b[0] && b[0] == c[0] {
      LessTransitive(a[1..], b[1..], c[1..]);
    }
  }

  /** Any two distinct strings are ordered one way or the other. */
  lemma {:induction false} LessTotal(a: string, b: string)
    ensures a == b || Less(a, b) || Less(b, a)
  {
    if |a| > 0 && |b| > 0 && a[0] == b[0] {
      LessTotal(a[1..], b[1..]);
      if a[1..] == b[1..] {
        assert a == [a[0]] + a[1..] && b == [b[0]] + b[1..];
      }
    }
  }

  lemma {:induction false} LessAsymmetric(a: string, b: string)
    requires Less(a, b)
    ensures !Less(b, a)
  {
    if Less(b, a) {
      LessTransitive(a, b, a);
      LessIrreflexive(a);
    }
  }

  /** `xs.join(sep)`. */
  function Join(xs: seq<string>, sep: string): (r: string)
    ensures |xs| == 0 ==> r == ""
    ensures |xs| == 1 ==> r == xs[0]
    ensures |xs| > 0 ==> xs[0] <= r
  {
    if |xs| == 0 then ""
    else if |xs| == 1 then xs[0]
    else xs[0] + sep + Join(xs[1..], sep)
  }

  /** Where the four parts of `a + b + c + d` sit. */
  lemma {:induction false} FourParts(a: string, b: string, c: string, d: string)
    ensures var r := a + b + c + d;
      && |r| == |a| + |b| + |c| + |d|
      && r[..|a|] == a
      && r[|a|..|a| + |b|] == b
      && r[|a| + |b|..|a| + |b| + |c|] == c
      && r[|a| + |b| + |c|..] == d
  {
    var r := a + b + c + d;
    assert r[..|a|] == a;
    assert r[|a|..|a| + |b|] == b;
    assert r[|a| + |b|..|a| + |b| + |c|] == c;
    assert r[|a| + |b| + |c|..] == d;
  }

  /** Joining a list of two or more puts the separator after the first
      element. */
  lemma {:induction false} JoinTail(xs: seq<string>, sep: string)
    requires |xs| > 0
    ensures |xs| > 1 ==> Join(xs, sep) == xs[0] + sep + Join(xs[1..], sep)
  {
  }

  /** Joining a longer list appends the separator and the new last element. */
  lemma {:induction false} JoinSnoc(xs: seq<string>, y: string, sep: string)
    requires |xs| > 0
    ensures Join(xs + [y], sep) == Join(xs, sep) + sep + y
  {
    if |xs| == 1 {
      assert (xs + [y])[1..] == [y];
    } else {
      assert (xs + [y])[1..] == xs[1..] + [y];
      JoinSnoc(xs[1..], y, sep);
    }
  }

  /** Joining two non-empty lists puts one separator between their joins. */
  lemma {:induction false} JoinAppend(xs: seq<string>, ys: seq<string>, sep: string)
    requires |xs| > 0 && |ys| > 0
    ensures Join(xs + ys, sep) == Join(xs, sep) + sep + Join(ys, sep)
    decreases |ys|
  {
    if |ys| == 1 {
      assert ys == [ys[0]];
      JoinSnoc(xs, ys[0], sep);
    } else {
      var init := ys[..|ys| - 1];
      var last := ys[|ys| - 1];
      assert ys == init + [last];
      assert xs + ys == (xs + init) + [last];
      JoinAppend(xs, init, sep);
      JoinSnoc(xs + init, last, sep);
      JoinSnoc(init, last, sep);
    }
  }

  /** POSIX `path.basename`: the text after the last `/`, ignoring trailing
      slashes. */
  function Basename(p: string): (r: string)
    ensures '/' !in r
    ensures |r| <= |p|
    ensures '/' !in p ==> r == p
  {
    if |p| == 0 then ""
    else if p[|p| - 1] == '/' then Basename(p[..|p| - 1])
    else LastComponent(p)
  }

  /** The basename of a joined path is the name joined on. */
  lemma {:induction false} BasenameOfJoin(dir: string, name: string)
    requires |name| > 0 && '/' !in name
    ensures Basename(dir + "/" + name) == name
  {
    var p := dir + "/" + name;
    assert p[|p| - 1] == name[|name| - 1];
    var r := LastComponent(p);
    assert p[|p| - |name|..] == name;
    assert p[|p| - |name| - 1] == '/';
  }

  /** The characters after the last `/` of `p` (all of `p` when it has none). */
  function LastComponent(p: string): (r: string)
    ensures '/' !in r
    ensures |r| <= |p| && r == p[|p| - |r|..]
    ensures |r| < |p| ==> p[|p| - |r| - 1] == '/'
  {
    if |p| == 0 || p[|p| - 1] == '/' then ""
    else LastComponent(p[..|p| - 1]) + [p[|p| - 1]]
  }

  function DigitChar(d: nat): (c: char)
    requires d < 10
    ensures '0' <= c <= '9'
  {
    ['0', '1', '2', '3', '4', '5', '6', '7', '8', '9'][d]
  }

  predicate IsDigits(s: string)
  {
    forall i :: 0 <= i < |s| ==> '0' <= s[i] <= '9'
  }

  /** Decimal rendering of a natural number, as JavaScript's template
      literals print an integer: no sign and no leading zeros. */
  function NatToDecimal(n: nat): (r: string)
    ensures |r| > 0 && IsDigits(r)
    ensures r[0] == '0' ==> r == "0"
  {
    if n < 10 then [DigitChar(n)] else NatToDecimal(n / 10) + [DigitChar(n % 10)]
  }

  /** The value a string of decimal digits denotes: the reading side of
      `NatToDecimal`. */
  function DecimalValue(s: string): nat
    requires IsDigits(s)
  {
    if |s| == 0 then 0
    else DecimalValue(s[..|s| - 1]) * 10 + (s[|s| - 1] as int - '0' as int)
  }

  lemma {:induction false} DecimalRoundTrip(n: nat)
    ensures DecimalValue(NatToDecimal(n)) == n
  {
    var r := NatToDecimal(n);
    if n >= 10 {
      assert r[..|r| - 1] == NatToDecimal(n / 10);
      DecimalRoundTrip(n / 10);
    }
  }

  /** `String(n)` for an integer-valued JavaScript number. */
  function IntToDecimal(n: int): (r: string)
    ensures |r| > 0
  {
    if n < 0 then "-" + NatToDecimal(-n) else NatToDecimal(n)
  }

  /** Reading back what `IntToDecimal` printed gives the sign and the
      magnitude of the number. */
  lemma {:induction false} IntToDecimalRoundTrip(n: int)
    ensures IntToDecimal(n)[0] == '-' <==> n < 0
    ensures n >= 0 ==> IsDigits(IntToDecimal(n)) && DecimalValue(IntToDecimal(n)) == n
    ensures n < 0 ==> IsDigits(IntToDecimal(n)[1..]) && DecimalValue(IntToDecimal(n)[1..]) == -n
  {
    if n < 0 {
      SignedDecimal(NatToDecimal(-n), -n);
    } else {
      DecimalRoundTrip(n);
      assert '0' <= NatToDecimal(n)[0] <= '9';
    }
  }

  /** `IntToDecimal` prints no leading zero: its first digit is `0` only
      for the number 0. */
  lemma {:induction false} IntToDecimalNoLeadingZero(n: int)
    ensures n >= 0 ==> (IntToDecimal(n)[0] == '0' <==> n == 0)
    ensures n < 0 ==> |IntToDecimal(n)| > 1 && IntToDecimal(n)[1] != '0'
  {
    if n < 0 {
      DecimalRoundTrip(-n);
      assert ("-" + NatToDecimal(-n))[1] == NatToDecimal(-n)[0];
    } else {
      DecimalRoundTrip(n);
    }
  }

  /** The digits of `m` behind a minus sign read back as `m`. */
  lemma {:induction false} SignedDecimal(digits: string, m: nat)
    requires digits == NatToDecimal(m)
    ensures var r := "-" + digits;
      r[0] == '-' && r[1..] == digits && IsDigits(r[1..]) && DecimalValue(r[1..]) == m
  {
    DecimalRoundTrip(m);
    assert ("-" + digits)[1..] == digits;
  }
}
