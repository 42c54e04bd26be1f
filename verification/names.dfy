/** Strings with dashes: where a name splits, and the decimal numbers fmt prints. */
module Names {

  predicate NoDash(s: string) {
    '-' !in s
  }

  predicate HasSuffix(s: string, suffix: string) {
    |suffix| <= |s| && s[|s| - |suffix|..] == suffix
  }

  /** The same suffix can be cancelled. */
  lemma {:induction false} CancelSuffix(a: string, b: string, suffix: string)
    requires a + suffix == b + suffix
    ensures a == b
  {
    assert |a| == |b|;
    assert a == (a + suffix)[..|a|] == (b + suffix)[..|b|] == b;
  }

  lemma {:induction false} CancelPrefix(prefix: string, a: string, b: string)
    requires prefix + a == prefix + b
    ensures a == b
  {
    assert a == (prefix + a)[|prefix|..] == (prefix + b)[|prefix|..] == b;
  }

  /** A string splits in one way at its last dash. */
  lemma {:induction false} SplitLast(a: string, t: string, b: string, u: string)
    requires a + "-" + t == b + "-" + u && NoDash(t) && NoDash(u)
    ensures a == b && t == u
  {
    var s := a + "-" + t;
    assert s[|a|] == '-' && s[|b|] == '-';
    if |a| < |b| {
      assert false;
    } else if |b| < |a| {
      assert false;
    }
    assert a == s[..|a|] && b == s[..|b|];
    assert t == s[|a| + 1..] && u == s[|b| + 1..];
  }

  /** ... and at its first. */
  lemma {:induction false} SplitFirst(t: string, a: string, u: string, b: string)
    requires t + "-" + a == u + "-" + b && NoDash(t) && NoDash(u)
    ensures t == u && a == b
  {
    var s := t + "-" + a;
    assert s[|t|] == '-' && s[|u|] == '-';
    if |t| < |u| {
      assert false;
    } else if |u| < |t| {
      assert false;
    }
    assert t == s[..|t|] && u == s[..|u|];
    assert a == s[|t| + 1..] && b == s[|u| + 1..];
  }

  // ---------------------------------------------------------------- decimal numbers

  function Digit(d: nat): char
    requires d < 10
  {
    '0' + d as char
  }

  /** fmt's %d of a non-negative number. */
  function Decimal(n: nat): (s: string)
    ensures s != [] && NoDash(s)
    ensures forall i :: 0 <= i < |s| ==> '0' <= s[i] <= '9'
  {
    if n < 10 then [Digit(n)] else Decimal(n / 10) + [Digit(n % 10)]
  }

  lemma {:induction false} DecimalInjective(m: nat, n: nat)
    requires Decimal(m) == Decimal(n)
    ensures m == n
    decreases m + n
  {
    var s := Decimal(m);
    assert s[|s| - 1] == Digit(m % 10) == Digit(n % 10);
    if m >= 10 && n >= 10 {
      assert Decimal(m / 10) == s[..|s| - 1] == Decimal(n / 10);
      DecimalInjective(m / 10, n / 10);
    }
  }

  /** Reading a decimal number. */
  function ReadDecimal(s: string): nat
    requires forall i :: 0 <= i < |s| ==> '0' <= s[i] <= '9'
  {
    if s == "" then 0 else 10 * ReadDecimal(s[..|s| - 1]) + (s[|s| - 1] as int - '0' as int)
  }

  /** The printed number reads back, and has no leading zero. */
  lemma {:induction false} DecimalReads(n: nat)
    ensures ReadDecimal(Decimal(n)) == n && (n > 0 ==> Decimal(n)[0] != '0') && Decimal(0) == "0"
  {
    if n >= 10 {
      DecimalReads(n / 10);
      assert Decimal(n)[..|Decimal(n)| - 1] == Decimal(n / 10);
    } else {
      assert Decimal(n)[..0] == "";
    }
  }
}
