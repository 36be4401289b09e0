/** Rendering of numbers and splitting of key names, shared by the key layouts. */
module Text {

  function LowerChar(c: char): char {
    if 'A' <= c <= 'Z' then (c as int + 32) as char else c
  }

  function Lower(s: string): (t: string)
    ensures |t| == |s| && forall i :: 0 <= i < |s| ==> t[i] == LowerChar(s[i])
  {
    seq(|s|, i requires 0 <= i < |s| => LowerChar(s[i]))
  }

  function DigitChar(d: nat): char
    requires d < 16
  {
    if d < 10 then '0' + d as char else 'a' + (d - 10) as char
  }

  function DigitValue(c: char): int {
    if '0' <= c <= '9' then c as int - '0' as int else c as int - 'a' as int + 10
  }

  function Shift(n: nat, base: nat): (q: nat)
    requires 2 <= base
    ensures n >= base ==> q < n
  {
    n / base
  }

  function LastDigit(n: nat, base: nat): (d: nat)
    requires 2 <= base
    ensures d < base
  {
    n % base
  }

  lemma Recompose(n: nat, base: nat)
    requires 2 <= base
    ensures base * Shift(n, base) + LastDigit(n, base) == n
  {
  }

  /** The digits of a number, most significant first, in a base up to 16. */
  function Radix(n: nat, base: nat): string
    requires 2 <= base <= 16
  {
    if n < base then [DigitChar(n)] else Radix(Shift(n, base), base) + [DigitChar(LastDigit(n, base))]
  }

  /** `{}` of an unsigned integer. */
  function Decimal(n: nat): string { Radix(n, 10) }

  predicate IsDigit(c: char, base: nat) { '0' <= c <= '9' || (base > 10 && 'a' <= c <= 'f') }

  ghost predicate AllDigits(s: string, base: nat) { forall i :: 0 <= i < |s| ==> IsDigit(s[i], base) }

  lemma {:induction false} RadixIsDigits(n: nat, base: nat)
    requires 2 <= base <= 16
    ensures AllDigits(Radix(n, base), base) && Radix(n, base) != []
  {
    hide Shift, LastDigit;
    if n < base {
    } else {
      RadixIsDigits(Shift(n, base), base);
    }
  }

  function RadixValue(s: string, base: nat): int {
    if s == [] then 0 else base * RadixValue(s[..|s| - 1], base) + DigitValue(s[|s| - 1])
  }

  /** Reading the digits back gives the number; so different numbers render differently. */
  lemma {:induction false} RadixRoundTrip(n: nat, base: nat)
    requires 2 <= base <= 16
    ensures RadixValue(Radix(n, base), base) == n
  {
    hide Shift, LastDigit;
    var s := Radix(n, base);
    if n < base {
    } else {
      RadixRoundTrip(Shift(n, base), base);
      assert s[..|s| - 1] == Radix(Shift(n, base), base);
      Recompose(n, base);
    }
  }

  /** What stands before the first `stop`, and the rest from there on. */
  function SplitAt(s: string, stop: char): (r: (string, string))
    ensures |r.0| + |r.1| == |s| && (s != [] && s[0] != stop ==> r.0 != [])
  {
    if s == [] || s[0] == stop then ([], s)
    else
      var (before, rest) := SplitAt(s[1..], stop);
      ([s[0]] + before, rest)
  }

  lemma {:induction false} SplitAtStop(a: string, rest: string, stop: char)
    requires stop !in a && (rest == [] || rest[0] == stop)
    ensures SplitAt(a + rest, stop) == (a, rest)
  {
    if a == [] {
      assert a + rest == rest;
    } else {
      var s, head, tail := a + rest, a[0], a[1..];
      assert a == [head] + tail;
      SplitAtStop(tail, rest, stop);
      assert s[0] == head && s[1..] == tail + rest;
    }
  }

  lemma NoneAfter(b: string, y: string, sep: char)
    requires sep !in y
    ensures forall k :: |b| < k < |b + [sep] + y| ==> (b + [sep] + y)[k] != sep
  {
    forall k | |b| < k < |b + [sep] + y| ensures (b + [sep] + y)[k] != sep {
      assert (b + [sep] + y)[k] == y[k - |b| - 1];
    }
  }

  /** A text splits in one way only at the last occurrence of a separator. */
  lemma LastSeparator(a: string, x: string, b: string, y: string, sep: char)
    requires sep !in x && sep !in y
    requires a + [sep] + x == b + [sep] + y
    ensures a == b && x == y
  {
    NoneAfter(a, x, sep);
    NoneAfter(b, y, sep);
    var l, r := a + [sep] + x, b + [sep] + y;
    assert l[|a|] == sep && r[|b|] == sep;
    assert l[..|a|] == a && r[..|b|] == b;
    assert l[|a| + 1..] == x && r[|b| + 1..] == y;
  }

  // ----- Order of texts -----

  predicate Less(s: string, t: string)
    decreases |s|
  {
    if t == [] then false
    else if s == [] then true
    else s[0] < t[0] || (s[0] == t[0] && Less(s[1..], t[1..]))
  }

  lemma {:induction false} LessTotal(s: string, t: string)
    ensures Less(s, t) || Less(t, s) || s == t
    ensures !(Less(s, t) && Less(t, s))
    decreases |s|
  {
    if s != [] && t != [] {
      LessTotal(s[1..], t[1..]);
      assert s == [s[0]] + s[1..] && t == [t[0]] + t[1..];
    }
  }

  lemma {:induction false} LessTransitive(s: string, t: string, u: string)
    requires Less(s, t) && Less(t, u)
    ensures Less(s, u)
    decreases |s|
  {
    if s != [] && s[0] == t[0] && t[0] == u[0] {
      LessTransitive(s[1..], t[1..], u[1..]);
    }
  }

  /** The texts differ first at `k`: there the smaller one ends or has the smaller character. */
  ghost predicate DifferAt(s: string, t: string, k: int) {
    0 <= k <= |s| && k < |t| && s[..k] == t[..k] && (k == |s| || s[k] < t[k])
  }

  lemma {:induction false} LessIff(s: string, t: string)
    ensures Less(s, t) <==> exists k :: DifferAt(s, t, k)
  {
    if t == [] {
    } else if s == [] {
      assert DifferAt(s, t, 0);
    } else {
      LessIff(s[1..], t[1..]);
      if s[0] < t[0] {
        assert DifferAt(s, t, 0);
      } else if s[0] == t[0] && Less(s[1..], t[1..]) {
        var k :| DifferAt(s[1..], t[1..], k);
        assert s == [s[0]] + s[1..] && t == [t[0]] + t[1..];
        assert s[..k + 1] == [s[0]] + s[1..][..k] && t[..k + 1] == [t[0]] + t[1..][..k];
        assert DifferAt(s, t, k + 1);
      }
      if k :| DifferAt(s, t, k) {
        if k > 0 {
          assert s[..k][0] == s[0] && t[..k][0] == t[0];
          assert s[1..][..k - 1] == s[..k][1..] && t[1..][..k - 1] == t[..k][1..];
          assert DifferAt(s[1..], t[1..], k - 1);
        }
      }
    }
  }
}
