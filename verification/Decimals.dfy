/** Canonical decimal text of the naturals, shared by event cursors, digests and JSON numbers. */
module Decimals {
  import opened Prelude

  predicate IsDigit(c: int) { 48 <= c <= 57 }

  predicate AllDigits(s: Text) { forall i :: 0 <= i < |s| ==> IsDigit(s[i]) }

  /** The language of `0|[1-9][0-9]*`. */
  predicate Canonical(s: Text) {
    s != [] && AllDigits(s) && (s[0] == 48 ==> |s| == 1)
  }

  function Render(n: nat): (s: Text)
    ensures AllDigits(s)
  {
    if n < 10 then [48 + n] else Render(n / 10) + [48 + n % 10]
  }

  function Value(s: Text): nat
    requires AllDigits(s)
  {
    if s == [] then 0 else 10 * Value(s[..|s| - 1]) + (s[|s| - 1] - 48)
  }

  function Pow10(n: nat): (p: nat)
    ensures p > 0
  {
    if n == 0 then 1 else 10 * Pow10(n - 1)
  }

  lemma {:induction false} RenderRoundTrip(n: nat)
    ensures Canonical(Render(n)) && Value(Render(n)) == n
    ensures n > 0 ==> Render(n)[0] != 48
  {
    if n >= 10 {
      RenderRoundTrip(n / 10);
      assert Render(n)[..|Render(n)| - 1] == Render(n / 10);
    }
  }

  lemma {:induction false} ValueRoundTrip(s: Text)
    requires Canonical(s)
    ensures Render(Value(s)) == s
    ensures |s| > 1 ==> Value(s) >= 10
  {
    var front, last := s[..|s| - 1], s[|s| - 1];
    assert s == front + [last];
    if |s| == 1 {
      assert front == [] && Value(front) == 0;
    } else {
      ValueRoundTrip(front);
      assert Value(front) >= 1 by {
        if |front| == 1 {
          assert front[..0] == [];
        }
      }
    }
  }

  lemma RenderInjective(m: nat, n: nat)
    requires Render(m) == Render(n)
    ensures m == n
  {
    RenderRoundTrip(m);
    RenderRoundTrip(n);
  }

  /** The leading digit carries the highest power. */
  lemma {:induction false} ValueFromHead(s: Text)
    requires AllDigits(s) && s != []
    ensures Value(s) == (s[0] - 48) * Pow10(|s| - 1) + Value(s[1..])
    ensures Value(s[1..]) < Pow10(|s| - 1)
  {
    if |s| == 1 {
      assert s[..0] == [];
    } else {
      var front := s[..|s| - 1];
      ValueFromHead(front);
      assert s[1..][..|s| - 2] == front[1..];
      ScaleByTen(s[0] - 48, Pow10(|s| - 2));
    }
  }

  lemma ScaleByTen(digit: int, power: int)
    ensures 10 * (digit * power) == digit * (10 * power)
  {
  }
}
