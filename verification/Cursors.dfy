/** The decimal-string cursors of frontend/src/api/types.ts and their numeric meaning. */
module Cursors {
  import opened Prelude
  import opened Decimals

  /** `compareEventCursors`: by length, then by JavaScript's string order. */
  function CompareEventCursors(left: Text, right: Text): int {
    if |left| != |right| then |left| - |right|
    else if TextLess(left, right) then -1
    else if TextLess(right, left) then 1
    else 0
  }

  /** JavaScript's `<` on strings of code units. */
  predicate TextLess(left: Text, right: Text) {
    if right == [] then false
    else if left == [] then true
    else left[0] < right[0] || (left[0] == right[0] && TextLess(left[1..], right[1..]))
  }

  lemma {:induction false} TextLessIsNumeric(left: Text, right: Text)
    requires AllDigits(left) && AllDigits(right) && |left| == |right|
    ensures TextLess(left, right) <==> Value(left) < Value(right)
    ensures Value(left) == Value(right) ==> left == right
  {
    if left != [] {
      ValueFromHead(left);
      ValueFromHead(right);
      TextLessIsNumeric(left[1..], right[1..]);
      var p := Pow10(|left| - 1);
      if left[0] < right[0] {
        HeadDecides(left[0] - 48, right[0] - 48, p, Value(left[1..]), Value(right[1..]));
      } else if right[0] < left[0] {
        HeadDecides(right[0] - 48, left[0] - 48, p, Value(right[1..]), Value(left[1..]));
      } else {
        assert left == [left[0]] + left[1..] && right == [right[0]] + right[1..];
      }
    }
  }

  lemma HeadDecides(low: nat, high: nat, power: nat, lowRest: nat, highRest: nat)
    requires low < high && lowRest < power
    ensures low * power + lowRest < high * power + highRest
  {
    assert (low + 1) * power <= high * power;
  }

  lemma {:induction false} LongerIsLarger(short: Text, long: Text)
    requires Canonical(short) && Canonical(long) && |short| < |long|
    ensures Value(short) < Value(long)
  {
    ValueFromHead(long);
    PaddedBound(short, |long| - 1);
    HeadDecides(0, long[0] - 48, Pow10(|long| - 1), Value(short), Value(long[1..]));
  }

  lemma {:induction false} PaddedBound(s: Text, n: nat)
    requires AllDigits(s) && |s| <= n
    ensures Value(s) < Pow10(n)
    decreases n
  {
    if s == [] {
      assert Pow10(n) > 0;
    } else {
      PaddedBound(s[..|s| - 1], n - 1);
      assert Pow10(n) == 10 * Pow10(n - 1);
    }
  }

  /**
   * On canonical cursors the string comparison is the numeric one, and equal numbers are equal
   * strings. The stores below therefore use natural numbers for cursors.
   */
  lemma ComparisonIsNumeric(left: Text, right: Text)
    requires Canonical(left) && Canonical(right)
    ensures CompareEventCursors(left, right) < 0 <==> Value(left) < Value(right)
    ensures CompareEventCursors(left, right) > 0 <==> Value(left) > Value(right)
    ensures CompareEventCursors(left, right) == 0 <==> left == right
  {
    if |left| < |right| {
      LongerIsLarger(left, right);
    } else if |right| < |left| {
      LongerIsLarger(right, left);
    } else {
      TextLessIsNumeric(left, right);
      TextLessIsNumeric(right, left);
    }
  }
}
