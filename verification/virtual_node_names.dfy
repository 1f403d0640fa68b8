/**
 Names of virtual nodes: the text VIRTUAL-, the real-node index, the text -NODE-
 and the slot index, each index written in decimal with no sign and no leading zero
 (how Java formats a non-negative `int` as a string).
 */
module VirtualNodeNames {

  predicate IsDigit(c: char) {
    '0' <= c <= '9'
  }

  predicate AllDigits(s: string) {
    forall k :: 0 <= k < |s| ==> IsDigit(s[k])
  }

  function DigitChar(d: nat): (c: char)
    requires d < 10
    ensures IsDigit(c)
    ensures c as int - '0' as int == d
  {
    ('0' as int + d) as char
  }

  function DigitValue(c: char): (d: nat)
    requires IsDigit(c)
    ensures d < 10
  {
    c as int - '0' as int
  }

  /** Decimal rendering of a non-negative integer, as `Integer.toString` does it. */
  function DecimalString(n: nat): (s: string)
    ensures |s| > 0 && AllDigits(s)
    ensures s[0] == '0' <==> n == 0
    ensures |s| == 1 <==> n < 10
  {
    if n < 10 then [DigitChar(n)] else DecimalString(n / 10) + [DigitChar(n % 10)]
  }

  /** Reads a string of decimal digits back as a number (the empty string reads as 0). */
  function ParseDecimal(s: string): nat
    requires AllDigits(s)
    decreases |s|
  {
    if |s| == 0 then 0 else ParseDecimal(s[..|s| - 1]) * 10 + DigitValue(s[|s| - 1])
  }

  /** Parsing undoes rendering, so distinct numbers render to distinct strings. */
  lemma {:induction false} ParseDecimalString(n: nat)
    ensures ParseDecimal(DecimalString(n)) == n
    decreases n
  {
    var s := DecimalString(n);
    if n >= 10 {
      assert s[..|s| - 1] == DecimalString(n / 10);
      ParseDecimalString(n / 10);
    }
  }

  /** The identifier of virtual slot `n` of real node `i`. */
  function VirtualNodeName(i: nat, n: nat): string
  {
    "VIRTUAL-" + DecimalString(i) + "-NODE-" + DecimalString(n)
  }

  /** In a name, the real-node index is all digits and is followed by a '-'. */
  lemma DashAfterIndex(i: nat, n: nat)
    ensures var s, a := VirtualNodeName(i, n), DecimalString(i);
      && |s| > 8 + |a|
      && !IsDigit(s[8 + |a|])
      && forall k :: 8 <= k < 8 + |a| ==> IsDigit(s[k])
  {
    var s, a := VirtualNodeName(i, n), DecimalString(i);
    assert forall k :: 8 <= k < 8 + |a| ==> s[k] == a[k - 8];
  }

  /** Distinct `(i, n)` pairs give distinct names. */
  lemma {:induction false} VirtualNodeNameInjective(i: nat, n: nat, i': nat, n': nat)
    requires VirtualNodeName(i, n) == VirtualNodeName(i', n')
    ensures i == i' && n == n'
  {
    var s := VirtualNodeName(i, n);
    var a, b := DecimalString(i), DecimalString(n);
    var a', b' := DecimalString(i'), DecimalString(n');
    assert s == "VIRTUAL-" + a + "-NODE-" + b;
    assert s == "VIRTUAL-" + a' + "-NODE-" + b';
    // The first '-' after the prefix ends the rendering of the real-node index.
    DashAfterIndex(i, n);
    DashAfterIndex(i', n');
    assert |a| == |a'|;
    assert a == s[8..8 + |a|] == a';
    assert b == s[8 + |a| + 6..] == b';
    ParseDecimalString(i);
    ParseDecimalString(i');
    ParseDecimalString(n);
    ParseDecimalString(n');
  }
}
