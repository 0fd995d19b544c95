/** Decimal numbers as the C library prints and reads them (sections 7.21.6.1 and 7.22.1.4 of ISO/IEC 9899:2011). */
module Decimal {
  import opened Common

  predicate IsDigit(c: char)
  {
    '0' <= c <= '9'
  }

  ghost predicate AllDigits(s: string)
  {
    forall i :: 0 <= i < |s| ==> IsDigit(s[i])
  }

  // The number a run of digits stands for
  function Value(s: string): nat
    requires AllDigits(s)
  {
    if s == "" then 0 else 10 * Value(s[..|s| - 1]) + (s[|s| - 1] as int - '0' as int)
  }

  // printf's %lu
  function Print(n: nat): (s: string)
    ensures s != "" && AllDigits(s)
    decreases n
  {
    if n < 10 then [('0' as int + n) as char] else Print(n / 10) + [('0' as int + n % 10) as char]
  }

  lemma {:induction false} ValueOfPrint(n: nat)
    ensures Value(Print(n)) == n
    decreases n
  {
    var s := Print(n);
    if n >= 10 {
      ValueOfPrint(n / 10);
      assert s[..|s| - 1] == Print(n / 10);
    } else {
      assert s[..|s| - 1] == "";
    }
  }

  lemma {:induction false} PrintLength(n: nat, k: nat)
    requires 0 < k && n < Pow10(k)
    ensures |Print(n)| <= k
    decreases k
  {
    if n >= 10 {
      PrintLength(n / 10, k - 1);
    }
  }

  function Pow10(k: nat): nat
  {
    if k == 0 then 1 else 10 * Pow10(k - 1)
  }

  predicate IsSpace(c: char)
  {
    c == ' ' || '\t' <= c <= '\r'
  }

  function SkipSpaces(s: string, from: nat): (i: nat)
    requires from <= |s|
    ensures from <= i <= |s| && forall k :: from <= k < i ==> IsSpace(s[k])
    ensures i < |s| ==> !IsSpace(s[i])
    decreases |s| - from
  {
    if from == |s| || !IsSpace(s[from]) then from else SkipSpaces(s, from + 1)
  }

  function SkipDigits(s: string, from: nat): (i: nat)
    requires from <= |s|
    ensures from <= i <= |s| && forall k :: from <= k < i ==> IsDigit(s[k])
    ensures i < |s| ==> !IsDigit(s[i])
    decreases |s| - from
  {
    if from == |s| || !IsDigit(s[from]) then from else SkipDigits(s, from + 1)
  }

  function SkipSign(s: string, from: nat): (i: nat)
    requires from <= |s|
    ensures from <= i <= |s|
  {
    if from < |s| && (s[from] == '-' || s[from] == '+') then from + 1 else from
  }

  // Where the number that strtol and strtoull read from position `from` begins its digits, and where it ends
  function NumberStart(s: string, from: nat): (i: nat)
    requires from <= |s|
    ensures from <= i <= |s|
  {
    SkipSign(s, SkipSpaces(s, from))
  }

  function NumberEnd(s: string, from: nat): (i: nat)
    requires from <= |s|
    ensures NumberStart(s, from) <= i <= |s|
  {
    SkipDigits(s, NumberStart(s, from))
  }

  function Magnitude(s: string, from: nat): nat
    requires from <= |s|
  {
    Value(s[NumberStart(s, from)..NumberEnd(s, from)])
  }

  predicate Negative(s: string, from: nat)
    requires from <= |s|
  {
    var i := SkipSpaces(s, from);
    i < |s| && s[i] == '-'
  }

  const LONG_MAX: int := 0x7fff_ffff_ffff_ffff

  function Strtol(s: string, from: nat): int
    requires from <= |s|
  {
    var m: int := Magnitude(s, from);
    var v := if Negative(s, from) then -m else m;
    if v > LONG_MAX then LONG_MAX else if v < -LONG_MAX - 1 then -LONG_MAX - 1 else v
  }

  function Strtoull(s: string, from: nat): nat
    requires from <= |s|
  {
    var m := Magnitude(s, from);
    if m >= UINT64_RANGE then UINT64_RANGE - 1
    else if Negative(s, from) then (UINT64_RANGE - m) % UINT64_RANGE
    else m
  }

  // A cast of a long to an int
  function ToInt(x: int): int
  {
    var m := x % 0x1_0000_0000;
    if m >= 0x8000_0000 then m - 0x1_0000_0000 else m
  }

  // The number is decided by the bytes up to the one it ends at.
  lemma NumberSettled(s: string, t: string, from: nat)
    requires from <= |s| && s <= t && NumberEnd(s, from) < |s|
    ensures NumberStart(t, from) == NumberStart(s, from) && NumberEnd(t, from) == NumberEnd(s, from)
    ensures Strtol(t, from) == Strtol(s, from) && Strtoull(t, from) == Strtoull(s, from)
  {
    SkipSpacesPrefix(s, t, from);
    SkipDigitsPrefix(s, t, NumberStart(s, from));
    assert s[NumberStart(s, from)..NumberEnd(s, from)] == t[NumberStart(s, from)..NumberEnd(s, from)];
  }

  lemma SkipSpacesPrefix(s: string, t: string, from: nat)
    requires from <= |s| && s <= t && SkipSpaces(s, from) < |s|
    ensures SkipSpaces(t, from) == SkipSpaces(s, from)
    decreases |s| - from
  {
  }

  lemma SkipDigitsPrefix(s: string, t: string, from: nat)
    requires from <= |s| && s <= t && SkipDigits(s, from) < |s|
    ensures SkipDigits(t, from) == SkipDigits(s, from)
    decreases |s| - from
  {
  }

  // A run of digits followed by something else is read as its value.
  lemma NumberRead(s: string, from: nat, end: nat)
    requires from < end <= |s| && AllDigits(s[from..end]) && (end < |s| ==> !IsDigit(s[end]))
    ensures NumberStart(s, from) == from && NumberEnd(s, from) == end && !Negative(s, from)
    ensures Magnitude(s, from) == Value(s[from..end])
  {
    assert IsDigit(s[from..end][0]);
    SkipDigitsTo(s, from, end);
  }

  lemma SkipDigitsTo(s: string, from: nat, end: nat)
    requires from <= end <= |s| && AllDigits(s[from..end]) && (end < |s| ==> !IsDigit(s[end]))
    ensures SkipDigits(s, from) == end
    decreases end - from
  {
    if from < end {
      assert IsDigit(s[from..end][0]);
      assert s[from + 1..end] == s[from..end][1..];
    }
  }
}
