/** The three PHP string functions the bridge uses: `stripos` (case-insensitive
    search), the `(string)` cast of an integer and `implode`. */
module Text {
  import opened Php

  /** ASCII lower-casing of one character (`strtolower` on ASCII). */
  function LowerChar(c: char): char {
    if 'A' <= c <= 'Z' then (c as int + 32) as char else c
  }

  function Lower(s: string): string {
    seq(|s|, i requires 0 <= i < |s| => LowerChar(s[i]))
  }

  /** `needle` occurs in `haystack` starting at index `j`. */
  ghost predicate OccursAt(haystack: string, needle: string, j: int) {
    0 <= j && j + |needle| <= |haystack| && haystack[j..j + |needle|] == needle
  }

  /** Reference meaning of a case-insensitive substring test. */
  ghost predicate ContainsIgnoreCase(haystack: string, needle: string) {
    exists j :: OccursAt(Lower(haystack), Lower(needle), j)
  }

  /** First index at or after `from` where `needle` occurs in `haystack`. */
  function FindFrom(haystack: string, needle: string, from: nat): (r: Option<nat>)
    ensures r.Some? ==> from <= r.value && OccursAt(haystack, needle, r.value)
    ensures r.Some? ==> forall j :: from <= j < r.value ==> !OccursAt(haystack, needle, j)
    ensures r.None? ==> forall j :: from <= j ==> !OccursAt(haystack, needle, j)
    decreases |haystack| - from
  {
    if from + |needle| > |haystack| then None
    else if haystack[from..from + |needle|] == needle then Some(from)
    else FindFrom(haystack, needle, from + 1)
  }

  /** `stripos($haystack, $needle)`: the position of the first case-insensitive
      occurrence, or `false` (here `None`) when there is none. */
  function StrIPos(haystack: string, needle: string): (r: Option<nat>)
    ensures r.Some? <==> ContainsIgnoreCase(haystack, needle)
    ensures r.Some? ==> OccursAt(Lower(haystack), Lower(needle), r.value)
    ensures r.Some? ==> forall j :: 0 <= j < r.value ==> !OccursAt(Lower(haystack), Lower(needle), j)
  {
    FindFrom(Lower(haystack), Lower(needle), 0)
  }

  function DigitChar(d: int): char
    requires 0 <= d < 10
  {
    ('0' as int + d) as char
  }

  predicate IsDigits(s: string) {
    forall i :: 0 <= i < |s| ==> '0' <= s[i] <= '9'
  }

  /** `(string) $n` for a non-negative integer: its decimal digits, with no
      leading zero. */
  function NatToString(n: nat): (s: string)
    ensures |s| >= 1 && IsDigits(s)
    ensures s[0] == '0' <==> n == 0
    decreases n
  {
    if n < 10 then [DigitChar(n)] else NatToString(n / 10) + [DigitChar(n % 10)]
  }

  /** The number a string of decimal digits denotes. */
  function ParseDecimal(s: string): nat
    requires IsDigits(s)
    decreases |s|
  {
    if |s| == 0 then 0 else ParseDecimal(s[..|s| - 1]) * 10 + (s[|s| - 1] as int - '0' as int)
  }

  /** The decimal string of `n` denotes `n`. */
  lemma {:induction false} ParseNatToString(n: nat)
    ensures ParseDecimal(NatToString(n)) == n
  {
    if n >= 10 {
      ParseNatToString(n / 10);
      var s := NatToString(n / 10);
      assert (s + [DigitChar(n % 10)])[..|s|] == s;
    }
  }

  /** Decimal strings of distinct numbers differ. */
  lemma NatToStringInjective(m: nat, n: nat)
    requires NatToString(m) == NatToString(n)
    ensures m == n
  {
    ParseNatToString(m);
    ParseNatToString(n);
  }

  lemma NatToStringOf42()
    ensures NatToString(42) == "42"
  {
  }

  /** `implode($glue, $pieces)`: the pieces in order, with `glue` between
      neighbours. */
  function Implode(glue: string, pieces: seq<string>): string
    decreases |pieces|
  {
    if |pieces| == 0 then ""
    else if |pieces| == 1 then pieces[0]
    else pieces[0] + glue + Implode(glue, pieces[1..])
  }

  /** Where piece `k` starts in `Implode(glue, pieces)`: each earlier piece is
      followed by one glue. */
  function Offset(glue: string, pieces: seq<string>, k: nat): nat
    requires k <= |pieces|
    decreases k
  {
    if k == 0 then 0 else |pieces[0]| + |glue| + Offset(glue, pieces[1..], k - 1)
  }

  lemma SliceAfterPrefix(a: string, b: string, x: nat, y: nat)
    requires x <= y <= |b|
    ensures (a + b)[|a| + x..|a| + y] == b[x..y]
  {
  }

  /** Layout of the imploded string: piece `k` sits at `Offset(glue, pieces, k)`
      and is followed by the glue unless it is the last piece; the string ends
      with the last piece. Together these determine the string. */
  lemma {:induction false} ImplodeLayout(glue: string, pieces: seq<string>, k: nat)
    requires k < |pieces|
    ensures Offset(glue, pieces, k) + |pieces[k]| <= |Implode(glue, pieces)|
    ensures Implode(glue, pieces)[Offset(glue, pieces, k)..Offset(glue, pieces, k) + |pieces[k]|] == pieces[k]
    ensures k + 1 < |pieces| ==>
      Offset(glue, pieces, k + 1) == Offset(glue, pieces, k) + |pieces[k]| + |glue| &&
      Offset(glue, pieces, k + 1) <= |Implode(glue, pieces)| &&
      Implode(glue, pieces)[Offset(glue, pieces, k) + |pieces[k]|..Offset(glue, pieces, k + 1)] == glue
    ensures k + 1 == |pieces| ==> |Implode(glue, pieces)| == Offset(glue, pieces, k) + |pieces[k]|
    decreases k
  {
    if |pieces| == 1 {
    } else {
      var head := pieces[0] + glue;
      var rest := Implode(glue, pieces[1..]);
      assert Implode(glue, pieces) == head + rest;
      if k == 0 {
        assert Offset(glue, pieces[1..], 0) == 0;
      } else {
        ImplodeLayout(glue, pieces[1..], k - 1);
        var o := Offset(glue, pieces[1..], k - 1);
        assert pieces[1..][k - 1] == pieces[k];
        SliceAfterPrefix(head, rest, o, o + |pieces[k]|);
        if k + 1 < |pieces| {
          SliceAfterPrefix(head, rest, o + |pieces[k]|, Offset(glue, pieces[1..], k));
        }
      }
    }
  }

  lemma ImplodeTwo()
    ensures Implode("; ", ["a", "b"]) == "a; b"
  {
  }
}
