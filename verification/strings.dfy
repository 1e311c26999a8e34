/** String operations the handlers and route guards rely on: `startsWith`,
    `includes`, decimal digits (template literals and `parseInt`), and `split`. */
module Strings {
  import opened Common

  predicate StartsWith(s: string, prefix: string) {
    |prefix| <= |s| && s[..|prefix|] == prefix
  }

  /** `s.includes(sub)`: `sub` occurs in `s` at some position. */
  predicate Contains(s: string, sub: string)
    decreases |s|
  {
    StartsWith(s, sub) || (|s| > 0 && Contains(s[1..], sub))
  }

  lemma {:induction false} ContainsAt(s: string, sub: string, i: nat)
    requires i + |sub| <= |s| && s[i..i + |sub|] == sub
    ensures Contains(s, sub)
    decreases i
  {
    if i > 0 {
      assert s[1..][i - 1..i - 1 + |sub|] == s[i..i + |sub|];
      ContainsAt(s[1..], sub, i - 1);
    }
  }

  lemma {:induction false} ContainsWitness(s: string, sub: string) returns (i: nat)
    requires Contains(s, sub)
    ensures i + |sub| <= |s| && s[i..i + |sub|] == sub
    decreases |s|
  {
    if StartsWith(s, sub) {
      i := 0;
    } else {
      var k := ContainsWitness(s[1..], sub);
      assert s[1..][k..k + |sub|] == s[k + 1..k + 1 + |sub|];
      i := k + 1;
    }
  }

  /** `s.length` in JavaScript: the number of UTF-16 code units, two for each
      character outside the Basic Multilingual Plane. */
  function Utf16Length(s: string): (r: nat)
    ensures |s| <= r <= 2 * |s|
    ensures (forall i :: 0 <= i < |s| ==> (s[i] as int) < 0x1_0000) ==> r == |s|
  {
    if s == [] then 0
    else
      var init := s[..|s| - 1];
      assert forall i :: 0 <= i < |init| ==> init[i] == s[i];
      Utf16Length(init) + (if s[|s| - 1] as int >= 0x1_0000 then 2 else 1)
  }

  predicate IsDigit(c: char) { '0' <= c <= '9' }

  predicate AllDigits(s: string) { forall i :: 0 <= i < |s| ==> IsDigit(s[i]) }

  function DigitChar(d: nat): (c: char)
    requires d < 10
    ensures IsDigit(c) && c as int - '0' as int == d
  {
    "0123456789"[d]
  }

  /** The decimal numeral of `n`, as `${n}` writes it. */
  function NatToString(n: nat): (r: string)
    ensures |r| > 0 && AllDigits(r)
  {
    if n < 10 then [DigitChar(n)] else NatToString(n / 10) + [DigitChar(n % 10)]
  }

  /** The value of a non-empty run of decimal digits, as `parseInt` reads it. */
  function ParseDigits(s: string): nat
    requires AllDigits(s)
  {
    if s == [] then 0
    else ParseDigits(s[..|s| - 1]) * 10 + (s[|s| - 1] as int - '0' as int)
  }

  /** Reading back a numeral gives the number it was written from. */
  lemma {:induction false} ParseNatToString(n: nat)
    ensures ParseDigits(NatToString(n)) == n
  {
    var r := NatToString(n);
    if n >= 10 {
      assert r[..|r| - 1] == NatToString(n / 10);
      ParseNatToString(n / 10);
    }
  }

  /** The longest prefix of `s` made of digits (what the regex group `(\d+)` captures). */
  function LeadingDigits(s: string): (r: string)
    ensures AllDigits(r) && StartsWith(s, r)
    ensures |r| < |s| ==> !IsDigit(s[|r|])
  {
    if |s| > 0 && IsDigit(s[0]) then [s[0]] + LeadingDigits(s[1..]) else []
  }

  lemma {:induction false} LeadingDigitsOfNumeral(d: string, rest: string)
    requires AllDigits(d)
    requires rest == [] || !IsDigit(rest[0])
    ensures LeadingDigits(d + rest) == d
  {
    if d != [] {
      assert (d + rest)[1..] == d[1..] + rest;
      LeadingDigitsOfNumeral(d[1..], rest);
    } else {
      assert d + rest == rest;
    }
  }

  /** `s.split(c)` for a one-character separator: the pieces between occurrences of `c`. */
  function SplitOn(s: string, c: char): (r: seq<string>)
    ensures |r| >= 1
  {
    if |s| == 0 then [""]
    else
      var rest := SplitOn(s[1..], c);
      if s[0] == c then [""] + rest else [[s[0]] + rest[0]] + rest[1..]
  }

  /** The position of the last occurrence of `c` in `s`. */
  function LastIndex(s: string, c: char): (r: Option<nat>)
    ensures r.Some? ==> r.value < |s| && s[r.value] == c
    ensures r.Some? ==> forall k :: r.value < k < |s| ==> s[k] != c
    ensures r.None? <==> c !in s
  {
    if |s| == 0 then None
    else if s[|s| - 1] == c then Some(|s| - 1)
    else
      assert s == s[..|s| - 1] + [s[|s| - 1]];
      LastIndex(s[..|s| - 1], c)
  }

  lemma {:induction false} SplitWithoutSeparator(s: string, c: char)
    requires c !in s
    ensures SplitOn(s, c) == [s]
  {
    if |s| > 0 {
      SplitWithoutSeparator(s[1..], c);
      assert [s[0]] + s[1..] == s;
    }
  }

  /** When the separator occurs after the first character, its last occurrence is
      one further on in `s` than in `s[1..]`. */
  lemma LastIndexInTail(s: string, c: char)
    requires |s| > 0 && c in s[1..]
    ensures LastIndex(s, c).Some? && LastIndex(s[1..], c).Some?
    ensures LastIndex(s, c).value == LastIndex(s[1..], c).value + 1
  {
    var tail := s[1..];
    var i := LastIndex(tail, c).value;
    assert s[i + 1] == tail[i];
    assert c in s;
    assert forall k :: 1 <= k < |s| ==> s[k] == tail[k - 1];
  }

  /** Splitting `s` is splitting its tail, with a new first piece when `s` starts
      with the separator and with the first character glued on otherwise. */
  lemma SplitStep(s: string, c: char)
    requires |s| > 0
    ensures |SplitOn(s, c)| == |SplitOn(s[1..], c)| + (if s[0] == c then 1 else 0)
    ensures s[0] == c || |SplitOn(s[1..], c)| > 1 ==>
      SplitOn(s, c)[|SplitOn(s, c)| - 1] == SplitOn(s[1..], c)[|SplitOn(s[1..], c)| - 1]
  {
  }

  /** `split` yields more than one piece exactly when the separator occurs, and then
      the last piece is the text after the separator's last occurrence. */
  lemma {:induction false} SplitLastPiece(s: string, c: char)
    ensures |SplitOn(s, c)| > 1 <==> c in s
    ensures c in s ==>
      && LastIndex(s, c).Some?
      && SplitOn(s, c)[|SplitOn(s, c)| - 1] == s[LastIndex(s, c).value + 1..]
    decreases |s|
  {
    if c !in s {
      SplitWithoutSeparator(s, c);
    } else {
      var tail := s[1..];
      assert s == [s[0]] + tail;
      SplitStep(s, c);
      SplitLastPiece(tail, c);
      if c in tail {
        LastIndexInTail(s, c);
        var i := LastIndex(tail, c).value;
        assert s[i + 2..] == tail[i + 1..];
      } else {
        assert s[0] == c;
        assert forall k :: 1 <= k < |s| ==> s[k] == tail[k - 1];
        assert LastIndex(s, c).value == 0;
        SplitWithoutSeparator(tail, c);
      }
    }
  }
}
