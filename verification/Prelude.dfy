/** Datatypes and decimal numerals shared by the models. */
module Prelude {

  datatype Option<+T> = None | Some(value: T)

  datatype Result<+R, +E> = Success(value: R) | Failure(error: E)

  ghost predicate NoDup<T>(s: seq<T>)
  {
    forall i, j :: 0 <= i < j < |s| ==> s[i] != s[j]
  }

  /** `s` lists every element satisfying `p`, each once, in some order. */
  ghost predicate Enumerates<T(!new)>(s: seq<T>, p: T -> bool)
  {
    NoDup(s) && forall x :: x in s <==> p(x)
  }

  /** The host language's `find`: the first element satisfying `p`. */
  function FindFirst<T>(s: seq<T>, p: T -> bool): (r: Option<T>)
    ensures r.Some? ==> r.value in s && p(r.value)
    ensures r.None? ==> forall x :: x in s ==> !p(x)
  {
    if s == [] then None else if p(s[0]) then Some(s[0]) else FindFirst(s[1..], p)
  }

  lemma {:induction false} FindFirstExactly<T>(s: seq<T>, p: T -> bool)
    ensures FindFirst(s, p).Some? ==>
              exists i :: 0 <= i < |s| && p(s[i]) && FindFirst(s, p) == Some(s[i]) && forall j :: 0 <= j < i ==> !p(s[j])
  {
    if s != [] && !p(s[0]) && FindFirst(s, p).Some? {
      FindFirstExactly(s[1..], p);
      var i :| 0 <= i < |s[1..]| && p(s[1..][i]) && FindFirst(s[1..], p) == Some(s[1..][i]) && forall j :: 0 <= j < i ==> !p(s[1..][j]);
      assert forall j :: 0 < j < i + 1 ==> s[j] == s[1..][j - 1];
      assert s[i + 1] == s[1..][i];
    }
  }

  predicate IsDigit(c: char)
  {
    '0' <= c <= '9'
  }

  predicate AllDigits(s: string)
  {
    forall i :: 0 <= i < |s| ==> IsDigit(s[i])
  }

  function DigitChar(d: nat): (c: char)
    requires d < 10
    ensures IsDigit(c) && DigitValue(c) == d
  {
    '0' + (d as char)
  }

  function DigitValue(c: char): nat
    requires IsDigit(c)
  {
    (c - '0') as nat
  }

  /** The decimal numeral the source's formatter prints for an unsigned integer. */
  function Dec(n: nat): (s: string)
    ensures s != [] && AllDigits(s)
  {
    if n < 10 then [DigitChar(n)] else Dec(n / 10) + [DigitChar(n % 10)]
  }

  function DecValue(s: string): nat
    requires AllDigits(s)
  {
    if s == [] then 0 else DecValue(s[..|s| - 1]) * 10 + DigitValue(s[|s| - 1])
  }

  lemma {:induction false} DecRoundTrip(n: nat)
    ensures DecValue(Dec(n)) == n
  {
    if n >= 10 {
      DecRoundTrip(n / 10);
      assert Dec(n)[..|Dec(n)| - 1] == Dec(n / 10);
    }
  }

  lemma DecInjective(m: nat, n: nat)
    requires Dec(m) == Dec(n)
    ensures m == n
  {
    DecRoundTrip(m);
    DecRoundTrip(n);
  }

  /** The longest prefix of digits. */
  function TakeDigits(s: string): (d: string)
    ensures AllDigits(d) && d <= s
  {
    if s == [] || !IsDigit(s[0]) then [] else [s[0]] + TakeDigits(s[1..])
  }

  lemma {:induction false} TakeDigitsExact(d: string, rest: string)
    requires AllDigits(d)
    requires rest == [] || !IsDigit(rest[0])
    ensures TakeDigits(d + rest) == d
  {
    if d == [] {
      assert d + rest == rest;
    } else {
      TakeDigitsExact(d[1..], rest);
      assert (d + rest)[1..] == d[1..] + rest;
    }
  }

  lemma Assoc3<T>(a: seq<T>, b: seq<T>, c: seq<T>)
    ensures a + b + c == a + (b + c)
  {
  }

  lemma Assoc4<T>(a: seq<T>, b: seq<T>, c: seq<T>, d: seq<T>)
    ensures a + b + c + d == a + (b + (c + d))
  {
  }

  lemma Assoc5<T>(a: seq<T>, b: seq<T>, c: seq<T>, d: seq<T>, e: seq<T>)
    ensures a + b + c + d + e == a + (b + (c + (d + e)))
  {
  }

  lemma DropPrefix<T>(a: seq<T>, b: seq<T>)
    ensures a <= a + b && (a + b)[|a|..] == b
  {
  }
}
