/** UTF-8 (section 3 of RFC 3629): encoding, byte offsets and character boundaries. */
module Utf8 {

  type Byte = b: int | 0 <= b < 0x100

  function EncodeChar(c: char): (r: seq<Byte>)
    ensures 1 <= |r| <= 4
    ensures c as int < 0x80 ==> r == [c as int]
    ensures c as int >= 0x80 ==> forall i :: 0 <= i < |r| ==> r[i] >= 0x80
  {
    var n := c as int;
    if n < 0x80 then [n]
    else if n < 0x800 then [0xC0 + n / 64, 0x80 + n % 64]
    else if n < 0x1_0000 then [0xE0 + n / 4096, 0x80 + n / 64 % 64, 0x80 + n % 64]
    else [0xF0 + n / 262144, 0x80 + n / 4096 % 64, 0x80 + n / 64 % 64, 0x80 + n % 64]
  }

  /** Characters of one, two, three and four bytes, three of them from section 7 of RFC 3629. */
  lemma Examples()
    ensures EncodeChar('A') == [0x41] && EncodeChar('\U{0391}') == [0xCE, 0x91] && EncodeChar('\U{2262}') == [0xE2, 0x89, 0xA2]
    ensures EncodeChar('\U{233B4}') == [0xF0, 0xA3, 0x8E, 0xB4]
  {
  }

  function Encode(text: string): (r: seq<Byte>)
    ensures |r| >= |text|
  {
    if text == [] then [] else EncodeChar(text[0]) + Encode(text[1..])
  }

  /** The byte offset of character k. */
  function Offset(text: string, k: nat): nat
    requires k <= |text|
  {
    |Encode(text[..k])|
  }

  predicate Boundary(text: string, index: nat)
  {
    exists k :: 0 <= k <= |text| && Offset(text, k) == index
  }

  lemma EncodeCons(c: char, rest: string)
    ensures Encode([c] + rest) == EncodeChar(c) + Encode(rest)
  {
    assert ([c] + rest)[1..] == rest;
  }

  lemma Join(a: seq<Byte>, b: seq<Byte>, c: seq<Byte>)
    ensures a + b + c == a + (b + c)
  {
  }

  lemma {:induction false} EncodeConcat(a: string, b: string)
    ensures Encode(a + b) == Encode(a) + Encode(b)
  {
    if a == [] {
      assert a + b == b;
    } else {
      hide EncodeChar, Encode;
      EncodeConcat(a[1..], b);
      EncodeCons(a[0], a[1..]);
      EncodeCons(a[0], a[1..] + b);
      assert a == [a[0]] + a[1..] && a + b == [a[0]] + (a[1..] + b);
      Join(EncodeChar(a[0]), Encode(a[1..]), Encode(b));
    }
  }

  lemma EncodeOne(c: char)
    ensures Encode([c]) == EncodeChar(c)
  {
    assert [c][1..] == [];
  }

  lemma OffsetNext(text: string, k: nat)
    requires k < |text|
    ensures Offset(text, k + 1) == Offset(text, k) + |EncodeChar(text[k])| <= |Encode(text)|
  {
    hide EncodeChar, Encode;
    EncodeConcat(text[..k], [text[k]]);
    EncodeOne(text[k]);
    assert text[..k + 1] == text[..k] + [text[k]];
    EncodeConcat(text[..k + 1], text[k + 1..]);
    assert text == text[..k + 1] + text[k + 1..];
  }

  lemma OffsetEnd(text: string)
    ensures Offset(text, |text|) == |Encode(text)| && Offset(text, 0) == 0
  {
    assert text[..|text|] == text;
  }

  /** The bytes from the offset of character k on are those of the characters from k on. */
  lemma ByteAt(text: string, k: nat, i: nat)
    requires k < |text| && i < |EncodeChar(text[k])|
    ensures Offset(text, k) + i < |Encode(text)|
    ensures Encode(text)[Offset(text, k) + i] == EncodeChar(text[k])[i]
  {
    hide EncodeChar;
    OffsetNext(text, k);
    EncodeConcat(text[..k], text[k..]);
    assert text == text[..k] + text[k..];
    assert text[k..][0] == text[k];
  }

  lemma {:induction false} OffsetInjective(text: string, j: nat, k: nat)
    requires j < k <= |text|
    ensures Offset(text, j) < Offset(text, k)
    decreases k - j
  {
    OffsetNext(text, j);
    if j + 1 < k {
      OffsetInjective(text, j + 1, k);
    }
  }

  lemma OffsetUnique(text: string, j: nat, k: nat)
    requires j <= |text| && k <= |text| && Offset(text, j) == Offset(text, k)
    ensures j == k
  {
    if j < k {
      OffsetInjective(text, j, k);
    } else if k < j {
      OffsetInjective(text, k, j);
    }
  }

  /** Only the end has the last offset. */
  lemma AtEnd(text: string, k: nat)
    requires k <= |text| && Offset(text, k) >= |Encode(text)|
    ensures k == |text|
  {
    if k < |text| {
      OffsetNext(text, k);
    }
  }

  /** The rest of a text from a byte offset; as in the host language, only from a character boundary. */
  function SliceFrom(text: string, index: nat): (r: string)
    requires Boundary(text, index)
  {
    assert forall j, k :: 0 <= j <= |text| && 0 <= k <= |text| && Offset(text, j) == index == Offset(text, k) ==> j == k by {
      forall j, k | 0 <= j <= |text| && 0 <= k <= |text| && Offset(text, j) == index == Offset(text, k)
        ensures j == k
      {
        OffsetUnique(text, j, k);
      }
    }
    var k :| 0 <= k <= |text| && Offset(text, k) == index;
    text[k..]
  }

  lemma SliceAt(text: string, k: nat)
    requires k <= |text|
    ensures Boundary(text, Offset(text, k)) && SliceFrom(text, Offset(text, k)) == text[k..]
  {
    forall j | 0 <= j <= |text| && Offset(text, j) == Offset(text, k)
      ensures j == k
    {
      OffsetUnique(text, j, k);
    }
  }
}
