/** The standard base64 alphabet with padding, strict about both (sections 3.5 and 4 of RFC 4648). */
module Base64 {
  import opened Prelude
  import opened Utf8

  type Sextet = n: int | 0 <= n < 64

  function CharOf(n: Sextet): char
  {
    if n < 26 then 'A' + n as char
    else if n < 52 then 'a' + (n - 26) as char
    else if n < 62 then '0' + (n - 52) as char
    else if n == 62 then '+'
    else '/'
  }

  function ValueOf(c: char): Option<Sextet>
  {
    if 'A' <= c <= 'Z' then Some((c - 'A') as int)
    else if 'a' <= c <= 'z' then Some((c - 'a') as int + 26)
    else if '0' <= c <= '9' then Some((c - '0') as int + 52)
    else if c == '+' then Some(62)
    else if c == '/' then Some(63)
    else None
  }

  lemma AlphabetExact(n: Sextet, c: char)
    ensures ValueOf(CharOf(n)) == Some(n) && CharOf(n) != '='
    ensures ValueOf(c) == Some(n) <==> c == CharOf(n)
  {
  }

  /** The four sextets of three bytes. */
  function First(a: Byte): Sextet
  {
    a / 4
  }

  function Second(a: Byte, b: Byte): Sextet
  {
    a % 4 * 16 + b / 16
  }

  function Third(b: Byte, c: Byte): Sextet
  {
    b % 16 * 4 + c / 64
  }

  function Fourth(c: Byte): Sextet
  {
    c % 64
  }

  /** The three bytes of four sextets. */
  function High(v: Sextet, w: Sextet): Byte
  {
    v * 4 + w / 16
  }

  function Middle(w: Sextet, x: Sextet): Byte
  {
    w % 16 * 16 + x / 4
  }

  function Low(x: Sextet, y: Sextet): Byte
  {
    x % 4 * 64 + y
  }

  function EncodeBytes(b: seq<Byte>): (t: string)
  {
    if b == [] then ""
    else if |b| == 1 then [CharOf(First(b[0])), CharOf(Second(b[0], 0)), '=', '=']
    else if |b| == 2 then [CharOf(First(b[0])), CharOf(Second(b[0], b[1])), CharOf(Third(b[1], 0)), '=']
    else
      [CharOf(First(b[0])), CharOf(Second(b[0], b[1])), CharOf(Third(b[1], b[2])), CharOf(Fourth(b[2]))] + EncodeBytes(b[3..])
  }

  /** Rejects unknown letters, wrong padding, and bits set beyond the last byte. */
  function DecodeBytes(t: string): Option<seq<Byte>>
  {
    if t == "" then Some([])
    else if |t| < 4 || ValueOf(t[0]).None? || ValueOf(t[1]).None? then None
    else
      var v, w := ValueOf(t[0]).value, ValueOf(t[1]).value;
      if t[2] == '=' then
        if t[3] == '=' && |t| == 4 && w % 16 == 0 then Some([High(v, w)]) else None
      else if ValueOf(t[2]).None? then None
      else
        var x := ValueOf(t[2]).value;
        if t[3] == '=' then
          if |t| == 4 && x % 4 == 0 then Some([High(v, w), Middle(w, x)]) else None
        else if ValueOf(t[3]).None? then None
        else
          var rest := DecodeBytes(t[4..]);
          if rest.None? then None
          else Some([High(v, w), Middle(w, x), Low(x, ValueOf(t[3]).value)] + rest.value)
  }

  /** The test vectors of section 10 of RFC 4648, and the last two letters of the alphabet. */
  lemma TestVectors()
    ensures EncodeBytes([]) == "" && EncodeBytes([0x66]) == "Zg==" && EncodeBytes([0x66, 0x6f]) == "Zm8="
    ensures EncodeBytes([0x66, 0x6f, 0x6f]) == "Zm9v" && EncodeBytes([0x66, 0x6f, 0x6f, 0x62]) == "Zm9vYg=="
    ensures EncodeBytes([0x66, 0x6f, 0x6f, 0x62, 0x61]) == "Zm9vYmE=" && EncodeBytes([0x66, 0x6f, 0x6f, 0x62, 0x61, 0x72]) == "Zm9vYmFy"
    ensures EncodeBytes([0xfb, 0xff]) == "+/8="
  {
    var foo, b, ba, bar := [0x66, 0x6f, 0x6f], [0x62], [0x62, 0x61], [0x62, 0x61, 0x72];
    assert [0x66, 0x6f, 0x6f, 0x62][3..] == b && [0x66, 0x6f, 0x6f, 0x62, 0x61][3..] == ba && [0x66, 0x6f, 0x6f, 0x62, 0x61, 0x72][3..] == bar;
  }

  lemma BytesBack(a: Byte, b: Byte, c: Byte)
    ensures High(First(a), Second(a, b)) == a
    ensures Middle(Second(a, b), Third(b, c)) == b
    ensures Low(Third(b, c), Fourth(c)) == c
    ensures Second(a, 0) % 16 == 0 && Third(b, 0) % 4 == 0
  {
  }

  lemma SextetsBack(v: Sextet, w: Sextet, x: Sextet, y: Sextet)
    ensures First(High(v, w)) == v
    ensures Second(High(v, w), Middle(w, x)) == w && (w % 16 == 0 ==> Second(High(v, w), 0) == w)
    ensures Third(Middle(w, x), Low(x, y)) == x && (x % 4 == 0 ==> Third(Middle(w, x), 0) == x)
    ensures Fourth(Low(x, y)) == y
  {
  }

  lemma DecodeGroup(v: Sextet, w: Sextet, x: Sextet, y: Sextet, t: string)
    ensures var d := DecodeBytes([CharOf(v), CharOf(w), CharOf(x), CharOf(y)] + t);
            if DecodeBytes(t).None? then d.None? else d == Some([High(v, w), Middle(w, x), Low(x, y)] + DecodeBytes(t).value)
  {
    AlphabetExact(v, ' ');
    AlphabetExact(w, ' ');
    AlphabetExact(x, ' ');
    AlphabetExact(y, ' ');
    hide CharOf, ValueOf, High, Middle, Low;
    var whole := [CharOf(v), CharOf(w), CharOf(x), CharOf(y)] + t;
    assert whole[4..] == t;
  }

  lemma DecodePadded(v: Sextet, w: Sextet, x: Sextet)
    ensures DecodeBytes([CharOf(v), CharOf(w), '=', '=']) == if w % 16 == 0 then Some([High(v, w)]) else None
    ensures DecodeBytes([CharOf(v), CharOf(w), CharOf(x), '=']) == if x % 4 == 0 then Some([High(v, w), Middle(w, x)]) else None
  {
    AlphabetExact(v, ' ');
    AlphabetExact(w, ' ');
    AlphabetExact(x, ' ');
    hide CharOf, ValueOf, High, Middle, Low;
  }

  lemma {:induction false} DecodeEncoded(b: seq<Byte>)
    ensures DecodeBytes(EncodeBytes(b)) == Some(b)
  {
    hide CharOf, ValueOf, High, Middle, Low, First, Second, Third, Fourth, DecodeBytes;
    if b == [] {
      DecodeNothing();
    } else if |b| == 1 {
      assert b == [b[0]];
      BytesBack(b[0], 0, 0);
      DecodePadded(First(b[0]), Second(b[0], 0), 0);
    } else if |b| == 2 {
      assert b == [b[0], b[1]];
      BytesBack(b[0], b[1], 0);
      DecodePadded(First(b[0]), Second(b[0], b[1]), Third(b[1], 0));
    } else {
      assert b == [b[0], b[1], b[2]] + b[3..];
      BytesBack(b[0], b[1], b[2]);
      DecodeEncoded(b[3..]);
      DecodeGroup(First(b[0]), Second(b[0], b[1]), Third(b[1], b[2]), Fourth(b[2]), EncodeBytes(b[3..]));
    }
  }

  lemma DecodeNothing()
    ensures DecodeBytes("") == Some([])
  {
  }

  lemma {:induction false} EncodeDecoded(t: string)
    requires DecodeBytes(t).Some?
    ensures EncodeBytes(DecodeBytes(t).value) == t
  {
    hide CharOf, ValueOf, High, Middle, Low, First, Second, Third, Fourth;
    if t != "" {
      var v, w := ValueOf(t[0]).value, ValueOf(t[1]).value;
      AlphabetExact(v, t[0]);
      AlphabetExact(w, t[1]);
      if t[2] == '=' {
        SextetsBack(v, w, 0, 0);
      } else {
        var x := ValueOf(t[2]).value;
        AlphabetExact(x, t[2]);
        if t[3] == '=' {
          SextetsBack(v, w, x, 0);
        } else {
          var y := ValueOf(t[3]).value;
          AlphabetExact(y, t[3]);
          SextetsBack(v, w, x, y);
          EncodeDecoded(t[4..]);
          var rest := DecodeBytes(t[4..]).value;
          var b := [High(v, w), Middle(w, x), Low(x, y)] + rest;
          assert b[3..] == rest;
          assert t == [t[0], t[1], t[2], t[3]] + t[4..];
        }
      }
    }
  }

  /** Text decodes to bytes exactly when it is their encoding: no other text is accepted. */
  lemma DecodesExactly(t: string, b: seq<Byte>)
    ensures DecodeBytes(t) == Some(b) <==> t == EncodeBytes(b)
  {
    DecodeEncoded(b);
    if DecodeBytes(t).Some? {
      EncodeDecoded(t);
    }
  }
}
