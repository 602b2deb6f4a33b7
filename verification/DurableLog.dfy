/**
 The append log of src/runtime/durability.rs as bytes: one encoded record per line, read back
 line by line, a last line without its newline being a torn write that is ignored.
 */
module DurableLog {
  import opened Prelude
  import opened FileReplace

  const NEWLINE: byte := 10

  predicate IsSpace(b: byte)
  {
    b == 32 || b == 9 || b == 10 || b == 12 || b == 13
  }

  predicate Blank(line: Bytes)
  {
    forall i :: 0 <= i < |line| ==> IsSpace(line[i])
  }

  /** ASCII whitespace is space, tab, newline, form feed and carriage return, but not the vertical tab. */
  lemma BlankLines(a: byte, b: byte)
    ensures Blank([]) && Blank([32, 9, 10, 12, 13]) && !Blank([11])
    ensures Blank([a, b]) <==> Blank([a]) && Blank([b])
    ensures 33 <= a || a < 9 ==> !Blank([a])
  {
    assert [a, b][0] == a && [a, b][1] == b && [a][0] == a && [b][0] == b;
    assert !IsSpace([11 as byte][0]);
  }

  /** Bytes before the first newline; all of them if there is none. */
  function LineEnd(bytes: Bytes): (end: nat)
    ensures end <= |bytes|
    ensures NEWLINE !in bytes[..end]
    ensures end < |bytes| ==> bytes[end] == NEWLINE
  {
    if bytes == [] || bytes[0] == NEWLINE then 0
    else
      var end := 1 + LineEnd(bytes[1..]);
      assert bytes[..end] == [bytes[0]] + bytes[1..][..end - 1];
      end
  }

  /** A malformed complete record makes the whole log unreadable. */
  datatype LogError = Malformed

  function Prepend<T>(entries: seq<T>, r: Result<seq<T>, LogError>): Result<seq<T>, LogError>
  {
    if r.Failure? then r else Success(entries + r.value)
  }

  lemma PrependTwice<T>(a: seq<T>, b: seq<T>, r: Result<seq<T>, LogError>)
    ensures Prepend([], r) == r
    ensures Prepend(a, Prepend(b, r)) == Prepend(a + b, r)
  {
    if r.Success? {
      Assoc3(a, b, r.value);
      assert [] + r.value == r.value;
    }
  }

  function ReadLog<T>(decode: Bytes -> Option<T>, bytes: Bytes): Result<seq<T>, LogError>
    decreases |bytes|
  {
    var end := LineEnd(bytes);
    if end == |bytes| then Success([])
    else
      var rest := ReadLog(decode, bytes[end + 1..]);
      if Blank(bytes[..end]) then rest
      else
        var entry := decode(bytes[..end]);
        if entry.None? then Failure(Malformed) else Prepend([entry.value], rest)
  }

  /** The scan of `read_operations`. */
  method ReadOperations<T>(decode: Bytes -> Option<T>, bytes: Bytes) returns (r: Result<seq<T>, LogError>)
    ensures r == ReadLog(decode, bytes)
  {
    hide ReadLog, LineEnd, Prepend, Blank;
    var entries: seq<T> := [];
    var start := 0;
    assert bytes[0..] == bytes;
    PrependTwice<T>([], [], ReadLog(decode, bytes));
    while start < |bytes|
      invariant start <= |bytes|
      invariant ReadLog(decode, bytes) == Prepend(entries, ReadLog(decode, bytes[start..]))
    {
      var end := NextNewline(bytes, start);
      ReadFrom(decode, bytes, start, end);
      if end == |bytes| {
        break;
      }
      var line := bytes[start..end];
      if !Blank(line) {
        var entry := decode(line);
        if entry.None? {
          PrependFailure(entries);
          return Failure(Malformed);
        }
        PrependTwice(entries, [entry.value], ReadLog(decode, bytes[end + 1..]));
        entries := entries + [entry.value];
      }
      start := end + 1;
    }
    ReadNothing(decode, bytes, start);
    PrependEmpty(entries);
    return Success(entries);
  }

  lemma PrependEmpty<T>(entries: seq<T>)
    ensures Prepend(entries, Success([])) == Success(entries)
  {
    assert entries + [] == entries;
  }

  lemma PrependFailure<T>(entries: seq<T>)
    ensures Prepend(entries, Failure(Malformed)) == Failure(Malformed)
  {
  }

  lemma ReadNothing<T>(decode: Bytes -> Option<T>, bytes: Bytes, start: nat)
    requires start <= |bytes|
    requires start == |bytes| || LineEnd(bytes[start..]) == |bytes| - start
    ensures ReadLog(decode, bytes[start..]) == Success([])
  {
  }

  lemma ReadFrom<T>(decode: Bytes -> Option<T>, bytes: Bytes, start: nat, end: nat)
    requires start <= end <= |bytes| && LineEnd(bytes[start..]) == end - start
    ensures ReadLog(decode, bytes[start..])
            == if end == |bytes| then Success([])
               else if Blank(bytes[start..end]) then ReadLog(decode, bytes[end + 1..])
               else if decode(bytes[start..end]).None? then Failure(Malformed)
               else Prepend([decode(bytes[start..end]).value], ReadLog(decode, bytes[end + 1..]))
  {
    hide Blank, Prepend;
    if end < |bytes| {
      assert bytes[start..][..end - start] == bytes[start..end];
      assert bytes[start..][end - start + 1..] == bytes[end + 1..];
    }
  }

  /** Position of the next newline, or the end. */
  method NextNewline(bytes: Bytes, start: nat) returns (end: nat)
    requires start < |bytes|
    ensures start <= end <= |bytes| && LineEnd(bytes[start..]) == end - start
  {
    end := start;
    while end < |bytes| && bytes[end] != NEWLINE
      invariant start <= end <= |bytes|
      invariant LineEnd(bytes[start..]) == end - start + LineEnd(bytes[end..])
    {
      assert bytes[end..][1..] == bytes[end + 1..];
      end := end + 1;
    }
  }

  /** What serialisation provides: records without newlines that decode to what was encoded. */
  ghost predicate Codec<T(!new)>(encode: T -> Bytes, decode: Bytes -> Option<T>)
  {
    forall op: T :: NEWLINE !in encode(op) && !Blank(encode(op)) && decode(encode(op)) == Some(op)
  }

  function EncodeLog<T>(encode: T -> Bytes, ops: seq<T>): Bytes
  {
    if ops == [] then [] else encode(ops[0]) + [NEWLINE] + EncodeLog(encode, ops[1..])
  }

  lemma {:induction false} LineEndAt(line: Bytes, rest: Bytes)
    requires NEWLINE !in line
    ensures LineEnd(line + [NEWLINE] + rest) == |line|
  {
    if line != [] {
      LineEndAt(line[1..], rest);
      assert (line + [NEWLINE] + rest)[1..] == line[1..] + [NEWLINE] + rest;
    }
  }

  lemma {:induction false} NoLineEnd(torn: Bytes)
    requires NEWLINE !in torn
    ensures LineEnd(torn) == |torn|
  {
    if torn != [] {
      NoLineEnd(torn[1..]);
    }
  }

  lemma ReadRecord<T>(decode: Bytes -> Option<T>, line: Bytes, rest: Bytes)
    requires NEWLINE !in line && !Blank(line)
    ensures ReadLog(decode, line + [NEWLINE] + rest)
            == if decode(line).None? then Failure(Malformed) else Prepend([decode(line).value], ReadLog(decode, rest))
  {
    var bytes := line + [NEWLINE] + rest;
    LineEndAt(line, rest);
    assert bytes[..|line|] == line && bytes[|line| + 1..] == rest;
  }

  /** A blank line anywhere before what is read changes nothing. */
  lemma BlankSkipped<T>(decode: Bytes -> Option<T>, line: Bytes, rest: Bytes)
    requires NEWLINE !in line && Blank(line)
    ensures ReadLog(decode, line + [NEWLINE] + rest) == ReadLog(decode, rest)
  {
    var bytes := line + [NEWLINE] + rest;
    LineEndAt(line, rest);
    assert bytes[..|line|] == line && bytes[|line| + 1..] == rest;
  }

  lemma ReadLast<T>(decode: Bytes -> Option<T>, line: Bytes)
    requires NEWLINE !in line && !Blank(line)
    ensures ReadLog(decode, line + [NEWLINE]) == if decode(line).None? then Failure(Malformed) else Success([decode(line).value])
  {
    assert line + [NEWLINE] == line + [NEWLINE] + [];
    ReadRecord(decode, line, []);
    assert ReadLog(decode, []) == Success([]);
    assert decode(line).Some? ==> [decode(line).value] + [] == [decode(line).value];
  }

  /** Whatever follows the complete records is read as if it stood alone. */
  lemma {:induction false} ReadAfterRecords<T(!new)>(encode: T -> Bytes, decode: Bytes -> Option<T>, ops: seq<T>, tail: Bytes)
    requires Codec(encode, decode)
    ensures ReadLog(decode, EncodeLog(encode, ops) + tail) == Prepend(ops, ReadLog(decode, tail))
  {
    if ops == [] {
      assert EncodeLog(encode, ops) + tail == tail;
      PrependTwice(ops, ops, ReadLog(decode, tail));
    } else {
      var line, more := encode(ops[0]), EncodeLog(encode, ops[1..]) + tail;
      Assoc3(line + [NEWLINE], EncodeLog(encode, ops[1..]), tail);
      ReadRecord(decode, line, more);
      ReadAfterRecords(encode, decode, ops[1..], tail);
      PrependTwice([ops[0]], ops[1..], ReadLog(decode, tail));
      assert ops == [ops[0]] + ops[1..];
    }
  }

  /** A crash after any number of bytes of an append recovers the log without the record or with it. */
  lemma TornAppend<T(!new)>(encode: T -> Bytes, decode: Bytes -> Option<T>, ops: seq<T>, op: T, n: nat)
    requires Codec(encode, decode) && n <= |encode(op)| + 1
    ensures ReadLog(decode, EncodeLog(encode, ops) + (encode(op) + [NEWLINE])[..n])
            == Success(if n == |encode(op)| + 1 then ops + [op] else ops)
  {
    var torn := (encode(op) + [NEWLINE])[..n];
    ReadAfterRecords(encode, decode, ops, torn);
    if n <= |encode(op)| {
      assert torn == encode(op)[..n];
      NoLineEnd(torn);
      assert ops + [] == ops;
    } else {
      assert torn == encode(op) + [NEWLINE];
      ReadLast(decode, encode(op));
    }
  }

  /** What failed or interrupted appends can leave at the end: parts of records, one after another. */
  ghost predicate TornTail<T(!new)>(encode: T -> Bytes, tail: Bytes)
    decreases |tail|
  {
    tail == [] || exists before: Bytes, op: T, n: nat ::
                    |before| < |tail| && n <= |encode(op)| && tail == before + encode(op)[..n] && TornTail(encode, before)
  }

  /** A record behind leading space decodes; behind part of another record it does not. */
  ghost predicate Unglued<T(!new)>(encode: T -> Bytes, decode: Bytes -> Option<T>)
  {
    forall tail: Bytes, op: T :: TornTail(encode, tail) ==>
      decode(tail + encode(op)) == if Blank(tail) then Some(op) else None
  }

  lemma {:induction false} TailHasNoNewline<T(!new)>(encode: T -> Bytes, decode: Bytes -> Option<T>, tail: Bytes)
    requires Codec(encode, decode) && TornTail(encode, tail)
    ensures NEWLINE !in tail
    decreases |tail|
  {
    if tail != [] {
      var before: Bytes, op: T, n: nat :| |before| < |tail| && n <= |encode(op)| && tail == before + encode(op)[..n]
                                          && TornTail(encode, before);
      TailHasNoNewline(encode, decode, before);
    }
  }

  /**
   Recovery ignores a torn tail but leaves it in the file, so the next record lands on the same
   line. That record, and with it the whole log, can be read back exactly if the tail is blank.
   */
  lemma AppendBehindTail<T(!new)>(encode: T -> Bytes, decode: Bytes -> Option<T>, ops: seq<T>, tail: Bytes, op: T)
    requires Codec(encode, decode) && Unglued(encode, decode) && TornTail(encode, tail)
    ensures ReadLog(decode, EncodeLog(encode, ops) + tail) == Success(ops)
    ensures ReadLog(decode, EncodeLog(encode, ops) + (tail + encode(op) + [NEWLINE]))
            == if Blank(tail) then Success(ops + [op]) else Failure(Malformed)
  {
    var line := tail + encode(op);
    TailHasNoNewline(encode, decode, tail);
    var i :| 0 <= i < |encode(op)| && !IsSpace(encode(op)[i]);
    assert line[|tail| + i] == encode(op)[i];
    ReadAfterRecords(encode, decode, ops, line + [NEWLINE]);
    ReadLast(decode, line);
    ReadAfterRecords(encode, decode, ops, tail);
    NoLineEnd(tail);
    assert ops + [] == ops;
  }

  /** A death inside one append, a recovery, and one more append: from then on nothing can be read. */
  lemma DeathThenAppend<T(!new)>(encode: T -> Bytes, decode: Bytes -> Option<T>, ops: seq<T>, first: T, n: nat, second: T)
    requires Codec(encode, decode) && Unglued(encode, decode) && n <= |encode(first)| && !Blank(encode(first)[..n])
    ensures ReadLog(decode, EncodeLog(encode, ops) + encode(first)[..n]) == Success(ops)
    ensures ReadLog(decode, EncodeLog(encode, ops) + (encode(first)[..n] + encode(second) + [NEWLINE])) == Failure(Malformed)
  {
    var tail := encode(first)[..n];
    assert tail == [] + tail && TornTail(encode, []);
    assert TornTail(encode, tail);
    AppendBehindTail(encode, decode, ops, tail, second);
  }

  // ------------------------------------------------------------- a codec in full

  /** A smallest codec: the arrays [0] and [1]. */
  function EncodeBit(b: bool): Bytes
  {
    [91, if b then 49 else 48, 93]
  }

  function DecodeBit(line: Bytes): Option<bool>
  {
    if line == EncodeBit(true) then Some(true)
    else if line == EncodeBit(false) then Some(false)
    else if line != [] && IsSpace(line[0]) then DecodeBit(line[1..])
    else None
  }

  lemma {:induction false} BitTails(tail: Bytes)
    requires TornTail(EncodeBit, tail)
    ensures forall i :: 0 <= i < |tail| ==> !IsSpace(tail[i])
    decreases |tail|
  {
    if tail != [] {
      var before: Bytes, op: bool, n: nat :| |before| < |tail| && n <= |EncodeBit(op)| && tail == before + EncodeBit(op)[..n]
                                             && TornTail(EncodeBit, before);
      BitTails(before);
    }
  }

  /** The laws asked of a codec can be met. */
  lemma BitsMeetTheLaws()
    ensures Codec(EncodeBit, DecodeBit) && Unglued(EncodeBit, DecodeBit)
  {
    forall tail: Bytes, op: bool | TornTail(EncodeBit, tail)
      ensures DecodeBit(tail + EncodeBit(op)) == if Blank(tail) then Some(op) else None
    {
      BitTails(tail);
      if tail == [] {
        assert tail + EncodeBit(op) == EncodeBit(op);
      } else {
        var line := tail + EncodeBit(op);
        assert line[0] == tail[0] && |line| > 3;
      }
    }
    forall op: bool
      ensures NEWLINE !in EncodeBit(op) && !Blank(EncodeBit(op))
    {
      assert !IsSpace(EncodeBit(op)[0]);
    }
  }

  /** A log that becomes unreadable: "[" torn off, then the whole record "[0]" behind it. */
  lemma TornLogUnreadable()
    ensures ReadLog(DecodeBit, [91]) == Success([]) && ReadLog(DecodeBit, [91, 91, 48, 93, 10]) == Failure(Malformed)
  {
    BitsMeetTheLaws();
    assert EncodeBit(true)[..1] == [91] && !IsSpace(EncodeBit(true)[..1][0]);
    DeathThenAppend(EncodeBit, DecodeBit, [], true, 1, false);
    assert EncodeLog(EncodeBit, []) + [91] == [91];
    assert EncodeLog(EncodeBit, []) + ([91] + EncodeBit(false) + [NEWLINE]) == [91, 91, 48, 93, 10];
  }
}
