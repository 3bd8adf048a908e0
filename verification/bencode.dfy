/** The bencode parser (bencoding is defined in BEP 3), its limits, and what it parses. */
module Bencode {
  import opened TorrentLengths
  import opened Wrappers

  const MAX_BENCODE_DEPTH: nat := 100
  const MAX_BENCODE_SIZE: nat := 104857600
  const MAX_ITEMS: nat := 100000
  const MAX_INT_LEN: nat := 20
  const MAX_LEN_DIGITS: nat := 10
  const MAX_BYTE_STRING_SIZE: nat := 10485760

  const I64_LIMIT: int := 0x8000_0000_0000_0000
  const U64_LIMIT: int := 0x1_0000_0000_0000_0000

  const CHAR_I: byte := 105
  const CHAR_L: byte := 108
  const CHAR_D: byte := 100
  const CHAR_E: byte := 101
  const CHAR_0: byte := 48
  const CHAR_9: byte := 57
  const CHAR_COLON: byte := 58
  const CHAR_PLUS: byte := 43
  const CHAR_MINUS: byte := 45

  datatype BVal =
    | Int(i: int)
    | Bytes(b: seq<byte>)
    | List(items: seq<BVal>)
    | Dict(entries: seq<Entry>)

  datatype Entry = Entry(key: seq<byte>, value: BVal)

  datatype ParseError =
    | NestingTooDeep | InputTooLarge | Eof
    | UnterminatedInt | IntegerTooLong | InvalidNumber
    | TooManyItems | Unterminated | KeyNotBytes
    | InvalidBytesLength | BytesLengthTooLong | ByteStringTooLarge | BytesOutOfRange
    | InvalidPrefix

  type Parsed = Result<(BVal, nat), ParseError>

  // ---------- numbers ----------

  predicate IsDigit(c: byte) {
    CHAR_0 <= c <= CHAR_9
  }

  predicate AllDigits(s: seq<byte>) {
    forall i :: 0 <= i < |s| ==> IsDigit(s[i])
  }

  function DigitsValue(s: seq<byte>): nat
    requires AllDigits(s)
  {
    if |s| == 0 then 0 else DigitsValue(s[..|s| - 1]) * 10 + (s[|s| - 1] - CHAR_0)
  }

  /** Parsing as a 64-bit signed integer: an optional sign and at least one digit, in range. */
  function ParseI64(s: seq<byte>): Option<int>
  {
    var signed := |s| > 0 && (s[0] == CHAR_PLUS || s[0] == CHAR_MINUS);
    var digits := if signed then s[1..] else s;
    if |digits| == 0 || !AllDigits(digits) then None
    else
      var value: int := DigitsValue(digits);
      var n: int := if signed && s[0] == CHAR_MINUS then -value else value;
      if -I64_LIMIT <= n < I64_LIMIT then Some(n) else None
  }

  function ParseUsize(s: seq<byte>): Option<nat>
  {
    var digits := if |s| > 0 && s[0] == CHAR_PLUS then s[1..] else s;
    if |digits| == 0 || !AllDigits(digits) || DigitsValue(digits) >= U64_LIMIT then None
    else Some(DigitsValue(digits))
  }

  /** The first position from `i` on that holds `stop`, is the end of the input, or is `budget` away. */
  function Scan(input: seq<byte>, i: nat, stop: byte, budget: nat): (j: nat)
    requires i <= |input|
    ensures i <= j <= |input| && j - i <= budget
    decreases |input| - i
  {
    if i < |input| && input[i] != stop && budget > 0 then Scan(input, i + 1, stop, budget - 1) else i
  }

  // ---------- what parsing computes ----------

  function Parse(input: seq<byte>, i: nat, depth: nat): (r: Parsed)
    ensures r.Success? ==> i < r.value.1 <= |input|
    decreases Max(0, |input| - i), 0
  {
    if depth > MAX_BENCODE_DEPTH then Failure(NestingTooDeep)
    else if |input| > MAX_BENCODE_SIZE then Failure(InputTooLarge)
    else if i >= |input| then Failure(Eof)
    else if input[i] == CHAR_I then ParseInt(input, i + 1)
    else if input[i] == CHAR_L then
      match ParseItems(input, i + 1, depth, 0)
      case Failure(e) => Failure(e)
      case Success((items, end)) => Success((List(items), end + 1))
    else if input[i] == CHAR_D then
      match ParseEntries(input, i + 1, depth, 0)
      case Failure(e) => Failure(e)
      case Success((entries, end)) => Success((Dict(entries), end + 1))
    else if IsDigit(input[i]) then ParseBytes(input, i)
    else Failure(InvalidPrefix)
  }

  /** The digits of an integer start at `i`. */
  function ParseInt(input: seq<byte>, i: nat): (r: Parsed)
    requires i <= |input|
    ensures r.Success? ==> i < r.value.1 <= |input| && r.value.0.Int?
  {
    var j := Scan(input, i, CHAR_E, MAX_INT_LEN);
    if j >= |input| then Failure(UnterminatedInt)
    else if j - i >= MAX_INT_LEN && input[j] != CHAR_E then Failure(IntegerTooLong)
    else match ParseI64(input[i..j])
      case None => Failure(InvalidNumber)
      case Some(n) => Success((Int(n), j + 1))
  }

  function ParseBytes(input: seq<byte>, i: nat): (r: Parsed)
    requires i <= |input|
    ensures r.Success? ==> i < r.value.1 <= |input| && r.value.0.Bytes?
  {
    var j := Scan(input, i, CHAR_COLON, MAX_LEN_DIGITS);
    if j >= |input| then Failure(InvalidBytesLength)
    else if j - i >= MAX_LEN_DIGITS && input[j] != CHAR_COLON then Failure(BytesLengthTooLong)
    else match ParseUsize(input[i..j])
      case None => Failure(InvalidNumber)
      case Some(len) =>
        if len > MAX_BYTE_STRING_SIZE then Failure(ByteStringTooLarge)
        else if j + 1 + len > |input| then Failure(BytesOutOfRange)
        else Success((Bytes(input[j + 1..j + 1 + len]), j + 1 + len))
  }

  /** Items from `i` on, up to the terminator, whose position is returned; `count` came before. */
  function ParseItems(input: seq<byte>, i: nat, depth: nat, count: nat): (r: Result<(seq<BVal>, nat), ParseError>)
    ensures r.Success? ==> i <= r.value.1 < |input|
    decreases Max(0, |input| - i), 1
  {
    if i >= |input| then Failure(Unterminated)
    else if input[i] == CHAR_E then Success(([], i))
    else if count >= MAX_ITEMS then Failure(TooManyItems)
    else match Parse(input, i, depth + 1)
      case Failure(e) => Failure(e)
      case Success((v, next)) =>
        match ParseItems(input, next, depth, count + 1)
        case Failure(e) => Failure(e)
        case Success((rest, end)) => Success(([v] + rest, end))
  }

  function ParseEntries(input: seq<byte>, i: nat, depth: nat, count: nat): (r: Result<(seq<Entry>, nat), ParseError>)
    ensures r.Success? ==> i <= r.value.1 < |input|
    decreases Max(0, |input| - i), 1
  {
    if i >= |input| then Failure(Unterminated)
    else if input[i] == CHAR_E then Success(([], i))
    else if count >= MAX_ITEMS then Failure(TooManyItems)
    else match Parse(input, i, depth + 1)
      case Failure(e) => Failure(e)
      case Success((k, afterKey)) =>
        if !k.Bytes? then Failure(KeyNotBytes)
        else match Parse(input, afterKey, depth + 1)
          case Failure(e) => Failure(e)
          case Success((v, next)) =>
            match ParseEntries(input, next, depth, count + 1)
            case Failure(e) => Failure(e)
            case Success((rest, end)) => Success(([Entry(k.b, v)] + rest, end))
  }

  // ---------- the parser ----------

  method ScanTo(input: seq<byte>, i: nat, stop: byte, budget: nat) returns (j: nat)
    requires i <= |input|
    ensures j == Scan(input, i, stop, budget)
  {
    j := i;
    var length := 0;
    while j < |input| && input[j] != stop && length < budget
      invariant i <= j <= |input| && length <= budget
      invariant Scan(input, i, stop, budget) == Scan(input, j, stop, budget - length)
      decreases |input| - j
    {
      j := j + 1;
      length := length + 1;
    }
  }

  method ParseBencode(input: seq<byte>, start: nat, depth: nat) returns (r: Parsed)
    ensures r == Parse(input, start, depth)
    decreases Max(0, |input| - start), 0
  {
    hide ParseItems; hide ParseEntries; hide ParseI64; hide ParseUsize; hide Scan;
    if depth > MAX_BENCODE_DEPTH {
      return Failure(NestingTooDeep);
    }
    if |input| > MAX_BENCODE_SIZE {
      return Failure(InputTooLarge);
    }
    if start >= |input| {
      return Failure(Eof);
    }
    var c := input[start];
    if c == CHAR_I {
      var i := ScanTo(input, start + 1, CHAR_E, MAX_INT_LEN);
      if i >= |input| {
        return Failure(UnterminatedInt);
      }
      if i - (start + 1) >= MAX_INT_LEN && input[i] != CHAR_E {
        return Failure(IntegerTooLong);
      }
      var n := ParseI64(input[start + 1..i]);
      if n.None? {
        return Failure(InvalidNumber);
      }
      return Success((Int(n.value), i + 1));
    } else if c == CHAR_L {
      var items := ParseList(input, start + 1, depth);
      if items.Failure? {
        return Failure(items.error);
      }
      return Success((List(items.value.0), items.value.1 + 1));
    } else if c == CHAR_D {
      var entries := ParseDict(input, start + 1, depth);
      if entries.Failure? {
        return Failure(entries.error);
      }
      return Success((Dict(entries.value.0), entries.value.1 + 1));
    } else if IsDigit(c) {
      var i := ScanTo(input, start, CHAR_COLON, MAX_LEN_DIGITS);
      if i >= |input| {
        return Failure(InvalidBytesLength);
      }
      if i - start >= MAX_LEN_DIGITS && input[i] != CHAR_COLON {
        return Failure(BytesLengthTooLong);
      }
      var len := ParseUsize(input[start..i]);
      if len.None? {
        return Failure(InvalidNumber);
      }
      if len.value > MAX_BYTE_STRING_SIZE {
        return Failure(ByteStringTooLarge);
      }
      i := i + 1;
      var end := i + len.value;
      if end > |input| {
        return Failure(BytesOutOfRange);
      }
      return Success((Bytes(input[i..end]), end));
    } else {
      return Failure(InvalidPrefix);
    }
  }

  function Prepend<T>(items: seq<T>, r: Result<(seq<T>, nat), ParseError>): Result<(seq<T>, nat), ParseError> {
    match r
    case Failure(e) => Failure(e)
    case Success((rest, end)) => Success((items + rest, end))
  }

  lemma PrependNothing<T>(r: Result<(seq<T>, nat), ParseError>)
    ensures Prepend([], r) == r
  {
    if r.Success? {
      assert [] + r.value.0 == r.value.0;
    }
  }

  lemma PrependMore<T>(items: seq<T>, v: T, r: Result<(seq<T>, nat), ParseError>)
    ensures Prepend(items, Prepend([v], r)) == Prepend(items + [v], r)
  {
    if r.Success? {
      assert items + ([v] + r.value.0) == (items + [v]) + r.value.0;
    }
  }

  method ParseList(input: seq<byte>, start: nat, depth: nat) returns (r: Result<(seq<BVal>, nat), ParseError>)
    ensures r == ParseItems(input, start, depth, 0)
    decreases Max(0, |input| - start), 1
  {
    var i := start;
    var items: seq<BVal> := [];
    hide Parse;
    PrependNothing(ParseItems(input, start, depth, 0));
    while i < |input| && input[i] != CHAR_E
      invariant start <= i && (start <= |input| ==> i <= |input|)
      invariant ParseItems(input, start, depth, 0) == Prepend(items, ParseItems(input, i, depth, |items|))
      decreases |input| - i
    {
      if |items| >= MAX_ITEMS {
        return Failure(TooManyItems);
      }
      var v := ParseBencode(input, i, depth + 1);
      if v.Failure? {
        return Failure(v.error);
      }
      PrependMore(items, v.value.0, ParseItems(input, v.value.1, depth, |items| + 1));
      items := items + [v.value.0];
      i := v.value.1;
    }
    if i >= |input| {
      return Failure(Unterminated);
    }
    assert items + [] == items;
    return Success((items, i));
  }

  method ParseDict(input: seq<byte>, start: nat, depth: nat) returns (r: Result<(seq<Entry>, nat), ParseError>)
    ensures r == ParseEntries(input, start, depth, 0)
    decreases Max(0, |input| - start), 1
  {
    var i := start;
    var entries: seq<Entry> := [];
    hide Parse;
    PrependNothing(ParseEntries(input, start, depth, 0));
    while i < |input| && input[i] != CHAR_E
      invariant start <= i && (start <= |input| ==> i <= |input|)
      invariant ParseEntries(input, start, depth, 0) == Prepend(entries, ParseEntries(input, i, depth, |entries|))
      decreases |input| - i
    {
      if |entries| >= MAX_ITEMS {
        return Failure(TooManyItems);
      }
      var k := ParseBencode(input, i, depth + 1);
      if k.Failure? {
        return Failure(k.error);
      }
      if !k.value.0.Bytes? {
        return Failure(KeyNotBytes);
      }
      var v := ParseBencode(input, k.value.1, depth + 1);
      if v.Failure? {
        return Failure(v.error);
      }
      PrependMore(entries, Entry(k.value.0.b, v.value.0), ParseEntries(input, v.value.1, depth, |entries| + 1));
      entries := entries + [Entry(k.value.0.b, v.value.0)];
      i := v.value.1;
    }
    if i >= |input| {
      return Failure(Unterminated);
    }
    assert entries + [] == entries;
    return Success((entries, i));
  }
}
