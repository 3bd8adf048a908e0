/** Parsing undoes printing, exactly within the parser's limits. */
module BencodeRoundTrip {
  import opened Wrappers
  import opened Bencode

  // ---------- printing ----------

  function DecNat(n: nat): seq<byte> {
    if n < 10 then [CHAR_0 + n] else DecNat(n / 10) + [CHAR_0 + n % 10]
  }

  function Dec(n: int): seq<byte> {
    if n < 0 then [CHAR_MINUS] + DecNat(-n) else DecNat(n)
  }

  function EncodeBytes(b: seq<byte>): seq<byte> {
    DecNat(|b|) + [CHAR_COLON] + b
  }

  function Encode(v: BVal): seq<byte>
    decreases v, 0
  {
    match v
    case Int(n) => [CHAR_I] + (Dec(n) + [CHAR_E])
    case Bytes(b) => EncodeBytes(b)
    case List(items) => [CHAR_L] + (EncodeAll(items) + [CHAR_E])
    case Dict(entries) => [CHAR_D] + (EncodeEntries(entries) + [CHAR_E])
  }

  function EncodeAll(items: seq<BVal>): seq<byte>
    decreases items, 1
  {
    if |items| == 0 then [] else Encode(items[0]) + EncodeAll(items[1..])
  }

  function EncodeEntries(entries: seq<Entry>): seq<byte>
    decreases entries, 1
  {
    if |entries| == 0 then []
    else EncodeBytes(entries[0].key) + (Encode(entries[0].value) + EncodeEntries(entries[1..]))
  }

  /** The value, found at nesting level `depth`, is within the limits of the parser. */
  predicate Fits(v: BVal, depth: nat)
    decreases v, 0
  {
    && depth <= MAX_BENCODE_DEPTH
    && match v
       case Int(n) => -I64_LIMIT <= n < I64_LIMIT
       case Bytes(b) => |b| <= MAX_BYTE_STRING_SIZE
       case List(items) => |items| <= MAX_ITEMS && FitAll(items, depth + 1)
       case Dict(entries) => |entries| <= MAX_ITEMS && FitEntries(entries, depth + 1)
  }

  predicate FitsKey(key: seq<byte>, depth: nat) {
    depth <= MAX_BENCODE_DEPTH && |key| <= MAX_BYTE_STRING_SIZE
  }

  predicate FitAll(items: seq<BVal>, depth: nat)
    decreases items, 1
  {
    |items| > 0 ==> Fits(items[0], depth) && FitAll(items[1..], depth)
  }

  predicate FitEntries(entries: seq<Entry>, depth: nat)
    decreases entries, 1
  {
    |entries| > 0 ==>
      && FitsKey(entries[0].key, depth)
      && Fits(entries[0].value, depth)
      && FitEntries(entries[1..], depth)
  }

  // ---------- numbers ----------

  lemma {:induction false} DecNatDigits(n: nat)
    ensures |DecNat(n)| > 0 && AllDigits(DecNat(n)) && DigitsValue(DecNat(n)) == n
  {
    if n >= 10 {
      DecNatDigits(n / 10);
      assert DecNat(n)[..|DecNat(n)| - 1] == DecNat(n / 10);
    }
  }

  function Pow10(k: nat): nat {
    if k == 0 then 1 else 10 * Pow10(k - 1)
  }

  lemma {:induction false} DecNatLength(n: nat, k: nat)
    requires k > 0
    ensures |DecNat(n)| <= k <==> n < Pow10(k)
  {
    if n >= 10 {
      if k > 1 {
        DecNatLength(n / 10, k - 1);
      } else {
        DecNatDigits(n / 10);
      }
    } else {
      Pow10AtLeast(k);
    }
  }

  lemma {:induction false} Pow10AtLeast(k: nat)
    requires k > 0
    ensures Pow10(k) >= 10
  {
    if k > 1 {
      Pow10AtLeast(k - 1);
    }
  }

  // ---------- positions ----------

  /** The input holds `s` at position `i`. */
  predicate At(input: seq<byte>, i: nat, s: seq<byte>) {
    i + |s| <= |input| && input[i..i + |s|] == s
  }

  lemma AtSplit(input: seq<byte>, i: nat, a: seq<byte>, b: seq<byte>)
    requires At(input, i, a + b)
    ensures At(input, i, a) && At(input, i + |a|, b)
  {
    var s := input[i..i + |a + b|];
    assert s[..|a|] == a && s[|a|..] == b;
    assert input[i..i + |a|] == s[..|a|];
    assert input[i + |a|..i + |a| + |b|] == s[|a|..];
  }

  lemma AtEach(input: seq<byte>, i: nat, s: seq<byte>)
    requires At(input, i, s)
    ensures i + |s| <= |input|
    ensures forall k :: 0 <= k < |s| ==> input[i + k] == s[k]
  {
    forall k | 0 <= k < |s| ensures input[i + k] == s[k] {
      assert input[i..i + |s|][k] == s[k];
    }
  }

  lemma {:induction false} ScanIs(input: seq<byte>, i: nat, stop: byte, budget: nat, j: nat)
    requires i <= j < |input| && j - i <= budget && forall k :: i <= k < j ==> input[k] != stop
    requires input[j] == stop || j - i == budget
    ensures Scan(input, i, stop, budget) == j
    decreases j - i
  {
    if i < j {
      ScanIs(input, i + 1, stop, budget - 1, j);
    }
  }

  // ---------- leaves ----------

  lemma IntParses(input: seq<byte>, i: nat, n: int)
    requires At(input, i, Dec(n) + [CHAR_E])
    ensures if -I64_LIMIT <= n < I64_LIMIT then ParseInt(input, i) == Success((Int(n), i + |Dec(n)| + 1))
            else ParseInt(input, i).Failure?
  {
    hide DecNat; hide DigitsValue; hide Pow10; hide Scan;
    var d := Dec(n);
    var m: nat := if n < 0 then -n else n;
    DecNatDigits(m);
    AtSplit(input, i, d, [CHAR_E]);
    AtEach(input, i, d);
    AtEach(input, i + |d|, [CHAR_E]);
    assert input[i + |d|] == CHAR_E by { assert [CHAR_E][0] == CHAR_E; assert input[i + |d| + 0] == CHAR_E; }
    assert forall k :: i <= k < i + |d| ==> input[k] == d[k - i];
    if |d| <= MAX_INT_LEN {
      ScanIs(input, i, CHAR_E, MAX_INT_LEN, i + |d|);
      assert input[i..i + |d|] == d;
      DecParses(n);
    } else {
      ScanIs(input, i, CHAR_E, MAX_INT_LEN, i + MAX_INT_LEN);
      assert |DecNat(m)| > 19;
      DecNatLength(m, 19);
      TenToThe19();
    }
  }

  lemma TenToThe19()
    ensures Pow10(19) == 10000000000000000000
  {
    assert Pow10(5) == 100000;
    assert Pow10(10) == 10000000000;
    assert Pow10(15) == 1000000000000000;
  }

  lemma DecParses(n: int)
    ensures ParseI64(Dec(n)) == if -I64_LIMIT <= n < I64_LIMIT then Some(n) else None
  {
    hide DecNat; hide DigitsValue;
    var m: nat := if n < 0 then -n else n;
    DecNatDigits(m);
    if n < 0 {
      assert Dec(n)[1..] == DecNat(m);
    }
  }

  lemma BytesParse(input: seq<byte>, i: nat, b: seq<byte>)
    requires At(input, i, EncodeBytes(b)) && |input| <= MAX_BENCODE_SIZE
    ensures IsDigit(EncodeBytes(b)[0])
    ensures if |b| <= MAX_BYTE_STRING_SIZE then ParseBytes(input, i) == Success((Bytes(b), i + |EncodeBytes(b)|))
            else ParseBytes(input, i).Failure?
  {
    hide DecNat; hide DigitsValue; hide Pow10; hide Scan;
    var d := DecNat(|b|);
    DecNatDigits(|b|);
    AtSplit(input, i, d + [CHAR_COLON], b);
    AtSplit(input, i, d, [CHAR_COLON]);
    AtEach(input, i, d);
    AtEach(input, i + |d|, [CHAR_COLON]);
    assert input[i + |d| + 0] == CHAR_COLON;
    assert forall k :: i <= k < i + |d| ==> input[k] == d[k - i];
    DecNatLength(|b|, 9);
    TenToThe9();
    ScanIs(input, i, CHAR_COLON, MAX_LEN_DIGITS, i + |d|);
    assert input[i..i + |d|] == d;
    assert d[0] == EncodeBytes(b)[0];
  }

  lemma TenToThe9()
    ensures Pow10(9) == 1000000000
  {
    assert Pow10(5) == 100000;
  }

  // ---------- values ----------

  /** Printed values start with a byte that is not the terminator. */
  lemma EncodeHead(v: BVal)
    ensures |Encode(v)| > 0 && Encode(v)[0] != CHAR_E
    ensures v.Int? <==> Encode(v)[0] == CHAR_I
    ensures v.List? <==> Encode(v)[0] == CHAR_L
    ensures v.Dict? <==> Encode(v)[0] == CHAR_D
    ensures v.Bytes? <==> IsDigit(Encode(v)[0])
  {
    if v.Bytes? {
      DecNatDigits(|v.b|);
      assert Encode(v)[0] == DecNat(|v.b|)[0];
    }
  }

  /** Where the input holds a printed value, the parser returns that value and the position behind it
      if the value is within the limits, and fails otherwise. */
  lemma {:induction false} ParseEncoded(input: seq<byte>, i: nat, v: BVal, depth: nat)
    requires |input| <= MAX_BENCODE_SIZE && At(input, i, Encode(v))
    ensures if Fits(v, depth) then Parse(input, i, depth) == Success((v, i + |Encode(v)|))
            else Parse(input, i, depth).Failure?
    decreases v, 0
  {
    hide ParseInt; hide ParseBytes; hide ParseItems; hide ParseEntries; hide Dec; hide EncodeBytes; hide EncodeAll;
    hide EncodeEntries;
    EncodeHead(v);
    AtEach(input, i, Encode(v));
    assert input[i + 0] == Encode(v)[0];
    match v
    case Int(n) =>
      AtSplit(input, i, [CHAR_I], Dec(n) + [CHAR_E]);
      IntParses(input, i + 1, n);
    case Bytes(b) =>
      BytesParse(input, i, b);
    case List(items) =>
      AtSplit(input, i, [CHAR_L], EncodeAll(items) + [CHAR_E]);
      AtSplit(input, i + 1, EncodeAll(items), [CHAR_E]);
      if depth <= MAX_BENCODE_DEPTH {
        ItemsParse(input, i + 1, items, depth, 0);
      }
    case Dict(entries) =>
      AtSplit(input, i, [CHAR_D], EncodeEntries(entries) + [CHAR_E]);
      AtSplit(input, i + 1, EncodeEntries(entries), [CHAR_E]);
      if depth <= MAX_BENCODE_DEPTH {
        EntriesParse(input, i + 1, entries, depth, 0);
      }
  }

  lemma {:induction false} ItemsParse(input: seq<byte>, i: nat, items: seq<BVal>, depth: nat, count: nat)
    requires |input| <= MAX_BENCODE_SIZE && count <= MAX_ITEMS
    requires At(input, i, EncodeAll(items)) && At(input, i + |EncodeAll(items)|, [CHAR_E])
    ensures if FitAll(items, depth + 1) && count + |items| <= MAX_ITEMS
            then ParseItems(input, i, depth, count) == Success((items, i + |EncodeAll(items)|))
            else ParseItems(input, i, depth, count).Failure?
    decreases items, 1
  {
    hide Parse; hide Encode; hide Fits; hide At;
    if |items| == 0 {
      AtEach(input, i, [CHAR_E]);
      assert input[i + 0] == [CHAR_E][0];
    } else {
      var first, rest := items[0], items[1..];
      AtSplit(input, i, Encode(first), EncodeAll(rest));
      EncodeHead(first);
      AtEach(input, i, Encode(first));
      assert input[i + 0] == Encode(first)[0];
      if count < MAX_ITEMS {
        ParseEncoded(input, i, first, depth + 1);
        ItemsParse(input, i + |Encode(first)|, rest, depth, count + 1);
        assert items == [first] + rest;
      }
    }
  }

  lemma {:induction false} EntriesParse(input: seq<byte>, i: nat, entries: seq<Entry>, depth: nat, count: nat)
    requires |input| <= MAX_BENCODE_SIZE && count <= MAX_ITEMS
    requires At(input, i, EncodeEntries(entries)) && At(input, i + |EncodeEntries(entries)|, [CHAR_E])
    ensures if FitEntries(entries, depth + 1) && count + |entries| <= MAX_ITEMS
            then ParseEntries(input, i, depth, count) == Success((entries, i + |EncodeEntries(entries)|))
            else ParseEntries(input, i, depth, count).Failure?
    decreases entries, 1
  {
    hide Parse; hide Encode; hide EncodeBytes; hide Fits; hide FitsKey; hide At;
    if |entries| == 0 {
      AtEach(input, i, [CHAR_E]);
      assert input[i + 0] == [CHAR_E][0];
    } else {
      var k, v, rest := entries[0].key, entries[0].value, entries[1..];
      AtSplit(input, i, EncodeBytes(k), Encode(v) + EncodeEntries(rest));
      AtSplit(input, i + |EncodeBytes(k)|, Encode(v), EncodeEntries(rest));
      KeyParses(input, i, k, depth + 1);
      if count < MAX_ITEMS {
        ParseEncoded(input, i + |EncodeBytes(k)|, v, depth + 1);
        EntriesParse(input, i + |EncodeBytes(k)| + |Encode(v)|, rest, depth, count + 1);
        assert entries == [Entry(k, v)] + rest;
      }
    }
  }

  lemma KeyParses(input: seq<byte>, i: nat, k: seq<byte>, depth: nat)
    requires |input| <= MAX_BENCODE_SIZE && At(input, i, EncodeBytes(k))
    ensures i < |input| && input[i] != CHAR_E
    ensures if FitsKey(k, depth) then Parse(input, i, depth) == Success((Bytes(k), i + |EncodeBytes(k)|))
            else Parse(input, i, depth).Failure?
  {
    hide ParseBytes; hide EncodeBytes;
    BytesParse(input, i, k);
    EncodeHead(Bytes(k));
    AtEach(input, i, EncodeBytes(k));
    assert input[i + 0] == Encode(Bytes(k))[0];
  }

  /** Parsing undoes printing: followed by any bytes, a printed value within the limits parses to itself
      and stops exactly where the other bytes begin; a value beyond the limits is refused. */
  lemma RoundTrip(v: BVal, rest: seq<byte>)
    requires |Encode(v) + rest| <= MAX_BENCODE_SIZE
    ensures if Fits(v, 0) then Parse(Encode(v) + rest, 0, 0) == Success((v, |Encode(v)|))
            else Parse(Encode(v) + rest, 0, 0).Failure?
  {
    var input := Encode(v) + rest;
    assert input[0..0 + |Encode(v)|] == Encode(v);
    ParseEncoded(input, 0, v, 0);
  }

  /** Hence no printed value is a prefix of another one. */
  lemma EncodingIsPrefixFree(v: BVal, rest: seq<byte>, w: BVal, rest': seq<byte>)
    requires Fits(v, 0) && Fits(w, 0) && |Encode(v) + rest| <= MAX_BENCODE_SIZE
    requires Encode(v) + rest == Encode(w) + rest'
    ensures v == w && rest == rest'
  {
    RoundTrip(v, rest);
    RoundTrip(w, rest');
    assert rest == (Encode(v) + rest)[|Encode(v)|..];
    assert rest' == (Encode(w) + rest')[|Encode(w)|..];
  }
}
