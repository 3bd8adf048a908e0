/** What the parser accepts on any input: exactly the readings of a value, which may differ from the printed
    value in signs and leading zeros only. */
module BencodeGrammar {
  import opened Wrappers
  import opened Bencode
  import opened BencodeRoundTrip

  /** `s` reads as `v` at nesting level `depth`, within the limits of the parser. */
  predicate Reads(s: seq<byte>, v: BVal, depth: nat)
    decreases v, 0
  {
    && depth <= MAX_BENCODE_DEPTH
    && match v
       case Int(n) => |s| >= 2 && s[0] == CHAR_I && ReadsInt(s[1..], n)
       case Bytes(b) => ReadsBytes(s, b)
       case List(items) =>
         && |s| >= 2 && s[0] == CHAR_L && s[|s| - 1] == CHAR_E
         && |items| <= MAX_ITEMS && ReadsAll(s[1..|s| - 1], items, depth + 1)
       case Dict(entries) =>
         && |s| >= 2 && s[0] == CHAR_D && s[|s| - 1] == CHAR_E
         && |entries| <= MAX_ITEMS && ReadsEntries(s[1..|s| - 1], entries, depth + 1)
  }

  /** Digit `k` of the number padded with zeros to `len` digits. */
  function PaddedDigit(n: nat, len: nat, k: nat): byte
    requires |DecNat(n)| <= len && k < len
  {
    var zeros := len - |DecNat(n)|;
    if k < zeros then CHAR_0 else DecNat(n)[k - zeros]
  }

  /** `s` is the number in decimal digits, with any number of zeros before them. */
  predicate IsPadded(s: seq<byte>, n: nat) {
    |DecNat(n)| <= |s| && forall k :: 0 <= k < |s| ==> s[k] == PaddedDigit(n, |s|, k)
  }

  /** A sign may come first; zero may have either. */
  predicate IsNumber(s: seq<byte>, n: int) {
    || (n >= 0 && IsPadded(s, n))
    || (n >= 0 && |s| > 0 && s[0] == CHAR_PLUS && IsPadded(s[1..], n))
    || (n <= 0 && |s| > 0 && s[0] == CHAR_MINUS && IsPadded(s[1..], -n))
  }

  /** A number of 64 bits in at most 20 characters, and the terminator. */
  predicate ReadsInt(s: seq<byte>, n: int) {
    && 0 < |s| <= MAX_INT_LEN + 1 && s[|s| - 1] == CHAR_E
    && IsNumber(s[..|s| - 1], n) && -I64_LIMIT <= n < I64_LIMIT
  }

  /** The length in at most 10 digits, a colon, and the bytes. */
  predicate ReadsBytes(s: seq<byte>, b: seq<byte>) {
    var k := |s| - |b| - 1;
    && 0 < k <= MAX_LEN_DIGITS && |b| <= MAX_BYTE_STRING_SIZE
    && IsPadded(s[..k], |b|) && s[k] == CHAR_COLON && s[k + 1..] == b
  }

  predicate ReadsAll(s: seq<byte>, items: seq<BVal>, depth: nat)
    decreases items, 1
  {
    if |items| == 0 then s == []
    else exists k :: 0 <= k <= |s| && Reads(s[..k], items[0], depth) && ReadsAll(s[k..], items[1..], depth)
  }

  predicate ReadsEntries(s: seq<byte>, entries: seq<Entry>, depth: nat)
    decreases entries, 1
  {
    if |entries| == 0 then s == []
    else
      exists j, k ::
        0 <= j <= k <= |s| && ReadsEntry(s, j, k, entries[0], depth) && ReadsEntries(s[k..], entries[1..], depth)
  }

  predicate ReadsEntry(s: seq<byte>, j: nat, k: nat, e: Entry, depth: nat)
    requires j <= k <= |s|
    decreases e, 1
  {
    depth <= MAX_BENCODE_DEPTH && ReadsBytes(s[..j], e.key) && Reads(s[j..k], e.value, depth)
  }

  // ---------- numbers ----------

  /** The last digit of a padded number, and the number before it. */
  lemma PaddedStep(s: seq<byte>, n: nat)
    requires |s| > 1
    ensures IsPadded(s, n) <==> s[|s| - 1] == CHAR_0 + n % 10 && IsPadded(s[..|s| - 1], n / 10)
  {
    hide PaddedDigit; hide DecNat;
    var front, last := s[..|s| - 1], s[|s| - 1];
    PaddedShorter(n, |s|);
    assert forall k :: 0 <= k < |front| ==> front[k] == s[k];
    if IsPadded(s, n) {
      assert forall k :: 0 <= k < |front| ==> front[k] == PaddedDigit(n, |s|, k);
    }
    if |DecNat(n)| <= |s| && last == CHAR_0 + n % 10 && IsPadded(front, n / 10) {
      assert forall k :: 0 <= k < |s| ==> s[k] == if k == |s| - 1 then last else front[k];
    }
  }

  lemma PaddedShorter(n: nat, len: nat)
    requires len > 1
    ensures |DecNat(n)| <= len <==> |DecNat(n / 10)| <= len - 1
    ensures |DecNat(n)| <= len ==>
              && PaddedDigit(n, len, len - 1) == CHAR_0 + n % 10
              && forall k :: 0 <= k < len - 1 ==> PaddedDigit(n, len, k) == PaddedDigit(n / 10, len - 1, k)
  {
    hide DecNat;
    DecNatDigits(n / 10);
    DecNatCases(n);
    DecNatCases(0);
  }

  lemma DecNatCases(n: nat)
    ensures if n < 10 then n / 10 == 0 && DecNat(n) == [CHAR_0 + n % 10]
            else DecNat(n) == DecNat(n / 10) + [CHAR_0 + n % 10]
  {
  }

  lemma {:induction false} PaddedIs(s: seq<byte>, n: nat)
    ensures IsPadded(s, n) <==> |s| > 0 && AllDigits(s) && DigitsValue(s) == n
  {
    DecNatDigits(n);
    if |s| == 1 {
      DecNatDigits(n / 10);
      assert n >= 10 ==> |DecNat(n)| > 1;
      assert s[0..] == s && DigitsValue(s[..0]) == 0;
    } else if |s| > 1 {
      var front, last := s[..|s| - 1], s[|s| - 1];
      PaddedStep(s, n);
      PaddedIs(front, n / 10);
      assert AllDigits(s) <==> AllDigits(front) && IsDigit(last) by {
        assert s == front + [last];
      }
    }
  }

  lemma ParseI64Is(s: seq<byte>, n: int)
    ensures ParseI64(s) == Some(n) <==> IsNumber(s, n) && -I64_LIMIT <= n < I64_LIMIT
  {
    hide IsPadded; hide AllDigits; hide DigitsValue;
    if n >= 0 {
      PaddedIs(s, n);
    }
    NoSignInDigits(s);
    if |s| > 0 {
      if n >= 0 { PaddedIs(s[1..], n); }
      if n <= 0 { PaddedIs(s[1..], -n); }
    }
  }

  lemma NoSignInDigits(s: seq<byte>)
    ensures |s| > 0 && AllDigits(s) ==> s[0] != CHAR_PLUS && s[0] != CHAR_MINUS
  {
  }

  lemma ParseUsizeIs(s: seq<byte>, n: nat)
    requires |s| > 0 && IsDigit(s[0])
    ensures ParseUsize(s) == Some(n) <==> IsPadded(s, n) && n < U64_LIMIT
  {
    hide IsPadded;
    PaddedIs(s, n);
  }

  // ---------- what is parsed is read ----------

  lemma {:induction false} ScanStops(input: seq<byte>, i: nat, stop: byte, budget: nat)
    requires i <= |input|
    ensures var j := Scan(input, i, stop, budget);
            && (forall k :: i <= k < j ==> input[k] != stop)
            && (j == |input| || input[j] == stop || j - i == budget)
    decreases |input| - i
  {
    if i < |input| && input[i] != stop && budget > 0 {
      ScanStops(input, i + 1, stop, budget - 1);
    }
  }

  lemma IntIsRead(input: seq<byte>, i: nat)
    requires i <= |input| && ParseInt(input, i).Success?
    ensures var (v, j) := ParseInt(input, i).value;
            v.Int? && i < j <= |input| && ReadsInt(input[i..j], v.i)
  {
    hide ParseI64; hide IsNumber; hide Scan;
    var j := Scan(input, i, CHAR_E, MAX_INT_LEN);
    ScanStops(input, i, CHAR_E, MAX_INT_LEN);
    assert input[i..j + 1][..j - i] == input[i..j];
    ParseI64Is(input[i..j], ParseInt(input, i).value.0.i);
  }

  lemma BytesAreRead(input: seq<byte>, i: nat)
    requires i < |input| && IsDigit(input[i]) && ParseBytes(input, i).Success?
    ensures var (v, j) := ParseBytes(input, i).value;
            v.Bytes? && i < j <= |input| && ReadsBytes(input[i..j], v.b)
  {
    hide ParseUsize; hide IsPadded;
    var j := Scan(input, i, CHAR_COLON, MAX_LEN_DIGITS);
    ScanStops(input, i, CHAR_COLON, MAX_LEN_DIGITS);
    var (v, end) := ParseBytes(input, i).value;
    var s := input[i..end];
    assert s[..j - i] == input[i..j];
    assert s[j - i + 1..] == v.b;
    assert j > i;
    ParseUsizeIs(input[i..j], |v.b|);
  }

  lemma {:induction false} ParsedIsRead(input: seq<byte>, i: nat, depth: nat)
    requires Parse(input, i, depth).Success?
    ensures var (v, j) := Parse(input, i, depth).value;
            i < j <= |input| && Reads(input[i..j], v, depth)
    decreases |input| - i, 0
  {
    hide ParseInt; hide ParseBytes; hide ReadsInt; hide ReadsBytes; hide ReadsAll; hide ReadsEntries;
    var (v, j) := Parse(input, i, depth).value;
    if input[i] == CHAR_I {
      IntIsRead(input, i + 1);
      WithoutEnds(input, i, j);
    } else if input[i] == CHAR_L {
      ItemsAreRead(input, i + 1, depth, 0);
      WithoutEnds(input, i, j);
    } else if input[i] == CHAR_D {
      EntriesAreRead(input, i + 1, depth, 0);
      WithoutEnds(input, i, j);
    } else {
      BytesAreRead(input, i);
    }
  }

  lemma WithoutEnds(input: seq<byte>, i: nat, j: nat)
    requires i + 1 < j <= |input|
    ensures var s := input[i..j];
            && s[0] == input[i] && s[|s| - 1] == input[j - 1]
            && s[1..] == input[i + 1..j] && s[1..|s| - 1] == input[i + 1..j - 1]
  {
    var s := input[i..j];
    assert s[1..] == input[i + 1..j];
    var body := s[1..|s| - 1];
    assert |body| == j - 1 - (i + 1) && forall k :: 0 <= k < |body| ==> body[k] == s[k + 1] == input[i + 1 + k];
    assert body == input[i + 1..j - 1];
  }

  lemma {:induction false} ItemsAreRead(input: seq<byte>, i: nat, depth: nat, count: nat)
    requires ParseItems(input, i, depth, count).Success? && count <= MAX_ITEMS
    ensures var (items, j) := ParseItems(input, i, depth, count).value;
            && i <= j < |input| && input[j] == CHAR_E
            && count + |items| <= MAX_ITEMS && ReadsAll(input[i..j], items, depth + 1)
    decreases |input| - i, 1
  {
    hide Parse; hide Reads;
    var (items, j) := ParseItems(input, i, depth, count).value;
    if input[i] != CHAR_E {
      var (v, next) := Parse(input, i, depth + 1).value;
      ParsedIsRead(input, i, depth + 1);
      ItemsAreRead(input, next, depth, count + 1);
      var s, k := input[i..j], next - i;
      assert s[..k] == input[i..next] && s[k..] == input[next..j];
      assert items[0] == v && items[1..] == ParseItems(input, next, depth, count + 1).value.0;
    }
  }

  lemma {:induction false} EntriesAreRead(input: seq<byte>, i: nat, depth: nat, count: nat)
    requires ParseEntries(input, i, depth, count).Success? && count <= MAX_ITEMS
    ensures var (entries, j) := ParseEntries(input, i, depth, count).value;
            && i <= j < |input| && input[j] == CHAR_E
            && count + |entries| <= MAX_ITEMS && ReadsEntries(input[i..j], entries, depth + 1)
    decreases |input| - i, 1
  {
    hide Parse; hide Reads; hide ReadsBytes;
    var (entries, j) := ParseEntries(input, i, depth, count).value;
    if input[i] != CHAR_E {
      var (key, afterKey) := Parse(input, i, depth + 1).value;
      KeyIsRead(input, i, depth + 1);
      var (v, next) := Parse(input, afterKey, depth + 1).value;
      ParsedIsRead(input, afterKey, depth + 1);
      EntriesAreRead(input, next, depth, count + 1);
      var s, m, k := input[i..j], afterKey - i, next - i;
      assert s[..m] == input[i..afterKey] && s[m..k] == input[afterKey..next] && s[k..] == input[next..j];
      assert entries[0] == Entry(key.b, v) && entries[1..] == ParseEntries(input, next, depth, count + 1).value.0;
      assert ReadsEntry(s, m, k, entries[0], depth + 1);
    }
  }

  lemma KeyIsRead(input: seq<byte>, i: nat, depth: nat)
    requires Parse(input, i, depth).Success? && Parse(input, i, depth).value.0.Bytes?
    ensures var (v, j) := Parse(input, i, depth).value;
            depth <= MAX_BENCODE_DEPTH && i < j <= |input| && ReadsBytes(input[i..j], v.b)
  {
    hide ParseBytes; hide ParseInt; hide ReadsBytes;
    BytesAreRead(input, i);
  }

  // ---------- what reads as a value is parsed as it ----------

  lemma DigitsOnly(s: seq<byte>)
    requires ParseI64(s).Some? || ParseUsize(s).Some?
    ensures CHAR_E !in s && CHAR_COLON !in s && |s| > 0
  {
    var signed := |s| > 0 && (s[0] == CHAR_PLUS || s[0] == CHAR_MINUS);
    forall c | c in s ensures c != CHAR_E && c != CHAR_COLON {
      var k :| 0 <= k < |s| && s[k] == c;
      if k > 0 { assert s[1..][k - 1] == c; }
    }
  }

  lemma IntReadingParses(input: seq<byte>, i: nat, s: seq<byte>, n: int)
    requires At(input, i, s) && ReadsInt(s, n)
    ensures ParseInt(input, i) == Success((Int(n), i + |s|))
  {
    hide ParseI64; hide Scan; hide IsNumber;
    AtEach(input, i, s);
    var k := |s| - 1;
    ParseI64Is(s[..k], n);
    DigitsOnly(s[..k]);
    forall m | i <= m < i + k ensures input[m] != CHAR_E {
      assert input[i + (m - i)] == s[m - i] && s[..k][m - i] == s[m - i];
    }
    assert input[i + k] == s[k];
    ScanIs(input, i, CHAR_E, MAX_INT_LEN, i + k);
    assert input[i..i + k] == s[..k];
  }

  /** A string starts with a digit. */
  lemma LengthIsRead(s: seq<byte>, b: seq<byte>)
    requires ReadsBytes(s, b)
    ensures |s| > |b| && IsDigit(s[0]) && ParseUsize(s[..|s| - |b| - 1]) == Some(|b|)
  {
    hide IsPadded; hide ParseUsize;
    var k := |s| - |b| - 1;
    PaddedIs(s[..k], |b|);
    assert s[..k][0] == s[0];
    ParseUsizeIs(s[..k], |b|);
  }

  lemma BytesReadingParses(input: seq<byte>, i: nat, s: seq<byte>, b: seq<byte>)
    requires At(input, i, s) && ReadsBytes(s, b)
    ensures IsDigit(s[0]) && ParseBytes(input, i) == Success((Bytes(b), i + |s|))
  {
    hide ParseUsize; hide Scan; hide IsPadded;
    AtEach(input, i, s);
    var k := |s| - |b| - 1;
    LengthIsRead(s, b);
    DigitsOnly(s[..k]);
    forall m | i <= m < i + k ensures input[m] != CHAR_COLON {
      assert input[i + (m - i)] == s[m - i] && s[..k][m - i] == s[m - i];
    }
    assert input[i + k] == s[k];
    ScanIs(input, i, CHAR_COLON, MAX_LEN_DIGITS, i + k);
    assert input[i..i + k] == s[..k];
    assert input[i + k + 1..i + |s|] == s[k + 1..];
  }

  /** A reading starts with the byte that tells its kind. */
  lemma ReadingHead(s: seq<byte>, v: BVal, depth: nat)
    requires Reads(s, v, depth)
    ensures |s| > 0 && s[0] != CHAR_E
    ensures v.Int? <==> s[0] == CHAR_I
    ensures v.List? <==> s[0] == CHAR_L
    ensures v.Dict? <==> s[0] == CHAR_D
    ensures v.Bytes? <==> IsDigit(s[0])
  {
    hide ReadsAll; hide ReadsEntries; hide ReadsInt; hide ReadsBytes;
    if v.Bytes? {
      LengthIsRead(s, v.b);
    }
  }

  lemma {:induction false} ReadingParses(input: seq<byte>, i: nat, s: seq<byte>, v: BVal, depth: nat)
    requires |input| <= MAX_BENCODE_SIZE && At(input, i, s) && Reads(s, v, depth)
    ensures Parse(input, i, depth) == Success((v, i + |s|))
    decreases v, 0
  {
    hide ParseInt; hide ParseBytes; hide ParseItems; hide ParseEntries; hide ReadsInt; hide ReadsBytes; hide ReadsAll;
    hide ReadsEntries;
    ReadingHead(s, v, depth);
    AtEach(input, i, s);
    assert input[i + 0] == s[0];
    match v
    case Int(n) =>
      assert s == s[..1] + s[1..];
      AtSplit(input, i, s[..1], s[1..]);
      IntReadingParses(input, i + 1, s[1..], n);
    case Bytes(b) =>
      BytesReadingParses(input, i, s, b);
    case List(items) =>
      Bracketed(input, i, s);
      ItemsReadingParses(input, i + 1, s[1..|s| - 1], items, depth, 0);
    case Dict(entries) =>
      Bracketed(input, i, s);
      EntriesReadingParses(input, i + 1, s[1..|s| - 1], entries, depth, 0);
  }

  lemma Bracketed(input: seq<byte>, i: nat, s: seq<byte>)
    requires At(input, i, s) && |s| >= 2 && s[|s| - 1] == CHAR_E
    ensures At(input, i + 1, s[1..|s| - 1]) && i + |s| <= |input| && input[i + |s| - 1] == CHAR_E
  {
    var body := s[1..|s| - 1];
    assert s == s[..1] + (body + [CHAR_E]);
    AtSplit(input, i, s[..1], body + [CHAR_E]);
    AtSplit(input, i + 1, body, [CHAR_E]);
    AtEach(input, i, s);
    assert input[i + (|s| - 1)] == s[|s| - 1];
  }

  lemma {:induction false} ItemsReadingParses(input: seq<byte>, i: nat, s: seq<byte>, items: seq<BVal>, depth: nat,
                                              count: nat)
    requires |input| <= MAX_BENCODE_SIZE && At(input, i, s) && i + |s| < |input| && input[i + |s|] == CHAR_E
    requires ReadsAll(s, items, depth + 1) && count + |items| <= MAX_ITEMS
    ensures ParseItems(input, i, depth, count) == Success((items, i + |s|))
    decreases items, 1
  {
    hide Parse; hide Reads; hide At;
    if |items| > 0 {
      var k :| 0 <= k <= |s| && Reads(s[..k], items[0], depth + 1) && ReadsAll(s[k..], items[1..], depth + 1);
      assert s == s[..k] + s[k..];
      AtSplit(input, i, s[..k], s[k..]);
      HeadAt(input, i, s[..k], items[0], depth + 1);
      ReadingParses(input, i, s[..k], items[0], depth + 1);
      ItemsReadingParses(input, i + k, s[k..], items[1..], depth, count + 1);
      assert items == [items[0]] + items[1..];
    }
  }

  lemma HeadAt(input: seq<byte>, i: nat, s: seq<byte>, v: BVal, depth: nat)
    requires At(input, i, s) && Reads(s, v, depth)
    ensures i < |input| && input[i] != CHAR_E
  {
    hide Reads;
    ReadingHead(s, v, depth);
    AtEach(input, i, s);
    assert input[i + 0] == s[0];
  }

  lemma {:induction false} EntriesReadingParses(input: seq<byte>, i: nat, s: seq<byte>, entries: seq<Entry>,
                                                depth: nat, count: nat)
    requires |input| <= MAX_BENCODE_SIZE && At(input, i, s) && i + |s| < |input| && input[i + |s|] == CHAR_E
    requires ReadsEntries(s, entries, depth + 1) && count + |entries| <= MAX_ITEMS
    ensures ParseEntries(input, i, depth, count) == Success((entries, i + |s|))
    decreases entries, 1
  {
    hide Parse; hide ReadsEntry; hide At;
    if |entries| > 0 {
      var e := entries[0];
      var j, k :| 0 <= j <= k <= |s| && ReadsEntry(s, j, k, e, depth + 1) &&
        ReadsEntries(s[k..], entries[1..], depth + 1);
      EntryReadingParses(input, i, s, j, k, e, depth + 1);
      EntriesReadingParses(input, i + k, s[k..], entries[1..], depth, count + 1);
      assert entries == [Entry(e.key, e.value)] + entries[1..];
    }
  }

  lemma {:induction false} EntryReadingParses(input: seq<byte>, i: nat, s: seq<byte>, j: nat, k: nat, e: Entry,
                                              depth: nat)
    requires |input| <= MAX_BENCODE_SIZE && At(input, i, s) && j <= k <= |s| && ReadsEntry(s, j, k, e, depth)
    ensures Parse(input, i, depth) == Success((Bytes(e.key), i + j)) && i < |input| && input[i] != CHAR_E
    ensures Parse(input, i + j, depth) == Success((e.value, i + k))
    ensures At(input, i + k, s[k..])
    decreases e, 1
  {
    hide Parse; hide Reads; hide ReadsBytes; hide At;
    assert s == s[..j] + (s[j..k] + s[k..]);
    AtSplit(input, i, s[..j], s[j..k] + s[k..]);
    AtSplit(input, i + j, s[j..k], s[k..]);
    KeyReadingParses(input, i, s[..j], e.key, depth);
    ReadingParses(input, i + j, s[j..k], e.value, depth);
  }

  lemma KeyReadingParses(input: seq<byte>, i: nat, s: seq<byte>, key: seq<byte>, depth: nat)
    requires |input| <= MAX_BENCODE_SIZE && At(input, i, s) && ReadsBytes(s, key) && depth <= MAX_BENCODE_DEPTH
    ensures Parse(input, i, depth) == Success((Bytes(key), i + |s|)) && input[i] != CHAR_E
  {
    hide ParseBytes; hide ReadsBytes;
    BytesReadingParses(input, i, s, key);
    assert |s| > 0 by { ReadingHead(s, Bytes(key), 0); }
    AtEach(input, i, s);
    assert input[i + 0] == s[0];
  }

  /** On every input: parsing succeeds with value `v` and end `j` if and only if the bytes from `i` to `j` read
      as `v`. So the value is determined by these bytes alone, wherever they stand. */
  lemma ParseIsReading(input: seq<byte>, i: nat, depth: nat, v: BVal, j: nat)
    requires |input| <= MAX_BENCODE_SIZE
    ensures Parse(input, i, depth) == Success((v, j)) <==> i < j <= |input| && Reads(input[i..j], v, depth)
  {
    hide Parse; hide Reads;
    if Parse(input, i, depth) == Success((v, j)) {
      ParsedIsRead(input, i, depth);
    } else if i < j <= |input| && Reads(input[i..j], v, depth) {
      ReadingParses(input, i, input[i..j], v, depth);
    }
  }

  /** Hence what has been parsed once parses the same in any other surroundings. */
  lemma ParsingIsLocal(input: seq<byte>, i: nat, depth: nat, v: BVal, j: nat, other: seq<byte>, k: nat)
    requires Parse(input, i, depth) == Success((v, j))
    requires |other| <= MAX_BENCODE_SIZE && At(other, k, input[i..j])
    ensures Parse(other, k, depth) == Success((v, k + (j - i)))
  {
    hide Parse; hide Reads;
    ParsedIsRead(input, i, depth);
    ReadingParses(other, k, input[i..j], v, depth);
  }

  /** The printed form of a value is one of its readings. */
  lemma PrintedIsReading(v: BVal)
    requires Fits(v, 0) && |Encode(v)| <= MAX_BENCODE_SIZE
    ensures Reads(Encode(v), v, 0)
  {
    hide Parse; hide Reads;
    var input := Encode(v);
    RoundTrip(v, []);
    assert input + [] == input && input[0..|input|] == input;
    ParsedIsRead(input, 0, 0);
  }
}
