/** The growable socket buffer that cuts a byte stream into peer messages (peer messages are
    defined in BEP 3). */
module ReadBuffer {
  import opened Wrappers

  /** What a deserializer says about the bytes it is shown. */
  datatype Deserialized<+M> = Message(msg: M, size: nat) | NotEnoughData(need: nat) | Malformed

  type Deserializer<!M> = seq<byte> -> Deserialized<M>

  /** More bytes never change a verdict other than "not enough data"; messages are not empty and lie
      inside the bytes; at least one byte is asked for. */
  ghost predicate PrefixStable<M(!new)>(d: Deserializer<M>) {
    && (forall s, t {:trigger d(s + t)} :: !d(s).NotEnoughData? ==> d(s + t) == d(s))
    && (forall s {:trigger d(s)} :: d(s).Message? ==> 0 < d(s).size <= |s|)
    && (forall s {:trigger d(s)} :: d(s).NotEnoughData? ==> d(s).need > 0)
  }

  /** `ReadFailed` is a timeout or an error of the connection. */
  datatype ReadResult<+M> = Got(msg: M) | DeserializeError | Disconnected | ReadFailed

  /** What reading one message from the unparsed stream `s` returns, and the stream after it. A read can only
      fail while what has arrived is not enough. */
  ghost predicate ReadStep<M(!new)>(d: Deserializer<M>, s: seq<byte>, r: ReadResult<M>, s': seq<byte>)
    requires PrefixStable(d)
  {
    if r.ReadFailed? then s' == s && exists k :: 0 <= k <= |s| && d(s[..k]).NotEnoughData?
    else match d(s)
      case Message(m, k) => r == Got(m) && s' == s[k..]
      case Malformed => r == DeserializeError && s' == s
      case NotEnoughData(_) => r == Disconnected && s' == s
  }

  /** A connection delivers its bytes in pieces of any size, and an empty piece at the end. A read may fail. */
  class Connection {
    var incoming: seq<byte>
    /** How many reads have failed. */
    ghost var failures: nat

    constructor (incoming: seq<byte>)
      ensures this.incoming == incoming && failures == 0
    {
      this.incoming := incoming;
      this.failures := 0;
    }

    method Read(room: nat) returns (r: Option<seq<byte>>)
      requires room > 0
      modifies this
      ensures failures == old(failures) + if r.None? then 1 else 0
      ensures r.None? ==> incoming == old(incoming)
      ensures r.Some? ==> |r.value| <= room && r.value + incoming == old(incoming)
      ensures r.Some? ==> (r.value == [] <==> old(incoming) == [])
    {
      var fails: bool := *;
      if fails {
        failures := failures + 1;
        return None;
      }
      var n: nat :| n <= room && n <= |incoming| && (n == 0 ==> |incoming| == 0);
      r := Some(incoming[..n]);
      incoming := incoming[n..];
    }
  }

  class ReadBuf {
    var buf: seq<byte>
    var filled: nat
    var processed: nat

    ghost predicate Valid()
      reads this
    {
      processed <= filled <= |buf|
    }

    /** Bytes read from the connection but not yet deserialized. */
    ghost function Unparsed(): seq<byte>
      requires Valid()
      reads this
    {
      buf[processed..filled]
    }

    constructor (initialSize: nat)
      ensures Valid() && Unparsed() == [] && |buf| == initialSize && filled == 0
    {
      buf := seq(initialSize, _ => 0);
      filled, processed := 0, 0;
    }

    /** Move the unparsed bytes to the front and make room for more. How much a growing vector
        reserves beyond what was asked for is left open. */
    method PrepareForRead(needAdditionalBytes: nat)
      requires Valid()
      modifies this
      ensures Valid() && processed == 0 && Unparsed() == old(Unparsed())
      ensures |buf| >= filled + needAdditionalBytes && |buf| >= old(|buf|)
    {
      if processed > 0 {
        if filled > processed {
          buf := buf[processed..filled] + buf[filled - processed..];
        }
        filled := filled - processed;
        processed := 0;
      }
      if |buf| < filled + needAdditionalBytes {
        var capacity: nat :| capacity >= |buf| + needAdditionalBytes;
        buf := buf + seq(capacity - |buf|, _ => 0);
      }
    }

    /** The handshake must come first and must arrive in a single read, of `n` bytes. */
    method ReadHandshake<H(!new)>(conn: Connection, d: Deserializer<H>) returns (r: ReadResult<H>, n: nat)
      requires Valid() && filled == 0 && |buf| > 0 && PrefixStable(d)
      modifies this, conn
      ensures Valid() && n <= |old(conn.incoming)| && n <= |buf| == old(|buf|)
      ensures conn.failures == old(conn.failures) + if r.ReadFailed? then 1 else 0
      ensures r.ReadFailed? ==> n == 0 && conn.incoming == old(conn.incoming) && filled == 0
      ensures !r.ReadFailed? ==> (n == 0 <==> old(conn.incoming) == [])
      ensures !r.ReadFailed? ==>
                match d(old(conn.incoming)[..n])
                case Message(h, k) =>
                  if n == 0 then r == Disconnected
                  else r == Got(h) && Unparsed() + conn.incoming == old(conn.incoming)[k..]
                case _ => r == if n > 0 then DeserializeError else Disconnected
    {
      var got := conn.Read(|buf|);
      if got.None? {
        return ReadFailed, 0;
      }
      var bytes := got.value;
      n := |bytes|;
      assert bytes == old(conn.incoming)[..n];
      buf := bytes + buf[n..];
      filled := n;
      if n == 0 {
        return Disconnected, n;
      }
      assert buf[..filled] == bytes;
      match d(buf[..filled])
      case Message(h, k) =>
        processed := k;
        assert Unparsed() + conn.incoming == old(conn.incoming)[k..];
        return Got(h), n;
      case NotEnoughData(_) =>
        return DeserializeError, n;
      case Malformed =>
        return DeserializeError, n;
    }

    /** Read once into the room behind the unparsed bytes. How many bytes came, if the read did not fail. */
    method Fill(conn: Connection, need: nat) returns (size: Option<nat>)
      requires Valid() && need > 0
      modifies this, conn
      ensures Valid() && Unparsed() + conn.incoming == old(Unparsed() + conn.incoming)
      ensures conn.failures == old(conn.failures) + if size.None? then 1 else 0
      ensures size.Some? ==> |conn.incoming| + size.value == |old(conn.incoming)|
      ensures size == Some(0) ==> conn.incoming == []
      ensures size == None || size == Some(0) ==> Unparsed() == old(Unparsed())
      ensures old(Unparsed()) <= Unparsed()
    {
      PrepareForRead(need);
      assert |buf| > filled;  // there is always room for the read
      ghost var shown, before := Unparsed(), conn.incoming;
      var got := conn.Read(|buf| - filled);
      if got.None? {
        return None;
      }
      var bytes := got.value;
      assert |before| == |bytes| + |conn.incoming|;
      buf := buf[..filled] + bytes + buf[filled + |bytes|..];
      filled := filled + |bytes|;
      assert Unparsed() == shown + bytes;
      assert shown + bytes + conn.incoming == shown + before;
      return Some(|bytes|);
    }

    /** Return the next message of the stream, reading as often as needed, but not at all if it is there already.
        Together with the connection the buffer holds the stream that is still unparsed. `ReadFailed` is returned if
        and only if a read failed, and what has arrived is not enough then; so while reads do not fail, the result
        is what the deserializer says about the whole stream. */
    method ReadMessage<M(!new)>(conn: Connection, d: Deserializer<M>) returns (r: ReadResult<M>)
      requires Valid() && PrefixStable(d)
      modifies this, conn
      ensures Valid()
      ensures ReadStep(d, old(Unparsed() + conn.incoming), r, Unparsed() + conn.incoming)
      ensures conn.failures == old(conn.failures) + if r.ReadFailed? then 1 else 0
      ensures r.ReadFailed? ==> d(Unparsed()).NotEnoughData? && old(Unparsed()) <= Unparsed()
      ensures !d(old(Unparsed())).NotEnoughData? ==> conn.incoming == old(conn.incoming)
      ensures r.Disconnected? ==> conn.incoming == []
    {
      ghost var stream := Unparsed() + conn.incoming;
      while true
        invariant Valid() && Unparsed() + conn.incoming == stream && conn.failures == old(conn.failures)
        invariant old(Unparsed()) <= Unparsed()
        invariant !d(old(Unparsed())).NotEnoughData? ==>
                    Unparsed() == old(Unparsed()) && conn.incoming == old(conn.incoming)
        decreases |conn.incoming|
      {
        var shown := buf[processed..filled];
        assert stream == shown + conn.incoming;
        assert !d(shown).NotEnoughData? ==> d(stream) == d(shown) by { assert d(shown + conn.incoming) == d(stream); }
        if d(shown).Message? {
          processed := processed + d(shown).size;
          assert Unparsed() + conn.incoming == stream[d(shown).size..];
          return Got(d(shown).msg);
        } else if d(shown).Malformed? {
          return DeserializeError;
        }
        assert stream[..|shown|] == shown;
        var size := Fill(conn, d(shown).need);
        if size.None? {
          return ReadFailed;
        }
        if size == Some(0) {
          assert shown + [] == shown;
          return Disconnected;
        }
      }
    }
  }

  // ---------- runs ----------

  /** The messages a stream contains, cut off one after the other. */
  ghost function Greedy<M(!new)>(d: Deserializer<M>, s: seq<byte>): seq<M>
    requires PrefixStable(d)
    decreases |s|
  {
    match d(s)
    case Message(m, k) => [m] + Greedy(d, s[k..])
    case _ => []
  }

  /** A run of reads: every result follows from the stream before it. */
  ghost predicate ReadRun<M(!new)>(d: Deserializer<M>, streams: seq<seq<byte>>, results: seq<ReadResult<M>>)
    requires PrefixStable(d)
  {
    && |streams| == |results| + 1
    && forall i :: 0 <= i < |results| ==> ReadStep(d, streams[i], results[i], streams[i + 1])
  }

  /** The messages returned before the first error or disconnection. Reads that failed are tried again. */
  function Messages<M>(results: seq<ReadResult<M>>): seq<M> {
    if |results| == 0 then []
    else match results[0]
      case Got(m) => [m] + Messages(results[1..])
      case ReadFailed => Messages(results[1..])
      case _ => []
  }

  predicate Ends<M>(r: ReadResult<M>) {
    r.DeserializeError? || r.Disconnected?
  }

  /** How many reads did not fail. */
  function Answered<M>(results: seq<ReadResult<M>>): nat {
    if |results| == 0 then 0 else (if results[0].ReadFailed? then 0 else 1) + Answered(results[1..])
  }

  /** Framing does not depend on how the network cut or delayed the stream: reads return the messages of the greedy
      parse of the whole stream, one for each read that does not fail, until there are no more. */
  lemma {:induction false} RunIsGreedyParse<M(!new)>(d: Deserializer<M>, streams: seq<seq<byte>>,
                                              results: seq<ReadResult<M>>)
    requires PrefixStable(d) && ReadRun(d, streams, results)
    ensures Messages(results) <= Greedy(d, streams[0])
    ensures Answered(results) <= |Greedy(d, streams[0])| ==> |Messages(results)| == Answered(results)
    ensures Answered(results) >= |Greedy(d, streams[0])| ==> Messages(results) == Greedy(d, streams[0])
    ensures |results| > 0 && Ends(results[|results| - 1]) ==> Messages(results) == Greedy(d, streams[0])
    decreases |results|
  {
    if |results| > 0 {
      assert ReadStep(d, streams[0], results[0], streams[1]);
      forall i | 0 <= i < |results| - 1 ensures ReadStep(d, streams[1..][i], results[1..][i], streams[1..][i + 1]) {
        assert ReadStep(d, streams[i + 1], results[i + 1], streams[i + 2]);
      }
      RunIsGreedyParse(d, streams[1..], results[1..]);
    }
  }

  /** Messages found in a part of the stream stay the first messages however it continues. */
  lemma {:induction false} GreedyIsPrefix<M(!new)>(d: Deserializer<M>, s: seq<byte>, t: seq<byte>)
    requires PrefixStable(d)
    ensures Greedy(d, s) <= Greedy(d, s + t)
    decreases |s|
  {
    if d(s).Message? {
      assert d(s + t) == d(s);
      assert (s + t)[d(s).size..] == s[d(s).size..] + t;
      GreedyIsPrefix(d, s[d(s).size..], t);
    }
  }
}
