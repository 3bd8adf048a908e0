/** Which pieces the write-through cache holds: the ones accessed most recently. */
module CacheOrder {
  import opened TorrentLengths
  import opened Wrappers
  import opened FileSpace
  import opened WriteThroughCache

  /** The pieces of the entries, most recently used first. */
  function Pieces(lru: seq<Entry>): (ps: seq<nat>)
    ensures |ps| == |lru|
  {
    seq(|lru|, i requires 0 <= i < |lru| => lru[i].piece)
  }

  /** The piece that an operation accesses: that of a write, or of a read if it is cached. */
  function Accessed(c: Config, s: State, op: Op): Option<nat>
    requires c.Valid()
  {
    if op.fileId >= |c.fileInfos| then None
    else match PieceAndOffset(c, op.fileId, op.offset)
      case None => None
      case Some((p, _)) => if op.Write? || p in Pieces(s.lru) then Some(p) else None
  }

  /** The pieces accessed by the first `i` operations of a run. */
  function Accesses(c: Config, trace: seq<State>, ops: seq<Op>, i: nat): seq<nat>
    requires c.Valid() && i <= |ops| <= |trace|
  {
    if i == 0 then []
    else match Accessed(c, trace[i - 1], ops[i - 1])
      case None => Accesses(c, trace, ops, i - 1)
      case Some(p) => Accesses(c, trace, ops, i - 1) + [p]
  }

  /** When piece `p` was last accessed, counting from 1; 0 if never. */
  function LastUse(h: seq<nat>, p: nat): (n: nat)
    ensures n <= |h| && (n > 0 ==> h[n - 1] == p) && forall j :: n <= j < |h| ==> h[j] != p
  {
    if |h| == 0 then 0 else if h[|h| - 1] == p then |h| else LastUse(h[..|h| - 1], p)
  }

  /** What an access does to the order: the piece comes first and the others keep their order; if it was not cached,
      the last one of a full cache is dropped. */
  ghost predicate ComesFirst(capacity: nat, ps: seq<nat>, p: nat, ps': seq<nat>)
    requires capacity > 0
  {
    if p in ps then exists i :: 0 <= i < |ps| && ps[i] == p && ps' == [p] + ps[..i] + ps[i + 1..]
    else ps' == [p] + ps[..Min(|ps|, capacity - 1)]
  }

  /** What a read or a write does to the order: nothing if it accesses no piece, in particular a read of a piece that
      is not cached; otherwise that piece comes first. */
  lemma OrderAfter(c: Config, s: State, op: Op)
    requires c.Valid() && |s.files| == |c.fileInfos| && Possible(op)
    ensures match Accessed(c, s, op)
            case None => After(c, s, op).lru == s.lru
            case Some(p) => ComesFirst(c.capacity, Pieces(s.lru), p, Pieces(After(c, s, op).lru))
  {
    hide PieceAndOffset; hide Find; hide Written; hide Overwrite; hide Marked; hide Lengths.PieceLen;
    if op.fileId < |c.fileInfos| && PieceAndOffset(c, op.fileId, op.offset).Some? {
      var (p, start) := PieceAndOffset(c, op.fileId, op.offset).value;
      var ps, i := Pieces(s.lru), Find(s.lru, p);
      if i < |s.lru| {
        assert ps[i] == p;
        TouchPieces(s.lru, i);
      } else {
        assert p !in ps;
        if op.Write? {
          var kept, zeros := s.lru[..Min(|s.lru|, c.capacity - 1)], seq(c.lengths.PieceLen(p), _ => 0);
          assert Enter(c, s, p).lru == [Entry(p, zeros)] + kept;
          assert Pieces(Enter(c, s, p).lru) == [p] + ps[..Min(|ps|, c.capacity - 1)];
        }
      }
      if op.Write? {
        var t, u := Enter(c, s, p), After(c, s, op);
        assert |u.lru| == |t.lru| && forall k :: 0 <= k < |t.lru| ==> u.lru[k].piece == t.lru[k].piece;
        assert Pieces(u.lru) == Pieces(t.lru);
      }
    }
  }

  lemma TouchPieces(lru: seq<Entry>, i: nat)
    requires i < |lru|
    ensures Pieces(Touch(lru, i)) == [Pieces(lru)[i]] + Pieces(lru)[..i] + Pieces(lru)[i + 1..]
  {
  }

  ghost predicate InOrder(ps: seq<nat>, h: seq<nat>) {
    && (forall i :: 0 <= i < |ps| ==> LastUse(h, ps[i]) > 0)
    && (forall i, j :: 0 <= i < j < |ps| ==> LastUse(h, ps[i]) > LastUse(h, ps[j]))
  }

  /** Piece `q` was last accessed before all of `ps`. */
  ghost predicate Older(ps: seq<nat>, h: seq<nat>, q: nat) {
    forall i :: 0 <= i < |ps| ==> LastUse(h, q) < LastUse(h, ps[i])
  }

  /** The cached pieces `ps` are in the order of their last access, and every piece that was accessed and is not cached
      was last accessed before all of them, and is missing only because the cache is full. */
  ghost predicate MostRecent(capacity: nat, ps: seq<nat>, h: seq<nat>) {
    && |ps| <= capacity && InOrder(ps, h)
    && forall q :: LastUse(h, q) > 0 && q !in ps ==> |ps| == capacity && Older(ps, h, q)
  }

  lemma UsedNow(h: seq<nat>, p: nat)
    ensures forall q :: LastUse(h + [p], q) == if q == p then |h| + 1 else LastUse(h, q)
  {
    assert (h + [p])[..|h|] == h;
  }

  lemma AccessKeeps(capacity: nat, ps: seq<nat>, h: seq<nat>, p: nat, ps': seq<nat>)
    requires capacity > 0 && MostRecent(capacity, ps, h) && ComesFirst(capacity, ps, p, ps')
    ensures MostRecent(capacity, ps', h + [p])
  {
    hide MostRecent; hide LastUse;
    if p in ps {
      var i :| 0 <= i < |ps| && ps[i] == p && ps' == [p] + ps[..i] + ps[i + 1..];
      MovedKeeps(capacity, ps, h, i, ps');
    } else {
      PushedKeeps(capacity, ps, h, p, ps');
    }
  }

  /** The places of `ps` at which the pieces of `ps'` stood, behind the first one. */
  ghost predicate Moved(ps: seq<nat>, p: nat, ps': seq<nat>, at: seq<nat>) {
    && |at| == |ps'| > 0 && ps'[0] == p
    && (forall k :: 0 < k < |at| ==> at[k] < |ps| && ps'[k] == ps[at[k]] != p)
    && (forall j, k :: 0 < j < k < |at| ==> at[j] < at[k])
  }

  lemma FrontInOrder(ps: seq<nat>, h: seq<nat>, p: nat, ps': seq<nat>, at: seq<nat>)
    requires InOrder(ps, h) && Moved(ps, p, ps', at)
    ensures InOrder(ps', h + [p])
  {
    hide LastUse;
    UsedNow(h, p);
    assert forall k :: 0 < k < |ps'| ==> LastUse(h + [p], ps'[k]) == LastUse(h, ps[at[k]]);
  }

  /** A piece older than all others is so after another access. */
  lemma FrontOlder(ps: seq<nat>, h: seq<nat>, p: nat, ps': seq<nat>, at: seq<nat>, q: nat)
    requires Moved(ps, p, ps', at) && q != p
    requires forall k :: 0 < k < |at| ==> LastUse(h, q) < LastUse(h, ps[at[k]])
    ensures Older(ps', h + [p], q)
  {
    hide LastUse;
    UsedNow(h, p);
    assert forall k :: 0 < k < |ps'| ==> LastUse(h + [p], ps'[k]) == LastUse(h, ps[at[k]]);
  }

  lemma MovedPlaces(ps: seq<nat>, i: nat, ps': seq<nat>) returns (at: seq<nat>)
    requires i < |ps| && ps' == [ps[i]] + ps[..i] + ps[i + 1..]
    requires forall j, k :: 0 <= j < k < |ps| ==> ps[j] != ps[k]
    ensures Moved(ps, ps[i], ps', at) && |ps'| == |ps| && forall q :: q in ps ==> q in ps'
  {
    at := seq(|ps|, k requires k >= 0 => if k == 0 then i else if k <= i then k - 1 else k);
    assert forall k :: 0 < k < |ps'| ==> ps'[k] == ps[at[k]];
    forall q | q in ps ensures q in ps' {
      var k :| 0 <= k < |ps| && ps[k] == q;
      assert ps'[if k < i then k + 1 else if k == i then 0 else k] == q;
    }
  }

  /** The piece at place `i` comes first. */
  lemma MovedKeeps(capacity: nat, ps: seq<nat>, h: seq<nat>, i: nat, ps': seq<nat>)
    requires MostRecent(capacity, ps, h) && i < |ps| && ps' == [ps[i]] + ps[..i] + ps[i + 1..]
    ensures MostRecent(capacity, ps', h + [ps[i]])
  {
    hide LastUse; hide InOrder; hide Older; hide Moved;
    InOrderDiffers(ps, h);
    var at := MovedPlaces(ps, i, ps');
    FrontInOrder(ps, h, ps[i], ps', at);
    UsedNow(h, ps[i]);
    forall q | LastUse(h + [ps[i]], q) > 0 && q !in ps' ensures |ps'| == capacity && Older(ps', h + [ps[i]], q) {
      assert q !in ps && q != ps[i];
      OlderAt(ps, h, ps[i], ps', at, q);
      FrontOlder(ps, h, ps[i], ps', at, q);
    }
  }

  lemma OlderAt(ps: seq<nat>, h: seq<nat>, p: nat, ps': seq<nat>, at: seq<nat>, q: nat)
    requires Moved(ps, p, ps', at) && Older(ps, h, q)
    ensures forall k :: 0 < k < |at| ==> LastUse(h, q) < LastUse(h, ps[at[k]])
  {
  }

  lemma InOrderDiffers(ps: seq<nat>, h: seq<nat>)
    requires InOrder(ps, h)
    ensures forall j, k :: 0 <= j < k < |ps| ==> ps[j] != ps[k]
  {
  }

  /** A piece that is not cached comes first, and the last one of a full cache makes room. */
  lemma PushedKeeps(capacity: nat, ps: seq<nat>, h: seq<nat>, p: nat, ps': seq<nat>)
    requires capacity > 0 && MostRecent(capacity, ps, h) && p !in ps && ps' == [p] + ps[..Min(|ps|, capacity - 1)]
    ensures MostRecent(capacity, ps', h + [p])
  {
    hide LastUse; hide InOrder; hide Older; hide Moved;
    var at := PushedPlaces(ps, p, ps', Min(|ps|, capacity - 1));
    FrontInOrder(ps, h, p, ps', at);
    UsedNow(h, p);
    forall q | LastUse(h + [p], q) > 0 && q !in ps' ensures |ps'| == capacity && Older(ps', h + [p], q) {
      assert q != p;
      if q in ps {
        DroppedIsLast(ps, h, Min(|ps|, capacity - 1), q);
      } else {
        OlderAt(ps, h, p, ps', at, q);
      }
      FrontOlder(ps, h, p, ps', at, q);
    }
  }

  lemma PushedPlaces(ps: seq<nat>, p: nat, ps': seq<nat>, n: nat) returns (at: seq<nat>)
    requires p !in ps && n <= |ps| && ps' == [p] + ps[..n]
    ensures Moved(ps, p, ps', at) && |ps'| == n + 1 && forall k :: 0 < k < |at| ==> at[k] == k - 1
  {
    at := seq(n + 1, k requires k >= 0 => if k == 0 then 0 else k - 1);
  }

  lemma DroppedIsLast(ps: seq<nat>, h: seq<nat>, n: nat, q: nat)
    requires InOrder(ps, h) && n <= |ps| && q in ps && q !in ps[..n]
    ensures n < |ps| && forall k :: 0 <= k < n ==> LastUse(h, q) < LastUse(h, ps[k])
  {
    hide LastUse;
    var m :| 0 <= m < |ps| && ps[m] == q;
    assert forall k :: 0 <= k < n ==> ps[k] in ps[..n];
  }

  /** After any reads and writes, starting with an empty cache, the cache holds the pieces accessed most recently, in
      the order of their last access: what is evicted is always the piece that has not been accessed for longest. */
  lemma {:induction false} RunsEvictLeastRecent(c: Config, trace: seq<State>, ops: seq<Op>, i: nat)
    requires c.Valid() && Run(c, trace, ops) && i <= |ops|
    ensures MostRecent(c.capacity, Pieces(trace[i].lru), Accesses(c, trace, ops, i))
  {
    hide After; hide MostRecent; hide ComesFirst; hide Accessed;
    if i == 0 {
      assert MostRecent(c.capacity, Pieces(trace[0].lru), []) by { EmptyIsMostRecent(c.capacity); }
    } else {
      RunsEvictLeastRecent(c, trace, ops, i - 1);
      OrderAfter(c, trace[i - 1], ops[i - 1]);
      var h := Accesses(c, trace, ops, i - 1);
      match Accessed(c, trace[i - 1], ops[i - 1])
      case None =>
      case Some(p) => AccessKeeps(c.capacity, Pieces(trace[i - 1].lru), h, p, Pieces(trace[i].lru));
    }
  }

  lemma EmptyIsMostRecent(capacity: nat)
    ensures MostRecent(capacity, [], [])
  {
  }

  /** The pieces accessed after the last access to `p`. */
  function AccessedSince(h: seq<nat>, p: nat): set<nat> {
    set q | q in h && LastUse(h, q) > LastUse(h, p)
  }

  /** Hence a piece is cached if and only if it was accessed and fewer than `capacity` other pieces were since. */
  lemma CachedExactly(c: Config, trace: seq<State>, ops: seq<Op>, i: nat, p: nat)
    requires c.Valid() && Run(c, trace, ops) && i <= |ops|
    ensures var h := Accesses(c, trace, ops, i);
            Find(trace[i].lru, p) < |trace[i].lru| <==> p in h && |AccessedSince(h, p)| < c.capacity
  {
    hide Accesses; hide MostRecent; hide LastUse; hide After;
    var lru, h := trace[i].lru, Accesses(c, trace, ops, i);
    RunsEvictLeastRecent(c, trace, ops, i);
    RecentExactly(c.capacity, Pieces(lru), h, p);
    var k := Find(lru, p);
    if k < |lru| {
      assert Pieces(lru)[k] == p;
    } else {
      assert p !in Pieces(lru);
    }
  }

  lemma RecentExactly(capacity: nat, ps: seq<nat>, h: seq<nat>, p: nat)
    requires MostRecent(capacity, ps, h)
    ensures p in ps <==> p in h && |AccessedSince(h, p)| < capacity
  {
    hide LastUse;
    UsedIffIn(h);
    Count(ps, |ps|, h);
    if p in ps {
      var i :| 0 <= i < |ps| && ps[i] == p;
      Count(ps, i, h);
      forall q ensures q in AccessedSince(h, p) <==> q in Firsts(ps, i) {
        LaterIsBefore(capacity, ps, h, i, q);
      }
      assert AccessedSince(h, p) == Firsts(ps, i);
    } else if p in h {
      assert Firsts(ps, |ps|) <= AccessedSince(h, p);
      Smaller(Firsts(ps, |ps|), AccessedSince(h, p));
    }
  }

  lemma LaterIsBefore(capacity: nat, ps: seq<nat>, h: seq<nat>, i: nat, q: nat)
    requires MostRecent(capacity, ps, h) && i < |ps|
    ensures LastUse(h, q) > LastUse(h, ps[i]) <==> q in Firsts(ps, i)
  {
    hide LastUse;
    if LastUse(h, q) > LastUse(h, ps[i]) {
      assert q in ps;
      var k :| 0 <= k < |ps| && ps[k] == q;
      assert k < i;
    }
  }

  function Firsts(ps: seq<nat>, n: nat): set<nat>
    requires n <= |ps|
  {
    set i | 0 <= i < n :: ps[i]
  }

  lemma {:induction false} Count(ps: seq<nat>, n: nat, h: seq<nat>)
    requires n <= |ps| && forall i, j :: 0 <= i < j < |ps| ==> LastUse(h, ps[i]) > LastUse(h, ps[j])
    ensures |Firsts(ps, n)| == n
  {
    hide LastUse; hide Firsts;
    if n > 0 {
      Count(ps, n - 1, h);
      FirstsMore(ps, n - 1);
      assert forall i :: 0 <= i < n - 1 ==> ps[i] != ps[n - 1];
    }
    FirstsMore(ps, 0);
  }

  lemma FirstsMore(ps: seq<nat>, n: nat)
    requires n <= |ps|
    ensures Firsts(ps, 0) == {}
    ensures n < |ps| ==> Firsts(ps, n + 1) == Firsts(ps, n) + {ps[n]}
    ensures n < |ps| && ps[n] in Firsts(ps, n) ==> exists i :: 0 <= i < n && ps[i] == ps[n]
  {
  }

  lemma Smaller(a: set<nat>, b: set<nat>)
    requires a <= b
    ensures |a| <= |b|
  {
    assert b == a + (b - a);
  }

  lemma UsedIffIn(h: seq<nat>)
    ensures forall p :: LastUse(h, p) > 0 <==> p in h
  {
  }
}
