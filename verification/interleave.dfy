/** Round-robin merging of the piece queues of all streams. */
module Interleaving {
  import opened TorrentLengths
  import opened Wrappers

  /** Iterators waiting for their turn; an iterator is the sequence of items it has left. */
  class Interleave<T> {
    var all: seq<seq<T>>

    constructor (all: seq<seq<T>>)
      ensures this.all == all
    {
      this.all := all;
    }

    /** Take an item from the first iterator that has one and send that iterator to the back;
        exhausted iterators are dropped. */
    method Next() returns (r: Option<T>)
      modifies this
      ensures (r, all) == Turn(old(all))
      ensures r.Some? ==> Size(all) < Size(old(all))
    {
      while |all| > 0
        invariant Turn(all) == Turn(old(all)) && Size(all) <= Size(old(all))
        decreases |all|
      {
        var it := all[0];
        all := all[1..];
        if |it| > 0 {
          SizeAppend(all, it[1..]);
          all := all + [it[1..]];
          return Some(it[0]);
        }
      }
      return None;
    }
  }

  function Turn<T>(all: seq<seq<T>>): (Option<T>, seq<seq<T>>)
  {
    if |all| == 0 then (None, [])
    else if |all[0]| == 0 then Turn(all[1..])
    else (Some(all[0][0]), all[1..] + [all[0][1..]])
  }

  /** Items left, plus one for every iterator: a turn that yields an item makes it smaller. */
  function Size<T>(all: seq<seq<T>>): nat {
    if |all| == 0 then 0 else |all[0]| + 1 + Size(all[1..])
  }

  lemma {:induction false} SizeAppend<T>(all: seq<seq<T>>, q: seq<T>)
    ensures Size(all + [q]) == Size(all) + |q| + 1
  {
    if |all| == 0 {
      assert all + [q] == [q];
    } else {
      SizeAppend(all[1..], q);
      assert (all + [q])[1..] == all[1..] + [q];
    }
  }

  lemma {:induction false} TurnShrinks<T>(all: seq<seq<T>>)
    ensures Turn(all).0.Some? ==> Size(Turn(all).1) < Size(all)
    ensures Turn(all).0.None? ==> forall k :: 0 <= k < |all| ==> all[k] == []
  {
    if |all| > 0 {
      if |all[0]| == 0 {
        TurnShrinks(all[1..]);
      } else {
        SizeAppend(all[1..], all[0][1..]);
      }
    }
  }

  /** Everything the merged iterator yields until it stops. */
  function Drain<T>(all: seq<seq<T>>): seq<T>
    decreases Size(all)
  {
    TurnShrinks(all);
    match Turn(all).0
    case None => []
    case Some(x) => [x] + Drain(Turn(all).1)
  }

  // ---------- reference: column by column ----------

  /** The `r`-th items of the iterators that have one, in the order of the iterators. */
  function Column<T>(all: seq<seq<T>>, r: nat): seq<T> {
    if |all| == 0 then []
    else if r < |all[0]| then [all[0][r]] + Column(all[1..], r)
    else Column(all[1..], r)
  }

  function Longest<T>(all: seq<seq<T>>): nat {
    if |all| == 0 then 0 else Max(|all[0]|, Longest(all[1..]))
  }

  /** All columns from `r` on. */
  function Columns<T>(all: seq<seq<T>>, r: nat): seq<T>
    decreases Max(0, Longest(all) - r)
  {
    if r >= Longest(all) then [] else Column(all, r) + Columns(all, r + 1)
  }

  /** The iterators that still had an item, each without its first one. */
  function Tails<T>(all: seq<seq<T>>): seq<seq<T>> {
    if |all| == 0 then []
    else if |all[0]| == 0 then Tails(all[1..])
    else [all[0][1..]] + Tails(all[1..])
  }

  lemma NoIterators<T>(r: nat)
    ensures Column<T>([], r) == [] && Columns<T>([], r) == [] && Longest<T>([]) == 0 && Size<T>([]) == 0
    ensures Tails<T>([]) == [] && Drain<T>([]) == [] && Items<T>([]) == multiset{}
  {
  }

  /** How the first iterator contributes. */
  lemma Cons<T>(q: seq<T>, rest: seq<seq<T>>, r: nat)
    ensures Column([q] + rest, r) == (if r < |q| then [q[r]] else []) + Column(rest, r)
    ensures Longest([q] + rest) == Max(|q|, Longest(rest)) && Size([q] + rest) == |q| + 1 + Size(rest)
    ensures Tails([q] + rest) == (if |q| > 0 then [q[1..]] else []) + Tails(rest)
    ensures Items([q] + rest) == multiset(q) + Items(rest)
  {
    assert ([q] + rest)[1..] == rest;
  }

  lemma {:induction false} TailsColumn<T>(all: seq<seq<T>>, r: nat)
    ensures Column(Tails(all), r) == Column(all, r + 1)
    ensures Longest(Tails(all)) == Max(0, Longest(all) - 1)
    ensures Size(Tails(all)) + |all| <= Size(all)
  {
    hide Column; hide Longest; hide Size; hide Tails;
    if |all| == 0 {
      NoIterators<T>(r);
      NoIterators<T>(r + 1);
    } else {
      var q, rest := all[0], all[1..];
      assert all == [q] + rest;
      TailsColumn(rest, r);
      Cons(q, rest, r + 1);
      if |q| > 0 {
        Cons(q[1..], Tails(rest), r);
      } else {
        assert [] + Tails(rest) == Tails(rest);
        assert [] + Column(rest, r + 1) == Column(rest, r + 1);
      }
    }
  }

  lemma ColumnsStep<T>(all: seq<seq<T>>, r: nat)
    ensures Columns(all, r) == if r >= Longest(all) then [] else Column(all, r) + Columns(all, r + 1)
  {
  }

  lemma {:induction false} TailsColumns<T>(all: seq<seq<T>>, r: nat)
    ensures Columns(Tails(all), r) == Columns(all, r + 1)
    decreases Max(0, Longest(all) - r)
  {
    hide Column; hide Longest; hide Tails; hide Columns;
    TailsColumn(all, r);
    ColumnsStep(all, r + 1);
    ColumnsStep(Tails(all), r);
    if r + 1 < Longest(all) {
      TailsColumns(all, r + 1);
    }
  }

  /** One turn when the first iterator has an item, and when it has none. */
  lemma DrainStep<T>(q: seq<T>, rest: seq<seq<T>>)
    ensures |q| > 0 ==> Drain([q] + rest) == [q[0]] + Drain(rest + [q[1..]])
    ensures |q| > 0 ==> Size(rest + [q[1..]]) < Size([q] + rest)
    ensures |q| == 0 ==> Drain([q] + rest) == Drain(rest)
  {
    hide Drain; hide Size;
    var all := [q] + rest;
    assert all[0] == q && all[1..] == rest;
    TurnShrinks(all);
    DrainTurn(all);
    DrainTurn(rest);
  }

  lemma DrainTurn<T>(all: seq<seq<T>>)
    ensures Drain(all) == match Turn(all).0 case None => [] case Some(x) => [x] + Drain(Turn(all).1)
  {
    hide Turn;
  }

  /** In the middle of a round: `waiting` still have their turn, `served` had it. */
  lemma {:induction false} DrainRound<T>(waiting: seq<seq<T>>, served: seq<seq<T>>)
    ensures Drain(waiting + served) == Column(waiting, 0) + Columns(served + Tails(waiting), 0)
    decreases Size(waiting + served), 1
  {
    hide Columns; hide Column; hide Tails; hide Drain; hide Size;
    NoIterators<T>(0);
    if |waiting| == 0 {
      assert waiting + served == served && served + Tails(waiting) == served;
      if |served| > 0 {
        DrainIsColumns(served);
      }
    } else {
      var q, rest := waiting[0], waiting[1..];
      assert waiting == [q] + rest;
      assert waiting + served == [q] + (rest + served);
      DrainStep(q, rest + served);
      Cons(q, rest, 0);
      if |q| == 0 {
        Cons(q, rest + served, 0);
        DrainRound(rest, served);
        assert [] + Tails(rest) == Tails(rest);
      } else {
        var served' := served + [q[1..]];
        assert rest + served' == (rest + served) + [q[1..]];
        DrainRound(rest, served');
        assert served' + Tails(rest) == served + ([q[1..]] + Tails(rest));
      }
    }
  }

  /** Draining is a fair merge: it yields the first items of all iterators in order, then the second
      items, and so on, each exactly once. */
  lemma {:induction false} DrainIsColumns<T>(all: seq<seq<T>>)
    ensures Drain(all) == Columns(all, 0)
    decreases Size(all), 0
  {
    hide Columns; hide Column; hide Longest; hide Tails; hide Drain; hide Size;
    NoIterators<T>(0);
    if |all| > 0 {
      var q, rest := all[0], all[1..];
      assert all == [q] + rest;
      DrainStep(q, rest);
      Cons(q, rest, 0);
      if |q| == 0 {
        DrainIsColumns(rest);
        SkipEmpty(q, rest, 0);
      } else {
        DrainRound(rest, [q[1..]]);
        TailsColumns(all, 0);
        ColumnsStep(all, 0);
      }
    }
  }

  /** An exhausted iterator in front makes no difference. */
  lemma {:induction false} SkipEmpty<T>(q: seq<T>, rest: seq<seq<T>>, r: nat)
    requires |q| == 0
    ensures Columns([q] + rest, r) == Columns(rest, r)
    decreases Max(0, Longest(rest) - r)
  {
    hide Columns; hide Column; hide Longest;
    var all := [q] + rest;
    Cons(q, rest, r);
    assert [] + Column(rest, r) == Column(rest, r);
    assert Column(all, r) == Column(rest, r) && Longest(all) == Longest(rest);
    ColumnsStep(all, r);
    ColumnsStep(rest, r);
    if r < Longest(rest) {
      SkipEmpty(q, rest, r + 1);
    }
  }

  /** All items of all iterators. */
  function Items<T>(all: seq<seq<T>>): multiset<T> {
    if |all| == 0 then multiset{} else multiset(all[0]) + Items(all[1..])
  }

  lemma {:induction false} ColumnItems<T>(all: seq<seq<T>>)
    ensures Items(all) == multiset(Column(all, 0)) + Items(Tails(all))
  {
    hide Items; hide Column; hide Tails;
    NoIterators<T>(0);
    if |all| > 0 {
      var q, rest := all[0], all[1..];
      assert all == [q] + rest;
      ColumnItems(rest);
      Cons(q, rest, 0);
      if |q| > 0 {
        Cons(q[1..], Tails(rest), 0);
        FirstItem(q, Column(rest, 0));
      } else {
        assert [] + Tails(rest) == Tails(rest) && [] + Column(rest, 0) == Column(rest, 0);
      }
    }
  }

  lemma FirstItem<T>(q: seq<T>, items: seq<T>)
    requires |q| > 0
    ensures multiset(q) == multiset{q[0]} + multiset(q[1..])
    ensures multiset([q[0]] + items) == multiset{q[0]} + multiset(items)
  {
    assert q == [q[0]] + q[1..];
  }

  /** Nothing is lost or repeated. */
  lemma {:induction false} DrainKeepsItems<T>(all: seq<seq<T>>)
    ensures multiset(Drain(all)) == Items(all)
    decreases Size(all)
  {
    hide Items; hide Column; hide Tails; hide Columns; hide Longest; hide Drain; hide Size;
    NoIterators<T>(0);
    if |all| > 0 {
      TailsColumn(all, 0);
      DrainKeepsItems(Tails(all));
      DrainIsColumns(all);
      DrainIsColumns(Tails(all));
      TailsColumns(all, 0);
      ColumnItems(all);
      ColumnsStep(all, 0);
      if Longest(all) == 0 {
        NoColumn(all);
        ColumnsStep(all, 1);
      }
    }
  }

  lemma {:induction false} NoColumn<T>(all: seq<seq<T>>)
    requires Longest(all) == 0
    ensures Column(all, 0) == []
  {
    if |all| > 0 {
      NoColumn(all[1..]);
    }
  }
}
