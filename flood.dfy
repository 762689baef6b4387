/** The flood-fill properties of a reveal, stated on sets of cells: `before`
    is the set of revealed cells when the reveal starts, `now` the set when
    it ends, and `blank` the set of safe cells with no surrounding mine (the
    cells the fill spreads from). */
module Flood {
  import opened Board

  /** The cells at Chebyshev distance at most 1 from some cell of `s`: the
      union of the neighbourhoods of the cells of `s`. */
  ghost function Spread(s: set<(int, int)>): set<(int, int)> {
    set p | p in AllCells() && exists q | q in s :: Near(p.0, p.1, q.0, q.1)
  }

  lemma SpreadMono(a: set<(int, int)>, b: set<(int, int)>)
    requires a <= b
    ensures Spread(a) <= Spread(b)
  {
    forall p | p in Spread(a) ensures p in Spread(b) {
      var q :| q in a && Near(p.0, p.1, q.0, q.1);
      assert q in b;
    }
  }

  lemma SpreadUnion(a: set<(int, int)>, b: set<(int, int)>)
    ensures Spread(a + b) == Spread(a) + Spread(b)
  {
    SpreadMono(a, a + b);
    SpreadMono(b, a + b);
    forall p | p in Spread(a + b) ensures p in Spread(a) + Spread(b) {
      var q :| q in a + b && Near(p.0, p.1, q.0, q.1);
      if q in a { assert p in Spread(a); } else { assert p in Spread(b); }
    }
  }

  lemma SpreadSingle(x: (int, int))
    ensures Spread({x}) == Neighbourhood(x.0, x.1)
  {
    forall p | p in Neighbourhood(x.0, x.1) ensures p in Spread({x}) {
      assert x in {x} && Near(p.0, p.1, x.0, x.1);
    }
  }

  /** Every blank cell revealed since `before` has its whole neighbourhood
      revealed. */
  ghost predicate ClosedFrom(before: set<(int, int)>, now: set<(int, int)>, blank: set<(int, int)>) {
    Spread((now - before) * blank) <= now
  }

  /** The k-th cell of a reveal order is one of `seeds`, or a neighbour of a
      blank cell that comes earlier in the order. */
  ghost predicate Linked(order: seq<(int, int)>, k: int, blank: set<(int, int)>, seeds: set<(int, int)>)
    requires 0 <= k < |order|
  {
    order[k] in seeds ||
    exists m | 0 <= m < k :: order[m] in blank && Near(order[k].0, order[k].1, order[m].0, order[m].1)
  }

  /** `order` lists the cells revealed between `before` and `now`, each
      once (no entry repeats an earlier one, see FillOrderOnce), in the
      order they were revealed, and every one of them was reached from
      `seeds` through blank cells revealed before it: the fill spreads only
      from blank cells and only from `seeds`. */
  ghost predicate FillOrder(order: seq<(int, int)>, before: set<(int, int)>, now: set<(int, int)>,
                            blank: set<(int, int)>, seeds: set<(int, int)>)
  {
    (forall p :: p in order <==> p in now - before) &&
    (forall k | 0 <= k < |order| :: order[k] !in order[..k] && Linked(order, k, blank, seeds))
  }

  /** A reveal order names every cell once: no cell is revealed twice. */
  lemma FillOrderOnce(order: seq<(int, int)>, before: set<(int, int)>, now: set<(int, int)>,
                      blank: set<(int, int)>, seeds: set<(int, int)>)
    requires FillOrder(order, before, now, blank, seeds)
    ensures forall a, b | 0 <= a < b < |order| :: order[a] != order[b]
  {
    forall a, b | 0 <= a < b < |order| ensures order[a] != order[b] {
      assert order[..b][a] == order[a];
    }
  }

  /** Two successive closed reveals make a closed reveal. */
  lemma ClosedTrans(a: set<(int, int)>, b: set<(int, int)>, c: set<(int, int)>, blank: set<(int, int)>)
    requires a <= b <= c
    requires ClosedFrom(a, b, blank) && ClosedFrom(b, c, blank)
    ensures ClosedFrom(a, c, blank)
  {
    assert (c - a) * blank == (b - a) * blank + (c - b) * blank;
    SpreadUnion((b - a) * blank, (c - b) * blank);
  }

  /** A reveal from `b` to `c` whose seeds were already seeds of the reveal
      from `a` to `b` continues it: the two orders, one after the other,
      are an order of the whole reveal. */
  lemma FillAppend(a: set<(int, int)>, b: set<(int, int)>, c: set<(int, int)>, blank: set<(int, int)>,
                   seeds: set<(int, int)>, more: set<(int, int)>, first: seq<(int, int)>, second: seq<(int, int)>)
    requires a <= b <= c && more <= seeds
    requires FillOrder(first, a, b, blank, seeds) && FillOrder(second, b, c, blank, more)
    ensures FillOrder(first + second, a, c, blank, seeds)
  {
    var order := first + second;
    forall p ensures p in order <==> p in c - a {
      assert p in order <==> p in first || p in second;
    }
    forall k | 0 <= k < |order| ensures order[k] !in order[..k] && Linked(order, k, blank, seeds) {
      if k < |first| {
        assert order[k] == first[k] && order[..k] == first[..k];
        assert Linked(first, k, blank, seeds);
        if first[k] !in seeds {
          var m :| 0 <= m < k && first[m] in blank && Near(first[k].0, first[k].1, first[m].0, first[m].1);
          assert order[m] == first[m];
        }
      } else {
        var k' := k - |first|;
        assert order[k] == second[k'] && order[..k] == first + second[..k'];
        assert second[k'] in c - b;
        assert Linked(second, k', blank, more);
        if second[k'] !in more {
          var m :| 0 <= m < k' && second[m] in blank && Near(second[k'].0, second[k'].1, second[m].0, second[m].1);
          assert order[m + |first|] == second[m];
        }
      }
    }
  }

  /** One step of the scan over the neighbourhood `nbrs` of a blank cell:
      a fill from `start` to `pre` seeded by `nbrs`, followed by a reveal of
      the neighbour x from `pre` to `now`, is a fill from `start` to `now`
      seeded by `nbrs`, and it still reveals no mine when `nbrs` holds
      none. */
  lemma ExtendFill(start: set<(int, int)>, pre: set<(int, int)>, now: set<(int, int)>, blank: set<(int, int)>,
                   mines: set<(int, int)>, nbrs: set<(int, int)>, x: (int, int),
                   first: seq<(int, int)>, second: seq<(int, int)>)
    requires start <= pre <= now && x in nbrs
    requires ClosedFrom(start, pre, blank) && FillOrder(first, start, pre, blank, nbrs)
    requires ClosedFrom(pre, now, blank) && FillOrder(second, pre, now, blank, {x})
    requires nbrs * mines == {} ==> (pre - start) * mines == {}
    requires x !in mines ==> (now - pre) * mines == {}
    ensures ClosedFrom(start, now, blank) && FillOrder(first + second, start, now, blank, nbrs)
    ensures nbrs * mines == {} ==> (now - start) * mines == {}
  {
    ClosedTrans(start, pre, now, blank);
    FillAppend(start, pre, now, blank, nbrs, {x}, first, second);
    if nbrs * mines == {} {
      assert x !in nbrs * mines;
      calc {
        (now - start) * mines;
        ((pre - start) + (now - pre)) * mines;
        (pre - start) * mines + (now - pre) * mines;
      }
    }
  }

  /** Revealing the single cell x is the whole reveal when x is not blank;
      when it is, x followed by a closed fill seeded by its neighbours (in
      the order `rest`) is a closed fill whose order starts at x. */
  lemma RevealStep(before: set<(int, int)>, x: (int, int), now: set<(int, int)>, blank: set<(int, int)>,
                   rest: seq<(int, int)>)
    requires x !in before && before + {x} <= now
    requires x !in blank ==> now == before + {x}
    requires x in blank ==> Neighbourhood(x.0, x.1) <= now
    requires x in blank ==> ClosedFrom(before + {x}, now, blank)
    requires x in blank ==> FillOrder(rest, before + {x}, now, blank, Neighbourhood(x.0, x.1))
    ensures ClosedFrom(before, now, blank)
    ensures x !in blank ==> FillOrder([x], before, now, blank, {x})
    ensures x in blank ==> FillOrder([x] + rest, before, now, blank, {x})
  {
    var mid := before + {x};
    if x in blank {
      assert now - before == {x} + (now - mid);
      assert (now - before) * blank == {x} + (now - mid) * blank;
      SpreadUnion({x}, (now - mid) * blank);
      SpreadSingle(x);
      OrderCons(before, x, now, blank, rest);
    } else {
      assert (now - before) * blank == {};
      assert Spread({}) == {};
      assert [x][..0] == [] && Linked([x], 0, blank, {x});
    }
  }

  /** The reveal order of a blank cell x: x itself, then the order of the
      fill seeded by its neighbours. */
  lemma OrderCons(before: set<(int, int)>, x: (int, int), now: set<(int, int)>, blank: set<(int, int)>,
                  rest: seq<(int, int)>)
    requires x !in before && before + {x} <= now && x in blank
    requires FillOrder(rest, before + {x}, now, blank, Neighbourhood(x.0, x.1))
    ensures FillOrder([x] + rest, before, now, blank, {x})
  {
    var order := [x] + rest;
    forall p ensures p in order <==> p in now - before {
      assert p in order <==> p == x || p in rest;
    }
    forall k | 0 <= k < |order| ensures order[k] !in order[..k] && Linked(order, k, blank, {x}) {
      if k == 0 {
        assert order[..0] == [] && order[0] in {x};
      } else {
        var k' := k - 1;
        assert order[k] == rest[k'] && order[..k] == [x] + rest[..k'];
        assert rest[k'] in rest && rest[k'] !in rest[..k'];
        assert Linked(rest, k', blank, Neighbourhood(x.0, x.1));
        if rest[k'] in Neighbourhood(x.0, x.1) {
          assert order[0] == x;
        } else {
          var m :| 0 <= m < k' && rest[m] in blank && Near(rest[k'].0, rest[k'].1, rest[m].0, rest[m].1);
          assert order[m + 1] == rest[m];
        }
      }
    }
  }

  /** A reveal that starts with no mine revealed, and that reveals only x
      when x is a mine and no mine otherwise, ends with a mine revealed
      exactly when x is a mine. */
  lemma MineRevealedIff(before: set<(int, int)>, now: set<(int, int)>, mines: set<(int, int)>, x: (int, int))
    requires before * mines == {} && before <= now
    requires x in mines ==> now == before + {x}
    requires x !in mines ==> (now - before) * mines == {}
    ensures now * mines != {} <==> x in mines
  {
    if x in mines {
      assert x in now * mines;
    } else {
      assert now * mines == before * mines + (now - before) * mines;
    }
  }
}
