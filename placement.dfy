/** Mine placement by rejection sampling. The random source is replaced by an
    oracle: the finite sequence of (row, column) draws it would have made. */
module Placement {
  import opened Board

  /** The set of mines once the draws in `samples` have been processed,
      starting from `mines`, while `need` more mines are wanted: a draw is
      accepted when it is not already a mine and lies outside the 3x3 zone
      around (er, ec); each acceptance lowers `need`, and sampling stops when
      `need` reaches 0 or the draws run out. */
  function Sampled(mines: set<(int, int)>, samples: seq<(int, int)>, er: int, ec: int, need: nat): set<(int, int)>
    decreases |samples|
  {
    if need == 0 || samples == [] then mines
    else
      var s := samples[0];
      if s !in mines && !Near(s.0, s.1, er, ec) then Sampled(mines + {s}, samples[1..], er, ec, need - 1)
      else Sampled(mines, samples[1..], er, ec, need)
  }

  /** The distinct draws that lie outside the zone around (er, ec). */
  function SafeDraws(samples: seq<(int, int)>, er: int, ec: int): (r: set<(int, int)>)
    ensures forall p | p in r :: !Near(p.0, p.1, er, ec)
  {
    set k | 0 <= k < |samples| && !Near(samples[k].0, samples[k].1, er, ec) :: samples[k]
  }

  lemma SafeDrawsCons(samples: seq<(int, int)>, er: int, ec: int)
    requires samples != []
    ensures SafeDraws(samples, er, ec) ==
            SafeDraws(samples[1..], er, ec) + (if Near(samples[0].0, samples[0].1, er, ec) then {} else {samples[0]})
  {
    var rest := samples[1..];
    forall p | p in SafeDraws(samples, er, ec)
      ensures p in SafeDraws(rest, er, ec) || (p == samples[0] && !Near(p.0, p.1, er, ec))
    {
      var k :| 0 <= k < |samples| && !Near(samples[k].0, samples[k].1, er, ec) && samples[k] == p;
      if k > 0 { assert rest[k - 1] == p; }
    }
    forall p | p in SafeDraws(rest, er, ec) ensures p in SafeDraws(samples, er, ec) {
      var k :| 0 <= k < |rest| && !Near(rest[k].0, rest[k].1, er, ec) && rest[k] == p;
      assert samples[k + 1] == p;
    }
  }

  /** Sampling only adds mines, every added mine is a draw outside the zone,
      and at most `need` are added. */
  lemma {:induction false} SampledAdds(mines: set<(int, int)>, samples: seq<(int, int)>, er: int, ec: int, need: nat)
    ensures mines <= Sampled(mines, samples, er, ec, need)
    ensures Sampled(mines, samples, er, ec, need) - mines <= SafeDraws(samples, er, ec)
    ensures |Sampled(mines, samples, er, ec, need)| <= |mines| + need
    decreases |samples|
  {
    if need > 0 && samples != [] {
      var s := samples[0];
      SafeDrawsCons(samples, er, ec);
      if s !in mines && !Near(s.0, s.1, er, ec) {
        SampledAdds(mines + {s}, samples[1..], er, ec, need - 1);
      } else {
        SampledAdds(mines, samples[1..], er, ec, need);
      }
    }
  }

  /** Either exactly `need` mines are added, or the draws ran out first and
      every draw outside the zone has become a mine. */
  lemma {:induction false} SampledExhausts(mines: set<(int, int)>, samples: seq<(int, int)>, er: int, ec: int, need: nat)
    ensures |Sampled(mines, samples, er, ec, need)| == |mines| + need ||
            SafeDraws(samples, er, ec) <= Sampled(mines, samples, er, ec, need)
    decreases |samples|
  {
    if need > 0 && samples != [] {
      var s := samples[0];
      SafeDrawsCons(samples, er, ec);
      if s !in mines && !Near(s.0, s.1, er, ec) {
        SampledExhausts(mines + {s}, samples[1..], er, ec, need - 1);
        SampledAdds(mines + {s}, samples[1..], er, ec, need - 1);
        assert |mines + {s}| == |mines| + 1;
      } else {
        SampledExhausts(mines, samples[1..], er, ec, need);
        SampledAdds(mines, samples[1..], er, ec, need);
        assert s in mines || Near(s.0, s.1, er, ec);
      }
    }
  }

  /** Placement on a mine-free board (the first click): the mines are all
      draws outside the safety zone around (er, ec), there are at most
      TOTAL_MINES of them, and exactly TOTAL_MINES once the draws contain that
      many distinct cells outside the zone. */
  lemma FirstPlacement(samples: seq<(int, int)>, er: int, ec: int)
    ensures Sampled({}, samples, er, ec, TOTAL_MINES) <= SafeDraws(samples, er, ec)
    ensures Sampled({}, samples, er, ec, TOTAL_MINES) * Neighbourhood(er, ec) == {}
    ensures |Sampled({}, samples, er, ec, TOTAL_MINES)| <= TOTAL_MINES
    ensures |SafeDraws(samples, er, ec)| >= TOTAL_MINES ==>
            |Sampled({}, samples, er, ec, TOTAL_MINES)| == TOTAL_MINES
  {
    var r := Sampled({}, samples, er, ec, TOTAL_MINES);
    SampledAdds({}, samples, er, ec, TOTAL_MINES);
    SampledExhausts({}, samples, er, ec, TOTAL_MINES);
    assert r - {} == r;
    forall p | p in r ensures p !in Neighbourhood(er, ec) {
      assert p in SafeDraws(samples, er, ec);
    }
    if |r| != TOTAL_MINES {
      assert r == SafeDraws(samples, er, ec);
    }
  }
}
