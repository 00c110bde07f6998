/**
 * A concrete check of the rule: the blinker, whose period is 2.
 */
module LifeScenarios {
  import opened LifeRules

  /** Counting one more position of s. */
  lemma {:induction false} CountAliveSnoc(live: set<Pos>, s: seq<Pos>, k: nat)
    requires k < |s|
    ensures CountAlive(live, s[..k + 1]) == CountAlive(live, s[..k]) + Alive(live, s[k])
  {
    assert s[..k + 1][..k] == s[..k];
  }

  /** The live indicator of one position. */
  function Alive(live: set<Pos>, p: Pos): nat
  {
    if p in live then 1 else 0
  }

  /** The count over a list of eight positions, written out term by term. */
  lemma {:induction false} CountEight(live: set<Pos>, s: seq<Pos>)
    requires |s| == 8
    ensures CountAlive(live, s) ==
              Alive(live, s[0]) + Alive(live, s[1]) + Alive(live, s[2]) + Alive(live, s[3]) +
              Alive(live, s[4]) + Alive(live, s[5]) + Alive(live, s[6]) + Alive(live, s[7])
  {
    assert s[..0] == [];
    CountAliveSnoc(live, s, 0);
    var c1 := CountAlive(live, s[..1]);
    assert c1 == Alive(live, s[0]);
    CountAliveSnoc(live, s, 1);
    var c2 := CountAlive(live, s[..2]);
    assert c2 == c1 + Alive(live, s[1]);
    CountAliveSnoc(live, s, 2);
    var c3 := CountAlive(live, s[..3]);
    assert c3 == c2 + Alive(live, s[2]);
    CountAliveSnoc(live, s, 3);
    var c4 := CountAlive(live, s[..4]);
    assert c4 == c3 + Alive(live, s[3]);
    CountAliveSnoc(live, s, 4);
    var c5 := CountAlive(live, s[..5]);
    assert c5 == c4 + Alive(live, s[4]);
    CountAliveSnoc(live, s, 5);
    var c6 := CountAlive(live, s[..6]);
    assert c6 == c5 + Alive(live, s[5]);
    CountAliveSnoc(live, s, 6);
    var c7 := CountAlive(live, s[..7]);
    assert c7 == c6 + Alive(live, s[6]);
    CountAliveSnoc(live, s, 7);
    assert s[..8] == s;
  }

  const Vertical: set<Pos> := {Pos(0, -1), Pos(0, 0), Pos(0, 1)}
  const Horizontal: set<Pos> := {Pos(-1, 0), Pos(0, 0), Pos(1, 0)}

  /** The rule at every cell around a vertical blinker. */
  lemma VerticalBlinkerAt(q: Pos)
    ensures NextAlive(Vertical, q) <==> q in Horizontal
  {
    CountEight(Vertical, AdjacentPositions(q));
  }

  /** The rule at every cell around a horizontal blinker. */
  lemma HorizontalBlinkerAt(q: Pos)
    ensures NextAlive(Horizontal, q) <==> q in Vertical
  {
    CountEight(Horizontal, AdjacentPositions(q));
  }

  /** A vertical blinker turns horizontal. */
  lemma {:induction false} VerticalBlinkerTurns()
    ensures Generation(Vertical) == Horizontal
  {
    forall q
      ensures q in Generation(Vertical) <==> q in Horizontal
    {
      VerticalBlinkerAt(q);
    }
  }

  /** A horizontal blinker turns vertical. */
  lemma {:induction false} HorizontalBlinkerTurns()
    ensures Generation(Horizontal) == Vertical
  {
    forall q
      ensures q in Generation(Horizontal) <==> q in Vertical
    {
      HorizontalBlinkerAt(q);
    }
  }
}
