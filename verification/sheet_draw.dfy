/**
 The "Draw Pairings" button end to end (streamlit_app.py lines 28-57): read
 both sheet columns, drop missing cells, shuffle each list with the picks the
 random source supplies, and draw.
 */
module SheetDraw {
  import opened Wrappers
  import opened Seqs
  import opened Sheet
  import opened Shuffling
  import opened RoundDraw

  /** Picks that fit both columns: one pick per present cell, each within its bound. */
  predicate PicksFit(teamCol: seq<Option<Name>>, sportCol: seq<Option<Name>>, teamPicks: seq<nat>, sportPicks: seq<nat>)
  {
    ValidPicks(|DropNa(teamCol)|, teamPicks) && ValidPicks(|DropNa(sportCol)|, sportPicks)
  }

  /** The shuffled team list the draw pairs. */
  function ShuffledTeams(teamCol: seq<Option<Name>>, teamPicks: seq<nat>): (ts: seq<Name>)
    requires ValidPicks(|DropNa(teamCol)|, teamPicks)
    ensures forall t :: multiset(ts)[t] == multiset(teamCol)[Some(t)]
    ensures forall t :: t in ts <==> Some(t) in teamCol
  {
    var ts := Shuffle(DropNa(teamCol), teamPicks);
    assert forall t :: t in ts <==> t in multiset(ts);
    ts
  }

  /** The shuffled sport list the draw assigns. */
  function ShuffledSports(sportCol: seq<Option<Name>>, sportPicks: seq<nat>): (ss: seq<Name>)
    requires ValidPicks(|DropNa(sportCol)|, sportPicks)
    ensures forall s :: multiset(ss)[s] == multiset(sportCol)[Some(s)]
    ensures forall s :: s in ss <==> Some(s) in sportCol
  {
    var ss := Shuffle(DropNa(sportCol), sportPicks);
    assert forall s :: s in ss <==> s in multiset(ss);
    ss
  }

  /**
   One press of the button: as many pairings as the smaller of half the listed
   teams and the listed sports, a free team exactly when an odd number of teams
   is listed, and every name in the result a present cell of its column.
   */
  function DrawFromSheet(teamCol: seq<Option<Name>>, sportCol: seq<Option<Name>>, teamPicks: seq<nat>, sportPicks: seq<nat>): (d: Round)
    requires PicksFit(teamCol, sportCol, teamPicks, sportPicks)
    ensures |d.pairings| == Min(|DropNa(teamCol)| / 2, |DropNa(sportCol)|)
    ensures |d.rows| == |d.pairings|
    ensures d.free.Some? <==> |DropNa(teamCol)| % 2 == 1
    ensures d.free.Some? ==> Some(d.free.value) in teamCol
    ensures forall i :: 0 <= i < |d.rows| ==>
              Some(d.rows[i].teamA) in teamCol && Some(d.rows[i].teamB) in teamCol && Some(d.rows[i].sport) in sportCol
  {
    var ts := ShuffledTeams(teamCol, teamPicks);
    var ss := ShuffledSports(sportCol, sportPicks);
    var d := Draw(ts, ss);
    forall i | 0 <= i < |d.rows|
      ensures Some(d.rows[i].teamA) in teamCol && Some(d.rows[i].teamB) in teamCol && Some(d.rows[i].sport) in sportCol
    {
      RowPositions(ts, ss, i);
      assert d.rows[i].teamA in ts && d.rows[i].teamB in ts && d.rows[i].sport in ss;
    }
    d
  }

  /**
   No team is invented or lost: the teams that play, the teams of dropped
   pairings and the free team together use each name exactly as often as the
   sheet lists it.
   */
  lemma NoTeamInventedOrLost(teamCol: seq<Option<Name>>, sportCol: seq<Option<Name>>, teamPicks: seq<nat>, sportPicks: seq<nat>)
    requires PicksFit(teamCol, sportCol, teamPicks, sportPicks)
    ensures var ts, ss := ShuffledTeams(teamCol, teamPicks), ShuffledSports(sportCol, sportPicks);
            var d := Draw(ts, ss);
            forall t :: multiset(Players(d.pairings) + Players(Dropped(ts, ss)) + d.free.ToSeq())[t]
                        == multiset(teamCol)[Some(t)]
  {
    var ts, ss := ShuffledTeams(teamCol, teamPicks), ShuffledSports(sportCol, sportPicks);
    DrawPartition(ts, ss);
  }

  /**
   When the sheet lists every team once, no team is drawn twice in a round,
   and when it lists every sport once, no sport is played twice.
   */
  lemma ListedOnceDrawnOnce(teamCol: seq<Option<Name>>, sportCol: seq<Option<Name>>, teamPicks: seq<nat>, sportPicks: seq<nat>)
    requires PicksFit(teamCol, sportCol, teamPicks, sportPicks)
    requires NoDuplicates(DropNa(teamCol))
    ensures var d := DrawFromSheet(teamCol, sportCol, teamPicks, sportPicks);
            forall i, j :: 0 <= i < j < |d.rows| ==>
              !InRow(d.rows[j], d.rows[i].teamA) && !InRow(d.rows[j], d.rows[i].teamB)
    ensures var d := DrawFromSheet(teamCol, sportCol, teamPicks, sportPicks);
            forall i :: 0 <= i < |d.rows| ==>
              d.rows[i].teamA != d.rows[i].teamB && (d.free.Some? ==> !InRow(d.rows[i], d.free.value))
    ensures NoDuplicates(DropNa(sportCol)) ==>
              NoDuplicates(Sports(DrawFromSheet(teamCol, sportCol, teamPicks, sportPicks).rows))
  {
    var ts, ss := ShuffledTeams(teamCol, teamPicks), ShuffledSports(sportCol, sportPicks);
    NoDuplicatesPermutation(DropNa(teamCol), ts);
    DistinctTeamsNeverDrawnTwice(ts, ss);
    RowsUseSportPrefix(ts, ss);
    if NoDuplicates(DropNa(sportCol)) {
      NoDuplicatesPermutation(DropNa(sportCol), ss);
    }
  }

  /**
   The caller-supplied picks cover exactly the shuffles: for every reordering
   of the listed teams and sports some picks make the button draw on them.
   */
  lemma EveryOrderingDrawable(teamCol: seq<Option<Name>>, sportCol: seq<Option<Name>>, ts: seq<Name>, ss: seq<Name>)
    requires multiset(ts) == multiset(DropNa(teamCol)) && multiset(ss) == multiset(DropNa(sportCol))
    ensures exists teamPicks, sportPicks ::
              PicksFit(teamCol, sportCol, teamPicks, sportPicks) &&
              DrawFromSheet(teamCol, sportCol, teamPicks, sportPicks) == Draw(ts, ss)
  {
    EveryReorderingReachable(DropNa(teamCol), ts);
    EveryReorderingReachable(DropNa(sportCol), ss);
    var tp :| ValidPicks(|DropNa(teamCol)|, tp) && Shuffle(DropNa(teamCol), tp) == ts;
    var sp :| ValidPicks(|DropNa(sportCol)|, sp) && Shuffle(DropNa(sportCol), sp) == ss;
    assert DrawFromSheet(teamCol, sportCol, tp, sp) == Draw(ts, ss);
  }

  /**
   The draw does not de-duplicate the sheet: a team listed twice can be drawn
   against itself.
   */
  lemma RepeatedTeamCanMeetItself()
    ensures DrawFromSheet([Some("A"), Some("A")], [Some("X")], [0, 0], [0]).rows == [Row("A", "A", "X")]
  {
  }
}
