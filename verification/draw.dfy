/**
 The round draw of streamlit_app.py lines 37-57, on team and sport lists that
 have already been shuffled: consecutive teams are paired, an odd team out is
 the free team, surplus pairings are cut to the number of sports, and pairing
 i plays sport i.
 */
module RoundDraw {
  import opened Wrappers
  import opened Seqs

  type Name = string

  /** One drawn match, `(team1, team2)`. */
  datatype Pairing = Pairing(teamA: Name, teamB: Name)

  /** One line of the pairings table: columns "Team A", "Team B", "Sport". */
  datatype Row = Row(teamA: Name, teamB: Name, sport: Name)

  /** The pairings before truncation to the sport count, and the free team. */
  datatype Split = Split(pairings: seq<Pairing>, free: Option<Name>)

  /** The outcome of one press of "Draw Pairings". */
  datatype Round = Round(pairings: seq<Pairing>, free: Option<Name>, rows: seq<Row>)

  /** The teams of a list of pairings in table order, two per pairing. */
  function Players(ps: seq<Pairing>): (r: seq<Name>)
    ensures |r| == 2 * |ps|
    ensures forall i :: 0 <= i < |ps| ==> r[2 * i] == ps[i].teamA && r[2 * i + 1] == ps[i].teamB
  {
    if |ps| == 0 then [] else [ps[0].teamA, ps[0].teamB] + Players(ps[1..])
  }

  /** The sports of the table rows, top to bottom. */
  function Sports(rows: seq<Row>): (r: seq<Name>)
    ensures |r| == |rows|
    ensures forall i :: 0 <= i < |rows| ==> r[i] == rows[i].sport
  {
    if |rows| == 0 then [] else [rows[0].sport] + Sports(rows[1..])
  }

  /**
   The list comprehension `[(ts[i], ts[i+1]) for i in range(0, len(ts), 2)]`;
   it reads `ts[i+1]` for every even i, so it is only applied to even lengths.
   */
  function PairAdjacent(ts: seq<Name>): (r: seq<Pairing>)
    requires |ts| % 2 == 0
    ensures |r| == |ts| / 2
    ensures forall i :: 0 <= i < |r| ==> r[i] == Pairing(ts[2 * i], ts[2 * i + 1])
  {
    if |ts| == 0 then [] else [Pairing(ts[0], ts[1])] + PairAdjacent(ts[2..])
  }

  /** Even/odd split (lines 38-45): all teams paired, or all but the last, which is free. */
  function PairTeams(teams: seq<Name>): (s: Split)
    ensures |s.pairings| == |teams| / 2
    ensures s.free.Some? <==> |teams| % 2 == 1
    ensures s.free.Some? ==> s.free.value == teams[|teams| - 1]
  {
    if |teams| % 2 == 0 then Split(PairAdjacent(teams), None)
    else Split(PairAdjacent(teams[..|teams| - 1]), Some(teams[|teams| - 1]))
  }

  /** Lines 47-49: keep no more pairings than there are sports. */
  function Truncate(ps: seq<Pairing>, sportCount: nat): (r: seq<Pairing>)
    ensures |r| == Min(|ps|, sportCount)
    ensures r <= ps
  {
    if |ps| > sportCount then ps[..sportCount] else ps
  }

  /** `zip(pairings, sports)` flattened into table rows (lines 56-57); stops at the shorter list. */
  function Zip(ps: seq<Pairing>, sports: seq<Name>): (rows: seq<Row>)
    ensures |rows| == Min(|ps|, |sports|)
    ensures forall i :: 0 <= i < |rows| ==> rows[i] == Row(ps[i].teamA, ps[i].teamB, sports[i])
  {
    if |ps| == 0 || |sports| == 0 then []
    else [Row(ps[0].teamA, ps[0].teamB, sports[0])] + Zip(ps[1..], sports[1..])
  }

  /**
   One draw on the shuffled lists: pairing i is teams 2i and 2i+1, there are
   min(n / 2, |sports|) of them, an odd count leaves the last team free, and
   row i is pairing i with sport i.
   */
  function Draw(teams: seq<Name>, sports: seq<Name>): (d: Round)
    ensures |d.pairings| == Min(|teams| / 2, |sports|)
    ensures forall i :: 0 <= i < |d.pairings| ==> d.pairings[i] == Pairing(teams[2 * i], teams[2 * i + 1])
    ensures d.free == (if |teams| % 2 == 1 then Some(teams[|teams| - 1]) else None)
    ensures |d.rows| == |d.pairings|
    ensures forall i :: 0 <= i < |d.rows| ==>
              d.rows[i] == Row(d.pairings[i].teamA, d.pairings[i].teamB, sports[i])
  {
    var split := PairTeams(teams);
    var pairings := Truncate(split.pairings, |sports|);
    Round(pairings, split.free, Zip(pairings, sports[..|pairings|]))
  }

  /** The untruncated pairings beyond the sport count: drawn, then dropped. */
  function Dropped(teams: seq<Name>, sports: seq<Name>): (r: seq<Pairing>)
    ensures Draw(teams, sports).pairings + r == PairTeams(teams).pairings
    ensures |sports| < |teams| / 2 <==> |r| > 0
  {
    var all := PairTeams(teams).pairings;
    var kept := Draw(teams, sports).pairings;
    assert all == kept + all[|kept|..];
    all[|kept|..]
  }

  /** The free-team line (lines 64-65) is guarded by Python truthiness: an empty name is not announced. */
  function AnnouncedFree(d: Round): (r: Option<Name>)
    ensures r.Some? ==> d.free == r && r.value != ""
    ensures d.free.Some? && d.free.value != "" ==> r == d.free
  {
    match d.free
    case Some(t) => if t != "" then Some(t) else None
    case None => None
  }

  /**
   The line below the table names the last shuffled team when the count is odd
   and its name is not empty, and is absent when the count is even.
   */
  lemma FreeTeamAnnounced(teams: seq<Name>, sports: seq<Name>)
    ensures |teams| % 2 == 1 && teams[|teams| - 1] != "" ==>
              AnnouncedFree(Draw(teams, sports)) == Some(teams[|teams| - 1])
    ensures |teams| % 2 == 0 ==> AnnouncedFree(Draw(teams, sports)) == None
  {
  }

  // ---------------------------------------------------------------------------
  // Pairing and flattening are inverse to each other

  lemma {:induction false} PlayersOfPairAdjacent(ts: seq<Name>)
    requires |ts| % 2 == 0
    ensures Players(PairAdjacent(ts)) == ts
    decreases |ts|
  {
    if |ts| > 0 {
      var ps := PairAdjacent(ts);
      assert ps[1..] == PairAdjacent(ts[2..]);
      PlayersOfPairAdjacent(ts[2..]);
      assert ts == [ts[0], ts[1]] + ts[2..];
    }
  }

  lemma PairAdjacentOfPlayers(ps: seq<Pairing>)
    ensures PairAdjacent(Players(ps)) == ps
  {
  }

  lemma {:induction false} PlayersConcat(a: seq<Pairing>, b: seq<Pairing>)
    ensures Players(a + b) == Players(a) + Players(b)
    decreases |a|
  {
    if |a| > 0 {
      var h := [a[0].teamA, a[0].teamB];
      assert (a + b)[0] == a[0];
      assert (a + b)[1..] == a[1..] + b;
      PlayersConcat(a[1..], b);
      assert Players(a + b) == h + Players(a[1..] + b);
      assert Players(a) == h + Players(a[1..]);
    } else {
      assert a + b == b;
    }
  }

  // ---------------------------------------------------------------------------
  // Every team is in exactly one place

  /** Before truncation, the pairings followed by the free team are exactly the shuffled team list. */
  lemma PairTeamsPartition(teams: seq<Name>)
    ensures Players(PairTeams(teams).pairings) + PairTeams(teams).free.ToSeq() == teams
  {
    var n := |teams|;
    if n % 2 == 0 {
      PlayersOfPairAdjacent(teams);
    } else {
      PlayersOfPairAdjacent(teams[..n - 1]);
      assert teams == teams[..n - 1] + [teams[n - 1]];
    }
  }

  /** Without two teams or without a sport nothing is played, yet a lone team is still the free team. */
  lemma NoMatchWithoutTwoTeamsAndASport(teams: seq<Name>, sports: seq<Name>)
    requires |teams| <= 1 || |sports| == 0
    ensures Draw(teams, sports).pairings == [] && Draw(teams, sports).rows == []
    ensures |teams| == 1 ==> Draw(teams, sports).free == Some(teams[0])
  {
  }

  /**
   After truncation the team list splits into three consecutive parts: the
   teams that play, the teams of dropped pairings, and the free team.
   */
  lemma DrawPartition(teams: seq<Name>, sports: seq<Name>)
    ensures var d := Draw(teams, sports);
            Players(d.pairings) + Players(Dropped(teams, sports)) + d.free.ToSeq() == teams
    ensures Players(Draw(teams, sports).pairings) == teams[..2 * |Draw(teams, sports).pairings|]
  {
    var d := Draw(teams, sports);
    var drop := Dropped(teams, sports);
    PairTeamsPartition(teams);
    PlayersConcat(d.pairings, drop);
    var k := 2 * |d.pairings|;
    assert teams[..k] == (Players(d.pairings) + Players(drop) + d.free.ToSeq())[..k];
  }

  /** Team `t` plays in row `r`. */
  predicate InRow(r: Row, t: Name)
  {
    r.teamA == t || r.teamB == t
  }

  /** Row i of a draw holds the shuffled teams at positions 2i and 2i+1. */
  lemma RowPositions(teams: seq<Name>, sports: seq<Name>, i: nat)
    requires i < |Draw(teams, sports).rows|
    ensures 2 * i + 1 < |teams|
    ensures Draw(teams, sports).rows[i].teamA == teams[2 * i]
    ensures Draw(teams, sports).rows[i].teamB == teams[2 * i + 1]
  {
  }

  /**
   With distinct team names no team is drawn twice: the two teams of a row
   differ, two rows share no team, and the free team plays in no row.
   */
  lemma DistinctTeamsNeverDrawnTwice(teams: seq<Name>, sports: seq<Name>)
    requires NoDuplicates(teams)
    ensures var d := Draw(teams, sports);
            forall i :: 0 <= i < |d.rows| ==> d.rows[i].teamA != d.rows[i].teamB
    ensures var d := Draw(teams, sports);
            forall i, j :: 0 <= i < j < |d.rows| ==>
              !InRow(d.rows[j], d.rows[i].teamA) && !InRow(d.rows[j], d.rows[i].teamB)
    ensures var d := Draw(teams, sports);
            forall i :: 0 <= i < |d.rows| && d.free.Some? ==> !InRow(d.rows[i], d.free.value)
  {
    var d := Draw(teams, sports);
    var n := |teams|;
    forall i | 0 <= i < |d.rows| ensures d.rows[i].teamA != d.rows[i].teamB {
      RowPositions(teams, sports, i);
    }
    forall i, j | 0 <= i < j < |d.rows|
      ensures !InRow(d.rows[j], d.rows[i].teamA) && !InRow(d.rows[j], d.rows[i].teamB)
    {
      RowPositions(teams, sports, i);
      RowPositions(teams, sports, j);
    }
    forall i | 0 <= i < |d.rows| && d.free.Some? ensures !InRow(d.rows[i], d.free.value) {
      RowPositions(teams, sports, i);
      assert 2 * i + 1 < n - 1;
    }
  }

  /** A team in a row of a draw is one of the playing teams. */
  lemma RowTeamsPlay(teams: seq<Name>, sports: seq<Name>, i: nat, t: Name)
    requires i < |Draw(teams, sports).rows|
    ensures InRow(Draw(teams, sports).rows[i], t) ==> t in Players(Draw(teams, sports).pairings)
  {
    var d := Draw(teams, sports);
    var playing := Players(d.pairings);
    assert d.rows[i].teamA == playing[2 * i] && d.rows[i].teamB == playing[2 * i + 1];
  }

  /**
   With distinct team names the teams of dropped pairings get nothing: they are
   in no row and are not the free team.
   */
  lemma DroppedTeamsIdle(teams: seq<Name>, sports: seq<Name>)
    requires NoDuplicates(teams)
    ensures var d := Draw(teams, sports);
            forall t :: t in Players(Dropped(teams, sports)) ==>
              && d.free != Some(t)
              && forall i :: 0 <= i < |d.rows| ==> !InRow(d.rows[i], t)
  {
    var d := Draw(teams, sports);
    var drop := Players(Dropped(teams, sports));
    var playing := Players(d.pairings);
    DrawPartition(teams, sports);
    assert teams == (playing + drop) + d.free.ToSeq();
    NoDuplicatesConcat(playing + drop, d.free.ToSeq());
    NoDuplicatesConcat(playing, drop);
    forall t, i | t in drop && 0 <= i < |d.rows| ensures !InRow(d.rows[i], t) {
      RowTeamsPlay(teams, sports, i, t);
    }
    forall t | t in drop ensures d.free != Some(t) {
      if d.free.Some? {
        assert d.free.value in d.free.ToSeq();
      }
    }
  }

  // ---------------------------------------------------------------------------
  // Sports

  /**
   The rows use exactly the first |rows| sports of the shuffled sport list, in
   order, so a round never repeats a sport unless the sport list does.
   */
  lemma RowsUseSportPrefix(teams: seq<Name>, sports: seq<Name>)
    ensures Sports(Draw(teams, sports).rows) == sports[..|Draw(teams, sports).rows|]
    ensures NoDuplicates(sports) ==> NoDuplicates(Sports(Draw(teams, sports).rows))
  {
  }
}
