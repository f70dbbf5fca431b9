/**
 The `pairing_sports` dictionary of streamlit_app.py line 52, keyed by the
 text "team1 vs team2". Nothing reads it; it is modelled to state how it
 relates to the table rows. Entries are written in pairing order, so a later
 pairing with the same key overwrites an earlier one.
 */
module SportMap {
  import opened RoundDraw

  /** The dictionary key of a pairing. */
  function MatchKey(p: Pairing): (k: Name)
    ensures |k| == |p.teamA| + 4 + |p.teamB|
    ensures k[..|p.teamA|] == p.teamA && k[|p.teamA| + 4..] == p.teamB
    ensures k[|p.teamA|..|p.teamA| + 4] == " vs "
  {
    p.teamA + " vs " + p.teamB
  }

  /** The keys of the pairings, in pairing order. */
  function Keys(ps: seq<Pairing>): (ks: seq<Name>)
    ensures |ks| == |ps|
    ensures forall i :: 0 <= i < |ps| ==> ks[i] == MatchKey(ps[i])
  {
    if |ps| == 0 then [] else Keys(ps[..|ps| - 1]) + [MatchKey(ps[|ps| - 1])]
  }

  /** No later position of `ks` repeats the key at position i. */
  predicate LastWithKey<K(==)>(ks: seq<K>, i: nat)
    requires i < |ks|
  {
    ks[i] !in ks[i + 1..]
  }

  /** A key that is last in `ks` is also last once the final key is removed, and differs from it. */
  lemma LastWithKeyOfPrefix<K>(ks: seq<K>, i: nat)
    requires i + 1 < |ks| && LastWithKey(ks, i)
    ensures LastWithKey(ks[..|ks| - 1], i) && ks[i] != ks[|ks| - 1]
  {
  }

  /**
   A dictionary comprehension `{ks[i]: vs[i] for i in range(len(ks))}`:
   entries are inserted in order, so the last value written for a key wins.
   */
  function DictOf<K(==,!new), V>(ks: seq<K>, vs: seq<V>): (m: map<K, V>)
    requires |ks| <= |vs|
    ensures forall k :: k in m <==> k in ks
    ensures forall i :: 0 <= i < |ks| && LastWithKey(ks, i) ==> m[ks[i]] == vs[i]
  {
    if |ks| == 0 then map[]
    else
      var n := |ks| - 1;
      var m' := DictOf(ks[..n], vs);
      assert ks == ks[..n] + [ks[n]];
      forall i | 0 <= i < n && LastWithKey(ks, i)
        ensures LastWithKey(ks[..n], i) && ks[i] != ks[n]
      {
        LastWithKeyOfPrefix(ks, i);
      }
      m'[ks[n] := vs[n]]
  }

  /** `{f'{team1} vs {team2}': sports[i] for i, (team1, team2) in enumerate(ps)}`; reads sports[i] for every pairing. */
  function PairingSports(ps: seq<Pairing>, sports: seq<Name>): (m: map<Name, Name>)
    requires |ps| <= |sports|
    ensures forall k :: k in m <==> k in Keys(ps)
    ensures forall i :: 0 <= i < |ps| && LastWithKey(Keys(ps), i) ==> m[MatchKey(ps[i])] == sports[i]
  {
    DictOf(Keys(ps), sports)
  }

  /**
   For a drawn round the dictionary agrees with the table: the entry of every
   pairing whose key is not reused later is that row's sport.
   */
  lemma PairingSportsMatchRows(teams: seq<Name>, sports: seq<Name>)
    ensures var d := Draw(teams, sports);
            |d.pairings| <= |sports| &&
            forall i :: 0 <= i < |d.rows| && LastWithKey(Keys(d.pairings), i) ==>
              PairingSports(d.pairings, sports)[MatchKey(d.pairings[i])] == d.rows[i].sport
  {
  }

  /**
   Keys can collide even for distinct team names, since a name may itself
   contain " vs ": two different pairings then share one dictionary entry.
   */
  lemma KeysCanCollide()
    ensures var p, q := Pairing("A vs B", "C"), Pairing("A", "B vs C");
            p != q && MatchKey(p) == MatchKey(q) && |PairingSports([p, q], ["X", "Y"])| == 1
  {
    var p, q := Pairing("A vs B", "C"), Pairing("A", "B vs C");
    var m := PairingSports([p, q], ["X", "Y"]);
    assert p.teamA != q.teamA;
    CollidingKeys();
    assert Keys([p, q]) == [MatchKey(p), MatchKey(p)];
    assert m.Keys == {MatchKey(p)};
  }

  /** Both pairings of `KeysCanCollide` render as "A vs B vs C". */
  lemma CollidingKeys()
    ensures MatchKey(Pairing("A vs B", "C")) == "A vs B vs C"
    ensures MatchKey(Pairing("A", "B vs C")) == "A vs B vs C"
  {
    assert "A vs B" + " vs " + "C" == "A vs B vs C";
    assert "A" + " vs " + "B vs C" == "A vs B vs C";
  }
}
