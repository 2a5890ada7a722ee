/**
 * The match engine: the primary roster scan on a weighted name/title score
 * and the title-only "blank deal" fallback scan over the roster entries
 * whose SF number starts with "BD".
 *
 * The similarity scorers are rapidfuzz's `token_set_ratio` and
 * `token_sort_ratio`; their code is not part of this model, so they are
 * parameters: any total functions with scores between 0 and 100.
 */
module Matching {
  import opened Wrappers
  import opened Text
  import opened Sequences

  /** A string similarity scorer. */
  type Scorer = (string, string) -> real

  /** The two rapidfuzz scorers the engine uses. */
  datatype Scorers = Scorers(tokenSetRatio: Scorer, tokenSortRatio: Scorer)

  /** Both scorers give scores between 0 and 100, as rapidfuzz's ratios do. */
  ghost predicate InRange(sc: Scorers)
  {
    forall a, b :: 0.0 <= sc.tokenSetRatio(a, b) <= 100.0 && 0.0 <= sc.tokenSortRatio(a, b) <= 100.0
  }

  /** A Start Form roster entry: `Crew list name`, `Project job title`, `Sf number`. */
  datatype RosterEntry = RosterEntry(name: Cell, title: Cell, sfNumber: Cell)

  /** The title and SF number of the blank-deal entry chosen by the fallback. */
  datatype BlankDealHit = BlankDealHit(title: Cell, sfNumber: Cell)

  /** The lowest best score that is accepted, by both scans. */
  const Threshold: real := 85.0

  /** The weighted score of a roster entry against a row's name and title. */
  function Composite(sc: Scorers, name: Cell, title: Cell, e: RosterEntry): real
  {
    0.7 * sc.tokenSetRatio(Normalize(CellText(name)), Normalize(CellText(e.name)))
    + 0.3 * sc.tokenSortRatio(Normalize(CellText(title)), Normalize(CellText(e.title)))
  }

  /** The title-only score of a roster entry against a row's title. */
  function TitleScore(sc: Scorers, title: Cell, e: RosterEntry): real
  {
    sc.tokenSortRatio(Normalize(CellText(title)), Normalize(CellText(e.title)))
  }

  /** With scorers in range, the composite score is between 0 and 100 too, and is 100 only when both scores are. */
  lemma CompositeRange(sc: Scorers, name: Cell, title: Cell, e: RosterEntry)
    requires InRange(sc)
    ensures 0.0 <= Composite(sc, name, title, e) <= 100.0
    ensures Composite(sc, name, title, e) == 100.0 <==>
              && sc.tokenSetRatio(Normalize(CellText(name)), Normalize(CellText(e.name))) == 100.0
              && sc.tokenSortRatio(Normalize(CellText(title)), Normalize(CellText(e.title))) == 100.0
  {
    var n := sc.tokenSetRatio(Normalize(CellText(name)), Normalize(CellText(e.name)));
    var t := sc.tokenSortRatio(Normalize(CellText(title)), Normalize(CellText(e.title)));
    assert 0.0 <= n <= 100.0 && 0.0 <= t <= 100.0;
  }

  /** The composite score of every roster entry, in roster order. */
  function PrimaryScores(sc: Scorers, roster: seq<RosterEntry>, name: Cell, title: Cell): (s: seq<real>)
    ensures |s| == |roster|
  {
    seq(|roster|, j requires 0 <= j < |roster| => Composite(sc, name, title, roster[j]))
  }

  /** The title score of every entry, in order. */
  function TitleScores(sc: Scorers, entries: seq<RosterEntry>, title: Cell): (s: seq<real>)
    ensures |s| == |entries|
  {
    seq(|entries|, j requires 0 <= j < |entries| => TitleScore(sc, title, entries[j]))
  }

  /** `k` holds a maximal score and every earlier score is strictly smaller. */
  ghost predicate IsFirstMax(s: seq<real>, k: int)
  {
    && 0 <= k < |s|
    && (forall j :: 0 <= j < |s| ==> s[j] <= s[k])
    && (forall j :: 0 <= j < k ==> s[j] < s[k])
  }

  /** The earliest position of the maximal score: a later score replaces the best only when strictly higher. */
  function FirstMax(s: seq<real>): (k: nat)
    requires |s| > 0
    ensures k < |s|
  {
    if |s| == 1 then 0
    else
      var k := FirstMax(s[..|s| - 1]);
      if s[|s| - 1] > s[k] then |s| - 1 else k
  }

  /** `FirstMax` finds the first maximal score. */
  lemma {:induction false} FirstMaxIsFirstMax(s: seq<real>)
    requires |s| > 0
    ensures IsFirstMax(s, FirstMax(s))
  {
    if |s| > 1 {
      var front := s[..|s| - 1];
      FirstMaxIsFirstMax(front);
      assert forall j :: 0 <= j < |front| ==> s[j] == front[j];
    }
  }

  /** At most one position is the first maximum. */
  lemma FirstMaxUnique(s: seq<real>, k: int)
    requires IsFirstMax(s, k)
    ensures |s| > 0 && k == FirstMax(s)
  {
    FirstMaxIsFirstMax(s);
  }

  /**
   * The position a scan accepts: the first maximal score, when it reaches
   * the threshold; none when every score is below it.
   */
  function Best(s: seq<real>): (r: Option<nat>)
    ensures r.Some? ==> r.value < |s|
  {
    if |s| > 0 && s[FirstMax(s)] >= Threshold then Some(FirstMax(s)) else None
  }

  /** A scan accepts nothing exactly when every score is below 85, and otherwise the first maximal score. */
  lemma BestSpec(s: seq<real>)
    ensures Best(s).None? <==> forall j :: 0 <= j < |s| ==> s[j] < Threshold
    ensures Best(s).Some? ==> IsFirstMax(s, Best(s).value) && s[Best(s).value] >= Threshold
  {
    if |s| > 0 {
      FirstMaxIsFirstMax(s);
    }
  }

  /** The entry the primary scan accepts for a row's name and title, if any. */
  function PrimaryMatch(sc: Scorers, roster: seq<RosterEntry>, name: Cell, title: Cell): Option<RosterEntry>
  {
    match Best(PrimaryScores(sc, roster, name, title))
    case None => None
    case Some(k) => Some(roster[k])
  }

  /**
   * The primary scan finds nothing exactly when every composite score is
   * below 85; what it finds is a roster entry whose score reaches 85.
   */
  lemma PrimaryMatchSpec(sc: Scorers, roster: seq<RosterEntry>, name: Cell, title: Cell)
    ensures var m := PrimaryMatch(sc, roster, name, title);
            && (m.None? <==> forall j :: 0 <= j < |roster| ==> Composite(sc, name, title, roster[j]) < Threshold)
            && (m.Some? ==> m.value in roster && Composite(sc, name, title, m.value) >= Threshold)
  {
    var s := PrimaryScores(sc, roster, name, title);
    assert forall j :: 0 <= j < |roster| ==> s[j] == Composite(sc, name, title, roster[j]);
    BestSpec(s);
    var b := Best(s);
    if b.Some? {
      assert roster[b.value] in roster;
    }
  }

  /**
   * The primary scan picks the earliest entry with the maximal composite
   * score, provided that score is at least 85 (exactly 85 included); a later
   * entry with an equal score never displaces it.
   */
  lemma {:induction false} PrimaryMatchIsFirstBest(sc: Scorers, roster: seq<RosterEntry>, name: Cell, title: Cell, k: nat)
    requires k < |roster|
    requires forall j :: 0 <= j < |roster| ==> Composite(sc, name, title, roster[j]) <= Composite(sc, name, title, roster[k])
    requires forall j :: 0 <= j < k ==> Composite(sc, name, title, roster[j]) < Composite(sc, name, title, roster[k])
    requires Composite(sc, name, title, roster[k]) >= Threshold
    ensures PrimaryMatch(sc, roster, name, title) == Some(roster[k])
  {
    var s := PrimaryScores(sc, roster, name, title);
    assert IsFirstMax(s, k);
    FirstMaxUnique(s, k);
  }

  /**
   * An entry whose name and title both score 100 is the primary match
   * unless an earlier entry also reaches the top score.
   */
  lemma ExactEntrySelected(sc: Scorers, roster: seq<RosterEntry>, name: Cell, title: Cell, k: nat)
    requires InRange(sc)
    requires k < |roster|
    requires sc.tokenSetRatio(Normalize(CellText(name)), Normalize(CellText(roster[k].name))) == 100.0
    requires sc.tokenSortRatio(Normalize(CellText(title)), Normalize(CellText(roster[k].title))) == 100.0
    requires forall j :: 0 <= j < k ==> Composite(sc, name, title, roster[j]) < 100.0
    ensures PrimaryMatch(sc, roster, name, title) == Some(roster[k])
  {
    forall j | 0 <= j < |roster| ensures Composite(sc, name, title, roster[j]) <= 100.0 {
      CompositeRange(sc, name, title, roster[j]);
    }
    CompositeRange(sc, name, title, roster[k]);
    PrimaryMatchIsFirstBest(sc, roster, name, title, k);
  }

  /** The entry is in the blank-deal category: its SF number's text starts with "BD". */
  predicate IsBlankDeal(e: RosterEntry)
  {
    StartsWith(CellText(e.sfNumber), "BD")
  }

  /** The blank-deal entries of the roster, in roster order. */
  function BlankDeals(roster: seq<RosterEntry>): (bd: seq<RosterEntry>)
    ensures forall i :: 0 <= i < |bd| ==> IsBlankDeal(bd[i]) && bd[i] in roster
    ensures forall i :: 0 <= i < |roster| && IsBlankDeal(roster[i]) ==> roster[i] in bd
  {
    Filter(roster, IsBlankDeal)
  }

  /** The title and SF number the fallback scan accepts for a row's title, if any. */
  function BlankDealMatch(sc: Scorers, roster: seq<RosterEntry>, title: Cell): Option<BlankDealHit>
  {
    var bd := BlankDeals(roster);
    match Best(TitleScores(sc, bd, title))
    case None => None
    case Some(k) => Some(BlankDealHit(bd[k].title, bd[k].sfNumber))
  }

  /**
   * The fallback finds nothing exactly when every blank-deal entry's title
   * score is below 85; what it finds comes from a blank-deal entry, never
   * from another one, whose title score reaches 85.
   */
  lemma BlankDealMatchSpec(sc: Scorers, roster: seq<RosterEntry>, title: Cell)
    ensures var m := BlankDealMatch(sc, roster, title);
            && (m.None? <==> forall j :: 0 <= j < |roster| && IsBlankDeal(roster[j]) ==> TitleScore(sc, title, roster[j]) < Threshold)
            && (m.Some? ==> StartsWith(CellText(m.value.sfNumber), "BD"))
            && (m.Some? ==> exists e :: && e in roster && IsBlankDeal(e)
                                        && m.value == BlankDealHit(e.title, e.sfNumber)
                                        && TitleScore(sc, title, e) >= Threshold)
  {
    var bd := BlankDeals(roster);
    var s := TitleScores(sc, bd, title);
    BestSpec(s);
    var b := Best(s);
    if b.Some? {
      assert bd[b.value] in roster;
    } else {
      forall j | 0 <= j < |roster| && IsBlankDeal(roster[j]) ensures TitleScore(sc, title, roster[j]) < Threshold {
        var k :| 0 <= k < |bd| && bd[k] == roster[j];
        assert s[k] == TitleScore(sc, title, bd[k]);
      }
    }
  }

  /** The blank-deal fallback picks the earliest blank-deal entry with the maximal title score, if it reaches 85. */
  lemma {:induction false} BlankDealMatchIsFirstBest(sc: Scorers, roster: seq<RosterEntry>, title: Cell, k: nat)
    requires k < |BlankDeals(roster)|
    requires IsFirstMax(TitleScores(sc, BlankDeals(roster), title), k)
    requires TitleScore(sc, title, BlankDeals(roster)[k]) >= Threshold
    ensures BlankDealMatch(sc, roster, title) == Some(BlankDealHit(BlankDeals(roster)[k].title, BlankDeals(roster)[k].sfNumber))
  {
    FirstMaxUnique(TitleScores(sc, BlankDeals(roster), title), k);
  }

  /** `find_best_match`: one left-to-right scan keeping the best entry so far, replaced only on a strictly higher score. */
  method FindBestMatch(sc: Scorers, roster: seq<RosterEntry>, name: Cell, title: Cell) returns (m: Option<RosterEntry>)
    ensures m == PrimaryMatch(sc, roster, name, title)
  {
    var nameNorm := Normalize(CellText(name));
    var titleNorm := Normalize(CellText(title));
    var bestScore: real, bestMatch: Option<RosterEntry> := 0.0, None;
    ghost var s := PrimaryScores(sc, roster, name, title);
    ghost var bestIndex := 0;
    for i := 0 to |roster|
      invariant 0.0 <= bestScore
      invariant forall j :: 0 <= j < i ==> s[j] <= bestScore
      invariant bestMatch.None? ==> bestScore == 0.0
      invariant bestMatch.Some? ==> && 0 <= bestIndex < i && s[bestIndex] == bestScore
                                    && bestMatch.value == roster[bestIndex]
                                    && forall j :: 0 <= j < bestIndex ==> s[j] < bestScore
    {
      var e := roster[i];
      var nameScore := sc.tokenSetRatio(nameNorm, Normalize(CellText(e.name)));
      var titleScore := sc.tokenSortRatio(titleNorm, Normalize(CellText(e.title)));
      var score := 0.7 * nameScore + 0.3 * titleScore;
      assert score == s[i];
      if score > bestScore {
        bestScore := score;
        bestMatch := Some(e);
        bestIndex := i;
      }
    }
    if bestScore >= Threshold {
      assert IsFirstMax(s, bestIndex);
      FirstMaxUnique(s, bestIndex);
      m := bestMatch;
    } else {
      BestSpec(s);
      m := None;
    }
  }

  /**
   * `match_blank_deal_title`: restrict the roster to blank-deal entries, then
   * the same scan on the title score alone.
   */
  method MatchBlankDealTitle(sc: Scorers, roster: seq<RosterEntry>, title: Cell) returns (m: Option<BlankDealHit>)
    ensures m == BlankDealMatch(sc, roster, title)
  {
    var bd := BlankDeals(roster);
    var bestScore: real, bestHit: Option<BlankDealHit> := 0.0, None;
    ghost var s := TitleScores(sc, bd, title);
    ghost var bestIndex := 0;
    for i := 0 to |bd|
      invariant 0.0 <= bestScore
      invariant forall j :: 0 <= j < i ==> s[j] <= bestScore
      invariant bestHit.None? ==> bestScore == 0.0
      invariant bestHit.Some? ==> && 0 <= bestIndex < i && s[bestIndex] == bestScore
                                  && bestHit.value == BlankDealHit(bd[bestIndex].title, bd[bestIndex].sfNumber)
                                  && forall j :: 0 <= j < bestIndex ==> s[j] < bestScore
    {
      var score := sc.tokenSortRatio(Normalize(CellText(title)), Normalize(CellText(bd[i].title)));
      assert score == s[i];
      if score > bestScore {
        bestScore := score;
        bestHit := Some(BlankDealHit(bd[i].title, bd[i].sfNumber));
        bestIndex := i;
      }
    }
    if bestScore >= Threshold {
      assert IsFirstMax(s, bestIndex);
      FirstMaxUnique(s, bestIndex);
      m := bestHit;
    } else {
      BestSpec(s);
      m := None;
    }
  }
}
