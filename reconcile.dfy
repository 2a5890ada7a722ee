/**
 * The match-and-correct pass: every kept time-sheet row is resolved against
 * the Start Form roster by the three-tier rule (primary match, blank-deal
 * fallback, unchanged) and one value is appended to each of six result
 * columns.
 */
module Reconcile {
  import opened Wrappers
  import opened Text
  import opened Sequences
  import opened Classifier
  import opened Matching

  /** The `Match result` column's values. */
  datatype Outcome = Same | Changed | BlankDeal

  /** The text written to the `Match result` column. */
  function Label(o: Outcome): (s: string)
    ensures s == "Same" || s == "Changed" || s == "Blank Deal"
  {
    match o
    case Same => "Same"
    case Changed => "Changed"
    case BlankDeal => "Blank Deal"
  }

  /** The corrected name and title of a row, its outcome and its matched SF number. */
  datatype Resolution = Resolution(name: Cell, title: Cell, outcome: Outcome, sfNumber: Cell)

  /** Python's `!=` between two cells: a missing value (NaN) differs from everything, itself included. */
  predicate Differs(a: Cell, b: Cell)
  {
    a.None? || b.None? || a.value != b.value
  }

  /** Python's truth value of a cell: NaN is true, the empty string is false. */
  predicate Truthy(c: Cell)
  {
    c.None? || c.value != ""
  }

  /**
   * How one row's name and title are resolved: the primary match's values
   * when there is one; otherwise a Blank Deal when the fallback finds a
   * truthy title; otherwise the row unchanged with an empty SF number.
   */
  function Resolve(sc: Scorers, roster: seq<RosterEntry>, name: Cell, title: Cell): Resolution
  {
    match PrimaryMatch(sc, roster, name, title)
    case Some(e) =>
      Resolution(e.name, e.title, if Differs(e.name, name) || Differs(e.title, title) then Changed else Same, e.sfNumber)
    case None =>
      var hit := BlankDealMatch(sc, roster, title);
      if hit.Some? && Truthy(hit.value.title) then Resolution(name, hit.value.title, BlankDeal, hit.value.sfNumber)
      else Resolution(name, title, Same, Some(""))
  }

  /**
   * What each outcome means. Same: the name and title are the row's own.
   * Changed: they come from one roster entry, with its SF number, and differ
   * from the row's. Blank Deal: the name is the row's own, the title is
   * truthy, the SF number starts with "BD", and no composite score reached 85.
   */
  lemma ResolveOutcomes(sc: Scorers, roster: seq<RosterEntry>, name: Cell, title: Cell)
    ensures var r := Resolve(sc, roster, name, title);
            && (r.outcome == Same ==> r.name == name && r.title == title)
            && (r.outcome == Changed ==> && (Differs(r.name, name) || Differs(r.title, title))
                                         && RosterEntry(r.name, r.title, r.sfNumber) in roster)
            && (r.outcome == BlankDeal ==> && r.name == name && Truthy(r.title)
                                           && StartsWith(CellText(r.sfNumber), "BD")
                                           && forall j :: 0 <= j < |roster| ==> Composite(sc, name, title, roster[j]) < Threshold)
  {
    PrimaryMatchSpec(sc, roster, name, title);
    BlankDealMatchSpec(sc, roster, title);
  }

  /**
   * First tier: when some entry's composite score reaches 85, the row takes
   * the earliest best entry's name, title and SF number, and the outcome is
   * Changed exactly when that name or title differs from the row's, Same
   * otherwise.
   */
  lemma ResolvePrimary(sc: Scorers, roster: seq<RosterEntry>, name: Cell, title: Cell, k: nat)
    requires k < |roster|
    requires forall j :: 0 <= j < |roster| ==> Composite(sc, name, title, roster[j]) <= Composite(sc, name, title, roster[k])
    requires forall j :: 0 <= j < k ==> Composite(sc, name, title, roster[j]) < Composite(sc, name, title, roster[k])
    requires Composite(sc, name, title, roster[k]) >= Threshold
    ensures var r := Resolve(sc, roster, name, title);
            && r.name == roster[k].name && r.title == roster[k].title && r.sfNumber == roster[k].sfNumber
            && (r.outcome == Changed <==> Differs(roster[k].name, name) || Differs(roster[k].title, title))
            && (r.outcome == Same <==> !Differs(roster[k].name, name) && !Differs(roster[k].title, title))
  {
    PrimaryMatchIsFirstBest(sc, roster, name, title, k);
  }

  /**
   * Second tier: when no composite score reaches 85 but the earliest best
   * blank-deal title score does, the name is kept and, if that entry's title
   * is truthy, the row takes its title and SF number as a Blank Deal;
   * otherwise the row is unchanged with an empty SF number.
   */
  lemma ResolveBlankDeal(sc: Scorers, roster: seq<RosterEntry>, name: Cell, title: Cell, k: nat)
    requires forall j :: 0 <= j < |roster| ==> Composite(sc, name, title, roster[j]) < Threshold
    requires k < |BlankDeals(roster)|
    requires IsFirstMax(TitleScores(sc, BlankDeals(roster), title), k)
    requires TitleScore(sc, title, BlankDeals(roster)[k]) >= Threshold
    ensures var e := BlankDeals(roster)[k];
            Resolve(sc, roster, name, title)
            == if Truthy(e.title) then Resolution(name, e.title, BlankDeal, e.sfNumber)
               else Resolution(name, title, Same, Some(""))
  {
    BlankDealMatchIsFirstBest(sc, roster, title, k);
  }

  /**
   * Third tier: when neither scan reaches 85, the row keeps its name and
   * title, its outcome is Same and its SF number is empty.
   */
  lemma ResolveUnmatched(sc: Scorers, roster: seq<RosterEntry>, name: Cell, title: Cell)
    requires forall j :: 0 <= j < |roster| ==> Composite(sc, name, title, roster[j]) < Threshold
    requires forall j :: 0 <= j < |roster| && IsBlankDeal(roster[j]) ==> TitleScore(sc, title, roster[j]) < Threshold
    ensures Resolve(sc, roster, name, title) == Resolution(name, title, Same, Some(""))
  {
  }

  /** The six result columns, one entry per kept row. */
  datatype Columns = Columns(originalName: seq<Cell>, originalTitle: seq<Cell>,
                             name: seq<Cell>, title: seq<Cell>,
                             matchResult: seq<string>, matchedSf: seq<Cell>)

  /** Every column holds exactly `n` values. */
  predicate ColumnsCount(c: Columns, n: nat)
  {
    && |c.originalName| == n && |c.originalTitle| == n && |c.name| == n
    && |c.title| == n && |c.matchResult| == n && |c.matchedSf| == n
  }

  /** Position `i` of every column holds `row`'s own name and title followed by its resolution `r`. */
  predicate Describes(c: Columns, i: nat, row: Row, r: Resolution)
    requires ColumnsCount(c, |c.name|) && i < |c.name|
  {
    && c.originalName[i] == row.name && c.originalTitle[i] == row.title
    && c.name[i] == r.name && c.title[i] == r.title
    && c.matchResult[i] == Label(r.outcome) && c.matchedSf[i] == r.sfNumber
  }

  /** No values in any column. */
  const NoColumns := Columns([], [], [], [], [], [])

  /** The columns with one more row's values appended. */
  function Append(c: Columns, row: Row, r: Resolution): (c': Columns)
    ensures ColumnsCount(c, |c.name|) ==> ColumnsCount(c', |c.name| + 1)
  {
    Columns(c.originalName + [row.name], c.originalTitle + [row.title],
            c.name + [r.name], c.title + [r.title],
            c.matchResult + [Label(r.outcome)], c.matchedSf + [r.sfNumber])
  }

  /** Two column sets, one after the other. */
  function Concat(a: Columns, b: Columns): Columns
  {
    Columns(a.originalName + b.originalName, a.originalTitle + b.originalTitle,
            a.name + b.name, a.title + b.title,
            a.matchResult + b.matchResult, a.matchedSf + b.matchedSf)
  }

  /** How a row's name and title are resolved, as a value: `Resolve` for the real pass. */
  type Resolver = (Cell, Cell) -> Resolution

  /** The columns after the given rows have been processed in order, each resolved by `resolve`. */
  function CorrectedBy(resolve: Resolver, rows: seq<Row>): Columns
  {
    if rows == [] then NoColumns
    else
      var row := rows[|rows| - 1];
      Append(CorrectedBy(resolve, rows[..|rows| - 1]), row, resolve(row.name, row.title))
  }

  /** The columns after the given rows have been matched and corrected against the roster. */
  function Corrected(sc: Scorers, roster: seq<RosterEntry>, rows: seq<Row>): Columns
  {
    CorrectedBy((name, title) => Resolve(sc, roster, name, title), rows)
  }

  /**
   * Every row yields exactly one value in each of the six columns, and
   * position i of every column belongs to row i.
   */
  lemma {:induction false} CorrectedAt(resolve: Resolver, rows: seq<Row>)
    ensures ColumnsCount(CorrectedBy(resolve, rows), |rows|)
    ensures forall i :: 0 <= i < |rows| ==>
              Describes(CorrectedBy(resolve, rows), i, rows[i], resolve(rows[i].name, rows[i].title))
  {
    if rows != [] {
      var front := rows[..|rows| - 1];
      CorrectedAt(resolve, front);
      var c := CorrectedBy(resolve, rows);
      forall i | 0 <= i < |rows| ensures Describes(c, i, rows[i], resolve(rows[i].name, rows[i].title)) {
        if i < |front| {
          assert front[i] == rows[i];
          assert Describes(CorrectedBy(resolve, front), i, front[i], resolve(front[i].name, front[i].title));
        }
      }
    }
  }

  /**
   * Row i of the corrected columns holds row i's original name and title
   * and its resolution against the roster.
   */
  lemma CorrectedRow(sc: Scorers, roster: seq<RosterEntry>, rows: seq<Row>, i: nat)
    requires i < |rows|
    ensures ColumnsCount(Corrected(sc, roster, rows), |rows|)
    ensures Describes(Corrected(sc, roster, rows), i, rows[i], Resolve(sc, roster, rows[i].name, rows[i].title))
  {
    CorrectedAt((name, title) => Resolve(sc, roster, name, title), rows);
  }

  /** Appending after a concatenation appends to its second part. */
  lemma ConcatAppend(a: Columns, b: Columns, row: Row, r: Resolution)
    ensures Concat(a, Append(b, row, r)) == Append(Concat(a, b), row, r)
  {
    assert a.originalName + (b.originalName + [row.name]) == (a.originalName + b.originalName) + [row.name];
    assert a.originalTitle + (b.originalTitle + [row.title]) == (a.originalTitle + b.originalTitle) + [row.title];
    assert a.name + (b.name + [r.name]) == (a.name + b.name) + [r.name];
    assert a.title + (b.title + [r.title]) == (a.title + b.title) + [r.title];
    assert a.matchResult + (b.matchResult + [Label(r.outcome)]) == (a.matchResult + b.matchResult) + [Label(r.outcome)];
    assert a.matchedSf + (b.matchedSf + [r.sfNumber]) == (a.matchedSf + b.matchedSf) + [r.sfNumber];
  }

  /**
   * The columns of a concatenation are the columns of the first part followed
   * by those of the second: rows are neither reordered nor merged.
   */
  lemma {:induction false} CorrectedConcat(resolve: Resolver, front: seq<Row>, back: seq<Row>)
    ensures CorrectedBy(resolve, front + back) == Concat(CorrectedBy(resolve, front), CorrectedBy(resolve, back))
  {
    var a := CorrectedBy(resolve, front);
    if back == [] {
      assert front + back == front;
      assert Concat(a, NoColumns) == a;
    } else {
      var row := back[|back| - 1];
      assert (front + back)[..|front + back| - 1] == front + back[..|back| - 1];
      CorrectedConcat(resolve, front, back[..|back| - 1]);
      ConcatAppend(a, CorrectedBy(resolve, back[..|back| - 1]), row, resolve(row.name, row.title));
    }
  }

  /**
   * Every uploaded row is accounted for exactly once: the corrected columns
   * hold one value per kept row and the remaining rows are the dropped ones.
   */
  lemma EveryRowAccounted(sc: Scorers, roster: seq<RosterEntry>, rows: seq<Row>)
    ensures ColumnsCount(Corrected(sc, roster, Kept(rows)), |rows| - |Dropped(rows)|)
    ensures multiset(Kept(rows)) + multiset(Dropped(rows)) == multiset(rows)
  {
    CorrectedAt((name, title) => Resolve(sc, roster, name, title), Kept(rows));
    KeptDroppedPartition(rows, rows, []);
  }

  /**
   * One row of the match-and-correct loop: the primary scan first, the
   * blank-deal scan only when it finds nothing.
   */
  method CorrectRow(sc: Scorers, roster: seq<RosterEntry>, origName: Cell, origTitle: Cell)
    returns (name: Cell, title: Cell, outcome: Outcome, sf: Cell)
    ensures Resolution(name, title, outcome, sf) == Resolve(sc, roster, origName, origTitle)
  {
    var m := FindBestMatch(sc, roster, origName, origTitle);
    if m.Some? {
      var e := m.value;
      name, title, sf := e.name, e.title, e.sfNumber;
      outcome := if Differs(e.name, origName) || Differs(e.title, origTitle) then Changed else Same;
    } else {
      var bd := MatchBlankDealTitle(sc, roster, origTitle);
      if bd.Some? && Truthy(bd.value.title) {
        name, title, sf, outcome := origName, bd.value.title, bd.value.sfNumber, BlankDeal;
      } else {
        name, title, sf, outcome := origName, origTitle, Some(""), Same;
      }
    }
  }

  /**
   * The match-and-correct loop: for each row in order, the original name and
   * title, the corrected name and title, the match result and the matched SF
   * number are appended to the six columns.
   */
  method MatchAndCorrect(sc: Scorers, roster: seq<RosterEntry>, rows: seq<Row>) returns (c: Columns)
    ensures c == Corrected(sc, roster, rows)
  {
    c := NoColumns;
    for i := 0 to |rows|
      invariant c == Corrected(sc, roster, rows[..i])
    {
      var name, title, outcome, sf := CorrectRow(sc, roster, rows[i].name, rows[i].title);
      c := Append(c, rows[i], Resolution(name, title, outcome, sf));
      assert rows[..i + 1][..i] == rows[..i];
    }
    assert rows[..|rows|] == rows;
  }
}
