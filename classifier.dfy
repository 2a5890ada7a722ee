/**
 * The row classifier: whether a daily time-sheet row records work, and the
 * split of all uploaded rows into the kept rows and the dropped (audit) rows.
 */
module Classifier {
  import opened Wrappers
  import opened Text
  import opened Sequences

  /**
   * One time-sheet row: the name (`Név (angolul)`), title (`Beosztás`),
   * worked amount (`Dolgozott`) and start time (`Kezdés`) cells, the
   * originating file and the columns passed through unchanged.
   */
  datatype Row = Row(name: Cell, title: Cell, worked: Cell, start: Cell,
                     sourceFile: string, passthrough: seq<Cell>)

  /** A decimal number as written: sign, digits before and after the point. */
  datatype Decimal = Decimal(negative: bool, whole: string, fraction: string)

  predicate IsDigit(c: char) { '0' <= c <= '9' }

  predicate AllDigits(s: string) { forall i :: 0 <= i < |s| ==> IsDigit(s[i]) }

  /** Some digit of `s` is not zero. */
  predicate HasNonZero(s: string) { exists i :: 0 <= i < |s| && s[i] != '0' }

  /** A decimal the parser can produce: digits only, and at least one of them. */
  predicate WellFormed(d: Decimal)
  {
    AllDigits(d.whole) && AllDigits(d.fraction) && |d.whole| + |d.fraction| > 0
  }

  /** The number is strictly greater than zero. */
  predicate IsPositive(d: Decimal)
  {
    !d.negative && (HasNonZero(d.whole) || HasNonZero(d.fraction))
  }

  /** The position of the first occurrence of `c` in `s`, if any. */
  function IndexOf(s: string, c: char): (r: Option<nat>)
    ensures r.None? ==> forall i :: 0 <= i < |s| ==> s[i] != c
    ensures r.Some? ==> r.value < |s| && s[r.value] == c && forall i :: 0 <= i < r.value ==> s[i] != c
  {
    if s == [] then None
    else if s[0] == c then Some(0)
    else match IndexOf(s[1..], c)
      case None => None
      case Some(k) => Some(k + 1)
  }

  /** The sign of a number's text and the text after it. */
  function SplitSign(s: string): (r: (bool, string))
  {
    if |s| > 0 && (s[0] == '-' || s[0] == '+') then (s[0] == '-', s[1..]) else (false, s)
  }

  /**
   * Splitting off the sign loses nothing: the text is a sign of at most one
   * character followed by the rest, negative exactly for `-`, and a leading
   * `+` or `-` is always taken.
   */
  lemma SplitSignRestores(s: string)
    ensures var r := SplitSign(s);
            && |r.1| <= |s| && s == s[..|s| - |r.1|] + r.1
            && var sign := s[..|s| - |r.1|];
               && (sign == "" || sign == "+" || sign == "-")
               && (r.0 <==> sign == "-")
               && (sign == "" ==> |s| == 0 || (s[0] != '+' && s[0] != '-'))
  {
    if |s| > 0 && (s[0] == '-' || s[0] == '+') {
      assert s[..1] == [s[0]];
    }
  }

  /** Digits with at most one decimal point and at least one digit, split at the point. */
  function ParseUnsigned(body: string): (r: Option<(string, string)>)
    ensures r.Some? ==> AllDigits(r.value.0) && AllDigits(r.value.1) && |r.value.0| + |r.value.1| > 0
    ensures r.Some? ==> body == r.value.0 + "." + r.value.1 || (r.value.1 == "" && body == r.value.0)
  {
    match IndexOf(body, '.')
    case None =>
      if AllDigits(body) && |body| > 0 then Some((body, "")) else None
    case Some(k) =>
      var whole, fraction := body[..k], body[k + 1..];
      if AllDigits(whole) && AllDigits(fraction) && |whole| + |fraction| > 0
      then Some((whole, fraction))
      else None
  }

  /**
   * Python's `float()` restricted to plain decimals: an optional sign, then
   * digits with at most one decimal point and at least one digit.
   */
  function ParseDecimal(s: string): (r: Option<Decimal>)
    ensures r.Some? ==> WellFormed(r.value)
  {
    var (negative, body) := SplitSign(s);
    match ParseUnsigned(body)
    case None => None
    case Some(parts) => Some(Decimal(negative, parts.0, parts.1))
  }

  /** The text of a decimal, with a point even when the fraction is empty. */
  function Format(d: Decimal): string
  {
    (if d.negative then "-" else "") + d.whole + "." + d.fraction
  }

  /** Digits around a single point are split at that point. */
  lemma {:induction false} ParseUnsignedPoint(whole: string, fraction: string)
    requires AllDigits(whole) && AllDigits(fraction) && |whole| + |fraction| > 0
    ensures ParseUnsigned(whole + "." + fraction) == Some((whole, fraction))
  {
    var body := whole + "." + fraction;
    assert body[|whole|] == '.';
    assert forall i :: 0 <= i < |whole| ==> body[i] == whole[i];
    assert IndexOf(body, '.') == Some(|whole|);
    assert body[..|whole|] == whole;
    assert body[|whole| + 1..] == fraction;
  }

  /** Digits alone, without a point, are a whole number. */
  lemma ParseUnsignedDigits(digits: string)
    requires AllDigits(digits) && |digits| > 0
    ensures ParseUnsigned(digits) == Some((digits, ""))
  {
    assert IndexOf(digits, '.') == None;
  }

  /** Every decimal the parser can produce is read back from its text. */
  lemma {:induction false} ParseFormat(d: Decimal)
    requires WellFormed(d)
    ensures ParseDecimal(Format(d)) == Some(d)
  {
    var body := d.whole + "." + d.fraction;
    ParseUnsignedPoint(d.whole, d.fraction);
    if d.negative {
      assert Format(d) == "-" + body;
      assert ("-" + body)[1..] == body;
    } else {
      assert Format(d) == body;
      assert body[0] != '-' && body[0] != '+' by {
        if |d.whole| > 0 { assert body[0] == d.whole[0]; } else { assert body[0] == '.'; }
      }
    }
  }

  /**
   * Every plain decimal text is accepted: an optional sign, digits with at
   * most one point and at least one digit parse to exactly those parts.
   */
  lemma ParseDecimalAccepts(sign: string, whole: string, fraction: string, point: bool)
    requires sign == "" || sign == "+" || sign == "-"
    requires AllDigits(whole) && AllDigits(fraction) && |whole| + |fraction| > 0
    requires !point ==> fraction == ""
    ensures ParseDecimal(sign + whole + (if point then "." + fraction else "")) == Some(Decimal(sign == "-", whole, fraction))
  {
    var body := whole + (if point then "." + fraction else "");
    var s := sign + whole + (if point then "." + fraction else "");
    assert s == sign + body;
    if point {
      assert body == whole + "." + fraction;
      ParseUnsignedPoint(whole, fraction);
    } else {
      assert body == whole;
      ParseUnsignedDigits(whole);
    }
    assert body[0] != '-' && body[0] != '+' by {
      if |whole| > 0 { assert body[0] == whole[0]; } else { assert body[0] == '.'; }
    }
    if sign == "" {
      assert s == body;
    } else {
      assert s[1..] == body;
    }
    assert SplitSign(s) == (sign == "-", body);
  }

  /**
   * An accepted text is exactly the decimal's own sign, digits and point:
   * the parser reads nothing else.
   */
  lemma ParseDecimalText(s: string)
    ensures ParseDecimal(s).Some? ==>
              var d := ParseDecimal(s).value;
              exists sign :: && (sign == "" || sign == "+" || sign == "-") && (d.negative <==> sign == "-")
                             && (s == sign + d.whole + "." + d.fraction || (d.fraction == "" && s == sign + d.whole))
  {
    if ParseDecimal(s).Some? {
      var d := ParseDecimal(s).value;
      var body := SplitSign(s).1;
      SplitSignRestores(s);
      var sign := s[..|s| - |body|];
      assert s == sign + body;
      if body == d.whole + "." + d.fraction {
        assert s == sign + d.whole + "." + d.fraction;
      } else {
        assert s == sign + d.whole;
      }
    }
  }

  /** Every character of an accepted unsigned text is a digit or the point. */
  lemma UnsignedCharacters(body: string, j: nat)
    requires j < |body| && ParseUnsigned(body).Some?
    ensures IsDigit(body[j]) || body[j] == '.'
  {
    var (whole, fraction) := ParseUnsigned(body).value;
    if body == whole + "." + fraction {
      if j < |whole| {
        assert body[j] == whole[j];
      } else if j > |whole| {
        assert body[j] == fraction[j - |whole| - 1];
      }
    } else {
      assert body[j] == whole[j];
    }
  }

  /** Every character of an accepted text is a digit, the point, or a sign in first position. */
  lemma ParsedCharacters(s: string, i: nat)
    requires i < |s| && ParseDecimal(s).Some?
    ensures IsDigit(s[i]) || s[i] == '.' || (i == 0 && (s[i] == '+' || s[i] == '-'))
  {
    var body := SplitSign(s).1;
    SplitSignRestores(s);
    var sign := s[..|s| - |body|];
    assert s == sign + body;
    if i < |sign| {
      assert s[i] == sign[i];
    } else {
      assert s[i] == body[i - |sign|];
      UnsignedCharacters(body, i - |sign|);
    }
  }

  /**
   * A text holding a character that is neither a digit, nor a point, nor a
   * sign in first position is not a number.
   */
  lemma NonNumericRejected(s: string, i: nat)
    requires i < |s| && !IsDigit(s[i]) && s[i] != '.' && !(i == 0 && (s[i] == '+' || s[i] == '-'))
    ensures ParseDecimal(s) == None
  {
    if ParseDecimal(s).Some? {
      ParsedCharacters(s, i);
    }
  }

  /** Every occurrence of `from` replaced by `to` (Python's `str.replace` on one character). */
  function ReplaceChar(s: string, from: char, to: char): (r: string)
  {
    seq(|s|, i requires 0 <= i < |s| => if s[i] == from then to else s[i])
  }

  /**
   * Replacing is exact: no `from` is left when `to` differs, text without
   * `from` is unchanged, and the replacement works piece by piece.
   */
  lemma ReplaceCharFacts(a: string, b: string, from: char, to: char)
    ensures from != to ==> from !in ReplaceChar(a, from, to)
    ensures from !in a ==> ReplaceChar(a, from, to) == a
    ensures ReplaceChar(a + b, from, to) == ReplaceChar(a, from, to) + ReplaceChar(b, from, to)
  {
    var r := ReplaceChar(a, from, to);
    if from != to {
      forall k | 0 <= k < |r| ensures r[k] != from {
      }
    }
    if from !in a {
      assert forall k :: 0 <= k < |a| ==> r[k] == a[k];
    }
  }

  /** The text parses as a number greater than zero. */
  predicate ParsesPositive(s: string)
  {
    match ParseDecimal(s)
    case None => false
    case Some(d) => IsPositive(d)
  }

  /**
   * The worked amount records work: the cell is present, its stripped text is
   * not "", "0" or "0.0", and after replacing decimal commas by points it
   * parses as a number greater than zero. A parse failure means no work.
   */
  predicate Worked(amount: Cell)
  {
    if amount.None? then false
    else
      var t := Trim(amount.value);
      if t == "" || t == "0" || t == "0.0" then false
      else ParsesPositive(Trim(ReplaceChar(amount.value, ',', '.')))
  }

  /** The start time is present and not blank. */
  predicate HasStart(start: Cell)
  {
    start.Some? && Trim(start.value) != ""
  }

  /** The row is kept: it records a positive worked amount or a start time. */
  predicate WasWorking(row: Row)
  {
    Worked(row.worked) || HasStart(row.start)
  }

  /** The row is dropped from the corrected sheet and kept for audit. */
  predicate IsDropped(row: Row)
  {
    !WasWorking(row)
  }

  /** The rows that go on to matching, in upload order. */
  function Kept(rows: seq<Row>): (r: seq<Row>)
    ensures forall i :: 0 <= i < |r| ==> WasWorking(r[i]) && r[i] in rows
    ensures forall i :: 0 <= i < |rows| && WasWorking(rows[i]) ==> rows[i] in r
  {
    Filter(rows, WasWorking)
  }

  /** The rows that are set aside, in upload order. */
  function Dropped(rows: seq<Row>): (r: seq<Row>)
    ensures forall i :: 0 <= i < |r| ==> !WasWorking(r[i]) && r[i] in rows
    ensures forall i :: 0 <= i < |rows| && !WasWorking(rows[i]) ==> rows[i] in r
  {
    Filter(rows, IsDropped)
  }

  /** Replacing commas commutes with stripping, since neither a comma nor a point is white space. */
  lemma {:induction false} TrimReplace(s: string)
    ensures Trim(ReplaceChar(s, ',', '.')) == ReplaceChar(Trim(s), ',', '.')
  {
    var r := ReplaceChar(s, ',', '.');
    if |s| > 0 && IsSpace(s[0]) {
      assert r[1..] == ReplaceChar(s[1..], ',', '.');
      TrimReplace(s[1..]);
    } else if |s| > 0 && IsSpace(s[|s| - 1]) {
      assert r[..|s| - 1] == ReplaceChar(s[..|s| - 1], ',', '.');
      TrimReplace(s[..|s| - 1]);
    }
  }

  /**
   * The explicit check for a blank, "0" or "0.0" amount never changes the
   * verdict: an amount records work exactly when it is present and its
   * comma-corrected, stripped text parses as a positive number.
   */
  lemma {:induction false} WorkedIffPositive(amount: Cell)
    ensures Worked(amount) <==> amount.Some? && ParsesPositive(Trim(ReplaceChar(amount.value, ',', '.')))
  {
    if amount.Some? {
      var t := Trim(amount.value);
      TrimReplace(amount.value);
      if t == "" || t == "0" || t == "0.0" {
        ZeroAmountsNotPositive(t);
      }
    }
  }

  /** The amounts the classifier rejects up front do not parse as positive numbers either. */
  lemma ZeroAmountsNotPositive(t: string)
    requires t == "" || t == "0" || t == "0.0"
    ensures !ParsesPositive(ReplaceChar(t, ',', '.'))
  {
    if t == "" {
      assert ReplaceChar(t, ',', '.') == "";
      assert IndexOf("", '.') == None;
    } else if t == "0" {
      assert ReplaceChar(t, ',', '.') == "0";
      assert SplitSign("0") == (false, "0");
      ParseUnsignedDigits("0");
      assert !HasNonZero("0");
    } else {
      assert ReplaceChar(t, ',', '.') == "0.0";
      assert Format(Decimal(false, "0", "0")) == "0.0";
      ParseFormat(Decimal(false, "0", "0"));
      assert !HasNonZero("0");
    }
  }

  /**
   * An amount whose comma-corrected, stripped text holds a character that
   * cannot be part of a number records no work: the failed parse means false.
   */
  lemma NonNumericNotWorked(v: string, i: nat)
    requires var t := Trim(ReplaceChar(v, ',', '.'));
             i < |t| && !IsDigit(t[i]) && t[i] != '.' && !(i == 0 && (t[i] == '+' || t[i] == '-'))
    ensures !Worked(Some(v))
  {
    WorkedIffPositive(Some(v));
    NonNumericRejected(Trim(ReplaceChar(v, ',', '.')), i);
  }

  /**
   * The kept and dropped rows partition the uploaded rows: together they hold
   * every row exactly once, and each selection keeps upload order (it
   * distributes over any split of the rows into a front and a back part).
   */
  lemma {:induction false} KeptDroppedPartition(rows: seq<Row>, front: seq<Row>, back: seq<Row>)
    requires rows == front + back
    ensures |Kept(rows)| + |Dropped(rows)| == |rows|
    ensures multiset(Kept(rows)) + multiset(Dropped(rows)) == multiset(rows)
    ensures Kept(rows) == Kept(front) + Kept(back)
    ensures Dropped(rows) == Dropped(front) + Dropped(back)
  {
    FilterPartition(rows, WasWorking, IsDropped);
    FilterConcat(front, back, WasWorking);
    FilterConcat(front, back, IsDropped);
  }

  /** Example: the letters "abc" are not a number. */
  lemma LettersDoNotParse()
    ensures Trim(ReplaceChar("abc", ',', '.')) == "abc"
    ensures !ParsesPositive("abc")
  {
    assert ReplaceChar("abc", ',', '.') == "abc";
    TrimTrimmed("abc");
    assert SplitSign("abc") == (false, "abc");
    assert !AllDigits("abc") by { assert !IsDigit("abc"[0]); }
    assert IndexOf("abc", '.') == None;
  }

  /** "7,5" becomes "7.5", a positive number. */
  lemma CommaBecomesPoint()
    ensures Trim(ReplaceChar("7,5", ',', '.')) == "7.5"
    ensures ParsesPositive("7.5")
  {
    assert ReplaceChar("7,5", ',', '.') == "7.5";
    TrimTrimmed("7.5");
    assert Format(Decimal(false, "7", "5")) == "7.5";
    ParseFormat(Decimal(false, "7", "5"));
    assert HasNonZero("7") by { assert "7"[0] != '0'; }
  }

  /** A whole number without a point, and a signed fraction without whole digits, record work. */
  lemma PlainAmountsWork()
    ensures Worked(Some("8"))
    ensures Worked(Some("+.5"))
  {
    WorkedIffPositive(Some("8"));
    assert ReplaceChar("8", ',', '.') == "8";
    TrimTrimmed("8");
    ParseDecimalAccepts("", "8", "", false);
    assert "" + "8" + "" == "8";
    assert HasNonZero("8") by { assert "8"[0] != '0'; }
    WorkedIffPositive(Some("+.5"));
    assert ReplaceChar("+.5", ',', '.') == "+.5";
    TrimTrimmed("+.5");
    ParseDecimalAccepts("+", "", "5", true);
    assert "+" + "" + ("." + "5") == "+.5";
    assert HasNonZero("5") by { assert "5"[0] != '0'; }
  }

  /** An amount that is not a number records no work; a decimal comma is read as a point. */
  lemma AmountExamples()
    ensures !Worked(Some("abc"))
    ensures Worked(Some("7,5"))
  {
    WorkedIffPositive(Some("abc"));
    LettersDoNotParse();
    WorkedIffPositive(Some("7,5"));
    CommaBecomesPoint();
  }

  /** Example rows: the three drop/keep cases and a decimal comma. */
  lemma ClassifierExamples(file: string, other: seq<Cell>)
    ensures !WasWorking(Row(Some("A"), Some("B"), Some("0"), None, file, other))
    ensures WasWorking(Row(Some("A"), Some("B"), Some(""), Some("08:00"), file, other))
    ensures !WasWorking(Row(Some("A"), Some("B"), Some("abc"), None, file, other))
    ensures WasWorking(Row(Some("A"), Some("B"), Some("7,5"), None, file, other))
  {
    assert !Worked(Some("0")) by { TrimTrimmed("0"); }
    assert !HasStart(None);
    assert HasStart(Some("08:00")) by { TrimTrimmed("08:00"); }
    AmountExamples();
  }
}
