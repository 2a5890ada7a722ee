/**
 * Spreadsheet cells and the text operations the reconciliation applies to them:
 * Python's `str()` of a cell, `str.strip()`, `str.lower()` and the
 * `normalize` helper that chains the three.
 */
module Text {
  import opened Wrappers

  /** A spreadsheet cell: `None` is a missing value (pandas NaN), `Some(s)` its text. */
  type Cell = Option<string>

  /** Python's `str()` of a cell: a missing value prints as "nan". */
  function CellText(c: Cell): string
  {
    match c
    case None => "nan"
    case Some(s) => s
  }

  /** The characters Python's `str.isspace` accepts, which `str.strip()` removes. */
  predicate IsSpace(c: char)
  {
    || c == ' '
    || '\t' <= c <= '\r'
    || '\U{1c}' <= c <= '\U{1f}'
    || c == '\U{85}' || c == '\U{a0}' || c == '\U{1680}'
    || '\U{2000}' <= c <= '\U{200a}'
    || c == '\U{2028}' || c == '\U{2029}' || c == '\U{202f}' || c == '\U{205f}' || c == '\U{3000}'
  }

  /** Upper-case letters whose lower-case form `LowerChar` produces. */
  predicate IsUpper(c: char)
  {
    || 'A' <= c <= 'Z'
    || ('\U{c0}' <= c <= '\U{de}' && c != '\U{d7}')
    || c == '\U{150}' || c == '\U{170}'
  }

  /** Python's lower-casing of one character, for ASCII, Latin-1 and the Hungarian double-acute letters. */
  function LowerChar(c: char): char
  {
    if 'A' <= c <= 'Z' || ('\U{c0}' <= c <= '\U{de}' && c != '\U{d7}') then (c as int + 32) as char
    else if c == '\U{150}' || c == '\U{170}' then (c as int + 1) as char
    else c
  }

  /** `str.lower()`: every character lower-cased, nothing added or removed. */
  function Lower(s: string): (r: string)
    ensures |r| == |s|
  {
    seq(|s|, i requires 0 <= i < |s| => LowerChar(s[i]))
  }

  /** A string with no white space at either end. */
  predicate IsTrimmed(s: string)
  {
    s == [] || (!IsSpace(s[0]) && !IsSpace(s[|s| - 1]))
  }

  /** `str.strip()`: white space removed from both ends, the middle kept. */
  function Trim(s: string): (r: string)
    ensures |r| <= |s|
  {
    if |s| > 0 && IsSpace(s[0]) then Trim(s[1..])
    else if |s| > 0 && IsSpace(s[|s| - 1]) then Trim(s[..|s| - 1])
    else s
  }

  /** What `Trim` removes is white space at the two ends; what it keeps is one contiguous slice. */
  lemma {:induction false} TrimSlice(s: string) returns (i: nat, j: nat)
    ensures i <= j <= |s| && Trim(s) == s[i..j]
    ensures forall k :: 0 <= k < i ==> IsSpace(s[k])
    ensures forall k :: j <= k < |s| ==> IsSpace(s[k])
  {
    if |s| > 0 && IsSpace(s[0]) {
      var i', j' := TrimSlice(s[1..]);
      i, j := i' + 1, j' + 1;
      assert s[1..][i'..j'] == s[i..j];
    } else if |s| > 0 && IsSpace(s[|s| - 1]) {
      i, j := TrimSlice(s[..|s| - 1]);
      assert s[..|s| - 1][i..j] == s[i..j];
    } else {
      i, j := 0, |s|;
    }
  }

  /** Lower-casing a character leaves no upper-case letter, keeps white space and changes only upper-case letters. */
  lemma LowerCharFacts(c: char)
    ensures !IsUpper(LowerChar(c))
    ensures IsSpace(LowerChar(c)) == IsSpace(c)
    ensures !IsUpper(c) ==> LowerChar(c) == c
  {
  }

  /** The stripped text has no white space at either end. */
  lemma {:induction false} TrimShape(s: string)
    ensures IsTrimmed(Trim(s))
  {
    if |s| > 0 && IsSpace(s[0]) {
      TrimShape(s[1..]);
    } else if |s| > 0 && IsSpace(s[|s| - 1]) {
      TrimShape(s[..|s| - 1]);
    }
  }

  /** Trimming a string that has no white space at its ends changes nothing. */
  lemma TrimTrimmed(s: string)
    requires IsTrimmed(s)
    ensures Trim(s) == s
  {
  }

  /** The matching key of a cell's text: `str(text).strip().lower()`. */
  function Normalize(s: string): (r: string)
    ensures |r| <= |s|
  {
    Lower(Trim(s))
  }

  /** A normalized key has no white space at its ends and no upper-case letter. */
  lemma NormalizeShape(s: string)
    ensures IsTrimmed(Normalize(s))
    ensures forall i :: 0 <= i < |Normalize(s)| ==> !IsUpper(Normalize(s)[i])
  {
    var t := Trim(s);
    TrimShape(s);
    if t != [] {
      LowerCharFacts(t[0]);
      LowerCharFacts(t[|t| - 1]);
    }
    forall i | 0 <= i < |t| ensures !IsUpper(Normalize(s)[i]) {
      LowerCharFacts(t[i]);
    }
  }

  /** Normalizing an already normalized key gives the same key. */
  lemma {:induction false} NormalizeIdempotent(s: string)
    ensures Normalize(Normalize(s)) == Normalize(s)
  {
    var n := Normalize(s);
    NormalizeShape(s);
    TrimTrimmed(n);
    forall i | 0 <= i < |n| ensures LowerChar(n[i]) == n[i] {
      LowerCharFacts(n[i]);
    }
  }

  /** Python's `str.startswith`. */
  predicate StartsWith(s: string, prefix: string)
  {
    |prefix| <= |s| && s[..|prefix|] == prefix
  }
}
