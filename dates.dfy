/**
 * The two date parsers of the document parser: `extract_date` for `d/m/y` and
 * `extract_portuguese_date` for `<d> de <month> de <y>`. Each regular expression
 * is matched as its backtracking engine matches it: the leftmost start position
 * that admits a match, and at that position the first alternative in the order
 * the greedy quantifiers try them. Only that one match is turned into a date.
 */
module Dates {
  import opened Wrappers
  import opened Text
  import opened Calendar

  /** The three capture groups of either pattern: day, month, year. */
  datatype Captures = Captures(day: string, month: string, year: string)

  /** A match: where it starts and what it captured. */
  datatype Match = Match(start: nat, caps: Captures)

  /** Length of the run of digits that starts at `i`. */
  function DigitRun(s: string, i: nat): (n: nat)
    requires i <= |s|
    ensures i + n <= |s|
    ensures forall j :: i <= j < i + n ==> IsDigit(s[j])
    ensures i + n < |s| ==> !IsDigit(s[i + n])
    decreases |s| - i
  {
    if i < |s| && IsDigit(s[i]) then 1 + DigitRun(s, i + 1) else 0
  }

  /** Length of the run of month-name characters (`[^\d\s]`) that starts at `i`. */
  function WordRun(s: string, i: nat): (n: nat)
    requires i <= |s|
    ensures i + n <= |s|
    ensures forall j :: i <= j < i + n ==> IsWordChar(s[j])
    ensures i + n < |s| ==> !IsWordChar(s[i + n])
    decreases |s| - i
  {
    if i < |s| && IsWordChar(s[i]) then 1 + WordRun(s, i + 1) else 0
  }

  /**
   * Where `\s*` starting at `i` stops. In both patterns the token after every
   * `\s*` cannot match whitespace, so giving whitespace back never lets the rest
   * match: consuming all of it is the only candidate the engine can succeed with.
   */
  function SpaceEnd(s: string, i: nat): (j: nat)
    requires i <= |s|
    ensures i <= j <= |s|
    ensures forall k :: i <= k < j ==> IsSpace(s[k])
    ensures j < |s| ==> !IsSpace(s[j])
    decreases |s| - i
  {
    if i < |s| && IsSpace(s[i]) then SpaceEnd(s, i + 1) else i
  }

  /** Each run function finds exactly the maximal run: any run that cannot be extended is it. */
  lemma DigitRunExact(s: string, i: nat, n: nat)
    requires i + n <= |s| && forall p :: i <= p < i + n ==> IsDigit(s[p])
    requires i + n < |s| ==> !IsDigit(s[i + n])
    ensures DigitRun(s, i) == n
  {
  }

  lemma WordRunExact(s: string, i: nat, n: nat)
    requires i + n <= |s| && forall p :: i <= p < i + n ==> IsWordChar(s[p])
    requires i + n < |s| ==> !IsWordChar(s[i + n])
    ensures WordRun(s, i) == n
  {
  }

  lemma SpaceEndExact(s: string, i: nat, j: nat)
    requires i <= j <= |s| && forall p :: i <= p < j ==> IsSpace(s[p])
    requires j < |s| ==> !IsSpace(s[j])
    ensures SpaceEnd(s, i) == j
  {
  }

  /** The literal `de` at `p`. */
  predicate IsDe(s: string, p: nat) {
    p + 2 <= |s| && s[p] == 'd' && s[p + 1] == 'e'
  }

  /** Decimal value of a string of digits, as `str::parse` computes it. */
  function DigitsValue(ds: string): (v: nat)
    requires AllDigits(ds)
    ensures |ds| <= 1 ==> v < 10
    ensures |ds| <= 2 ==> v < 100
    ensures |ds| <= 3 ==> v < 1000
    ensures |ds| <= 4 ==> v < 10000
  {
    if ds == [] then 0
    else DigitsValue(ds[..|ds| - 1]) * 10 + (ds[|ds| - 1] as int - '0' as int)
  }

  /** A digit string written at `p` lies inside the run of digits there. */
  lemma DigitRunCovers(s: string, p: nat, ds: string)
    requires p + |ds| <= |s| && s[p..p + |ds|] == ds && AllDigits(ds)
    ensures DigitRun(s, p) >= |ds|
  {
  }

  /** A month name written at `p` lies inside the run of month-name characters there. */
  lemma WordRunCovers(s: string, p: nat, ws: string)
    requires p + |ws| <= |s| && s[p..p + |ws|] == ws
    requires forall k :: 0 <= k < |ws| ==> IsWordChar(ws[k])
    ensures WordRun(s, p) >= |ws|
  {
  }

  /**
   * `\d{2,4}` at `i`, ending the pattern: the longest run of at most four digits.
   * There is none exactly when fewer than two digits start at `i`, and a year
   * shorter than four digits is never followed by another digit.
   */
  function YearAt(s: string, i: nat): (y: Option<string>)
    requires i <= |s|
    ensures y.Some? ==> 2 <= |y.value| <= 4 && AllDigits(y.value) && i + |y.value| <= |s|
                        && s[i..i + |y.value|] == y.value
    ensures y.Some? && |y.value| < 4 && i + |y.value| < |s| ==> !IsDigit(s[i + |y.value|])
    ensures y.None? <==> !(i + 2 <= |s| && IsDigit(s[i]) && IsDigit(s[i + 1]))
  {
    var n := DigitRun(s, i);
    if n < 2 then None else Some(s[i..i + (if n < 4 then n else 4)])
  }

  /** Every year of two to four digits written at `p` is found, and none is longer than the one chosen. */
  lemma YearAtLongest(s: string, p: nat, ys: string)
    requires p + |ys| <= |s| && s[p..p + |ys|] == ys && 2 <= |ys| <= 4 && AllDigits(ys)
    ensures YearAt(s, p).Some? && |YearAt(s, p).value| >= |ys|
  {
  }

  /**
   * `a` comes no later than `b` in the order in which the engine tries the
   * alternatives of either pattern: the longer day first, then the longer
   * month, then the longer year. The first match the engine finds is the one
   * that comes no later than every other match at the same position.
   */
  predicate TriedFirst(a: Captures, b: Captures) {
    |a.day| > |b.day|
    || (|a.day| == |b.day| && (|a.month| > |b.month| || (|a.month| == |b.month| && |a.year| >= |b.year|)))
  }

  // ---------------------------------------------------------------------------
  // `(\d{1,2})/(\d{1,2})/(\d{2,4})`

  /** What a match of the numeric pattern captures. */
  predicate NumericShape(c: Captures) {
    1 <= |c.day| <= 2 && 1 <= |c.month| <= 2 && 2 <= |c.year| <= 4
    && AllDigits(c.day) && AllDigits(c.month) && AllDigits(c.year)
  }

  /** The text at `i` reads day, `/`, month, `/`, year: a match of the numeric pattern at `i`. */
  predicate NumericAtShape(s: string, i: nat, c: Captures) {
    var j := i + |c.day|;
    var k := j + 1 + |c.month|;
    var e := k + 1 + |c.year|;
    NumericShape(c) && e <= |s| && s[i..j] == c.day && s[j] == '/'
    && s[j + 1..k] == c.month && s[k] == '/' && s[k + 1..e] == c.year
  }

  /** Every numeric match at `i` with the day `s[i..j]` and the month `s[k..l]` has its year at `l + 1`, no longer than the longest one there. */
  lemma NumericYearAfterMonth(s: string, i: nat, j: nat, k: nat, l: nat)
    requires i < j && j + 1 == k && k < l <= |s|
    ensures forall c {:trigger NumericAtShape(s, i, c)} :: NumericAtShape(s, i, c) && |c.day| == j - i && |c.month| == l - k ==>
              l < |s| && s[l] == '/' && YearAt(s, l + 1).Some? && |YearAt(s, l + 1).value| >= |c.year|
  {
    forall c {:trigger NumericAtShape(s, i, c)} | NumericAtShape(s, i, c) && |c.day| == j - i && |c.month| == l - k
      ensures l < |s| && s[l] == '/' && YearAt(s, l + 1).Some? && |YearAt(s, l + 1).value| >= |c.year|
    {
      YearAtLongest(s, l + 1, c.year);
    }
  }

  /** After the day `s[i..j]` and the month `s[k..l]`: `/` and the year, the longest one first. */
  function NumericAfterMonth(s: string, i: nat, j: nat, k: nat, l: nat): (r: Option<Captures>)
    requires i < j <= i + 2 && j + 1 == k && k < l <= k + 2 && l <= |s|
    requires forall p :: i <= p < j ==> IsDigit(s[p])
    requires forall p :: k <= p < l ==> IsDigit(s[p])
    requires s[j] == '/'
    ensures r.Some? ==> NumericAtShape(s, i, r.value) && |r.value.day| == j - i && |r.value.month| == l - k
    ensures forall c {:trigger NumericAtShape(s, i, c)} :: NumericAtShape(s, i, c) && |c.day| == j - i && |c.month| == l - k ==>
              r.Some? && |r.value.year| >= |c.year|
  {
    NumericYearAfterMonth(s, i, j, k, l);
    if l < |s| && s[l] == '/' then
      var y := YearAt(s, l + 1);
      if y.Some? then Some(Captures(s[i..j], s[k..l], y.value)) else None
    else None
  }

  /** After the day `s[i..j]`: `/` and the month, two digits tried before one. */
  function NumericAfterDay(s: string, i: nat, j: nat): (r: Option<Captures>)
    requires i < j <= i + 2 && j <= |s|
    requires forall p :: i <= p < j ==> IsDigit(s[p])
    ensures r.Some? ==> NumericAtShape(s, i, r.value) && |r.value.day| == j - i
    ensures forall c {:trigger NumericAtShape(s, i, c)} :: NumericAtShape(s, i, c) && |c.day| == j - i ==> r.Some? && TriedFirst(r.value, c)
  {
    if j < |s| && s[j] == '/' then
      var k := j + 1;
      var n := DigitRun(s, k);
      assert forall c {:trigger NumericAtShape(s, i, c)} :: NumericAtShape(s, i, c) && |c.day| == j - i ==> n >= |c.month| by {
        forall c {:trigger NumericAtShape(s, i, c)} | NumericAtShape(s, i, c) && |c.day| == j - i {
          DigitRunCovers(s, k, c.month);
        }
      }
      var two := if n >= 2 then NumericAfterMonth(s, i, j, k, k + 2) else None;
      if two.Some? then two
      else if n >= 1 then NumericAfterMonth(s, i, j, k, k + 1)
      else None
    else None
  }

  /**
   * The numeric pattern anchored at `i`, the day trying two digits before one:
   * the first match in the engine's order, and none exactly when no match starts at `i`.
   */
  function NumericAt(s: string, i: nat): (r: Option<Captures>)
    requires i <= |s|
    ensures r.Some? ==> NumericAtShape(s, i, r.value)
    ensures forall c {:trigger NumericAtShape(s, i, c)} :: NumericAtShape(s, i, c) ==> r.Some? && TriedFirst(r.value, c)
  {
    var n := DigitRun(s, i);
    assert forall c {:trigger NumericAtShape(s, i, c)} :: NumericAtShape(s, i, c) ==> n >= |c.day| by {
      forall c {:trigger NumericAtShape(s, i, c)} | NumericAtShape(s, i, c) {
        DigitRunCovers(s, i, c.day);
      }
    }
    var two := if n >= 2 then NumericAfterDay(s, i, i + 2) else None;
    if two.Some? then two
    else if n >= 1 then NumericAfterDay(s, i, i + 1)
    else None
  }

  /** `Regex::captures` for the numeric pattern, searching from `i`: the leftmost match. */
  function FirstNumericFrom(s: string, i: nat): (r: Option<Match>)
    requires i <= |s|
    ensures r.Some? ==> i <= r.value.start <= |s| && NumericAt(s, r.value.start) == Some(r.value.caps)
    ensures r.Some? ==> forall q :: i <= q < r.value.start ==> NumericAt(s, q).None?
    ensures r.None? ==> forall q :: i <= q <= |s| ==> NumericAt(s, q).None?
    decreases |s| - i
  {
    var c := NumericAt(s, i);
    if c.Some? then Some(Match(i, c.value))
    else if i == |s| then None
    else
      var r := FirstNumericFrom(s, i + 1);
      assert forall q :: i <= q <= i ==> NumericAt(s, q).None?;
      r
  }

  // ---------------------------------------------------------------------------
  // `(\d{1,2})\s*de\s*([^\d\s]+)\s*de\s*(\d{2,4})`

  /** What a match of the Portuguese pattern captures. */
  predicate PortugueseShape(c: Captures) {
    1 <= |c.day| <= 2 && AllDigits(c.day) && |c.month| >= 1
    && (forall k :: 0 <= k < |c.month| ==> IsWordChar(c.month[k]))
    && 2 <= |c.year| <= 4 && AllDigits(c.year)
  }

  /** `\s*de\s*` starts at `p`. */
  predicate ConnectiveAt(s: string, p: nat)
    requires p <= |s|
  {
    IsDe(s, SpaceEnd(s, p))
  }

  /** Where `\s*de\s*` starting at `p` ends. */
  function AfterConnective(s: string, p: nat): (q: nat)
    requires p <= |s| && ConnectiveAt(s, p)
    ensures p + 2 <= q <= |s|
    ensures s[SpaceEnd(s, p)] == 'd'
  {
    SpaceEnd(s, SpaceEnd(s, p) + 2)
  }

  /**
   * The text at `i` reads the day, `\s*de\s*`, the month name, `\s*de\s*` and
   * the year: a match of the Portuguese pattern at `i`, with each `\s*` taking
   * all the white space there is, as it must in any match (see `SpaceEnd`).
   */
  predicate PortugueseAtShape(s: string, i: nat, c: Captures) {
    var j := i + |c.day|;
    PortugueseShape(c) && j <= |s| && s[i..j] == c.day && ConnectiveAt(s, j)
    && var w := AfterConnective(s, j);
       var e := w + |c.month|;
       e <= |s| && s[w..e] == c.month && YearAfterConnective(s, e, c.year)
  }

  /** `\s*de\s*` at `e`, then the year `y`. */
  predicate YearAfterConnective(s: string, e: nat, y: string)
    requires e <= |s|
  {
    ConnectiveAt(s, e) && AfterConnective(s, e) + |y| <= |s|
    && s[AfterConnective(s, e)..AfterConnective(s, e) + |y|] == y
  }

  /** A year written after the `de` at `e` is found there, and none is longer than the one chosen. */
  lemma YearAfterConnectiveFound(s: string, e: nat, y: string)
    requires e <= |s| && YearAfterConnective(s, e, y) && 2 <= |y| <= 4 && AllDigits(y)
    ensures ConnectiveAt(s, e) && YearAt(s, AfterConnective(s, e)).Some?
            && |YearAt(s, AfterConnective(s, e)).value| >= |y|
  {
    YearAtLongest(s, AfterConnective(s, e), y);
  }

  /** Every Portuguese match at `i` with the day `s[i..j]` and the month `s[w..e]` has its year after the `de` at `e`, no longer than the longest one there. */
  lemma PortugueseYearAfterMonth(s: string, i: nat, j: nat, w: nat, e: nat)
    requires i < j <= |s| && ConnectiveAt(s, j) && w == AfterConnective(s, j) && w < e <= |s|
    ensures forall c {:trigger PortugueseAtShape(s, i, c)} :: PortugueseAtShape(s, i, c) && |c.day| == j - i && |c.month| == e - w ==>
              ConnectiveAt(s, e) && YearAt(s, AfterConnective(s, e)).Some?
              && |YearAt(s, AfterConnective(s, e)).value| >= |c.year|
  {
    forall c {:trigger PortugueseAtShape(s, i, c)} | PortugueseAtShape(s, i, c) && |c.day| == j - i && |c.month| == e - w
      ensures ConnectiveAt(s, e) && YearAt(s, AfterConnective(s, e)).Some?
              && |YearAt(s, AfterConnective(s, e)).value| >= |c.year|
    {
      PortugueseYearOfMatch(s, i, j, w, e, c);
      YearAfterConnectiveFound(s, e, c.year);
    }
  }

  /** Where the year of one such match sits. */
  lemma PortugueseYearOfMatch(s: string, i: nat, j: nat, w: nat, e: nat, c: Captures)
    requires i < j <= |s| && ConnectiveAt(s, j) && w == AfterConnective(s, j) && w < e <= |s|
    requires PortugueseAtShape(s, i, c) && |c.day| == j - i && |c.month| == e - w
    ensures YearAfterConnective(s, e, c.year) && 2 <= |c.year| <= 4 && AllDigits(c.year)
  {
    assert i + |c.day| == j && AfterConnective(s, j) + |c.month| == e;
  }

  /** The day `s[i..j]`, the month name `s[w..e]` and the year found after the `de` at `e` make a Portuguese match at `i`. */
  lemma PortugueseAtParts(s: string, i: nat, j: nat, w: nat, e: nat)
    requires i < j <= i + 2 && j <= |s| && ConnectiveAt(s, j) && w == AfterConnective(s, j) && w < e <= |s|
    requires forall p :: i <= p < j ==> IsDigit(s[p])
    requires forall p :: w <= p < e ==> IsWordChar(s[p])
    requires ConnectiveAt(s, e) && YearAt(s, AfterConnective(s, e)).Some?
    ensures var c := Captures(s[i..j], s[w..e], YearAt(s, AfterConnective(s, e)).value);
            PortugueseAtShape(s, i, c) && |c.day| == j - i && |c.month| == e - w
  {
    var y := YearAt(s, AfterConnective(s, e)).value;
    var c := Captures(s[i..j], s[w..e], y);
    assert PortugueseShape(c);
    assert YearAfterConnective(s, e, y);
    assert i + |c.day| == j && AfterConnective(s, j) + |c.month| == e;
  }

  /** After the day `s[i..j]` and the month name `s[w..e]`: `\s*de\s*` and the year, the longest one first. */
  function PortugueseAfterMonth(s: string, i: nat, j: nat, w: nat, e: nat): (r: Option<Captures>)
    requires i < j <= i + 2 && j <= |s| && ConnectiveAt(s, j) && w == AfterConnective(s, j) && w < e <= |s|
    requires forall p :: i <= p < j ==> IsDigit(s[p])
    requires forall p :: w <= p < e ==> IsWordChar(s[p])
    ensures r.Some? ==> PortugueseAtShape(s, i, r.value) && |r.value.day| == j - i && |r.value.month| == e - w
    ensures forall c {:trigger PortugueseAtShape(s, i, c)} :: PortugueseAtShape(s, i, c) && |c.day| == j - i && |c.month| == e - w ==>
              r.Some? && |r.value.year| >= |c.year|
  {
    PortugueseYearAfterMonth(s, i, j, w, e);
    if ConnectiveAt(s, e) then
      var y := YearAt(s, AfterConnective(s, e));
      if y.Some? then
        PortugueseAtParts(s, i, j, w, e);
        Some(Captures(s[i..j], s[w..e], y.value))
      else None
    else None
  }

  /** `[^\d\s]+` at `w`, backtracking from the longest candidate `len` down to one character. */
  function PortugueseMonthFrom(s: string, i: nat, j: nat, w: nat, len: nat): (r: Option<Captures>)
    requires i < j <= i + 2 && j <= |s| && ConnectiveAt(s, j) && w == AfterConnective(s, j) && w + len <= |s|
    requires forall p :: i <= p < j ==> IsDigit(s[p])
    requires forall p :: w <= p < w + len ==> IsWordChar(s[p])
    ensures r.Some? ==> PortugueseAtShape(s, i, r.value) && |r.value.day| == j - i && |r.value.month| <= len
    ensures forall c {:trigger PortugueseAtShape(s, i, c)} :: PortugueseAtShape(s, i, c) && |c.day| == j - i && |c.month| <= len ==>
              r.Some? && TriedFirst(r.value, c)
    decreases len
  {
    if len == 0 then None
    else
      var t := PortugueseAfterMonth(s, i, j, w, w + len);
      if t.Some? then t else PortugueseMonthFrom(s, i, j, w, len - 1)
  }

  /** Every Portuguese match at `i` with the day `s[i..j]` has its month inside the run of month-name characters after the first `de`. */
  lemma PortugueseMonthInRun(s: string, i: nat, j: nat)
    requires i < j <= |s| && ConnectiveAt(s, j)
    ensures forall c {:trigger PortugueseAtShape(s, i, c)} :: PortugueseAtShape(s, i, c) && |c.day| == j - i ==> |c.month| <= WordRun(s, AfterConnective(s, j))
  {
    forall c {:trigger PortugueseAtShape(s, i, c)} | PortugueseAtShape(s, i, c) && |c.day| == j - i
      ensures |c.month| <= WordRun(s, AfterConnective(s, j))
    {
      PortugueseMonthOfMatch(s, i, j, c);
      MonthAfterConnective(s, j, c.month);
    }
  }

  /** Where the month name of a Portuguese match with the day `s[i..j]` sits. */
  lemma PortugueseMonthOfMatch(s: string, i: nat, j: nat, c: Captures)
    requires PortugueseAtShape(s, i, c) && |c.day| == j - i && i < j
    ensures j <= |s| && ConnectiveAt(s, j)
    ensures var w := AfterConnective(s, j); w + |c.month| <= |s| && s[w..w + |c.month|] == c.month
    ensures forall k :: 0 <= k < |c.month| ==> IsWordChar(c.month[k])
  {
  }

  /** A month name written after the `de` at `j` lies inside the run of month-name characters there. */
  lemma MonthAfterConnective(s: string, j: nat, m: string)
    requires j <= |s| && ConnectiveAt(s, j)
    requires var w := AfterConnective(s, j); w + |m| <= |s| && s[w..w + |m|] == m
    requires forall k :: 0 <= k < |m| ==> IsWordChar(m[k])
    ensures |m| <= WordRun(s, AfterConnective(s, j))
  {
    WordRunCovers(s, AfterConnective(s, j), m);
  }

  /** After the day `s[i..j]`: `\s*de\s*`, then the month name. */
  function PortugueseAfterDay(s: string, i: nat, j: nat): (r: Option<Captures>)
    requires i < j <= i + 2 && j <= |s|
    requires forall p :: i <= p < j ==> IsDigit(s[p])
    ensures r.Some? ==> PortugueseAtShape(s, i, r.value) && |r.value.day| == j - i
    ensures forall c {:trigger PortugueseAtShape(s, i, c)} :: PortugueseAtShape(s, i, c) && |c.day| == j - i ==> r.Some? && TriedFirst(r.value, c)
  {
    if ConnectiveAt(s, j) then
      var w := AfterConnective(s, j);
      PortugueseMonthInRun(s, i, j);
      PortugueseMonthFrom(s, i, j, w, WordRun(s, w))
    else None
  }

  /** Every Portuguese match at `i` has its day inside the run of digits there. */
  lemma PortugueseDayInRun(s: string, i: nat)
    requires i <= |s|
    ensures forall c {:trigger PortugueseAtShape(s, i, c)} :: PortugueseAtShape(s, i, c) ==> |c.day| <= DigitRun(s, i)
  {
    forall c {:trigger PortugueseAtShape(s, i, c)} | PortugueseAtShape(s, i, c)
      ensures |c.day| <= DigitRun(s, i)
    {
      DigitRunCovers(s, i, c.day);
    }
  }

  /** A Portuguese match needs the letter `d` of its connective. */
  lemma PortugueseMatchHasD(s: string, i: nat, c: Captures)
    requires PortugueseAtShape(s, i, c)
    ensures 'd' in s
  {
    assert s[SpaceEnd(s, i + |c.day|)] == 'd';
  }

  /**
   * The Portuguese pattern anchored at `i`, the day trying two digits before
   * one: the first match in the engine's order, and none exactly when no match
   * starts at `i`. A match needs the letter `d` of the connective.
   */
  function PortugueseAt(s: string, i: nat): (r: Option<Captures>)
    requires i <= |s|
    ensures r.Some? ==> PortugueseAtShape(s, i, r.value)
    ensures forall c {:trigger PortugueseAtShape(s, i, c)} :: PortugueseAtShape(s, i, c) ==> r.Some? && TriedFirst(r.value, c)
    ensures r.Some? ==> 'd' in s
  {
    var n := DigitRun(s, i);
    PortugueseDayInRun(s, i);
    var two := if n >= 2 then PortugueseAfterDay(s, i, i + 2) else None;
    var r := if two.Some? then two else if n >= 1 then PortugueseAfterDay(s, i, i + 1) else None;
    if r.Some? then PortugueseMatchHasD(s, i, r.value); r else r
  }

  /** `Regex::captures` for the Portuguese pattern, searching from `i`: the leftmost match. */
  function FirstPortugueseFrom(s: string, i: nat): (r: Option<Match>)
    requires i <= |s|
    ensures r.Some? ==> i <= r.value.start <= |s| && PortugueseAt(s, r.value.start) == Some(r.value.caps)
    ensures r.Some? ==> forall q :: i <= q < r.value.start ==> PortugueseAt(s, q).None?
    ensures r.None? ==> forall q :: i <= q <= |s| ==> PortugueseAt(s, q).None?
    decreases |s| - i
  {
    var c := PortugueseAt(s, i);
    if c.Some? then Some(Match(i, c.value))
    else if i == |s| then None
    else
      var r := FirstPortugueseFrom(s, i + 1);
      assert forall q :: i <= q <= i ==> PortugueseAt(s, q).None?;
      r
  }

  // ---------------------------------------------------------------------------
  // From captures to a timestamp

  /**
   * The year of a capture. Exactly two characters are read against the current
   * two-digit year `curYY`: at most `curYY` is this century, more is the last
   * one. Any other length is the number as written.
   */
  function ResolveYear(ys: string, curYY: int): (y: int)
    requires AllDigits(ys)
    ensures |ys| == 2 ==> y % 100 == DigitsValue(ys)
    ensures |ys| == 2 && 0 <= curYY <= 99 ==> 1900 + curYY < y <= 2000 + curYY
    ensures |ys| == 2 ==> (y >= 2000 <==> DigitsValue(ys) <= curYY)
    ensures |ys| != 2 ==> y == DigitsValue(ys)
  {
    if |ys| == 2 then
      var v := DigitsValue(ys);
      if v <= curYY then 2000 + v else 1900 + v
    else DigitsValue(ys)
  }

  /** A whole number of days is a number of seconds that divides back exactly. */
  lemma MidnightOfDay(days: int)
    ensures (days * 86400) % 86400 == 0 && (days * 86400) / 86400 == days
  {
  }

  /** `NaiveDate::from_ymd_opt(y, m, d)?.and_hms_opt(0, 0, 0)?.timestamp()`. */
  function DateFromParts(y: int, m: int, d: int): (r: Option<int>)
    ensures r.Some? <==> IsValidDate(y, m, d)
    ensures r.Some? ==> r.value % 86400 == 0
    ensures r.Some? ==> r.value / 86400 == DaysFromCivil(y, m, d)
  {
    if IsValidDate(y, m, d) then
      var days := DaysFromCivil(y, m, d);
      MidnightOfDay(days);
      Some(days * 86400)
    else None
  }

  /** `extract_date`: the numeric date of the leftmost `d/m/y` in the line, if that one is valid. */
  function ExtractDate(line: string, curYY: int): (r: Option<int>)
    ensures FirstNumericFrom(line, 0).None? ==> r.None?
    ensures FirstNumericFrom(line, 0).Some? ==>
              var c := FirstNumericFrom(line, 0).value.caps;
              var y, m, d := ResolveYear(c.year, curYY), DigitsValue(c.month), DigitsValue(c.day);
              (r.Some? <==> IsValidDate(y, m, d)) && (r.Some? ==> r.value == DaysFromCivil(y, m, d) * 86400)
  {
    match FirstNumericFrom(line, 0)
    case None => None
    case Some(mt) =>
      DateFromParts(ResolveYear(mt.caps.year, curYY), DigitsValue(mt.caps.month), DigitsValue(mt.caps.day))
  }

  /** The month names in the order of the source's list. */
  const MonthNames: seq<string> :=
    ["janeiro", "fevereiro", "março", "abril", "maio", "junho",
     "julho", "agosto", "setembro", "outubro", "novembro", "dezembro"]

  /** `Iterator::position`: the zero-based index of the first name equal to `name`. */
  function PositionIn(names: seq<string>, name: string): (r: Option<nat>)
    ensures r.Some? ==> r.value < |names| && names[r.value] == name
    ensures r.Some? ==> forall k :: 0 <= k < r.value ==> names[k] != name
    ensures r.None? <==> name !in names
  {
    if names == [] then None
    else if names[0] == name then Some(0)
    else match PositionIn(names[1..], name)
      case None => None
      case Some(k) => Some(k + 1)
  }

  /** The number of a captured month name: its zero-based position, after lowercasing. */
  function MonthNumber(captured: string): (r: Option<nat>)
    ensures r.Some? ==> r.value < 12 && MonthNames[r.value] == ToLower(captured)
    ensures r.None? <==> ToLower(captured) !in MonthNames
  {
    PositionIn(MonthNames, ToLower(captured))
  }

  /**
   * `extract_portuguese_date`: the date of the leftmost `<d> de <month> de <y>`
   * in the whole text, if its month name is listed and the date is valid.
   */
  function ExtractPortugueseDate(text: string, curYY: int): (r: Option<int>)
    ensures FirstPortugueseFrom(text, 0).None? ==> r.None?
    ensures FirstPortugueseFrom(text, 0).Some? && MonthNumber(FirstPortugueseFrom(text, 0).value.caps.month).None? ==>
              r.None?
    ensures FirstPortugueseFrom(text, 0).Some? && MonthNumber(FirstPortugueseFrom(text, 0).value.caps.month).Some? ==>
              var c := FirstPortugueseFrom(text, 0).value.caps;
              var y, m, d := ResolveYear(c.year, curYY), MonthNumber(c.month).value, DigitsValue(c.day);
              (r.Some? <==> IsValidDate(y, m, d)) && (r.Some? ==> r.value == DaysFromCivil(y, m, d) * 86400)
  {
    match FirstPortugueseFrom(text, 0)
    case None => None
    case Some(mt) =>
      match MonthNumber(mt.caps.month)
      case None => None
      case Some(m) => DateFromParts(ResolveYear(mt.caps.year, curYY), m, DigitsValue(mt.caps.day))
  }

  // ---------------------------------------------------------------------------
  // Properties of the two parsers

  /**
   * What `captures` returns for the numeric pattern, stated on the text alone:
   * a match at the returned start, the first one the engine tries there, and no
   * match at any earlier start; no result only when no start has a match.
   */
  lemma LeftmostNumericMatch(s: string)
    ensures FirstNumericFrom(s, 0).Some? ==>
              var mt := FirstNumericFrom(s, 0).value;
              NumericAtShape(s, mt.start, mt.caps)
              && (forall c {:trigger NumericAtShape(s, mt.start, c)} :: NumericAtShape(s, mt.start, c) ==> TriedFirst(mt.caps, c))
              && (forall q: nat, c {:trigger NumericAtShape(s, q, c)} :: q < mt.start ==> !NumericAtShape(s, q, c))
    ensures FirstNumericFrom(s, 0).None? ==>
              forall q: nat, c {:trigger NumericAtShape(s, q, c)} :: q <= |s| ==> !NumericAtShape(s, q, c)
  {
    var r := FirstNumericFrom(s, 0);
    forall q: nat, c | q <= |s| && (r.None? || q < r.value.start)
      ensures !NumericAtShape(s, q, c)
    {
      assert NumericAt(s, q).None?;
    }
  }

  /** The same for the Portuguese pattern over the whole text. */
  lemma LeftmostPortugueseMatch(s: string)
    ensures FirstPortugueseFrom(s, 0).Some? ==>
              var mt := FirstPortugueseFrom(s, 0).value;
              PortugueseAtShape(s, mt.start, mt.caps)
              && (forall c {:trigger PortugueseAtShape(s, mt.start, c)} :: PortugueseAtShape(s, mt.start, c) ==> TriedFirst(mt.caps, c))
              && (forall q: nat, c {:trigger PortugueseAtShape(s, q, c)} :: q < mt.start ==> !PortugueseAtShape(s, q, c))
    ensures FirstPortugueseFrom(s, 0).None? ==>
              forall q: nat, c {:trigger PortugueseAtShape(s, q, c)} :: q <= |s| ==> !PortugueseAtShape(s, q, c)
  {
    var r := FirstPortugueseFrom(s, 0);
    forall q: nat, c | q <= |s| && (r.None? || q < r.value.start)
      ensures !PortugueseAtShape(s, q, c)
    {
      assert PortugueseAt(s, q).None?;
    }
  }

  /** A line without a slash has no numeric date. */
  lemma NoSlashNoNumericDate(line: string, curYY: int)
    requires '/' !in line
    ensures ExtractDate(line, curYY).None?
  {
  }

  /** A text without the letter `d` has no Portuguese date: the connective `de` is required. */
  lemma NoConnectiveNoPortugueseDate(text: string, curYY: int)
    requires 'd' !in text
    ensures ExtractPortugueseDate(text, curYY).None?
  {
  }

  /**
   * The leftmost Portuguese match decides alone: when its month name is
   * `janeiro`, in any case, position 0 is taken as month 0, which no calendar
   * has, so the text yields no Portuguese date at all.
   */
  lemma JaneiroNeverYieldsDate(text: string, curYY: int)
    requires FirstPortugueseFrom(text, 0).Some?
    requires ToLower(FirstPortugueseFrom(text, 0).value.caps.month) == "janeiro"
    ensures ExtractPortugueseDate(text, curYY).None?
  {
    assert MonthNames[0] == "janeiro";
  }

  /**
   * A date written in full, `dd/mm/` and a year of `ylen` digits that no further
   * digit extends (up to four), is captured as written: both two-digit
   * alternatives succeed first.
   */
  lemma NumericAtWritten(s: string, i: nat, ylen: nat)
    requires 2 <= ylen <= 4 && i + 6 + ylen <= |s|
    requires IsDigit(s[i]) && IsDigit(s[i + 1]) && s[i + 2] == '/'
    requires IsDigit(s[i + 3]) && IsDigit(s[i + 4]) && s[i + 5] == '/'
    requires forall p :: i + 6 <= p < i + 6 + ylen ==> IsDigit(s[p])
    requires ylen < 4 && i + 6 + ylen < |s| ==> !IsDigit(s[i + 6 + ylen])
    ensures NumericAt(s, i) == Some(Captures(s[i..i + 2], s[i + 3..i + 5], s[i + 6..i + 6 + ylen]))
  {
    var n := DigitRun(s, i + 6);
    assert n >= ylen;
    assert ylen < 4 ==> n == ylen;
    assert YearAt(s, i + 6) == Some(s[i + 6..i + 6 + ylen]);
    assert DigitRun(s, i + 3) >= 2;
    assert NumericAfterMonth(s, i, i + 2, i + 3, i + 5) == Some(Captures(s[i..i + 2], s[i + 3..i + 5], s[i + 6..i + 6 + ylen]));
    assert DigitRun(s, i) >= 2;
  }

  /**
   * The leftmost `d/m/y` decides alone: if its date is invalid the line yields
   * nothing, whatever follows it.
   */
  lemma {:induction false} OnlyLeftmostNumericMatch(line: string, curYY: int)
    requires FirstNumericFrom(line, 0).Some?
    requires var c := FirstNumericFrom(line, 0).value.caps;
             !IsValidDate(ResolveYear(c.year, curYY), DigitsValue(c.month), DigitsValue(c.day))
    ensures ExtractDate(line, curYY).None?
  {
  }
}
