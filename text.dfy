/**
 * The string primitives the document parser relies on: the character classes of
 * its regular expressions, `str::lines`, `str::contains`, `str::split` on one
 * character and the lowercasing applied to a captured month name.
 */
module Text {

  /** `\d` of the regular expressions, restricted to the ASCII digits. */
  predicate IsDigit(c: char) {
    '0' <= c <= '9'
  }

  /** `\s` of the regular expressions: the characters with the Unicode White_Space property. */
  predicate IsSpace(c: char) {
    ('\t' <= c <= '\r') || c == ' ' || c == '\U{85}' || c == '\U{A0}' || c == '\U{1680}'
    || ('\U{2000}' <= c <= '\U{200A}') || c == '\U{2028}' || c == '\U{2029}'
    || c == '\U{202F}' || c == '\U{205F}' || c == '\U{3000}'
  }

  /** `[^\d\s]`: a character that may belong to a month name. */
  predicate IsWordChar(c: char) {
    !IsDigit(c) && !IsSpace(c)
  }

  predicate AllDigits(s: string) {
    forall k :: 0 <= k < |s| ==> IsDigit(s[k])
  }

  /** Position of the first `c` in `s`, or `|s|` when there is none. */
  function IndexOf(s: string, c: char): (k: nat)
    ensures k <= |s|
    ensures k < |s| ==> s[k] == c
    ensures forall j :: 0 <= j < k ==> s[j] != c
  {
    if s == [] then 0
    else if s[0] == c then 0
    else 1 + IndexOf(s[1..], c)
  }

  /** Number of occurrences of `c` in `s`. */
  function Count(s: string, c: char): nat {
    if s == [] then 0 else (if s[0] == c then 1 else 0) + Count(s[1..], c)
  }

  lemma {:induction false} CountBeforeIndex(s: string, c: char, k: nat)
    requires k <= |s|
    requires forall j :: 0 <= j < k ==> s[j] != c
    ensures Count(s, c) == Count(s[k..], c)
  {
    if k > 0 {
      assert s[1..][k - 1..] == s[k..];
      CountBeforeIndex(s[1..], c, k - 1);
    }
  }

  /** A line without its terminator: a `\r` right before the `\n` is dropped too. */
  function StripCR(line: string): string {
    if |line| > 0 && line[|line| - 1] == '\r' then line[..|line| - 1] else line
  }

  /**
   * `str::lines`: the pieces between `\n` terminators, each without a `\r` that
   * ends it; a final terminator does not start an extra empty line, and a `\r`
   * at the very end of the text, with no `\n` after it, is kept.
   */
  function Lines(s: string): (ls: seq<string>)
    ensures (ls == []) <==> (s == [])
    ensures forall i :: 0 <= i < |ls| ==> '\n' !in ls[i]
    ensures |ls| <= Count(s, '\n') + 1
    decreases |s|
  {
    if s == [] then []
    else
      var k := IndexOf(s, '\n');
      CountBeforeIndex(s, '\n', k);
      if k == |s| then [s]
      else
        assert '\n' !in s[..k];
        assert s[k..][1..] == s[k + 1..];
        [StripCR(s[..k])] + Lines(s[k + 1..])
  }

  /** A first line ended by `\n` comes out without its `\r`, followed by the lines of the rest. */
  lemma LinesCons(line: string, rest: string)
    requires '\n' !in line
    ensures Lines(line + "\n" + rest) == [StripCR(line)] + Lines(rest)
  {
    var s := line + "\n" + rest;
    assert s[|line|] == '\n';
    assert IndexOf(s, '\n') == |line|;
    assert s[..|line|] == line && s[|line| + 1..] == rest;
  }

  /** Text without `\n` is one line, kept as it is. */
  lemma LinesOfOneLine(s: string)
    requires s != [] && '\n' !in s
    ensures Lines(s) == [s]
  {
    assert IndexOf(s, '\n') == |s|;
  }

  /** `str::contains` with a string pattern: `k` occurs in `s` at some offset. */
  predicate Contains(s: string, k: string) {
    exists i :: 0 <= i <= |s| && k <= s[i..]
  }

  /** The closure given to `Iterator::any`: some keyword occurs in the line. */
  predicate ContainsAny(line: string, keywords: seq<string>) {
    exists kw :: kw in keywords && Contains(line, kw)
  }

  /** `str::split` on one character, collected: always at least one part. */
  function Split(s: string, sep: char): (parts: seq<string>)
    ensures |parts| >= 1
    ensures forall i :: 0 <= i < |parts| ==> sep !in parts[i]
    decreases |s|
  {
    var k := IndexOf(s, sep);
    if k == |s| then
      [s]
    else
      assert sep !in s[..k];
      [s[..k]] + Split(s[k + 1..], sep)
  }

  /** The parts put back together with `sep` between neighbours. */
  function Join(parts: seq<string>, sep: char): string {
    if parts == [] then []
    else if |parts| == 1 then parts[0]
    else parts[0] + [sep] + Join(parts[1..], sep)
  }

  /** Splitting loses nothing: joining the parts gives the text back. */
  lemma {:induction false} SplitJoin(s: string, sep: char)
    ensures Join(Split(s, sep), sep) == s
    decreases |s|
  {
    var k := IndexOf(s, sep);
    if k < |s| {
      var rest := Split(s[k + 1..], sep);
      SplitJoin(s[k + 1..], sep);
      assert Split(s, sep) == [s[..k]] + rest;
      assert ([s[..k]] + rest)[1..] == rest;
      assert Join([s[..k]] + rest, sep) == s[..k] + [sep] + s[k + 1..];
      assert s == s[..k] + [sep] + s[k + 1..];
    }
  }

  /** There is one more part than there are separators. */
  lemma {:induction false} SplitCount(s: string, sep: char)
    ensures |Split(s, sep)| == Count(s, sep) + 1
    decreases |s|
  {
    var k := IndexOf(s, sep);
    CountBeforeIndex(s, sep, k);
    if k < |s| {
      SplitCount(s[k + 1..], sep);
      assert s[k..][1..] == s[k + 1..];
    }
  }

  /** The capitals `to_lowercase` is modelled on: A to Z and the Latin-1 capitals U+00C0 to U+00DE but the multiplication sign. */
  predicate IsCapital(c: char) {
    'A' <= c <= 'Z' || ('\U{C0}' <= c <= '\U{DE}' && c != '\U{D7}')
  }

  /** Lowercasing of one character: a capital becomes its small letter, every other character is kept. */
  function LowerChar(c: char): (l: char)
    ensures !IsCapital(l)
    ensures !IsCapital(c) ==> l == c
    ensures IsCapital(c) ==> l != c && l as int - c as int == 32
  {
    if IsCapital(c) then (c as int + 32) as char else c
  }

  /** `str::to_lowercase`: no capital is left, and every other character stays where it was. */
  function ToLower(s: string): (r: string)
    ensures |r| == |s|
    ensures forall i :: 0 <= i < |r| ==> !IsCapital(r[i])
    ensures forall i :: 0 <= i < |s| && !IsCapital(s[i]) ==> r[i] == s[i]
    ensures forall i :: 0 <= i < |s| ==> r[i] == LowerChar(s[i])
  {
    seq(|s|, i requires 0 <= i < |s| => LowerChar(s[i]))
  }

  /** Text without capitals is left as it is: the month names, `março` included, compare as written. */
  lemma LowercaseUnchanged(s: string)
    requires forall i :: 0 <= i < |s| ==> !IsCapital(s[i])
    ensures ToLower(s) == s
  {
  }

  /** Lowercasing twice is lowercasing once. */
  lemma LowercaseIdempotent(s: string)
    ensures ToLower(ToLower(s)) == ToLower(s)
  {
    LowercaseUnchanged(ToLower(s));
  }
}
