/**
 * The java.lang string operations the task list relies on, written out on
 * `seq<char>`: `String.indexOf(char)`, `String.split` with a one-character
 * literal delimiter and limit 2, `String.trim` and `Boolean.parseBoolean`.
 */
module JavaText {
  import opened Wrappers

  /** `s.indexOf(c)`: the position of the first occurrence of `c`, if any. */
  function IndexOf(s: string, c: char): (r: Option<nat>)
    ensures r.None? <==> c !in s
    ensures r.Some? ==> r.value < |s| && s[r.value] == c && c !in s[..r.value]
  {
    if |s| == 0 then None
    else if s[0] == c then Some(0)
    else match IndexOf(s[1..], c)
      case None => None
      case Some(k) =>
        assert s[..k + 1] == [s[0]] + s[1..][..k];
        Some(k + 1)
  }

  /**
   * `s.split(String.valueOf(c), 2)`: the delimiter is matched at most once, at
   * its first occurrence, and an empty trailing field is kept (a positive
   * limit disables the removal of trailing empty strings). Without a match
   * the result is the one-element array holding `s`, even when `s` is empty.
   */
  function SplitFirst(s: string, c: char): (parts: seq<string>)
    ensures |parts| == 1 || |parts| == 2
    ensures |parts| == 1 <==> c !in s
    ensures |parts| == 1 ==> parts[0] == s
    ensures |parts| == 2 ==> c !in parts[0] && s == parts[0] + [c] + parts[1]
  {
    match IndexOf(s, c)
    case None => [s]
    case Some(k) =>
      assert s == s[..k] + [c] + s[k + 1..];
      [s[..k], s[k + 1..]]
  }

  /** Splitting a text built as `p + [c] + q`, with no `c` in `p`, gives back `p` and `q`. */
  lemma SplitFirstOfJoin(p: string, c: char, q: string)
    requires c !in p
    ensures SplitFirst(p + [c] + q, c) == [p, q]
  {
    var s := p + [c] + q;
    var parts := SplitFirst(s, c);
    assert s[|p|] == c;
    var k := |parts[0]|;
    assert k == |p|;
    assert parts[0] == s[..k] == p;
    assert parts[1] == s[k + 1..] == q;
  }

  /** A character `String.trim` removes: every code point up to and including U+0020. */
  predicate IsTrimmed(ch: char) {
    ch <= ' '
  }

  /** The leading-whitespace half of `String.trim`. */
  function TrimStart(s: string): (r: string)
    ensures |r| <= |s| && r == s[|s| - |r|..]
    ensures forall i :: 0 <= i < |s| - |r| ==> IsTrimmed(s[i])
    ensures r == [] || !IsTrimmed(r[0])
  {
    if |s| > 0 && IsTrimmed(s[0]) then TrimStart(s[1..]) else s
  }

  /** The trailing-whitespace half of `String.trim`. */
  function TrimEnd(s: string): (r: string)
    ensures |r| <= |s| && r == s[..|r|]
    ensures forall i :: |r| <= i < |s| ==> IsTrimmed(s[i])
    ensures r == [] || !IsTrimmed(r[|r| - 1])
  {
    if |s| > 0 && IsTrimmed(s[|s| - 1]) then TrimEnd(s[..|s| - 1]) else s
  }

  /**
   * `s.trim()`: strips leading and trailing characters up to U+0020. The result
   * is empty exactly when every character of `s` is such a character, and
   * otherwise starts and ends with a character that is not.
   */
  function Trim(s: string): (r: string)
    ensures |r| <= |s|
    ensures |r| <= |TrimStart(s)| && r == TrimStart(s)[..|r|]
    ensures r == [] <==> forall i :: 0 <= i < |s| ==> IsTrimmed(s[i])
    ensures r != [] ==> !IsTrimmed(r[0]) && !IsTrimmed(r[|r| - 1])
  {
    TrimOfTrimStart(s);
    TrimEnd(TrimStart(s))
  }

  /** What trimming the end of an already start-trimmed text leaves. */
  lemma TrimOfTrimStart(s: string)
    ensures var r := TrimEnd(TrimStart(s));
      (r == [] <==> forall i :: 0 <= i < |s| ==> IsTrimmed(s[i]))
      && (r != [] ==> !IsTrimmed(r[0]))
  {
    var front := TrimStart(s);
    var r := TrimEnd(front);
    if r != [] {
      assert r[0] == front[0] == s[|s| - |front|];
    }
  }

  /** `trim` leaves alone a text that neither starts nor ends with a character it removes. */
  lemma TrimKeepsTrimmed(s: string)
    requires s != [] ==> !IsTrimmed(s[0]) && !IsTrimmed(s[|s| - 1])
    ensures Trim(s) == s
  {
    assert TrimStart(s) == s;
  }

  /** `Character.toUpperCase` on the letters that can equal a letter of "true" ignoring case. */
  function ToUpperAscii(ch: char): char {
    if 'a' <= ch <= 'z' then (ch as int - 32) as char else ch
  }

  /**
   * `a.equalsIgnoreCase(b)`: equal lengths and equal characters after upper-casing.
   * Only ASCII letters are folded: no other character upper-cases to T, R, U or E,
   * so for the one use of this predicate, against "true", the folding is exact.
   */
  predicate EqualsIgnoreCase(a: string, b: string) {
    |a| == |b| && forall i :: 0 <= i < |a| ==> ToUpperAscii(a[i]) == ToUpperAscii(b[i])
  }

  /** `Boolean.parseBoolean(s)`, which is `"true".equalsIgnoreCase(s)`. */
  predicate ParseBoolean(s: string) {
    EqualsIgnoreCase("true", s)
  }

  /**
   * `parseBoolean` is true exactly for the sixteen upper/lower-case spellings of
   * "true": it is neither a prefix match nor a numeric or "yes" reading.
   */
  lemma ParseBooleanSpellings(s: string)
    ensures ParseBoolean(s) <==>
      |s| == 4 && s[0] in "tT" && s[1] in "rR" && s[2] in "uU" && s[3] in "eE"
  {
    if |s| == 4 {
      assert ToUpperAscii('t') == 'T' && ToUpperAscii('r') == 'R';
      assert ToUpperAscii('u') == 'U' && ToUpperAscii('e') == 'E';
      if ParseBoolean(s) {
        assert ToUpperAscii(s[0]) == 'T' && ToUpperAscii(s[1]) == 'R';
        assert ToUpperAscii(s[2]) == 'U' && ToUpperAscii(s[3]) == 'E';
      }
      if s[0] in "tT" && s[1] in "rR" && s[2] in "uU" && s[3] in "eE" {
        forall i | 0 <= i < 4 ensures ToUpperAscii("true"[i]) == ToUpperAscii(s[i]) {
          if i == 0 {} else if i == 1 {} else if i == 2 {} else {}
        }
      }
    }
  }
}
