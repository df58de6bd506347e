/**
 * The string operations the components use: `toLowerCase`, `includes`, `trim`,
 * `localeCompare`, `split(sep)`/`pop()` and number-to-decimal conversion in a
 * template literal. Strings are sequences of code points.
 */
module Text {

  // ---------------------------------------------------------------------------
  // Case folding (`String.prototype.toLowerCase`, ASCII letters only)
  // ---------------------------------------------------------------------------

  function LowerChar(c: char): (r: char)
    ensures 'A' <= c <= 'Z' ==> 'a' <= r <= 'z'
    ensures !('A' <= c <= 'Z') ==> r == c
  {
    if 'A' <= c <= 'Z' then (c as int + 32) as char else c
  }

  function Lower(s: string): (r: string)
    ensures |r| == |s|
    ensures forall i :: 0 <= i < |s| ==> r[i] == LowerChar(s[i])
  {
    seq(|s|, i requires 0 <= i < |s| => LowerChar(s[i]))
  }

  /** Lower-casing twice is lower-casing once. */
  lemma LowerIdempotent(s: string)
    ensures Lower(Lower(s)) == Lower(s)
  {
  }

  // ---------------------------------------------------------------------------
  // Substring search (`String.prototype.includes`)
  // ---------------------------------------------------------------------------

  /** `needle` occurs in `hay` starting at offset `i`. */
  ghost predicate OccursAt(hay: string, needle: string, i: int) {
    0 <= i && i + |needle| <= |hay| && hay[i..i + |needle|] == needle
  }

  /** `hay.includes(needle)`: scan offsets left to right, checking for a prefix match at each. */
  predicate Includes(hay: string, needle: string)
    ensures Includes(hay, needle) <==> exists i :: OccursAt(hay, needle, i)
    decreases |hay|
  {
    if needle <= hay then
      assert OccursAt(hay, needle, 0);
      true
    else if |hay| == 0 then
      assert forall i :: !OccursAt(hay, needle, i);
      false
    else
      var rest := Includes(hay[1..], needle);
      forall i ensures OccursAt(hay[1..], needle, i) <==> OccursAt(hay, needle, i + 1) {
        if 0 <= i && i + |needle| <= |hay[1..]| {
          assert hay[1..][i..i + |needle|] == hay[i + 1..i + 1 + |needle|];
        }
      }
      assert !OccursAt(hay, needle, 0);
      assert forall i :: OccursAt(hay, needle, i) ==> i >= 1 && OccursAt(hay[1..], needle, i - 1);
      rest
  }

  // ---------------------------------------------------------------------------
  // Whitespace trimming (`String.prototype.trim`)
  // ---------------------------------------------------------------------------

  /**
   * The ECMAScript WhiteSpace and LineTerminator code points: TAB, VT, FF,
   * SPACE, NBSP, ZWNBSP, the Unicode space separators, LF, CR, LS and PS.
   */
  predicate IsSpace(c: char) {
    || c == '\t' || c == '\U{000B}' || c == '\U{000C}' || c == ' ' || c == '\U{00A0}' || c == '\U{FEFF}'
    || c == '\U{1680}' || ('\U{2000}' <= c <= '\U{200A}') || c == '\U{202F}' || c == '\U{205F}' || c == '\U{3000}'
    || c == '\n' || c == '\r' || c == '\U{2028}' || c == '\U{2029}'
  }

  /** The first index at or after `i` that does not hold whitespace (or `|s|`). */
  function SkipSpaces(s: string, i: nat): (j: nat)
    requires i <= |s|
    ensures i <= j <= |s|
    ensures forall k :: i <= k < j ==> IsSpace(s[k])
    ensures j < |s| ==> !IsSpace(s[j])
    decreases |s| - i
  {
    if i < |s| && IsSpace(s[i]) then SkipSpaces(s, i + 1) else i
  }

  /** The end of the text in `s[lo..j]` once trailing whitespace is dropped. */
  function SkipSpacesBack(s: string, lo: nat, j: nat): (e: nat)
    requires lo <= j <= |s|
    ensures lo <= e <= j
    ensures forall k :: e <= k < j ==> IsSpace(s[k])
    ensures e > lo ==> !IsSpace(s[e - 1])
    decreases j
  {
    if j > lo && IsSpace(s[j - 1]) then SkipSpacesBack(s, lo, j - 1) else j
  }

  /** `r` is the slice of `s` at offset `i`, and everything of `s` outside it is whitespace. */
  ghost predicate SliceAmidSpace(s: string, r: string, i: int) {
    && 0 <= i <= i + |r| <= |s| && r == s[i..i + |r|]
    && (forall k :: 0 <= k < i ==> IsSpace(s[k]))
    && (forall k :: i + |r| <= k < |s| ==> IsSpace(s[k]))
  }

  /**
   * `s.trim()`: the result is a slice of `s` such that everything outside it is
   * whitespace and it neither starts nor ends with whitespace.
   */
  function Trim(s: string): (r: string)
    ensures exists i :: SliceAmidSpace(s, r, i)
    ensures |r| > 0 ==> !IsSpace(r[0]) && !IsSpace(r[|r| - 1])
    ensures |r| == 0 <==> forall k :: 0 <= k < |s| ==> IsSpace(s[k])
  {
    var i := SkipSpaces(s, 0);
    var e := SkipSpacesBack(s, i, |s|);
    assert SliceAmidSpace(s, s[i..e], i);
    assert e > i ==> s[i..e][0] == s[i];
    s[i..e]
  }

  /** A string that neither starts nor ends with whitespace is left as it is by trimming. */
  lemma TrimKeepsTrimmed(t: string)
    requires |t| > 0 ==> !IsSpace(t[0]) && !IsSpace(t[|t| - 1])
    ensures Trim(t) == t
  {
    if |t| > 0 {
      assert SkipSpaces(t, 0) == 0;
      assert SkipSpacesBack(t, 0, |t|) == |t|;
      assert t[0..|t|] == t;
    }
  }

  // ---------------------------------------------------------------------------
  // Collation (`String.prototype.localeCompare`, modelled ordinally)
  // ---------------------------------------------------------------------------

  /**
   * Three-way lexicographic comparison by code point: negative when `a` sorts
   * first, zero when equal, positive when `b` sorts first.
   */
  function Compare(a: string, b: string): (r: int)
    ensures -1 <= r <= 1
    ensures r == 0 <==> a == b
  {
    if |a| == 0 && |b| == 0 then 0
    else if |a| == 0 then -1
    else if |b| == 0 then 1
    else if a[0] < b[0] then -1
    else if a[0] > b[0] then 1
    else
      var r := Compare(a[1..], b[1..]);
      assert a == [a[0]] + a[1..] && b == [b[0]] + b[1..];
      r
  }

  /** Swapping the arguments negates the comparison. */
  lemma {:induction false} CompareAntisymmetric(a: string, b: string)
    ensures Compare(a, b) == -Compare(b, a)
  {
    if |a| > 0 && |b| > 0 && a[0] == b[0] {
      CompareAntisymmetric(a[1..], b[1..]);
    }
  }

  /** "Sorts no later than" is transitive. */
  lemma {:induction false} CompareTransitive(a: string, b: string, c: string)
    requires Compare(a, b) <= 0 && Compare(b, c) <= 0
    ensures Compare(a, c) <= 0
  {
    if |a| > 0 && |b| > 0 && |c| > 0 && a[0] == b[0] && b[0] == c[0] {
      CompareTransitive(a[1..], b[1..], c[1..]);
    }
  }

  // ---------------------------------------------------------------------------
  // Splitting on a separator (`s.split(sep)` with a one-character separator)
  // ---------------------------------------------------------------------------

  /** The first index of `c` in `s`, or `|s|` when `c` does not occur (`s.indexOf(c)`, with -1 read as `|s|`). */
  function IndexOf(s: string, c: char): (k: nat)
    ensures k <= |s|
    ensures k < |s| ==> s[k] == c
    ensures forall i :: 0 <= i < k ==> s[i] != c
  {
    if |s| == 0 || s[0] == c then 0 else 1 + IndexOf(s[1..], c)
  }

  /** Glue the parts back together with `sep` between consecutive parts (`parts.join(sep)`). */
  function Join(parts: seq<string>, sep: char): string
    requires |parts| >= 1
  {
    if |parts| == 1 then parts[0] else parts[0] + [sep] + Join(parts[1..], sep)
  }

  /**
   * `s.split(sep)`: the maximal separator-free pieces between occurrences of
   * `sep`, always at least one (splitting "" gives [""]).
   */
  function Split(s: string, sep: char): (parts: seq<string>)
    ensures |parts| >= 1
    decreases |s|
  {
    var k := IndexOf(s, sep);
    if k == |s| then [s] else [s[..k]] + Split(s[k + 1..], sep)
  }

  /** No piece of a split contains the separator. */
  lemma {:induction false} SplitPiecesFree(s: string, sep: char)
    ensures forall i :: 0 <= i < |Split(s, sep)| ==> sep !in Split(s, sep)[i]
    decreases |s|
  {
    var k := IndexOf(s, sep);
    if k < |s| {
      SplitPiecesFree(s[k + 1..], sep);
      var rest := Split(s[k + 1..], sep);
      assert Split(s, sep) == [s[..k]] + rest;
      assert sep !in s[..k];
    }
  }

  /** A string splits into a single piece exactly when it has no separator. */
  lemma SplitSinglePiece(s: string, sep: char)
    ensures |Split(s, sep)| == 1 <==> sep !in s
  {
  }

  /** A separator-free string splits into itself alone. */
  lemma SplitFree(s: string, sep: char)
    requires sep !in s
    ensures Split(s, sep) == [s]
  {
  }

  /** When `head` has no separator, splitting `head + sep + rest` yields `head` then the pieces of `rest`. */
  lemma SplitAfterFree(head: string, sep: char, rest: string)
    requires sep !in head
    ensures Split(head + [sep] + rest, sep) == [head] + Split(rest, sep)
  {
    var s := head + [sep] + rest;
    assert s[|head|] == sep;
    assert IndexOf(s, sep) == |head|;
    assert s[..|head|] == head;
    assert s[|head| + 1..] == rest;
  }

  /** Three separator-free words joined by single separators split back into those words. */
  lemma SplitThreeWords(a: string, b: string, c: string, sep: char)
    requires sep !in a && sep !in b && sep !in c
    ensures Split(a + [sep] + b + [sep] + c, sep) == [a, b, c]
  {
    var rest := b + [sep] + c;
    SplitAfterFree(b, sep, c);
    SplitFree(c, sep);
    assert Split(rest, sep) == [b, c];
    var s := a + [sep] + b + [sep] + c;
    assert s == a + [sep] + rest;
    SplitAfterFree(a, sep, rest);
  }

  /** Where the separator occurs, the first piece is everything before its first occurrence. */
  lemma SplitAtFirst(s: string, sep: char)
    requires IndexOf(s, sep) < |s|
    ensures Split(s, sep) == [s[..IndexOf(s, sep)]] + Split(s[IndexOf(s, sep) + 1..], sep)
  {
  }

  /** A string is the part before position `k`, the character at `k`, and the part after. */
  lemma Regroup(s: string, k: nat)
    requires k < |s|
    ensures s[..k] + [s[k]] + s[k + 1..] == s
  {
  }

  /** Joining a part in front of at least one more puts one separator between it and the rest's join. */
  lemma JoinCons(head: string, rest: seq<string>, sep: char)
    requires |rest| >= 1
    ensures Join([head] + rest, sep) == head + [sep] + Join(rest, sep)
  {
    assert ([head] + rest)[1..] == rest;
  }

  /** Joining the pieces of a split restores the string. */
  lemma {:induction false} JoinSplit(s: string, sep: char)
    ensures Join(Split(s, sep), sep) == s
    decreases |s|
  {
    var k := IndexOf(s, sep);
    if k < |s| {
      var tail := s[k + 1..];
      JoinSplit(tail, sep);
      SplitAtFirst(s, sep);
      JoinCons(s[..k], Split(tail, sep), sep);
      Regroup(s, k);
    } else {
      SplitFree(s, sep);
    }
  }

  /** The last element of a non-empty sequence (`Array.prototype.pop` on a non-empty array). */
  function Last<T>(s: seq<T>): T
    requires |s| >= 1
  {
    s[|s| - 1]
  }

  /** The text after the last `sep`, or all of `s` when it has none: `s.split(sep).pop()`. */
  function LastPiece(s: string, sep: char): (r: string)
    ensures sep !in r
  {
    SplitPiecesFree(s, sep);
    Last(Split(s, sep))
  }

  /** Joining peels off the last part as `... + sep + last`. */
  lemma {:induction false} JoinSnoc(parts: seq<string>, sep: char)
    requires |parts| >= 2
    ensures Join(parts, sep) == Join(parts[..|parts| - 1], sep) + [sep] + Last(parts)
  {
    if |parts| == 2 {
      assert parts[..1] == [parts[0]];
    } else {
      JoinSnoc(parts[1..], sep);
      assert parts[1..][..|parts| - 2] == parts[..|parts| - 1][1..];
    }
  }

  /** Either `s` has no `sep` and the last piece is `s`, or `s` ends with `sep` followed by the last piece. */
  lemma LastPieceShape(s: string, sep: char)
    ensures sep !in s ==> LastPiece(s, sep) == s
    ensures sep in s ==> exists front :: s == front + [sep] + LastPiece(s, sep)
  {
    var parts := Split(s, sep);
    SplitSinglePiece(s, sep);
    if sep in s {
      JoinSplit(s, sep);
      JoinSnoc(parts, sep);
      assert s == Join(parts[..|parts| - 1], sep) + [sep] + LastPiece(s, sep);
    }
  }

  /** The last piece holds only characters of `s`. */
  lemma LastPieceWithin(s: string, sep: char)
    ensures forall c :: c in LastPiece(s, sep) ==> c in s
  {
    LastPieceShape(s, sep);
    if sep in s {
      var front :| s == front + [sep] + LastPiece(s, sep);
    }
  }

  /** The last piece of `front + sep + tail`, where `tail` has no `sep`, is `tail`. */
  lemma {:induction false} LastPieceAfterSep(front: string, sep: char, tail: string)
    requires sep !in tail
    ensures LastPiece(front + [sep] + tail, sep) == tail
    decreases |front|
  {
    var k := IndexOf(front, sep);
    if k == |front| {
      SplitAfterFree(front, sep, tail);
    } else {
      var s := front + [sep] + tail;
      assert IndexOf(s, sep) == k by {
        IndexOfPrefix(front, [sep] + tail, sep);
        assert s == front + ([sep] + tail);
      }
      assert s[..k] == front[..k];
      assert s[k + 1..] == front[k + 1..] + [sep] + tail;
      LastPieceAfterSep(front[k + 1..], sep, tail);
    }
  }

  /** An occurrence in a prefix is found before anything appended after it. */
  lemma {:induction false} IndexOfPrefix(a: string, b: string, c: char)
    requires c in a
    ensures IndexOf(a + b, c) == IndexOf(a, c)
  {
    if a[0] != c {
      assert (a + b)[1..] == a[1..] + b;
      IndexOfPrefix(a[1..], b, c);
    }
  }

  /** The first piece of `head + sep + rest`, where `head` has no `sep`, is `head`. */
  lemma FirstPieceBeforeSep(head: string, sep: char, rest: string)
    requires sep !in head
    ensures Split(head + [sep] + rest, sep)[0] == head
  {
    SplitAfterFree(head, sep, rest);
  }

  // ---------------------------------------------------------------------------
  // Decimal rendering of a natural number (a number in a template literal)
  // ---------------------------------------------------------------------------

  predicate IsDigit(c: char) {
    '0' <= c <= '9'
  }

  function DigitChar(d: nat): (c: char)
    requires d < 10
    ensures IsDigit(c)
  {
    ('0' as int + d) as char
  }

  function DigitValue(c: char): (d: nat)
    requires IsDigit(c)
    ensures d < 10
  {
    c as int - '0' as int
  }

  /** Base-10 digits of `n`, most significant first, with no leading zero. */
  function Decimal(n: nat): (r: string)
    ensures |r| >= 1
    ensures forall i :: 0 <= i < |r| ==> IsDigit(r[i])
    ensures |r| > 1 ==> r[0] != '0'
  {
    if n < 10 then [DigitChar(n)]
    else
      var front := Decimal(n / 10);
      front + [DigitChar(n % 10)]
  }

  /** Read a digit string back as a number. */
  function ParseDecimal(s: string): nat
    requires forall i :: 0 <= i < |s| ==> IsDigit(s[i])
  {
    if |s| == 0 then 0 else ParseDecimal(s[..|s| - 1]) * 10 + DigitValue(s[|s| - 1])
  }

  /** Rendering then reading a number gives the number back. */
  lemma {:induction false} DecimalRoundTrip(n: nat)
    ensures ParseDecimal(Decimal(n)) == n
  {
    var r := Decimal(n);
    if n >= 10 {
      DecimalRoundTrip(n / 10);
      assert r[..|r| - 1] == Decimal(n / 10);
    }
  }
}
