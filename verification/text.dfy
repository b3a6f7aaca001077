/** String rules shared by the client: decimal rendering of numbers as in a
    JavaScript template literal, `String.prototype.split` on one character,
    `includes`/`startsWith`, the `Number()` conversion of a key part, the
    `${row}-${col}` cell key, numbered header labels and the final-extension
    strip used for upload titles. */
module Text {
  import opened Wrappers

  predicate IsDigit(c: char) {
    '0' <= c <= '9'
  }

  predicate AllDigits(s: string) {
    forall i :: 0 <= i < |s| ==> IsDigit(s[i])
  }

  function DigitChar(d: nat): (c: char)
    requires d < 10
    ensures IsDigit(c) && (c as int) - ('0' as int) == d
  {
    "0123456789"[d]
  }

  function DigitValue(c: char): nat
    requires IsDigit(c)
  {
    (c as int) - ('0' as int)
  }

  /** Decimal rendering of a natural number, as `${n}` prints it. */
  function NatToString(n: nat): (s: string)
    ensures |s| > 0 && AllDigits(s)
  {
    if n < 10 then [DigitChar(n)] else NatToString(n / 10) + [DigitChar(n % 10)]
  }

  /** Decimal rendering of an integer, with a leading '-' when negative. */
  function IntToString(i: int): (s: string)
    ensures |s| > 0
    ensures i >= 0 ==> AllDigits(s)
    ensures i < 0 ==> s[0] == '-'
  {
    if i < 0 then "-" + NatToString(-i) else NatToString(i)
  }

  /** The value of a string of decimal digits (leading zeros allowed). */
  function DigitsValue(s: string): nat
    requires AllDigits(s)
  {
    if |s| == 0 then 0 else DigitsValue(s[..|s| - 1]) * 10 + DigitValue(s[|s| - 1])
  }

  /** Reading back the rendering of `n` gives `n`. */
  lemma {:induction false} NatToStringRoundTrip(n: nat)
    ensures DigitsValue(NatToString(n)) == n
  {
    if n >= 10 {
      var s := NatToString(n);
      assert s[..|s| - 1] == NatToString(n / 10);
      NatToStringRoundTrip(n / 10);
    }
  }

  /** Different numbers have different renderings. */
  lemma NatToStringInjective(m: nat, n: nat)
    requires NatToString(m) == NatToString(n)
    ensures m == n
  {
    NatToStringRoundTrip(m);
    NatToStringRoundTrip(n);
  }

  /** A common prefix can be cancelled. */
  lemma PrefixCancel<T>(p: seq<T>, a: seq<T>, b: seq<T>)
    requires p + a == p + b
    ensures a == b
  {
    assert a == (p + a)[|p|..];
    assert b == (p + b)[|p|..];
  }

  /** JavaScript `Number(part)` for a part of a split cell key: the empty string
      converts to 0, a string of decimal digits to its value, anything else to
      NaN (`None`). */
  function NumberOf(part: string): (r: Option<nat>)
    ensures part == "" ==> r == Some(0)
    ensures r.Some? <==> AllDigits(part)
  {
    if AllDigits(part) then Some(DigitsValue(part)) else None
  }

  /** `s.split(sep)`: the maximal runs between separators, always at least one. */
  function Split(s: string, sep: char): (parts: seq<string>)
    ensures |parts| >= 1
    ensures sep in s ==> |parts| >= 2
  {
    if |s| == 0 then [""]
    else
      var rest := Split(s[1..], sep);
      if s[0] == sep then [""] + rest else [[s[0]] + rest[0]] + rest[1..]
  }

  /** Splitting a string that does not contain `sep` yields the string itself. */
  lemma {:induction false} SplitNoSeparator(s: string, sep: char)
    requires sep !in s
    ensures Split(s, sep) == [s]
  {
    if |s| > 0 {
      SplitNoSeparator(s[1..], sep);
      assert [s[0]] + s[1..] == s;
    }
  }

  /** Splitting `a + [sep] + b`, where neither part holds `sep`, yields `[a, b]`. */
  lemma {:induction false} SplitTwoParts(a: string, b: string, sep: char)
    requires sep !in a && sep !in b
    ensures Split(a + [sep] + b, sep) == [a, b]
  {
    if |a| == 0 {
      assert a + [sep] + b == [sep] + b;
      assert ([sep] + b)[1..] == b;
      SplitNoSeparator(b, sep);
    } else {
      var s := a + [sep] + b;
      assert s[1..] == a[1..] + [sep] + b;
      SplitTwoParts(a[1..], b, sep);
      assert [a[0]] + a[1..] == a;
    }
  }

  predicate StartsWith(s: string, prefix: string) {
    |prefix| <= |s| && s[..|prefix|] == prefix
  }

  /** `s.includes(sub)`, searched position by position. */
  function Contains(s: string, sub: string): bool
    decreases |s|
  {
    StartsWith(s, sub) || (|s| > 0 && Contains(s[1..], sub))
  }

  /** `sub` occurs in `s` at offset `i`. */
  predicate OccursAt(s: string, sub: string, i: int) {
    0 <= i <= |s| - |sub| && s[i..i + |sub|] == sub
  }

  /** The search agrees with the definition "`sub` occurs at some offset". */
  lemma {:induction false} ContainsIsOccurrence(s: string, sub: string)
    ensures Contains(s, sub) <==> exists i :: OccursAt(s, sub, i)
    decreases |s|
  {
    if StartsWith(s, sub) {
      assert OccursAt(s, sub, 0);
    } else if |s| > 0 {
      ContainsIsOccurrence(s[1..], sub);
      if exists i :: OccursAt(s, sub, i) {
        var i :| OccursAt(s, sub, i);
        assert i != 0;
        assert OccursAt(s[1..], sub, i - 1);
      }
      if Contains(s[1..], sub) {
        var j :| OccursAt(s[1..], sub, j);
        assert OccursAt(s, sub, j + 1);
      }
    }
  }

  /** The key under which a cell's category is stored: `${row}-${col}`. */
  function CellKey(row: int, col: int): string {
    IntToString(row) + "-" + IntToString(col)
  }

  /** How the table reads a key back: split on '-', convert the first two
      parts with `Number`; `None` when there is no second part or either part
      is NaN (such a key never addresses a cell). */
  function ParseCellKey(key: string): (r: Option<(nat, nat)>)
    ensures r.Some? ==> |Split(key, '-')| >= 2
  {
    var parts := Split(key, '-');
    if |parts| < 2 then None
    else
      match (NumberOf(parts[0]), NumberOf(parts[1]))
      case (Some(row), Some(col)) => Some((row, col))
      case _ => None
  }

  /** Keys written for non-negative cells read back as the same cell. */
  lemma CellKeyRoundTrip(row: nat, col: nat)
    ensures ParseCellKey(CellKey(row, col)) == Some((row, col))
  {
    var a, b := NatToString(row), NatToString(col);
    assert '-' !in a && '-' !in b;
    assert CellKey(row, col) == a + ['-'] + b;
    SplitTwoParts(a, b, '-');
    NatToStringRoundTrip(row);
    NatToStringRoundTrip(col);
  }

  /** Distinct non-negative cells have distinct keys. */
  lemma CellKeyInjective(r1: nat, c1: nat, r2: nat, c2: nat)
    requires CellKey(r1, c1) == CellKey(r2, c2)
    ensures r1 == r2 && c1 == c2
  {
    CellKeyRoundTrip(r1, c1);
    CellKeyRoundTrip(r2, c2);
  }

  /** `Array.from({length: n}, (_, i) => `${prefix}${i + 1}`)`. */
  function NumberedLabels(prefix: string, n: nat): (labels: seq<string>)
    ensures |labels| == n
    ensures forall i :: 0 <= i < n ==> labels[i] == prefix + NatToString(i + 1)
  {
    seq(n, i requires 0 <= i < n => prefix + NatToString(i + 1))
  }

  /** Index of the last occurrence of `c` in `s`. */
  function LastIndexOf(s: string, c: char): (r: Option<nat>)
    ensures r.Some? ==> r.value < |s| && s[r.value] == c && c !in s[r.value + 1..]
    ensures r.None? ==> c !in s
  {
    if |s| == 0 then None
    else if s[|s| - 1] == c then Some(|s| - 1)
    else
      var r := LastIndexOf(s[..|s| - 1], c);
      assert r.Some? ==> s[r.value + 1..] == s[..|s| - 1][r.value + 1..] + [s[|s| - 1]];
      r
  }

  /** `name.replace(/\.[^/.]+$/, '')`: drop a final extension, that is a last
      '.' followed by at least one character and no '/'. */
  function StripExtension(name: string): (r: string)
    ensures StartsWith(name, r)
    ensures r != name ==>
      |r| < |name| - 1 && name[|r|] == '.' && '.' !in name[|r| + 1..] && '/' !in name[|r| + 1..]
    ensures r == name ==>
      forall i :: 0 <= i < |name| - 1 && name[i] == '.' && '.' !in name[i + 1..] ==> '/' in name[i + 1..]
  {
    match LastIndexOf(name, '.')
    case None => name
    case Some(i) =>
      if i < |name| - 1 && '/' !in name[i + 1..] then name[..i] else name
  }
}
