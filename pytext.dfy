/**
 * The handful of Python `str` operations the scripts rely on, on `seq<char>`:
 * `strip`, `split` on one separator, `upper`, `isdigit`, `int()`, `str(int)`,
 * `replace`, `ljust` and slicing.
 */
module PyText {
  import opened Wrappers
  import opened Seqs

  /** The characters Python's `str.isspace` accepts; they are what `str.strip()` removes. */
  predicate IsSpace(c: char) {
    || c == ' '
    || ('\t' <= c <= '\r')
    || ('\U{1c}' <= c <= '\U{1f}')
    || c == '\U{85}' || c == '\U{a0}' || c == '\U{1680}'
    || ('\U{2000}' <= c <= '\U{200a}')
    || c == '\U{2028}' || c == '\U{2029}' || c == '\U{202f}' || c == '\U{205f}' || c == '\U{3000}'
  }

  /** The end of the run of whitespace that starts at `k`. */
  function SpaceRunEnd(s: string, k: nat): (n: nat)
    requires k <= |s|
    ensures k <= n <= |s|
    ensures n == |s| || !IsSpace(s[n])
    decreases |s| - k
  {
    if k < |s| && IsSpace(s[k]) then SpaceRunEnd(s, k + 1) else k
  }

  /** Everything between `k` and the end of its run is whitespace. */
  lemma {:induction false} SpaceRunAll(s: string, k: nat)
    requires k <= |s|
    ensures forall i :: k <= i < SpaceRunEnd(s, k) ==> IsSpace(s[i])
    decreases |s| - k
  {
    if k < |s| && IsSpace(s[k]) {
      SpaceRunAll(s, k + 1);
    }
  }

  /** `s.lstrip()`: what is left after dropping leading whitespace. */
  function LStrip(s: string): (r: string)
    ensures |r| <= |s|
    ensures r == [] || !IsSpace(r[0])
  {
    s[SpaceRunEnd(s, 0)..]
  }

  /** `s.rstrip()`: what is left after dropping trailing whitespace. */
  function RStrip(s: string): (r: string)
    ensures |r| <= |s|
    ensures r == [] || !IsSpace(r[|r| - 1])
    ensures r == [] || r[0] == s[0]
  {
    if s != [] && IsSpace(s[|s| - 1]) then RStrip(s[..|s| - 1]) else s
  }

  /** `lstrip()` keeps a suffix and drops only whitespace. */
  lemma LStripSuffix(s: string)
    ensures LStrip(s) == s[|s| - |LStrip(s)|..]
    ensures forall i :: 0 <= i < |s| - |LStrip(s)| ==> IsSpace(s[i])
  {
    SpaceRunAll(s, 0);
  }

  /** `rstrip()` keeps a prefix and drops only whitespace. */
  lemma {:induction false} RStripPrefix(s: string)
    ensures RStrip(s) == s[..|RStrip(s)|]
    ensures forall i :: |RStrip(s)| <= i < |s| ==> IsSpace(s[i])
  {
    if s != [] && IsSpace(s[|s| - 1]) {
      RStripPrefix(s[..|s| - 1]);
    }
  }

  /** A string with no whitespace at either end, which `strip()` leaves alone. */
  predicate Stripped(s: string) {
    s == [] || (!IsSpace(s[0]) && !IsSpace(s[|s| - 1]))
  }

  /** `s.strip()`. */
  function Strip(s: string): (r: string)
    ensures |r| <= |s|
    ensures Stripped(r)
  {
    RStrip(LStrip(s))
  }

  /** `strip()` keeps a contiguous slice of the string, starting after the leading whitespace. */
  lemma StripSlice(s: string)
    ensures var k := |s| - |LStrip(s)|;
            k + |Strip(s)| <= |s| && Strip(s) == s[k..k + |Strip(s)|]
  {
    LStripSuffix(s);
    RStripPrefix(LStrip(s));
  }

  /** `strip()` keeps only characters of the string. */
  lemma StripSubset(s: string)
    ensures forall c :: c in Strip(s) ==> c in s
  {
    StripSlice(s);
    var k := |s| - |LStrip(s)|;
    forall c | c in Strip(s) ensures c in s {
      var i :| 0 <= i < |Strip(s)| && Strip(s)[i] == c;
      assert s[k + i] == c;
    }
  }

  /** `strip()` gives the empty string exactly for an all-whitespace string. */
  lemma StripEmpty(s: string)
    ensures Strip(s) == [] <==> forall i :: 0 <= i < |s| ==> IsSpace(s[i])
  {
    LStripSuffix(s);
    RStripPrefix(LStrip(s));
    var l := LStrip(s);
    if Strip(s) == [] {
      assert l == [];
    } else {
      StripSlice(s);
    }
  }

  lemma StripStripped(s: string)
    requires Stripped(s)
    ensures Strip(s) == s
  {
  }

  /** Stripping twice is stripping once. */
  lemma StripIdempotent(s: string)
    ensures Strip(Strip(s)) == Strip(s)
  {
    StripStripped(Strip(s));
  }

  /** Index of the first occurrence of `c` in `s`. */
  function IndexOf(s: string, c: char): (i: nat)
    requires c in s
    ensures i < |s| && s[i] == c
  {
    var n := |s| - 1;
    if c in s[..n] then IndexOf(s[..n], c) else n
  }

  /** No earlier character is `c`. */
  lemma {:induction false} IndexOfFirst(s: string, c: char)
    requires c in s
    ensures c !in s[..IndexOf(s, c)]
  {
    var n := |s| - 1;
    if c in s[..n] {
      IndexOfFirst(s[..n], c);
      assert s[..n][..IndexOf(s, c)] == s[..IndexOf(s, c)];
    }
  }

  /** The first `c` in `a + [c] + b`, when `a` has none, is at `|a|`. */
  lemma {:induction false} IndexOfAfter(a: string, c: char, b: string)
    requires c !in a
    ensures c in a + [c] + b && IndexOf(a + [c] + b, c) == |a|
  {
    var s := a + [c] + b;
    assert s[|a|] == c;
    if b == [] {
      assert s[..|s| - 1] == a;
    } else {
      var b' := b[..|b| - 1];
      assert s[..|s| - 1] == a + [c] + b';
      assert (a + [c] + b')[|a|] == c;
      IndexOfAfter(a, c, b');
    }
  }

  /** The pieces after one more character: a separator starts a new piece, anything else extends the last. */
  function SplitStep(parts: seq<string>, c: char, sep: char): (r: seq<string>)
    requires |parts| >= 1
    ensures |r| >= 1
  {
    if c == sep then parts + [[]]
    else parts[..|parts| - 1] + [parts[|parts| - 1] + [c]]
  }

  /** `s.split(sep)` for a one-character separator: never empty, as in Python. */
  function Split(s: string, sep: char): (parts: seq<string>)
    ensures |parts| >= 1
  {
    if s == [] then [[]] else SplitStep(Split(s[..|s| - 1], sep), s[|s| - 1], sep)
  }

  /** A string split at one more character. */
  lemma SplitSnoc(s: string, c: char, sep: char)
    ensures Split(s + [c], sep) == SplitStep(Split(s, sep), c, sep)
  {
    SnocFront(s, c);
  }

  /** No piece of a split holds the separator. */
  lemma {:induction false} SplitPieces(s: string, sep: char)
    ensures forall i :: 0 <= i < |Split(s, sep)| ==> sep !in Split(s, sep)[i]
  {
    if s != [] {
      var init := Split(s[..|s| - 1], sep);
      SplitPieces(s[..|s| - 1], sep);
      assert forall i :: 0 <= i < |init| - 1 ==> Split(s, sep)[i] == init[i];
    }
  }

  /** A string without the separator is one piece. */
  lemma {:induction false} SplitNoSep(s: string, sep: char)
    requires sep !in s
    ensures Split(s, sep) == [s]
  {
    if s != [] {
      SplitNoSep(s[..|s| - 1], sep);
      FrontLast(s);
    }
  }

  /** A step changes only the last piece, so earlier pieces in front stay. */
  lemma SplitStepAppend(xs: seq<string>, ys: seq<string>, c: char, sep: char)
    requires |ys| >= 1
    ensures SplitStep(xs + ys, c, sep) == xs + SplitStep(ys, c, sep)
  {
    assert (xs + ys)[..|xs + ys| - 1] == xs + ys[..|ys| - 1];
  }

  /** Splitting at a separator splits each side. */
  lemma {:induction false} SplitAround(a: string, b: string, sep: char)
    ensures Split(a + [sep] + b, sep) == Split(a, sep) + Split(b, sep)
  {
    if b == [] {
      assert a + [sep] + b == a + [sep];
      SplitSnoc(a, sep, sep);
    } else {
      var b' := b[..|b| - 1];
      var c := b[|b| - 1];
      var front := a + [sep] + b';
      assert b == b' + [c];
      assert a + [sep] + b == front + [c];
      SplitSnoc(front, c, sep);
      SplitAround(a, b', sep);
      SplitStepAppend(Split(a, sep), Split(b', sep), c, sep);
      SplitSnoc(b', c, sep);
    }
  }

  /** `sep.join(parts)`. */
  function Join(parts: seq<string>, sep: char): string
  {
    if |parts| == 0 then ""
    else if |parts| == 1 then parts[0]
    else Join(parts[..|parts| - 1], sep) + [sep] + parts[|parts| - 1]
  }

  /** Two pieces joined. */
  lemma Join2(a: string, b: string, sep: char)
    ensures Join([a, b], sep) == a + [sep] + b
  {
    assert [a, b][..1] == [a];
  }

  /** Three pieces joined. */
  lemma Join3(a: string, b: string, c: string, sep: char)
    ensures Join([a, b, c], sep) == a + [sep] + b + [sep] + c
  {
    assert [a, b, c][..2] == [a, b];
    Join2(a, b, sep);
  }

  /** Extending the last piece extends the join. */
  lemma JoinExtendLast(parts: seq<string>, c: char, sep: char)
    requires |parts| >= 1
    ensures Join(parts[..|parts| - 1] + [parts[|parts| - 1] + [c]], sep) == Join(parts, sep) + [c]
  {
    var k := |parts| - 1;
    var q := parts[..k] + [parts[k] + [c]];
    assert q[..k] == parts[..k];
  }

  /** One more character of the string is one more character of the joined pieces. */
  lemma JoinSplitSnoc(s: string, c: char, sep: char)
    ensures Join(Split(s + [c], sep), sep) == Join(Split(s, sep), sep) + [c]
  {
    SplitSnoc(s, c, sep);
    var p := Split(s, sep);
    if c == sep {
      SnocFront(p, []);
    } else {
      JoinExtendLast(p, c, sep);
    }
  }

  /** Joining the pieces of a split gives back the string. */
  lemma {:induction false} JoinSplit(s: string, sep: char)
    ensures Join(Split(s, sep), sep) == s
  {
    if s != [] {
      var s' := s[..|s| - 1];
      JoinSplit(s', sep);
      JoinSplitSnoc(s', s[|s| - 1], sep);
      FrontLast(s);
    }
  }

  /** Splitting a join of separator-free pieces gives back the pieces. */
  lemma {:induction false} SplitJoin(parts: seq<string>, sep: char)
    requires |parts| >= 1
    requires forall i :: 0 <= i < |parts| ==> sep !in parts[i]
    ensures Split(Join(parts, sep), sep) == parts
  {
    var k := |parts| - 1;
    SplitNoSep(parts[k], sep);
    if k > 0 {
      SplitJoin(parts[..k], sep);
      SplitAround(Join(parts[..k], sep), parts[k], sep);
      assert parts[..k] + [parts[k]] == parts;
    }
  }

  /** The first character of a join is that of its first piece, and the join is at least that long. */
  lemma {:induction false} JoinFirst(parts: seq<string>, sep: char)
    requires |parts| >= 1 && parts[0] != ""
    ensures |Join(parts, sep)| >= |parts[0]| && Join(parts, sep)[0] == parts[0][0]
  {
    if |parts| > 1 {
      var front := parts[..|parts| - 1];
      JoinFirst(front, sep);
    }
  }

  /** The last character of a join is that of its last piece. */
  lemma JoinLast(parts: seq<string>, sep: char)
    requires |parts| >= 1 && parts[|parts| - 1] != ""
    ensures |Join(parts, sep)| >= 1 && Join(parts, sep)[|Join(parts, sep)| - 1] == parts[|parts| - 1][|parts[|parts| - 1]| - 1]
  {
  }

  /** Python's `str.upper()` on one character, for ASCII letters. */
  function UpperChar(c: char): char {
    if 'a' <= c <= 'z' then (c as int - 32) as char else c
  }

  /** `s.upper()` restricted to ASCII letters: each one upper-cased in place, every other character kept. */
  function Upper(s: string): (r: string)
    ensures |r| == |s|
  {
    if s == [] then [] else Upper(s[..|s| - 1]) + [UpperChar(s[|s| - 1])]
  }

  /** Each character of `s.upper()` is the upper-cased character of `s`. */
  lemma {:induction false} UpperAt(s: string)
    ensures forall i :: 0 <= i < |s| ==> Upper(s)[i] == UpperChar(s[i])
  {
    if s != [] {
      UpperAt(s[..|s| - 1]);
    }
  }

  /** An upper-cased string has no lower-case letter, and upper-casing it again changes nothing. */
  lemma UpperIdempotent(s: string)
    ensures forall i :: 0 <= i < |s| ==> !('a' <= Upper(s)[i] <= 'z')
    ensures Upper(Upper(s)) == Upper(s)
  {
    UpperAt(s);
    UpperAt(Upper(s));
  }

  /** Upper-casing adds no character that is neither a letter nor there before. */
  lemma UpperAbsent(s: string, c: char)
    requires c !in s && !('a' <= c <= 'z') && !('A' <= c <= 'Z')
    ensures c !in Upper(s)
  {
    UpperAt(s);
  }

  predicate IsDigit(c: char) {
    '0' <= c <= '9'
  }

  /** `s.isdigit()` for ASCII digits: non-empty, every character a digit. */
  predicate IsDigits(s: string) {
    |s| > 0 && forall i :: 0 <= i < |s| ==> IsDigit(s[i])
  }

  function Pow10(k: nat): (p: nat)
    ensures p >= 1
  {
    if k == 0 then 1 else 10 * Pow10(k - 1)
  }

  lemma Pow10Monotone(j: nat, k: nat)
    requires j <= k
    ensures Pow10(j) <= Pow10(k)
  {
  }

  /** The decimal value of a run of digits, below `10^|s|`. */
  function DigitsValue(s: string): (n: nat)
    requires forall i :: 0 <= i < |s| ==> IsDigit(s[i])
    ensures n < Pow10(|s|)
  {
    if s == [] then 0
    else
      var a := DigitsValue(s[..|s| - 1]);
      assert IsDigit(s[|s| - 1]);
      var d := s[|s| - 1] as int - '0' as int;
      assert a + 1 <= Pow10(|s| - 1);
      assert 10 * a + d < 10 * (a + 1);
      10 * a + d
  }

  /** ASCII digits, with single underscores between them: the literal `int()` accepts after the sign. */
  predicate IsGroupedDigits(t: string) {
    && |t| > 0 && IsDigit(t[0]) && IsDigit(t[|t| - 1])
    && (forall i :: 0 <= i < |t| ==> IsDigit(t[i]) || t[i] == '_')
    && (forall i :: 0 <= i < |t| - 1 ==> t[i] == '_' ==> t[i + 1] != '_')
  }

  /** The digits of a grouped literal, underscores removed. */
  function DropUnderscores(t: string): (d: string)
    ensures |d| <= |t|
    ensures (forall i :: 0 <= i < |t| ==> IsDigit(t[i]) || t[i] == '_') ==> forall i :: 0 <= i < |d| ==> IsDigit(d[i])
  {
    if t == [] then []
    else DropUnderscores(t[..|t| - 1]) + (if t[|t| - 1] == '_' then [] else [t[|t| - 1]])
  }

  /** A run of digits is a grouped literal without underscores. */
  lemma {:induction false} DropUnderscoresOfDigits(t: string)
    requires forall i :: 0 <= i < |t| ==> IsDigit(t[i])
    ensures DropUnderscores(t) == t
  {
    if t != [] {
      DropUnderscoresOfDigits(t[..|t| - 1]);
      FrontLast(t);
    }
  }

  /** The literal after the sign: a grouped run of digits, read with its underscores removed. */
  function ParseUnsigned(t: string): (r: Option<int>)
    ensures r.Some? <==> IsGroupedDigits(t)
    ensures r.Some? ==> 0 <= r.value < Pow10(|t|)
  {
    if IsGroupedDigits(t) then
      var d := DropUnderscores(t);
      Pow10Monotone(|d|, |t|);
      Some(DigitsValue(d))
    else None
  }

  /**
   * Python's `int(s)`: surrounding whitespace, an optional sign, then ASCII
   * digits, which may be grouped by single underscores (`int("1_000") == 1000`).
   */
  function ParseInt(s: string): (r: Option<int>)
    ensures r.Some? ==> -(Pow10(|s|) as int) < r.value < Pow10(|s|)
    ensures r.Some? && r.value < 0 ==> |s| >= 1 && -r.value < Pow10(|s| - 1)
  {
    var t := Strip(s);
    if |t| > 0 && (t[0] == '+' || t[0] == '-') then
      match ParseUnsigned(t[1..])
      case None => None
      case Some(v) =>
        Pow10Monotone(|t| - 1, |s| - 1);
        Pow10Monotone(|s| - 1, |s|);
        Some(if t[0] == '-' then -v else v)
    else
      Pow10Monotone(|t|, |s|);
      ParseUnsigned(t)
  }

  /** `int(d)` of a run of ASCII digits is its decimal value. */
  lemma ParseIntDigits(d: string)
    requires IsDigits(d)
    ensures ParseInt(d) == Some(DigitsValue(d))
  {
    StripStripped(d);
    DropUnderscoresOfDigits(d);
  }

  /** A grouped literal reads as its digits with the underscores removed. */
  lemma ParseIntGroupedValue(t: string)
    requires IsGroupedDigits(t)
    ensures ParseInt(t) == Some(DigitsValue(DropUnderscores(t)))
  {
    StripStripped(t);
    assert IsDigit(t[0]);
  }

  /** Underscores between digits are skipped: `int("1_2") == 12`. */
  lemma ParseIntGroupedExample()
    ensures ParseInt("1_2") == Some(12)
  {
    GroupedPair('1', '2');
    assert ['1', '_', '2'] == "1_2" && ['1', '2'] == "12";
    assert "12"[..1] == "1";
  }

  /** Two digits around one underscore read as the two-digit number. */
  lemma GroupedPair(a: char, b: char)
    requires IsDigit(a) && IsDigit(b)
    ensures ParseInt([a, '_', b]) == Some(DigitsValue([a, b]))
  {
    var t := [a, '_', b];
    assert t[..2] == [a, '_'] && [a, '_'][..1] == [a] && [a][..0] == [];
    assert DropUnderscores([a]) == [a];
    assert DropUnderscores([a, '_']) == [a];
    assert DropUnderscores(t) == [a, b];
    ParseIntGroupedValue(t);
  }

  /** A doubled, leading or trailing underscore makes `int()` raise. */
  lemma ParseIntBadGroups()
    ensures ParseInt("1__2") == None
    ensures ParseInt("_12") == None
    ensures ParseInt("12_") == None
  {
    StripStripped("1__2");
    StripStripped("_12");
    StripStripped("12_");
    assert "1__2"[1] == '_' && "1__2"[2] == '_';
  }

  function DigitChar(d: nat): (c: char)
    requires d < 10
    ensures IsDigit(c) && c as int - '0' as int == d
  {
    ('0' as int + d) as char
  }

  /** `str(n)` for a natural number: its decimal digits. */
  function NatToString(n: nat): (s: string)
    ensures IsDigits(s) && DigitsValue(s) == n
    decreases n
  {
    if n < 10 then [DigitChar(n)]
    else
      var a := NatToString(n / 10);
      var s := a + [DigitChar(n % 10)];
      assert s[..|s| - 1] == a;
      s
  }

  /** `int("-" + d)` of a run of ASCII digits is the negated value. */
  lemma ParseIntNegative(d: string)
    requires IsDigits(d)
    ensures ParseInt("-" + d) == Some(-(DigitsValue(d) as int))
  {
    var s := "-" + d;
    assert s[1..] == d;
    StripStripped(s);
    DropUnderscoresOfDigits(d);
  }

  /** `str(i)` for an integer: a minus sign for negative values, then the digits. */
  function IntToString(i: int): (s: string)
    ensures ParseInt(s) == Some(i)
  {
    if i < 0 then
      var d := NatToString(-i);
      ParseIntNegative(d);
      "-" + d
    else
      var d := NatToString(i);
      ParseIntDigits(d);
      d
  }

  /** `s[:n]`. */
  function Take(s: string, n: nat): (r: string)
    ensures |r| == if |s| <= n then |s| else n
    ensures r == s[..|r|]
  {
    if |s| <= n then s else s[..n]
  }

  /** `c`, or `b` when `c` is `a`. */
  function ReplacedChar(c: char, a: char, b: char): char {
    if c == a then b else c
  }

  /** `s.replace(a, b)` for single characters. */
  function ReplaceChar(s: string, a: char, b: char): (r: string)
    ensures |r| == |s|
  {
    if s == [] then [] else ReplaceChar(s[..|s| - 1], a, b) + [ReplacedChar(s[|s| - 1], a, b)]
  }

  /** Each character is replaced in place. */
  lemma {:induction false} ReplaceCharAt(s: string, a: char, b: char)
    ensures forall i :: 0 <= i < |s| ==> ReplaceChar(s, a, b)[i] == ReplacedChar(s[i], a, b)
  {
    if s != [] {
      ReplaceCharAt(s[..|s| - 1], a, b);
    }
  }

  /** Replacing a character that does not occur changes nothing. */
  lemma ReplaceAbsent(s: string, a: char, b: char)
    requires a !in s
    ensures ReplaceChar(s, a, b) == s
  {
    ReplaceCharAt(s, a, b);
  }

  /** Replacing `a` by `b` twice is replacing it once. */
  lemma ReplaceTwice(s: string, a: char, b: char)
    ensures ReplaceChar(ReplaceChar(s, a, b), a, b) == ReplaceChar(s, a, b)
  {
    ReplaceCharAt(s, a, b);
    ReplaceCharAt(ReplaceChar(s, a, b), a, b);
  }

  /** A replacement between non-space characters keeps every run of whitespace. */
  lemma {:induction false} SpaceRunReplace(s: string, a: char, b: char, k: nat)
    requires !IsSpace(a) && !IsSpace(b) && k <= |s|
    ensures SpaceRunEnd(ReplaceChar(s, a, b), k) == SpaceRunEnd(s, k)
    decreases |s| - k
  {
    ReplaceCharAt(s, a, b);
    if k < |s| && IsSpace(s[k]) {
      SpaceRunReplace(s, a, b, k + 1);
    }
  }

  /** Replacing in a suffix is taking the suffix of the replacement. */
  lemma ReplaceSuffix(s: string, a: char, b: char, k: nat)
    requires k <= |s|
    ensures ReplaceChar(s, a, b)[k..] == ReplaceChar(s[k..], a, b)
  {
    ReplaceCharAt(s, a, b);
    ReplaceCharAt(s[k..], a, b);
  }

  lemma LStripReplace(s: string, a: char, b: char)
    requires !IsSpace(a) && !IsSpace(b)
    ensures LStrip(ReplaceChar(s, a, b)) == ReplaceChar(LStrip(s), a, b)
  {
    SpaceRunReplace(s, a, b, 0);
    ReplaceSuffix(s, a, b, SpaceRunEnd(s, 0));
  }

  lemma {:induction false} RStripReplace(s: string, a: char, b: char)
    requires !IsSpace(a) && !IsSpace(b)
    ensures RStrip(ReplaceChar(s, a, b)) == ReplaceChar(RStrip(s), a, b)
  {
    if s != [] && IsSpace(s[|s| - 1]) {
      RStripReplace(s[..|s| - 1], a, b);
    }
  }

  /** Replacing one non-space character by another commutes with `strip()`. */
  lemma StripReplace(s: string, a: char, b: char)
    requires !IsSpace(a) && !IsSpace(b)
    ensures Strip(ReplaceChar(s, a, b)) == ReplaceChar(Strip(s), a, b)
  {
    LStripReplace(s, a, b);
    RStripReplace(LStrip(s), a, b);
  }

  /** `n` copies of `c`. */
  function Repeat(c: char, n: nat): (r: string)
    ensures |r| == n
  {
    if n == 0 then [] else Repeat(c, n - 1) + [c]
  }

  /** Every character of `Repeat(c, n)` is `c`. */
  lemma {:induction false} RepeatAt(c: char, n: nat)
    ensures forall i :: 0 <= i < n ==> Repeat(c, n)[i] == c
  {
    if n > 0 {
      RepeatAt(c, n - 1);
    }
  }

  /** `s.ljust(width, fill)`: `s` padded on the right with `fill` up to `width` characters. */
  function LJust(s: string, width: nat, fill: char): (r: string)
    ensures |r| == if |s| >= width then |s| else width
    ensures r[..|s|] == s
  {
    if |s| >= width then s else s + Repeat(fill, width - |s|)
  }

  /** The padding is made of the fill character. */
  lemma LJustPad(s: string, width: nat, fill: char)
    ensures forall i :: |s| <= i < |LJust(s, width, fill)| ==> LJust(s, width, fill)[i] == fill
  {
    if |s| < width {
      RepeatAt(fill, width - |s|);
    }
  }
}
