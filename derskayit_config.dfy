/**
 * The configuration parsers of itu_obs_ders_kayit.py: the `BRANCH:CRN,...`
 * list, the `HH:MM:SS.fff` target time, the branch-code file and the table
 * of per-branch schedule URLs built from it.
 */
module DersKayitConfig {
  import opened Wrappers
  import opened PyText
  import opened PyJson
  import opened OrderedDict
  import opened OptionSeqs
  import opened Seqs

  // ---------------------------------------------------------------------
  // _parse_prefixed_crn_list
  // ---------------------------------------------------------------------

  /**
   * What one comma-separated piece contributes: `(branch, crn)`, or nothing
   * for a blank piece, a piece without `:`, or an empty side after trimming.
   */
  function ParseCrnToken(part: string): Option<(string, string)> {
    var token := Strip(part);
    if token == "" || ':' !in token then None
    else
      var i := IndexOf(token, ':');
      var branch := Upper(Strip(token[..i]));
      var crn := Strip(token[i + 1..]);
      if branch != "" && crn != "" then Some((branch, crn)) else None
  }

  /**
   * A piece splits at its first colon: the branch is trimmed and upper-cased,
   * the CRN is trimmed and keeps any later colons.
   */
  lemma ParseCrnTokenAtFirstColon(part: string, b: string, c: string)
    requires Strip(part) == b + ":" + c && ':' !in b
    ensures ParseCrnToken(part) ==
              if Strip(b) != "" && Strip(c) != "" then Some((Upper(Strip(b)), Strip(c))) else None
  {
    IndexOfAfter(b, ':', c);
    var t := b + ":" + c;
    assert t[..|b|] == b;
    assert t[|b| + 1..] == c;
  }

  /** A produced branch is non-empty, upper-case and free of colons. */
  lemma ParsedBranchShape(part: string)
    requires ParseCrnToken(part).Some?
    ensures var b := ParseCrnToken(part).value.0; b != "" && ':' !in b && Upper(b) == b
  {
    var token := Strip(part);
    var i := IndexOf(token, ':');
    var raw := Strip(token[..i]);
    assert ParseCrnToken(part).value.0 == Upper(raw);
    IndexOfFirst(token, ':');
    StripSubset(token[..i]);
    UpperAbsent(raw, ':');
    UpperIdempotent(raw);
  }

  /** A produced CRN is non-empty and trimmed. */
  lemma ParsedCrnTrimmed(part: string)
    requires ParseCrnToken(part).Some?
    ensures var c := ParseCrnToken(part).value.1; c != "" && Strip(c) == c
  {
    var token := Strip(part);
    var i := IndexOf(token, ':');
    var c := Strip(token[i + 1..]);
    assert ParseCrnToken(part).value.1 == c;
    StripStripped(c);
  }

  /** A produced pair has a non-empty upper-case branch without a colon and a non-empty trimmed CRN. */
  lemma ParsedCrnShape(part: string)
    requires ParseCrnToken(part).Some?
    ensures var (b, c) := ParseCrnToken(part).value;
            b != "" && c != "" && ':' !in b && Upper(b) == b && Strip(c) == c
  {
    ParsedBranchShape(part);
    ParsedCrnTrimmed(part);
  }

  /** What each piece contributes, piece by piece. */
  function ParsedTokens(parts: seq<string>): (r: seq<Option<(string, string)>>)
    ensures |r| == |parts|
  {
    MapSeq(ParseCrnToken, parts)
  }

  /** `(branch, crn)` pairs of a raw `BRANCH:CRN,...` string, in input order; `""` has none. */
  function CrnTokens(raw: string): seq<(string, string)> {
    if raw == "" then [] else Somes(ParsedTokens(Split(raw, ',')))
  }

  /** The pairs of a prefix of the pieces grow by what the next piece contributes. */
  lemma CrnTokensStep(parts: seq<string>, i: nat)
    requires i < |parts|
    ensures Somes(ParsedTokens(parts[..i + 1])) ==
              if ParseCrnToken(parts[i]).Some? then Somes(ParsedTokens(parts[..i])) + [ParseCrnToken(parts[i]).value]
              else Somes(ParsedTokens(parts[..i]))
  {
    TakeSnoc(parts, i);
    MapSeqSnoc(ParseCrnToken, parts[..i], parts[i]);
    SomesSnoc(ParsedTokens(parts[..i]), ParseCrnToken(parts[i]));
    assert Somes(ParsedTokens(parts[..i])) + [] == Somes(ParsedTokens(parts[..i]));
  }

  /** A piece that parses to a pair adds that pair. */
  lemma CrnTokensAdd(parts: seq<string>, i: nat, branch: string, crn: string)
    requires i < |parts| && ParseCrnToken(parts[i]) == Some((branch, crn))
    ensures Somes(ParsedTokens(parts[..i + 1])) == Somes(ParsedTokens(parts[..i])) + [(branch, crn)]
  {
    CrnTokensStep(parts, i);
  }

  /** A piece that parses to nothing adds nothing. */
  lemma CrnTokensNone(parts: seq<string>, i: nat)
    requires i < |parts| && ParseCrnToken(parts[i]) == None
    ensures Somes(ParsedTokens(parts[..i + 1])) == Somes(ParsedTokens(parts[..i]))
  {
    CrnTokensStep(parts, i);
  }

  /** The body of the loop over the pieces: `(branch, crn)` when `ok`. */
  method ParseToken(part: string) returns (ok: bool, branch: string, crn: string)
    ensures ParseCrnToken(part) == if ok then Some((branch, crn)) else None
  {
    ok, branch, crn := false, "", "";
    var token := Strip(part);
    if token == "" || ':' !in token {
      return;
    }
    var j := IndexOf(token, ':');
    branch := Upper(Strip(token[..j]));
    crn := Strip(token[j + 1..]);
    ok := branch != "" && crn != "";
  }

  /**
   * `_parse_prefixed_crn_list`: two parallel lists, the i-th branch and the
   * i-th CRN forming the i-th pair of the input; `""` gives two empty lists.
   */
  method ParsePrefixedCrnList(raw: string) returns (crns: seq<string>, branches: seq<string>)
    ensures |crns| == |branches|
    ensures Zip(branches, crns) == CrnTokens(raw)
    ensures raw == "" ==> crns == [] && branches == []
  {
    crns, branches := [], [];
    if raw == "" {
      return;
    }
    var parts := Split(raw, ',');
    for i := 0 to |parts|
      invariant |crns| == |branches|
      invariant Zip(branches, crns) == Somes(ParsedTokens(parts[..i]))
    {
      var ok, branch, crn := ParseToken(parts[i]);
      ZipTokensStep(parts, i, ok, branch, crn, branches, crns);
      if ok {
        branches := branches + [branch];
        crns := crns + [crn];
      }
    }
    TakeAll(parts);
  }

  /** One pass of the loop keeps the two lists zipping to the pairs of the pieces seen. */
  lemma ZipTokensStep(parts: seq<string>, i: nat, ok: bool, branch: string, crn: string,
                      branches: seq<string>, crns: seq<string>)
    requires i < |parts| && |crns| == |branches|
    requires Zip(branches, crns) == Somes(ParsedTokens(parts[..i]))
    requires ParseCrnToken(parts[i]) == if ok then Some((branch, crn)) else None
    ensures ok ==> Zip(branches + [branch], crns + [crn]) == Somes(ParsedTokens(parts[..i + 1]))
    ensures !ok ==> Zip(branches, crns) == Somes(ParsedTokens(parts[..i + 1]))
  {
    if ok {
      CrnTokensAdd(parts, i, branch, crn);
      ZipSnoc(branches, crns, branch, crn);
    } else {
      CrnTokensNone(parts, i);
    }
  }

  /** The parallel lists pair up position by position. */
  lemma ParsedListsAt(raw: string, crns: seq<string>, branches: seq<string>)
    requires |crns| == |branches| && Zip(branches, crns) == CrnTokens(raw)
    ensures |crns| == |CrnTokens(raw)|
    ensures forall k :: 0 <= k < |crns| ==> CrnTokens(raw)[k] == (branches[k], crns[k])
  {
    ZipAt(branches, crns);
  }

  /** A pair is produced exactly when some piece parses to it. */
  lemma TokenPairsMembers(parts: seq<string>)
    ensures forall p :: p in Somes(ParsedTokens(parts)) <==> exists j :: 0 <= j < |parts| && ParseCrnToken(parts[j]) == Some(p)
  {
    var ys := ParsedTokens(parts);
    MapSeqAt(ParseCrnToken, parts);
    forall p ensures p in Somes(ys) <==> exists j :: 0 <= j < |parts| && ParseCrnToken(parts[j]) == Some(p) {
      InSomes(ys, p);
      if p in Somes(ys) {
        var j :| 0 <= j < |ys| && ys[j] == Some(p);
        assert ParseCrnToken(parts[j]) == Some(p);
      }
      if exists j :: 0 <= j < |parts| && ParseCrnToken(parts[j]) == Some(p) {
        var j :| 0 <= j < |parts| && ParseCrnToken(parts[j]) == Some(p);
        assert ys[j] == Some(p);
      }
    }
  }

  /**
   * The pairs keep the pieces' order: the k-th pair comes from a piece of its
   * own, and later pairs from later pieces.
   */
  lemma TokenPairsOrder(parts: seq<string>)
    ensures |SomeIndices(ParsedTokens(parts))| == |Somes(ParsedTokens(parts))|
    ensures forall k :: 0 <= k < |Somes(ParsedTokens(parts))| ==>
              SomeIndices(ParsedTokens(parts))[k] < |parts| &&
              ParseCrnToken(parts[SomeIndices(ParsedTokens(parts))[k]]) == Some(Somes(ParsedTokens(parts))[k])
    ensures forall k, l :: 0 <= k < l < |Somes(ParsedTokens(parts))| ==>
              SomeIndices(ParsedTokens(parts))[k] < SomeIndices(ParsedTokens(parts))[l]
  {
    MapSeqAt(ParseCrnToken, parts);
    SomeIndicesAt(ParsedTokens(parts));
    SomeIndicesIncreasing(ParsedTokens(parts));
  }

  /** Every pair has a non-empty upper-case branch without a colon and a non-empty trimmed CRN. */
  lemma CrnTokensShape(raw: string)
    ensures forall k :: 0 <= k < |CrnTokens(raw)| ==>
              var (b, c) := CrnTokens(raw)[k];
              b != "" && c != "" && ':' !in b && Upper(b) == b && Strip(c) == c
  {
    if raw != "" {
      var parts := Split(raw, ',');
      var toks := ParsedTokens(parts);
      MapSeqAt(ParseCrnToken, parts);
      forall k | 0 <= k < |CrnTokens(raw)|
        ensures var (b, c) := CrnTokens(raw)[k];
                b != "" && c != "" && ':' !in b && Upper(b) == b && Strip(c) == c
      {
        var p := CrnTokens(raw)[k];
        InSomes(toks, p);
        var j :| 0 <= j < |toks| && toks[j] == Some(p);
        ParsedCrnShape(parts[j]);
      }
    }
  }

  /** A pair that survives being written as `BRANCH:CRN` and parsed back. */
  predicate PlainPair(p: (string, string)) {
    && p.0 != "" && p.1 != ""
    && Stripped(p.0) && Stripped(p.1)
    && ':' !in p.0 && ',' !in p.0 && ',' !in p.1
    && forall i :: 0 <= i < |p.0| ==> !('a' <= p.0[i] <= 'z')
  }

  /** `BRANCH:CRN`. */
  function FormatPair(p: (string, string)): string {
    p.0 + ":" + p.1
  }

  /** `BRANCH:CRN,BRANCH:CRN,...`, the documented input format. */
  function FormatCrnList(ps: seq<(string, string)>): string {
    Join(MapSeq(FormatPair, ps), ',')
  }

  /** A plain pair written as `BRANCH:CRN` parses back to itself. */
  lemma ParseFormatPair(p: (string, string))
    requires PlainPair(p)
    ensures ParseCrnToken(FormatPair(p)) == Some(p)
  {
    var t := FormatPair(p);
    assert t[0] == p.0[0] && t[|t| - 1] == p.1[|p.1| - 1];
    StripStripped(t);
    ParseCrnTokenAtFirstColon(t, p.0, p.1);
    StripStripped(p.0);
    StripStripped(p.1);
    UpperAt(p.0);
    assert Upper(p.0) == p.0;
  }

  /** A written plain pair holds no comma. */
  lemma FormatPairNoComma(p: (string, string))
    requires PlainPair(p)
    ensures ',' !in FormatPair(p) && FormatPair(p) != ""
  {
  }

  /** Parsing the written pieces of plain pairs gives back the pairs. */
  lemma {:induction false} ParseFormatPairs(ps: seq<(string, string)>)
    requires forall i :: 0 <= i < |ps| ==> PlainPair(ps[i])
    ensures Somes(ParsedTokens(MapSeq(FormatPair, ps))) == ps
  {
    if ps != [] {
      var init := ps[..|ps| - 1];
      var last := ps[|ps| - 1];
      ParseFormatPairs(init);
      var xs := MapSeq(FormatPair, init);
      FrontLast(ps);
      MapSeqSnoc(FormatPair, init, last);
      MapSeqSnoc(ParseCrnToken, xs, FormatPair(last));
      ParseFormatPair(last);
      SomesSnoc(ParsedTokens(xs), ParseCrnToken(FormatPair(last)));
    }
  }

  /**
   * Round trip: a non-empty list of plain pairs, written in the documented
   * `BRANCH:CRN,...` format, parses back to the same pairs in the same order.
   */
  lemma CrnTokensRoundTrip(ps: seq<(string, string)>)
    requires |ps| >= 1 && forall i :: 0 <= i < |ps| ==> PlainPair(ps[i])
    ensures CrnTokens(FormatCrnList(ps)) == ps
  {
    var pieces := MapSeq(FormatPair, ps);
    MapSeqAt(FormatPair, ps);
    forall i | 0 <= i < |pieces| ensures ',' !in pieces[i] {
      FormatPairNoComma(ps[i]);
    }
    SplitJoin(pieces, ',');
    FormatPairNoComma(ps[0]);
    assert Split("", ',') == [""];
    assert pieces[0] != "";
    ParseFormatPairs(ps);
  }

  /** The two example pairs written out as a list. */
  lemma FormatCrnListExample()
    ensures FormatCrnList([("EHB", "23603"), ("MYZ", "23622")]) == "EHB:23603,MYZ:23622"
  {
    var p1, p2 := ("EHB", "23603"), ("MYZ", "23622");
    MapSeqSnoc(FormatPair, [], p1);
    MapSeqSnoc(FormatPair, [p1], p2);
    assert [] + [p1] == [p1] && [p1] + [p2] == [p1, p2];
    assert MapSeq(FormatPair, [p1, p2]) == [FormatPair(p1), FormatPair(p2)];
    assert FormatPair(p1) == "EHB:23603" && FormatPair(p2) == "MYZ:23622";
    Join2("EHB:23603", "MYZ:23622", ',');
    assert "EHB:23603" + [','] + "MYZ:23622" == "EHB:23603,MYZ:23622";
  }

  /** The documented example: `EHB:23603,MYZ:23622`. */
  lemma CrnTokensExample()
    ensures CrnTokens("EHB:23603,MYZ:23622") == [("EHB", "23603"), ("MYZ", "23622")]
  {
    var p1, p2 := ("EHB", "23603"), ("MYZ", "23622");
    assert PlainPair(p1) && PlainPair(p2);
    FormatCrnListExample();
    CrnTokensRoundTrip([p1, p2]);
  }


  // ---------------------------------------------------------------------
  // _parse_target_time
  // ---------------------------------------------------------------------

  datatype TimeParts = TimeParts(hour: int, minute: int, second: int, micro: int)

  /** The pieces around the dots of the trimmed text, a comma counting as a dot. */
  function TimePieces(target: string): (parts: seq<string>)
    ensures |parts| >= 1
  {
    Split(ReplaceChar(Strip(target), ',', '.'), '.')
  }

  /** The millisecond text: the first three characters after the dot, right-padded with `0`; `"000"` without a dot. */
  function FractionText(parts: seq<string>): (f: string)
    ensures |f| == 3
  {
    if |parts| > 1 then Take(LJust(parts[1], 3, '0'), 3) else "000"
  }

  /** `int()` of three characters lies in -99..999. */
  lemma ThreeCharInt(f: string)
    requires |f| == 3 && ParseInt(f).Some?
    ensures -99 <= ParseInt(f).value <= 999
  {
    assert Pow10(3) == 1000 && Pow10(2) == 100;
  }

  /** A whole number of milliseconds in microseconds. */
  lemma MillisToMicros(f: int)
    requires -99 <= f <= 999
    ensures (f * 1000) % 1000 == 0 && -99000 <= f * 1000 <= 999000
  {
  }

  /** `h, m, s = map(int, time_part.split(":"))`: exactly three integer fields. */
  function ParseClock(timePart: string): Option<(int, int, int)> {
    var hms := Split(timePart, ':');
    if |hms| != 3 then None
    else
      match (ParseInt(hms[0]), ParseInt(hms[1]), ParseInt(hms[2]))
      case (Some(h), Some(m), Some(s)) => Some((h, m, s))
      case _ => None
  }

  /**
   * `_parse_target_time`: hour, minute, second and microsecond of
   * `HH:MM:SS[.fff]` (a comma counts as the dot); None where Python raises
   * ValueError. The microseconds are a whole number of milliseconds.
   */
  function ParseTargetTime(target: string): (r: Option<TimeParts>)
    ensures r.Some? ==> r.value.micro % 1000 == 0 && -99000 <= r.value.micro <= 999000
  {
    var parts := TimePieces(target);
    var frac := FractionText(parts);
    if ParseInt(frac).None? then None
    else
      var f := ParseInt(frac).value;
      ThreeCharInt(frac);
      MillisToMicros(f);
      match ParseClock(parts[0])
      case None => None
      case Some((h, m, s)) => Some(TimeParts(h, m, s, f * 1000))
  }

  /** Three characters of the fraction, padded with `0`, all digits when the fraction is. */
  function Millis(frac: string): (f: string)
    requires forall i :: 0 <= i < |frac| ==> IsDigit(frac[i])
    ensures IsDigits(f) && |f| == 3
  {
    var f := Take(LJust(frac, 3, '0'), 3);
    LJustPad(frac, 3, '0');
    assert forall i :: 0 <= i < 3 ==> f[i] == LJust(frac, 3, '0')[i];
    f
  }

  /** `HH:MM:SS` of digit fields reads as those fields. */
  lemma ParseClockDigits(h: string, m: string, s: string)
    requires IsDigits(h) && IsDigits(m) && IsDigits(s)
    ensures ParseClock(h + ":" + m + ":" + s) == Some((DigitsValue(h), DigitsValue(m), DigitsValue(s)))
  {
    Join3(h, m, s, ':');
    SplitJoin([h, m, s], ':');
    ParseIntDigits(h);
    ParseIntDigits(m);
    ParseIntDigits(s);
  }

  /** A text with no surrounding blanks and no comma is split only at its dots. */
  lemma PiecesOfPlain(t: string)
    requires Stripped(t) && ',' !in t
    ensures TimePieces(t) == Split(t, '.')
  {
    StripStripped(t);
    ReplaceAbsent(t, ',', '.');
  }

  /** `HH:MM:SS` of digit fields has no blank at either end, no comma and no dot. */
  lemma ClockText(h: string, m: string, s: string)
    requires IsDigits(h) && IsDigits(m) && IsDigits(s)
    ensures var t := h + ":" + m + ":" + s; Stripped(t) && ',' !in t && '.' !in t
  {
    var t := h + ":" + m + ":" + s;
    assert t[0] == h[0];
    assert t[|t| - 1] == s[|s| - 1];
  }

  /** A plain clock text followed by a fraction of digits and underscores is cut into the two. */
  lemma PiecesWithFraction(hms: string, frac: string)
    requires hms != [] && Stripped(hms) && ',' !in hms && '.' !in hms
    requires forall i :: 0 <= i < |frac| ==> IsDigit(frac[i]) || frac[i] == '_'
    ensures TimePieces(hms + "." + frac) == [hms, frac]
  {
    var t := hms + "." + frac;
    assert t[0] == hms[0];
    assert t[|t| - 1] == if |frac| > 0 then frac[|frac| - 1] else '.';
    assert ',' !in t;
    PiecesOfPlain(t);
    Join2(hms, frac, '.');
    SplitJoin([hms, frac], '.');
  }

  /** A plain clock text alone is one piece. */
  lemma PiecesWithoutFraction(t: string)
    requires Stripped(t) && ',' !in t && '.' !in t
    ensures TimePieces(t) == [t]
  {
    PiecesOfPlain(t);
    SplitNoSep(t, '.');
  }

  /** `int("000") == 0`. */
  lemma ParseIntZeros()
    ensures ParseInt("000") == Some(0)
  {
    var z := ['0', '0', '0'];
    assert z == "000";
    assert z[..2] == ['0', '0'] && ['0', '0'][..1] == ['0'] && ['0'][..0] == [];
    assert DigitsValue(['0']) == 0;
    assert DigitsValue(['0', '0']) == 0;
    assert DigitsValue(z) == 0;
    ParseIntDigits(z);
  }

  /** A well-formed `HH:MM:SS.fff` yields its fields; the microseconds are the padded milliseconds times 1000. */
  lemma ParseTargetTimeWithFraction(h: string, m: string, s: string, frac: string)
    requires IsDigits(h) && IsDigits(m) && IsDigits(s)
    requires forall i :: 0 <= i < |frac| ==> IsDigit(frac[i])
    ensures ParseTargetTime(h + ":" + m + ":" + s + "." + frac) ==
              Some(TimeParts(DigitsValue(h), DigitsValue(m), DigitsValue(s), DigitsValue(Millis(frac)) * 1000))
  {
    var hms := h + ":" + m + ":" + s;
    ClockText(h, m, s);
    PiecesWithFraction(hms, frac);
    ParseIntDigits(Millis(frac));
    ParseClockDigits(h, m, s);
  }

  /**
   * `int()` reads an underscore-grouped fraction such as the `1_2` of
   * `14:00:00.1_2`: three characters that are a grouped literal give its
   * digits with the underscores removed, as milliseconds.
   */
  lemma ParseTargetTimeGroupedFraction(h: string, m: string, s: string, frac: string)
    requires IsDigits(h) && IsDigits(m) && IsDigits(s)
    requires |frac| == 3 && IsGroupedDigits(frac)
    ensures ParseTargetTime(h + ":" + m + ":" + s + "." + frac) ==
              Some(TimeParts(DigitsValue(h), DigitsValue(m), DigitsValue(s), DigitsValue(DropUnderscores(frac)) * 1000))
  {
    var hms := h + ":" + m + ":" + s;
    ClockText(h, m, s);
    PiecesWithFraction(hms, frac);
    ParseIntGroupedValue(frac);
    ParseClockDigits(h, m, s);
    ParseTargetTimeOfPieces(hms + "." + frac, hms, frac);
  }

  /** A text cut into a clock and a three-character fraction that both parse reads as the two. */
  lemma ParseTargetTimeOfPieces(target: string, hms: string, frac: string)
    requires TimePieces(target) == [hms, frac] && |frac| == 3
    requires ParseInt(frac).Some? && ParseClock(hms).Some?
    ensures var c := ParseClock(hms).value;
            ParseTargetTime(target) == Some(TimeParts(c.0, c.1, c.2, ParseInt(frac).value * 1000))
  {
    assert LJust(frac, 3, '0') == frac;
    assert FractionText(TimePieces(target)) == frac;
  }

  /** Without a fraction the microseconds are 0. */
  lemma ParseTargetTimeWithoutFraction(h: string, m: string, s: string)
    requires IsDigits(h) && IsDigits(m) && IsDigits(s)
    ensures ParseTargetTime(h + ":" + m + ":" + s) == Some(TimeParts(DigitsValue(h), DigitsValue(m), DigitsValue(s), 0))
  {
    ClockText(h, m, s);
    PiecesWithoutFraction(h + ":" + m + ":" + s);
    ParseIntZeros();
    ParseClockDigits(h, m, s);
  }

  /** A comma in place of the dot is read the same way. */
  lemma ParseTargetTimeComma(target: string)
    ensures ParseTargetTime(ReplaceChar(target, ',', '.')) == ParseTargetTime(target)
  {
    StripReplace(target, ',', '.');
    ReplaceTwice(Strip(target), ',', '.');
  }

  // ---------------------------------------------------------------------
  // _load_branch_code_map
  // ---------------------------------------------------------------------

  /** `str(item.get("dersBransKodu") or "").upper()`. */
  function BranchCodeOf(item: seq<Field>): string {
    var v := GetOr(item, "dersBransKodu", JNull);
    Upper(if Truthy(v) then PyStr(v) else "")
  }

  /** `item.get("bransKoduId")`, None when absent. */
  function BranchIdOf(item: seq<Field>): Json {
    GetOr(item, "bransKoduId", JNull)
  }

  /** `isinstance(v, int)`; a bool is an int in Python. */
  predicate IsPyInt(v: Json) {
    v.JInt? || v.JBool?
  }

  /** The entry an item adds: its code and id, when the code is non-empty and the id an integer. */
  function BranchEntry(item: seq<Field>): Option<(string, Json)> {
    var code := BranchCodeOf(item);
    var bid := BranchIdOf(item);
    if code != "" && IsPyInt(bid) then Some((code, bid)) else None
  }

  /** The code is non-empty exactly when the stored code value is truthy. */
  lemma BranchCodeNonEmpty(item: seq<Field>)
    ensures BranchCodeOf(item) != "" <==> Truthy(GetOr(item, "dersBransKodu", JNull))
  {
    TruthyStr(GetOr(item, "dersBransKodu", JNull));
  }

  /** An added entry has a non-empty upper-case code and an integer id. */
  lemma BranchEntryShape(item: seq<Field>)
    requires BranchEntry(item).Some?
    ensures var (code, bid) := BranchEntry(item).value;
            code != "" && Upper(code) == code && IsPyInt(bid)
  {
    var v := GetOr(item, "dersBransKodu", JNull);
    UpperIdempotent(if Truthy(v) then PyStr(v) else "");
  }

  /** What one element of the file's list adds; a non-dict adds nothing (it makes the whole load fail). */
  function ItemEntry(item: Json): Option<(string, Json)> {
    if item.JObj? then BranchEntry(item.fields) else None
  }

  /** What each element of the file's list adds. */
  function BranchEntries(items: seq<Json>): (r: seq<Option<(string, Json)>>)
    ensures |r| == |items|
  {
    MapSeq(ItemEntry, items)
  }

  /** The entries of a prefix of the list grow by what the next element adds. */
  lemma BranchEntriesStep(items: seq<Json>, i: nat)
    requires i < |items|
    ensures Somes(BranchEntries(items[..i + 1])) ==
              if ItemEntry(items[i]).Some? then Somes(BranchEntries(items[..i])) + [ItemEntry(items[i]).value]
              else Somes(BranchEntries(items[..i]))
  {
    TakeSnoc(items, i);
    MapSeqSnoc(ItemEntry, items[..i], items[i]);
    SomesSnoc(BranchEntries(items[..i]), ItemEntry(items[i]));
    assert Somes(BranchEntries(items[..i])) + [] == Somes(BranchEntries(items[..i]));
  }

  /** An element that adds an entry appends it. */
  lemma BranchEntriesAdd(items: seq<Json>, i: nat, code: string, bid: Json)
    requires i < |items| && ItemEntry(items[i]) == Some((code, bid))
    ensures Somes(BranchEntries(items[..i + 1])) == Somes(BranchEntries(items[..i])) + [(code, bid)]
  {
    BranchEntriesStep(items, i);
  }

  /** An element that adds no entry leaves the entries as they are. */
  lemma BranchEntriesNone(items: seq<Json>, i: nat)
    requires i < |items| && ItemEntry(items[i]) == None
    ensures Somes(BranchEntries(items[..i + 1])) == Somes(BranchEntries(items[..i]))
  {
    BranchEntriesStep(items, i);
  }

  /** The file holds a list of dicts, the only shape that does not raise. */
  predicate IsDictList(data: Option<Json>) {
    data.Some? && data.value.JList? && forall i :: 0 <= i < |data.value.items| ==> data.value.items[i].JObj?
  }

  /**
   * What `_load_branch_code_map` returns for the decoded file (None: missing
   * or not JSON): the entries of a list of dicts assigned in turn, and `{}`
   * for any other shape, each of which raises inside the `try`.
   */
  function BranchCodeMap(data: Option<Json>): map<string, Json> {
    if IsDictList(data) then FromPairs(Somes(BranchEntries(data.value.items))).entries else map[]
  }

  /** Every code in the map is non-empty and upper-case, and every id an integer. */
  lemma BranchCodeMapShape(data: Option<Json>)
    ensures forall k :: k in BranchCodeMap(data) ==> k != "" && Upper(k) == k && IsPyInt(BranchCodeMap(data)[k])
  {
    if IsDictList(data) {
      var es := BranchEntries(data.value.items);
      var ps := Somes(es);
      MapSeqAt(ItemEntry, data.value.items);
      FromPairsKeys(ps);
      forall k | k in BranchCodeMap(data)
        ensures k != "" && Upper(k) == k && IsPyInt(BranchCodeMap(data)[k])
      {
        var i :| 0 <= i < |ps| && ps[i] == (k, FromPairs(ps).entries[k]);
        InSomes(es, ps[i]);
        var j :| 0 <= j < |es| && es[j] == Some(ps[i]);
        BranchEntryShape(data.value.items[j].fields);
      }
    }
  }

  /**
   * Later items override earlier ones: an item that adds an entry, with no
   * later item adding the same code, gives that code its id.
   */
  lemma BranchCodeMapLastWins(items: seq<Json>, j: nat)
    requires IsDictList(Some(JList(items))) && j < |items|
    requires BranchEntry(items[j].fields).Some?
    requires forall l :: j < l < |items| ==>
               BranchEntry(items[l].fields).None? || BranchEntry(items[l].fields).value.0 != BranchEntry(items[j].fields).value.0
    ensures var (code, bid) := BranchEntry(items[j].fields).value;
            code in BranchCodeMap(Some(JList(items))) && BranchCodeMap(Some(JList(items)))[code] == bid
  {
    var (code, bid) := BranchEntry(items[j].fields).value;
    MapSeqAt(ItemEntry, items);
    FromSomesLastWins(BranchEntries(items), j, code, bid);
  }

  /** An element that is not a dict makes the load yield `{}`. */
  lemma BranchCodeMapNonDict(items: seq<Json>, j: nat)
    requires j < |items| && !items[j].JObj?
    ensures BranchCodeMap(Some(JList(items))) == map[]
  {
  }

  /** `_load_branch_code_map` over the decoded file. */
  method LoadBranchCodeMap(data: Option<Json>) returns (result: map<string, Json>)
    ensures result == BranchCodeMap(data)
  {
    result := map[];
    if !(data.Some? && data.value.JList?) {
      return;
    }
    var items := data.value.items;
    for i := 0 to |items|
      invariant forall j :: 0 <= j < i ==> items[j].JObj?
      invariant result == FromPairs(Somes(BranchEntries(items[..i]))).entries
    {
      if !items[i].JObj? {
        return map[];
      }
      assert forall j :: 0 <= j < i + 1 ==> items[j].JObj?;
      var item := items[i].fields;
      var code := BranchCodeOf(item);
      var bid := BranchIdOf(item);
      if code != "" && IsPyInt(bid) {
        BranchEntriesAdd(items, i, code, bid);
        FromPairsSnoc(Somes(BranchEntries(items[..i])), (code, bid));
        result := result[code := bid];
      } else {
        BranchEntriesNone(items, i);
      }
    }
    TakeAll(items);
  }

  // ---------------------------------------------------------------------
  // _init_ders_program_urls
  // ---------------------------------------------------------------------

  const DersProgramBase := "https://obs.itu.edu.tr/public/DersProgram/DersProgramSearch"
  const ProgramUrlPrefix := DersProgramBase + "?programSeviyeTipiAnahtari=LS&dersBransKoduId="

  /** The schedule URL of a branch id: the fixed search URL with the id as its last query value. */
  function ProgramUrl(bid: Json): string {
    ProgramUrlPrefix + PyStr(bid)
  }

  /** The URL embeds the id: reading back its tail gives the integer id. */
  lemma ProgramUrlEmbedsId(n: int)
    ensures |ProgramUrl(JInt(n))| > |ProgramUrlPrefix|
    ensures ProgramUrl(JInt(n))[..|ProgramUrlPrefix|] == ProgramUrlPrefix
    ensures ParseInt(ProgramUrl(JInt(n))[|ProgramUrlPrefix|..]) == Some(n)
  {
    assert ProgramUrl(JInt(n))[|ProgramUrlPrefix|..] == IntToString(n);
  }

  /** Distinct integer ids give distinct URLs. */
  lemma ProgramUrlInjective(n1: int, n2: int)
    requires ProgramUrl(JInt(n1)) == ProgramUrl(JInt(n2))
    ensures n1 == n2
  {
    ProgramUrlEmbedsId(n1);
    ProgramUrlEmbedsId(n2);
  }

  /** The upper-cased requested codes that have an id in the branch map. */
  function UrlCodes(required: seq<string>, branchMap: map<string, Json>): set<string> {
    set c | c in required && Upper(c) in branchMap :: Upper(c)
  }

  /** The table holds, for each code of `done` with an id, the URL of that id, and nothing else. */
  ghost predicate UrlTable(urls: Dict<string, string>, done: set<string>, branchMap: map<string, Json>) {
    && urls.Valid()
    && urls.entries.Keys == done * branchMap.Keys
    && forall code :: code in urls.entries ==> urls.entries[code] == ProgramUrl(branchMap[code])
  }

  /** Visiting one more code keeps the table right. */
  lemma UrlTableStep(urls: Dict<string, string>, done: set<string>, branchMap: map<string, Json>, code: string)
    requires UrlTable(urls, done, branchMap)
    ensures code in branchMap ==> UrlTable(urls.Put(code, ProgramUrl(branchMap[code])), done + {code}, branchMap)
    ensures code !in branchMap ==> UrlTable(urls, done + {code}, branchMap)
  {
    if code in branchMap {
      urls.PutValid(code, ProgramUrl(branchMap[code]));
    }
  }

  /**
   * `_init_ders_program_urls`: the URL table that becomes `DERS_PROGRAM_URLS`.
   * Its keys are exactly the upper-cased requested codes with an id, each
   * mapped to the URL of that id. The codes are visited in the arbitrary
   * order of a Python set, which fixes the table's iteration order.
   */
  method InitDersProgramUrls(required: seq<string>, data: Option<Json>) returns (urls: Dict<string, string>)
    ensures urls.Valid()
    ensures urls.entries.Keys == UrlCodes(required, BranchCodeMap(data))
    ensures forall code :: code in urls.entries ==> urls.entries[code] == ProgramUrl(BranchCodeMap(data)[code])
  {
    var branchMap := LoadBranchCodeMap(data);
    var all := set c | c in required :: Upper(c);
    var pending := all;
    urls := Empty();
    while pending != {}
      invariant pending <= all
      invariant UrlTable(urls, all - pending, branchMap)
      decreases pending
    {
      var code :| code in pending;
      UrlTableStep(urls, all - pending, branchMap, code);
      assert (all - pending) + {code} == all - (pending - {code});
      pending := pending - {code};
      if code in branchMap {
        urls := urls.Put(code, ProgramUrl(branchMap[code]));
      }
    }
    assert all - pending == all;
    assert all * branchMap.Keys == UrlCodes(required, branchMap);
  }

}
