/**
 * The price and review-count normaliser `clean_strange_symbols`.
 *
 * The raw text goes through a fixed chain: U+2006 becomes a space, the text is cut
 * just after the character that follows its first '.', every ',' becomes '.', every
 * character other than a digit, '.' or '-' is dropped, and the residue is parsed by
 * `float`. The parse is modelled exactly: a sign, a digit string and a scale (the
 * number of digits after the point), or None where `float` raises.
 */
module Normaliser {
  import opened Wrappers
  import opened Seqs
  import opened PyStr

  /** U+2006, the six-per-em space the market puts between digit groups. */
  const SixPerEmSpace: char := '\U{2006}'

  predicate IsDigit(c: char)
  {
    '0' <= c <= '9'
  }

  /** The characters of the class `[\d.-]` that the regular expression keeps. */
  predicate Kept(c: char)
  {
    IsDigit(c) || c == '.' || c == '-'
  }

  predicate AllDigits(s: string)
  {
    forall i :: 0 <= i < |s| ==> IsDigit(s[i])
  }

  function Min(a: int, b: int): int
  {
    if a < b then a else b
  }

  /** The slice `s[:first_point + 2]` when `s` has a '.', else `s` itself. */
  function CutAfterFirstPoint(s: string): string
  {
    var p := Find(s, '.');
    if p == -1 then s else s[..Min(p + 2, |s|)]
  }

  /**
   * `re.sub(r"[^\d.-]", "", s)`: only digits, '.' and '-' remain (each as often
   * as in `s`, see KeepNumericCounts).
   */
  function KeepNumeric(s: string): (r: string)
    ensures |r| <= |s|
    ensures forall i :: 0 <= i < |r| ==> Kept(r[i])
  {
    if s == [] then [] else (if Kept(s[0]) then [s[0]] else []) + KeepNumeric(s[1..])
  }

  /** The comma conversion followed by the filter, as lines 15 applies them. */
  function CommaFiltered(s: string): string
  {
    KeepNumeric(Replace(s, ',', '.'))
  }

  /** The string that `clean_strange_symbols` hands to `float`. */
  function Residue(raw: string): (r: string)
    ensures forall i :: 0 <= i < |r| ==> Kept(r[i])
  {
    var spaced := Replace(raw, SixPerEmSpace, ' ');
    KeepNumeric(Replace(CutAfterFirstPoint(spaced), ',', '.'))
  }

  /**
   * An exact decimal: the value is `digits / 10^scale`, negated when `negative`.
   * It stands for the float that Python's `float` returns.
   */
  datatype Number = Number(negative: bool, digits: string, scale: nat)

  predicate WellFormed(n: Number)
  {
    |n.digits| > 0 && AllDigits(n.digits) && n.scale <= |n.digits|
  }

  /**
   * The unsigned part of a float literal: digits with at most one '.', and at
   * least one digit. The result is the digit string and the number of digits
   * after the point.
   */
  function ParseUnsigned(body: string): Option<(string, nat)>
  {
    var p := Find(body, '.');
    var whole := if p == -1 then body else body[..p];
    var fraction := if p == -1 then [] else body[p + 1..];
    if |whole| + |fraction| > 0 && AllDigits(whole) && AllDigits(fraction) then
      Some((whole + fraction, |fraction|))
    else
      None
  }

  /**
   * `float(s)` on strings over digits, '.' and '-' (the only characters a residue
   * holds): an optional leading '-', then an unsigned literal.
   */
  function ParseFloat(s: string): (r: Option<Number>)
    ensures r.Some? ==> WellFormed(r.value)
  {
    var negative := |s| > 0 && s[0] == '-';
    match ParseUnsigned(if negative then s[1..] else s)
    case None => None
    case Some((digits, scale)) => Some(Number(negative, digits, scale))
  }

  /** `clean_strange_symbols(raw)`: the parsed residue, or None where `float` raises. */
  function CleanStrangeSymbols(raw: string): (r: Option<Number>)
    ensures r.Some? ==> WellFormed(r.value)
  {
    ParseFloat(Residue(raw))
  }

  /** The digits of a number with the point put back, as in a float literal. */
  function FormatUnsigned(digits: string, scale: nat): string
    requires scale <= |digits|
  {
    var cut := |digits| - scale;
    if scale == 0 then digits else digits[..cut] + "." + digits[cut..]
  }

  /** The literal of a number (without the trailing ".0" Python adds to whole floats). */
  function Format(n: Number): string
    requires WellFormed(n)
  {
    (if n.negative then "-" else "") + FormatUnsigned(n.digits, n.scale)
  }

  // ---------------------------------------------------------------------------
  // The filter.

  /** The filter keeps every digit, '.' and '-' as often as it occurs, and nothing else. */
  lemma {:induction false} KeepNumericCounts(s: string)
    ensures forall c :: multiset(KeepNumeric(s))[c] == if Kept(c) then multiset(s)[c] else 0
    decreases |s|
  {
    if s != [] {
      assert s == [s[0]] + s[1..];
      KeepNumericCounts(s[1..]);
    }
  }

  lemma {:induction false} KeepNumericAppend(a: string, b: string)
    ensures KeepNumeric(a + b) == KeepNumeric(a) + KeepNumeric(b)
    decreases |a|
  {
    if a == [] {
      assert a + b == b;
    } else {
      assert (a + b)[0] == a[0];
      assert (a + b)[1..] == a[1..] + b;
      KeepNumericAppend(a[1..], b);
    }
  }

  /** The filter keeps the surviving characters in their original order. */
  lemma {:induction false} KeepNumericIsSubsequence(s: string)
    ensures IsSubsequence(KeepNumeric(s), s)
    decreases |s|
  {
    if s != [] {
      KeepNumericIsSubsequence(s[1..]);
      var rest := KeepNumeric(s[1..]);
      if Kept(s[0]) {
        assert KeepNumeric(s) == [s[0]] + rest;
        assert ([s[0]] + rest)[1..] == rest;
      } else {
        assert KeepNumeric(s) == rest;
      }
    }
  }

  /** Two strings that differ only in characters the filter drops filter alike. */
  lemma {:induction false} KeepNumericIgnoresDropped(u: string, v: string)
    requires |u| == |v|
    requires forall i :: 0 <= i < |u| ==> u[i] == v[i] || (!Kept(u[i]) && !Kept(v[i]))
    ensures KeepNumeric(u) == KeepNumeric(v)
    decreases |u|
  {
    if u != [] {
      KeepNumericIgnoresDropped(u[1..], v[1..]);
    }
  }

  // ---------------------------------------------------------------------------
  // The residue.

  lemma CommaFilteredAppend(a: string, b: string)
    ensures CommaFiltered(a + b) == CommaFiltered(a) + CommaFiltered(b)
  {
    ReplaceAppend(a, b, ',', '.');
    KeepNumericAppend(Replace(a, ',', '.'), Replace(b, ',', '.'));
  }

  lemma CommaFilteredIgnoresSpaces(s: string)
    ensures CommaFiltered(Replace(s, SixPerEmSpace, ' ')) == CommaFiltered(s)
  {
    KeepNumericIgnoresDropped(Replace(Replace(s, SixPerEmSpace, ' '), ',', '.'), Replace(s, ',', '.'));
  }

  /** The cut returns a prefix: the whole text when it has no '.'. */
  lemma CutIsPrefix(s: string)
    ensures var k := |CutAfterFirstPoint(s)|;
            CutAfterFirstPoint(s) == s[..k] && (Find(s, '.') == -1 ==> k == |s|)
            && (Find(s, '.') != -1 ==> k == Min(Find(s, '.') + 2, |s|))
  {
  }

  lemma CutCommutesWithSpaces(raw: string)
    ensures CutAfterFirstPoint(Replace(raw, SixPerEmSpace, ' ')) == Replace(CutAfterFirstPoint(raw), SixPerEmSpace, ' ')
  {
    var spaced := Replace(raw, SixPerEmSpace, ' ');
    FindAfterReplace(raw, '.', SixPerEmSpace, ' ');
    CutIsPrefix(raw);
    CutIsPrefix(spaced);
    ReplaceSlice(raw, 0, |CutAfterFirstPoint(raw)|, SixPerEmSpace, ' ');
  }

  /**
   * Turning U+2006 into a space changes nothing, since the filter drops both:
   * the residue is the comma-converted, filtered cut of the raw text.
   */
  lemma SpaceReplacementIsRedundant(raw: string)
    ensures Residue(raw) == CommaFiltered(CutAfterFirstPoint(raw))
  {
    CutCommutesWithSpaces(raw);
    CommaFilteredIgnoresSpaces(CutAfterFirstPoint(raw));
  }

  /** Without a '.', nothing is cut: every digit, ',' and '-' of the input reaches the residue. */
  lemma NoPointNoCut(raw: string)
    requires '.' !in raw
    ensures Residue(raw) == KeepNumeric(Replace(raw, ',', '.'))
  {
    SpaceReplacementIsRedundant(raw);
  }

  lemma SplitAround(s: string, p: nat, k: nat)
    requires p < k <= |s|
    ensures s[..k] == s[..p] + [s[p]] + s[p + 1..k]
  {
  }

  lemma CutAtPoint(raw: string)
    requires '.' in raw
    ensures var p := Find(raw, '.');
            CutAfterFirstPoint(raw) == raw[..p] + "." + raw[p + 1..Min(p + 2, |raw|)]
  {
    var p := Find(raw, '.');
    CutAt(raw, p);
  }

  lemma CutAt(raw: string, p: nat)
    requires p < |raw| && raw[p] == '.'
    ensures raw[..Min(p + 2, |raw|)] == raw[..p] + "." + raw[p + 1..Min(p + 2, |raw|)]
  {
    SplitAround(raw, p, Min(p + 2, |raw|));
  }

  /**
   * With a '.', the residue is the comma-converted, filtered text before the first '.',
   * that '.', and what the filter leaves of the single character right after it.
   */
  lemma ResidueAroundPoint(raw: string)
    requires '.' in raw
    ensures var p := Find(raw, '.');
            var after := CommaFiltered(raw[p + 1..Min(p + 2, |raw|)]);
            && |after| <= 1
            && Residue(raw) == CommaFiltered(raw[..p]) + "." + after
  {
    var p := Find(raw, '.');
    SpaceReplacementIsRedundant(raw);
    CutAtPoint(raw);
    CommaFilteredAroundPoint(raw[..p], raw[p + 1..Min(p + 2, |raw|)]);
  }

  lemma CommaFilteredAroundPoint(a: string, b: string)
    ensures CommaFiltered(a + "." + b) == CommaFiltered(a) + "." + CommaFiltered(b)
  {
    CommaFilteredAppend(a + ".", b);
    CommaFilteredAppend(a, ".");
    assert CommaFiltered(".") == ".";
  }

  /** Everything after the character that follows the first '.' is discarded. */
  lemma TailDiscarded(s: string, t: string)
    requires '.' in s && Find(s, '.') + 2 <= |s|
    ensures Residue(s + t) == Residue(s)
  {
    CutIgnoresTail(s, t);
    SpaceReplacementIsRedundant(s);
    SpaceReplacementIsRedundant(s + t);
  }

  lemma CutIgnoresTail(s: string, t: string)
    requires '.' in s && Find(s, '.') + 2 <= |s|
    ensures CutAfterFirstPoint(s + t) == CutAfterFirstPoint(s)
  {
    var p := Find(s, '.');
    FindInPrefix(s, t, '.');
    CutAtFound(s, p);
    CutAtFound(s + t, p);
    PrefixOfConcat(s, t, p + 2);
  }

  lemma CutAtFound(s: string, p: int)
    requires p == Find(s, '.') && p != -1
    ensures CutAfterFirstPoint(s) == s[..Min(p + 2, |s|)]
  {
  }

  lemma PrefixOfConcat(s: string, t: string, k: nat)
    requires k <= |s|
    ensures (s + t)[..Min(k, |s + t|)] == s[..Min(k, |s|)]
  {
  }

  lemma CommaFilteredPrefix(raw: string, k: nat)
    requires k <= |raw|
    ensures IsSubsequence(CommaFiltered(raw[..k]), Replace(raw, ',', '.'))
  {
    SplitJoin(raw, k);
    CommaFilteredInConcat(raw[..k], raw[k..], raw);
  }

  lemma SplitJoin(s: string, k: nat)
    requires k <= |s|
    ensures s[..k] + s[k..] == s
  {
  }

  lemma CommaFilteredInConcat(a: string, b: string, c: string)
    requires a + b == c
    ensures IsSubsequence(CommaFiltered(a), Replace(c, ',', '.'))
  {
    ReplaceAppend(a, b, ',', '.');
    KeepNumericIsSubsequence(Replace(a, ',', '.'));
    SubsequenceExtend(CommaFiltered(a), Replace(a, ',', '.'), Replace(b, ',', '.'));
  }

  /** The residue keeps its characters in their original order (commas read as points). */
  lemma ResidueIsSubsequence(raw: string)
    ensures IsSubsequence(Residue(raw), Replace(raw, ',', '.'))
  {
    SpaceReplacementIsRedundant(raw);
    CutIsPrefix(raw);
    CommaFilteredPrefix(raw, |CutAfterFirstPoint(raw)|);
  }

  // ---------------------------------------------------------------------------
  // The parse.

  /** Python's float grammar on residue characters, stated on the characters themselves. */
  ghost predicate IsUnsignedLiteral(b: string)
  {
    && (forall i :: 0 <= i < |b| ==> IsDigit(b[i]) || b[i] == '.')
    && multiset(b)['.'] <= 1
    && exists i :: 0 <= i < |b| && IsDigit(b[i])
  }

  ghost predicate IsFloatLiteral(s: string)
  {
    IsUnsignedLiteral(if |s| > 0 && s[0] == '-' then s[1..] else s)
  }

  lemma PointSplitAt(b: string, p: nat)
    requires p < |b| && b[p] == '.' && forall k :: 0 <= k < p ==> b[k] != '.'
    ensures && b == b[..p] + "." + b[p + 1..]
            && '.' !in b[..p]
            && multiset(b)['.'] == 1 + multiset(b[p + 1..])['.']
  {
    SplitAtPoint(b, p);
    NoPointBefore(b, p);
    PointCount(b[..p], b[p + 1..]);
  }

  lemma NoPointBefore(b: string, p: nat)
    requires p <= |b| && forall k :: 0 <= k < p ==> b[k] != '.'
    ensures '.' !in b[..p]
  {
    assert forall x :: x in b[..p] ==> x != '.';
  }

  lemma PointCount(x: string, y: string)
    ensures multiset(x + "." + y)['.'] == multiset(x)['.'] + 1 + multiset(y)['.']
  {
    assert multiset(x + "." + y) == multiset(x) + multiset(".") + multiset(y);
  }

  lemma ParseUnsignedLiteralNoPoint(b: string)
    requires '.' !in b
    ensures ParseUnsigned(b).Some? <==> IsUnsignedLiteral(b)
  {
    assert multiset(b)['.'] == 0;
    if IsUnsignedLiteral(b) {
      assert AllDigits(b);
    }
  }

  lemma ParseUnsignedSoundPoint(b: string)
    requires '.' in b && ParseUnsigned(b).Some?
    ensures IsUnsignedLiteral(b)
  {
    var p := Find(b, '.');
    PointSplitAt(b, p);
    SoundParts(b[..p], b[p + 1..], b);
  }

  lemma SoundParts(whole: string, fraction: string, b: string)
    requires AllDigits(whole) && AllDigits(fraction) && |whole| + |fraction| > 0
    requires b == whole + "." + fraction
    ensures IsUnsignedLiteral(b)
  {
    NoPointInDigits(whole);
    NoPointInDigits(fraction);
    PointCount(whole, fraction);
    if |whole| > 0 { assert IsDigit(b[0]); } else { assert IsDigit(b[1]); }
    forall i | 0 <= i < |b| ensures IsDigit(b[i]) || b[i] == '.' {
      if i > |whole| { assert b[i] == fraction[i - |whole| - 1]; }
    }
  }

  lemma NoPointInDigits(x: string)
    requires AllDigits(x)
    ensures '.' !in x && multiset(x)['.'] == 0
  {
    assert forall c :: c in x ==> IsDigit(c);
  }

  lemma ParseUnsignedCompletePoint(b: string)
    requires '.' in b && IsUnsignedLiteral(b)
    ensures ParseUnsigned(b).Some?
  {
    var p := Find(b, '.');
    PointSplitAt(b, p);
    CompleteParts(b[..p], b[p + 1..], b);
  }

  lemma CompleteParts(whole: string, fraction: string, b: string)
    requires b == whole + "." + fraction && '.' !in whole
    requires IsUnsignedLiteral(b)
    ensures AllDigits(whole) && AllDigits(fraction) && |whole| + |fraction| > 0
  {
    PointCount(whole, fraction);
    assert multiset(whole)['.'] == 0;
    assert '.' !in fraction;
    forall j | 0 <= j < |fraction| ensures IsDigit(fraction[j]) {
      assert b[|whole| + 1 + j] == fraction[j];
    }
    forall j | 0 <= j < |whole| ensures IsDigit(whole[j]) {
      assert b[j] == whole[j];
    }
    var i :| 0 <= i < |b| && IsDigit(b[i]);
    assert i != |whole|;
  }

  /** ParseFloat accepts exactly the float literals. */
  lemma ParseFloatAcceptsLiterals(s: string)
    ensures ParseFloat(s).Some? <==> IsFloatLiteral(s)
  {
    var b := if |s| > 0 && s[0] == '-' then s[1..] else s;
    if '.' in b {
      if ParseUnsigned(b).Some? { ParseUnsignedSoundPoint(b); }
      if IsUnsignedLiteral(b) { ParseUnsignedCompletePoint(b); }
    } else {
      ParseUnsignedLiteralNoPoint(b);
    }
  }

  lemma ParseUnsignedNeedsDigit(b: string)
    requires ParseUnsigned(b).Some?
    ensures exists i :: 0 <= i < |b| && IsDigit(b[i])
  {
    var p := Find(b, '.');
    if p == -1 || p > 0 {
      assert IsDigit(b[0]);
    } else {
      assert IsDigit(b[p + 1]);
    }
  }

  /** An accepted literal has at least one digit. */
  lemma ParseFloatNeedsDigit(s: string)
    requires ParseFloat(s).Some?
    ensures exists i :: 0 <= i < |s| && IsDigit(s[i])
  {
    var b := if |s| > 0 && s[0] == '-' then s[1..] else s;
    ParseUnsignedNeedsDigit(b);
    var i :| 0 <= i < |b| && IsDigit(b[i]);
    if |s| > 0 && s[0] == '-' { assert s[i + 1] == b[i]; }
  }

  lemma ParseUnsignedScale(b: string, i: nat)
    requires ParseUnsigned(b).Some?
    requires i < |b| && b[i] == '.'
    ensures ParseUnsigned(b).value.1 == |b| - i - 1
  {
  }

  /** In an accepted literal every '.' is the decimal point: the scale counts the characters after it. */
  lemma ParseFloatScale(s: string, i: nat)
    requires ParseFloat(s).Some?
    requires i < |s| && s[i] == '.'
    ensures ParseFloat(s).value.scale == |s| - i - 1
  {
    if |s| > 0 && s[0] == '-' {
      assert s[1..][i - 1] == '.';
      ParseUnsignedScale(s[1..], i - 1);
    } else {
      ParseUnsignedScale(s, i);
    }
  }

  /** A residue with two points is not a float literal. */
  lemma TwoPointsFail(s: string, i: nat, j: nat)
    requires i < j < |s| && s[i] == '.' && s[j] == '.'
    ensures ParseFloat(s) == None
  {
    if ParseFloat(s).Some? {
      ParseFloatScale(s, i);
      ParseFloatScale(s, j);
    }
  }

  lemma FindAfterPrefix(a: string, b: string)
    requires '.' !in a
    ensures Find(a + "." + b, '.') == |a|
  {
    assert (a + "." + b)[|a|] == '.';
  }

  lemma UnsignedRoundTrip(digits: string, scale: nat)
    requires |digits| > 0 && AllDigits(digits) && scale <= |digits|
    ensures ParseUnsigned(FormatUnsigned(digits, scale)) == Some((digits, scale))
  {
    if scale == 0 {
      NoPointInDigits(digits);
      assert digits + [] == digits;
    } else {
      FractionRoundTrip(digits, scale);
    }
  }

  lemma FractionRoundTrip(digits: string, scale: nat)
    requires |digits| > 0 && AllDigits(digits) && 0 < scale <= |digits|
    ensures ParseUnsigned(FormatUnsigned(digits, scale)) == Some((digits, scale))
  {
    var cut := |digits| - scale;
    DigitSlices(digits, cut);
    ParseJoin(digits[..cut], digits[cut..]);
    SplitJoin(digits, cut);
  }

  lemma DigitSlices(digits: string, k: nat)
    requires AllDigits(digits) && k <= |digits|
    ensures AllDigits(digits[..k]) && AllDigits(digits[k..])
  {
  }

  /** Digits around a single point parse to the joined digits and the fraction's length. */
  lemma ParseJoin(whole: string, fraction: string)
    requires AllDigits(whole) && AllDigits(fraction) && |whole| + |fraction| > 0
    ensures ParseUnsigned(whole + "." + fraction) == Some((whole + fraction, |fraction|))
  {
    NoPointInDigits(whole);
    FindAfterPrefix(whole, fraction);
    PartsOfJoin(whole, fraction);
  }

  lemma PartsOfJoin(x: string, y: string)
    ensures (x + "." + y)[..|x|] == x && (x + "." + y)[|x| + 1..] == y
  {
  }

  /** Formatting a number and parsing it back gives the same number. */
  lemma FormatParse(n: Number)
    requires WellFormed(n)
    ensures ParseFloat(Format(n)) == Some(n)
  {
    var u := FormatUnsigned(n.digits, n.scale);
    UnsignedRoundTrip(n.digits, n.scale);
    FormatUnsignedHead(n.digits, n.scale);
    SignJoin(n.negative, u, Format(n));
  }

  /** A formatted unsigned literal does not start with a sign. */
  lemma FormatUnsignedHead(digits: string, scale: nat)
    requires |digits| > 0 && AllDigits(digits) && scale <= |digits|
    ensures var u := FormatUnsigned(digits, scale); |u| > 0 && u[0] != '-'
  {
    var cut := |digits| - scale;
    if scale != 0 && cut > 0 {
      assert FormatUnsigned(digits, scale)[0] == digits[0];
    }
  }

  lemma SignJoin(negative: bool, u: string, s: string)
    requires |u| > 0 && u[0] != '-'
    requires s == (if negative then "-" else "") + u
    ensures (|s| > 0 && s[0] == '-') == negative
    ensures (if negative then s[1..] else s) == u
  {
  }

  lemma UnsignedFormatParse(b: string)
    requires ParseUnsigned(b).Some?
    ensures var (digits, scale) := ParseUnsigned(b).value;
            scale <= |digits| &&
            (FormatUnsigned(digits, scale) == b || FormatUnsigned(digits, scale) + "." == b)
  {
    var p := Find(b, '.');
    if p == -1 {
      assert ParseUnsigned(b).value == (b + [], 0);
      assert b + [] == b;
    } else {
      var whole, fraction := b[..p], b[p + 1..];
      assert ParseUnsigned(b).value == (whole + fraction, |fraction|);
      SplitAtPoint(b, p);
      FormatJoin(whole, fraction);
    }
  }

  lemma SplitAtPoint(b: string, p: nat)
    requires p < |b| && b[p] == '.'
    ensures b == b[..p] + "." + b[p + 1..]
  {
  }

  /** Formatting the joined digits puts the point back between the two parts. */
  lemma FormatJoin(whole: string, fraction: string)
    ensures var t := FormatUnsigned(whole + fraction, |fraction|);
            if fraction == [] then t + "." == whole + "." + fraction else t == whole + "." + fraction
  {
    var digits := whole + fraction;
    if fraction == [] {
      assert digits == whole;
    } else {
      assert digits[..|whole|] == whole;
      assert digits[|whole|..] == fraction;
    }
  }

  /** Parsing is undone by formatting, up to a trailing point that `float` also accepts. */
  lemma ParseFormat(s: string)
    requires ParseFloat(s).Some?
    ensures var t := Format(ParseFloat(s).value); t == s || t + "." == s
  {
    var negative := |s| > 0 && s[0] == '-';
    var b := if negative then s[1..] else s;
    UnsignedFormatParse(b);
    var r := ParseUnsigned(b).value;
    assert ParseFloat(s) == Some(Number(negative, r.0, r.1));
    SignSplit(s);
    SignedFormat(negative, b, FormatUnsigned(r.0, r.1), s);
  }

  lemma SignSplit(s: string)
    ensures s == if |s| > 0 && s[0] == '-' then "-" + s[1..] else s
  {
  }

  lemma SignedFormat(negative: bool, b: string, u: string, s: string)
    requires s == if negative then "-" + b else b
    requires u == b || u + "." == b
    ensures var t := (if negative then "-" else "") + u; t == s || t + "." == s
  {
    if negative {
      assert ("-" + u) + "." == "-" + (u + ".");
    } else {
      assert "" + u == u;
    }
  }

  // ---------------------------------------------------------------------------
  // The whole normaliser.

  /** With a '.' in the input, at most one fractional digit survives. */
  lemma ScaleAtMostOne(raw: string)
    requires '.' in raw
    requires CleanStrangeSymbols(raw).Some?
    ensures CleanStrangeSymbols(raw).value.scale <= 1
  {
    ResidueAroundPoint(raw);
    var p := Find(raw, '.');
    var before := CommaFiltered(raw[..p]);
    assert Residue(raw)[|before|] == '.';
    ParseFloatScale(Residue(raw), |before|);
  }

  /**
   * A ',' before the first '.' becomes a second point, so the conversion fails:
   * thousands commas only work in texts without a '.'.
   */
  lemma CommaBeforePointFails(raw: string, j: nat)
    requires '.' in raw
    requires j < Find(raw, '.') && raw[j] == ','
    ensures CleanStrangeSymbols(raw) == None
  {
    ResidueAroundPoint(raw);
    var p := Find(raw, '.');
    var before := CommaFiltered(raw[..p]);
    PointSurvivesFilter(Replace(raw[..p], ',', '.'), j);
    var i :| 0 <= i < |before| && before[i] == '.';
    PointsOfConcat(before, CommaFiltered(raw[p + 1..Min(p + 2, |raw|)]), i);
    TwoPointsFail(Residue(raw), i, |before|);
  }

  lemma PointSurvivesFilter(s: string, j: nat)
    requires j < |s| && s[j] == '.'
    ensures '.' in KeepNumeric(s)
  {
    assert s[j] in multiset(s);
    KeepNumericCounts(s);
    assert multiset(KeepNumeric(s))['.'] > 0;
  }

  lemma PointsOfConcat(before: string, after: string, i: nat)
    requires i < |before| && before[i] == '.'
    ensures var r := before + "." + after; r[i] == '.' && |before| < |r| && r[|before|] == '.'
  {
  }

  /** Text without a single digit never converts. */
  lemma NoDigitsFail(raw: string)
    requires forall i :: 0 <= i < |raw| ==> !IsDigit(raw[i])
    ensures CleanStrangeSymbols(raw) == None
  {
    var r := Residue(raw);
    if ParseFloat(r).Some? {
      ParseFloatNeedsDigit(r);
      ResidueIsSubsequence(raw);
      SubsequenceElements(r, Replace(raw, ',', '.'));
      ReplaceAddsNoDigit(raw);
    }
  }

  lemma ReplaceAddsNoDigit(raw: string)
    requires forall i :: 0 <= i < |raw| ==> !IsDigit(raw[i])
    ensures forall x :: x in Replace(raw, ',', '.') ==> !IsDigit(x)
  {
    var t := Replace(raw, ',', '.');
    forall x | x in t ensures !IsDigit(x) {
      var k :| 0 <= k < |t| && t[k] == x;
    }
  }

  // ---------------------------------------------------------------------------
  // The shapes of text the market shows.

  lemma {:induction false} CommaFilteredDigits(s: string)
    requires AllDigits(s)
    ensures CommaFiltered(s) == s
    decreases |s|
  {
    if s != [] {
      assert s == [s[0]] + s[1..];
      CommaFilteredAppend([s[0]], s[1..]);
      CommaFilteredDigits(s[1..]);
    }
  }

  lemma {:induction false} CommaFilteredDropped(s: string)
    requires forall i :: 0 <= i < |s| ==> !Kept(s[i]) && s[i] != ','
    ensures CommaFiltered(s) == []
    decreases |s|
  {
    if s != [] {
      assert s == [s[0]] + s[1..];
      CommaFilteredAppend([s[0]], s[1..]);
      CommaFilteredDropped(s[1..]);
    }
  }

  lemma CommaFilteredJoin(x: string, y: string, fx: string, fy: string)
    requires CommaFiltered(x) == fx && CommaFiltered(y) == fy
    ensures CommaFiltered(x + y) == fx + fy
  {
    CommaFilteredAppend(x, y);
  }

  lemma Converts(raw: string, r: string, n: Number)
    requires Residue(raw) == r && ParseFloat(r) == Some(n)
    ensures CleanStrangeSymbols(raw) == Some(n)
  {
  }

  /** A plain decimal literal parses to its digits with the fraction's length as scale. */
  lemma ParseDecimal(whole: string, fraction: string)
    requires AllDigits(whole) && AllDigits(fraction) && |whole| > 0
    ensures ParseFloat(whole + "." + fraction) == Some(Number(false, whole + fraction, |fraction|))
  {
    var s := whole + "." + fraction;
    assert s[0] == whole[0];
    assert '.' !in whole;
    FindAfterPrefix(whole, fraction);
    assert s[..|whole|] == whole;
    assert s[|whole| + 1..] == fraction;
  }

  lemma GroupDigits(g1: string, sep: char, g2: string)
    requires AllDigits(g1) && AllDigits(g2) && !Kept(sep) && sep != ','
    ensures CommaFiltered(g1 + [sep] + g2) == g1 + g2
  {
    CommaFilteredDigits(g1);
    CommaFilteredDigits(g2);
    CommaFilteredDropped([sep]);
    CommaFilteredJoin(g1, [sep], g1, []);
    assert g1 + [] == g1;
    CommaFilteredJoin(g1 + [sep], g2, g1, g2);
  }

  lemma CommaFraction(fraction: string, unit: string)
    requires AllDigits(fraction)
    requires forall i :: 0 <= i < |unit| ==> !Kept(unit[i]) && unit[i] != ','
    ensures CommaFiltered("," + fraction + unit) == "." + fraction
  {
    CommaFilteredDigits(fraction);
    CommaFilteredDropped(unit);
    assert CommaFiltered(",") == ".";
    CommaFilteredJoin(",", fraction, ".", fraction);
    CommaFilteredJoin("," + fraction, unit, "." + fraction, []);
    assert "." + fraction + [] == "." + fraction;
  }

  lemma PointlessResidue(x: string, y: string, fx: string, fy: string)
    requires CommaFiltered(x) == fx && CommaFiltered(y) == fy
    requires '.' !in x && '.' !in y
    ensures Residue(x + y) == fx + fy
  {
    CommaFilteredJoin(x, y, fx, fy);
    NoPointNoCut(x + y);
  }

  /**
   * A grouped price with a decimal comma and a unit, such as "12 345,67 ₽" with any
   * dropped separator between the groups, keeps every fractional digit.
   */
  lemma GroupedCommaPrice(g1: string, sep: char, g2: string, fraction: string, unit: string)
    requires AllDigits(g1) && AllDigits(g2) && AllDigits(fraction) && |g1| > 0
    requires !Kept(sep) && sep != ','
    requires forall i :: 0 <= i < |unit| ==> !Kept(unit[i]) && unit[i] != ','
    ensures CleanStrangeSymbols(g1 + [sep] + g2 + "," + fraction + unit)
         == Some(Number(false, g1 + g2 + fraction, |fraction|))
  {
    var x := g1 + [sep] + g2;
    var y := "," + fraction + unit;
    assert g1 + [sep] + g2 + "," + fraction + unit == x + y;
    GroupDigits(g1, sep, g2);
    CommaFraction(fraction, unit);
    PointlessResidue(x, y, g1 + g2, "." + fraction);
    assert g1 + g2 + ("." + fraction) == (g1 + g2) + "." + fraction;
    ParseDecimal(g1 + g2, fraction);
    Converts(x + y, (g1 + g2) + "." + fraction, Number(false, g1 + g2 + fraction, |fraction|));
  }

  lemma ShortPointResidue(whole: string, d: char)
    requires AllDigits(whole) && IsDigit(d)
    ensures Residue(whole + "." + [d]) == whole + "." + [d]
  {
    assert '.' !in whole;
    ResidueOfSplit(whole, [d]);
    assert [d][..1] == [d];
    CommaFilteredDigits(whole);
    CommaFilteredDigits([d]);
  }

  /** The residue of a text whose first '.' follows `x`. */
  lemma ResidueOfSplit(x: string, y: string)
    requires '.' !in x
    ensures Residue(x + "." + y) == CommaFiltered(x) + "." + CommaFiltered(y[..Min(1, |y|)])
  {
    var s := x + "." + y;
    FindAfterPrefix(x, y);
    ResidueAroundPoint(s);
    SplitParts(x, y);
  }

  lemma SplitParts(x: string, y: string)
    ensures var s := x + "." + y;
            s[..|x|] == x && s[|x| + 1..Min(|x| + 2, |s|)] == y[..Min(1, |y|)]
  {
  }

  /**
   * A decimal with a point, such as "4.83", keeps only the first fractional digit,
   * whatever follows it.
   */
  lemma PointDecimalTruncated(whole: string, d: char, rest: string)
    requires AllDigits(whole) && |whole| > 0 && IsDigit(d)
    ensures CleanStrangeSymbols(whole + "." + [d] + rest) == Some(Number(false, whole + [d], 1))
  {
    TruncatedResidue(whole, d, rest);
    ParseDecimal(whole, [d]);
    Converts(whole + "." + [d] + rest, whole + "." + [d], Number(false, whole + [d], 1));
  }

  lemma TruncatedResidue(whole: string, d: char, rest: string)
    requires AllDigits(whole) && IsDigit(d)
    ensures Residue(whole + "." + [d] + rest) == whole + "." + [d]
  {
    var s := whole + "." + [d];
    NoPointInDigits(whole);
    FindAfterPrefix(whole, [d]);
    TailDiscarded(s, rest);
    ShortPointResidue(whole, d);
  }

  /** A digit string parses to itself with scale 0. */
  lemma ParseInteger(ds: string)
    requires AllDigits(ds) && |ds| > 0
    ensures ParseFloat(ds) == Some(Number(false, ds, 0))
  {
    assert ds[0] != '-';
    assert '.' !in ds;
    assert ds + [] == ds;
  }

  /**
   * A grouped whole price with a unit, such as "12 345 ₽", loses its separator
   * and its unit and keeps every digit.
   */
  lemma GroupedWholePrice(g1: string, sep: char, g2: string, unit: string)
    requires AllDigits(g1) && AllDigits(g2) && |g1| > 0
    requires !Kept(sep) && sep != ','
    requires forall i :: 0 <= i < |unit| ==> !Kept(unit[i]) && unit[i] != ','
    ensures CleanStrangeSymbols(g1 + [sep] + g2 + unit) == Some(Number(false, g1 + g2, 0))
  {
    var x := g1 + [sep] + g2;
    GroupDigits(g1, sep, g2);
    CommaFilteredDropped(unit);
    assert '.' !in x by {
      assert forall i :: 0 <= i < |x| ==> x[i] != '.';
    }
    assert '.' !in unit by {
      assert forall i :: 0 <= i < |unit| ==> unit[i] != '.';
    }
    PointlessResidue(x, unit, g1 + g2, []);
    assert g1 + g2 + [] == g1 + g2;
    ParseInteger(g1 + g2);
    Converts(x + unit, g1 + g2, Number(false, g1 + g2, 0));
  }

  /** The residues without a digit that `float` rejects. */
  lemma DegenerateResiduesFail()
    ensures ParseFloat("") == None && ParseFloat("-") == None
    ensures ParseFloat(".") == None && ParseFloat("-.") == None
  {
    assert "-"[1..] == "";
    assert "-."[1..] == ".";
  }
}
