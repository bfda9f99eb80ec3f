/**
 * The NMEA 0183 sentence classifier and decoder (`parse_gps_data`).
 *
 * A line is stripped, dispatched on its `$GNRMC` / `$GNGGA` prefix and matched
 * against a fixed positional pattern; `re.match` anchors only at the start, so
 * text after the last group is allowed. The matcher below reads the pattern the
 * way the regular-expression engine does (greedy runs of digits, one letter out
 * of two, and for GGA six `.+` groups chosen leftmost-longest); the predicates
 * `RmcShape` and `GgaShape` state the same patterns over the comma-separated
 * fields of the line, and the lemmas prove the two readings agree.
 */
module Nmea {
  import opened Wrappers
  import opened Text
  import opened Numeric

  // ---------------------------------------------------------------- tokens

  /** One field class of the patterns: `\d+\.\d+`, `\d+`, or a two-letter class such as `[NS]`. */
  datatype Token = Decimal | Integer | Either(first: char, second: char)

  predicate TokenOk(t: Token) { t.Either? ==> t.first != ',' && t.second != ',' }

  /** The token's pattern matches all of `f`. */
  predicate FullMatch(t: Token, f: string) {
    match t
    case Decimal => IsDecimalLit(f)
    case Integer => IsInteger(f)
    case Either(a, b) => f == [a] || f == [b]
  }

  /** The length the token's pattern matches at the start of `s`, digits taken greedily. */
  function MatchToken(t: Token, s: string): (n: Option<nat>)
    ensures n.Some? ==> n.value <= |s| && FullMatch(t, s[..n.value])
    ensures n.Some? && n.value < |s| && !t.Either? ==> !IsDigit(s[n.value])
  {
    match t
    case Decimal =>
      var a := ScanDigits(s);
      if 0 < a < |s| && s[a] == '.' then
        var b := ScanDigits(s[a + 1..]);
        if b > 0 then
          var n := a + 1 + b;
          assert s[..n][..a] == s[..a] && s[..n][a + 1..] == s[a + 1..][..b];
          assert s[..n][a] == '.';
          Some(n)
        else None
      else None
    case Integer =>
      var a := ScanDigits(s);
      if a > 0 then Some(a) else None
    case Either(x, y) =>
      if |s| > 0 && (s[0] == x || s[0] == y) then
        assert s[..1] == [s[0]];
        Some(1)
      else None
  }

  lemma FullMatchNoComma(t: Token, f: string)
    requires TokenOk(t) && FullMatch(t, f)
    ensures forall i :: 0 <= i < |f| ==> f[i] != ','
  {
    if t.Decimal? {
      var p :| 0 < p < |f| - 1 && f[p] == '.' && AllDigits(f[..p]) && AllDigits(f[p + 1..]);
      forall i | 0 <= i < |f| ensures f[i] != ',' {
        if i < p { assert IsDigit(f[..p][i]); }
        else if i > p { assert IsDigit(f[p + 1..][i - p - 1]); }
      }
    }
  }

  /**
   * A token followed by a comma is matched exactly when the first field of `s`
   * (the text before its first comma) is all of the token, and then the match
   * ends at that comma.
   */
  lemma TokenAgree(t: Token, s: string)
    requires TokenOk(t)
    ensures var n := MatchToken(t, s); var k := IndexOf(s, ',');
      (n.Some? && n.value < |s| && s[n.value] == ',') <==> (k < |s| && FullMatch(t, s[..k]))
    ensures var n := MatchToken(t, s);
      n.Some? && n.value < |s| && s[n.value] == ',' ==> n.value == IndexOf(s, ',')
  {
    var n := MatchToken(t, s);
    var k := IndexOf(s, ',');
    if n.Some? && n.value < |s| && s[n.value] == ',' {
      TokenEndsAtComma(t, s, n.value);
    }
    if k < |s| && FullMatch(t, s[..k]) {
      TokenFindsField(t, s, k);
    }
  }

  lemma TokenEndsAtComma(t: Token, s: string, n: nat)
    requires TokenOk(t) && MatchToken(t, s) == Some(n) && n < |s| && s[n] == ','
    ensures IndexOf(s, ',') == n
  {
    FullMatchNoComma(t, s[..n]);
    assert forall i :: 0 <= i < n ==> s[..n][i] == s[i];
    IndexOfAt(s, ',', n);
  }

  lemma TokenFindsField(t: Token, s: string, k: nat)
    requires k < |s| && s[k] == ',' && FullMatch(t, s[..k])
    ensures MatchToken(t, s) == Some(k)
  {
    match t
    case Decimal =>
      DecimalFindsField(s, k);
    case Integer =>
      ScanDigitsAt(s, k);
    case Either(_, _) =>
  }

  lemma DecimalFindsField(s: string, k: nat)
    requires k < |s| && s[k] == ',' && IsDecimalLit(s[..k])
    ensures MatchToken(Decimal, s) == Some(k)
  {
    var f := s[..k];
    var p :| 0 < p < |f| - 1 && f[p] == '.' && AllDigits(f[..p]) && AllDigits(f[p + 1..]);
    assert f[..p] == s[..p] && f[p + 1..] == s[p + 1..k];
    DecimalScan(s, p, k);
  }

  lemma DecimalScan(s: string, p: nat, k: nat)
    requires 0 < p && p + 1 < k < |s| && s[p] == '.' && !IsDigit(s[k])
    requires AllDigits(s[..p]) && AllDigits(s[p + 1..k])
    ensures MatchToken(Decimal, s) == Some(k)
  {
    ScanDigitsAt(s, p);
    var rest := s[p + 1..];
    assert rest[..k - p - 1] == s[p + 1..k];
    ScanDigitsAt(rest, k - p - 1);
  }

  // ---------------------------------------------------------------- fields

  /**
   * Matches each token in turn, each followed by a comma; yields the matched
   * groups and the text after the last comma.
   */
  function MatchFields(ts: seq<Token>, s: string): (m: Option<(seq<string>, string)>)
    ensures m.Some? ==> |m.value.0| == |ts|
    ensures m.Some? ==> forall i :: 0 <= i < |ts| ==> FullMatch(ts[i], m.value.0[i])
    decreases |ts|
  {
    if |ts| == 0 then Some(([], s))
    else
      match MatchToken(ts[0], s)
      case None => None
      case Some(n) =>
        if n < |s| && s[n] == ',' then
          match MatchFields(ts[1..], s[n + 1..])
          case None => None
          case Some(r) => Some(([s[..n]] + r.0, r.1))
        else None
  }

  /** The first `|ts|` comma-separated fields of a line are matched by `ts`, and more follow. */
  predicate FieldsShape(ts: seq<Token>, fs: seq<string>) {
    |fs| > |ts| && forall i :: 0 <= i < |ts| ==> FullMatch(ts[i], fs[i])
  }

  lemma FieldsShapeCons(ts: seq<Token>, fs: seq<string>)
    requires |ts| > 0 && |fs| > 0
    ensures FieldsShape(ts, fs) <==> FullMatch(ts[0], fs[0]) && FieldsShape(ts[1..], fs[1..])
  {
    if FullMatch(ts[0], fs[0]) && FieldsShape(ts[1..], fs[1..]) {
      forall i | 0 <= i < |ts| ensures FullMatch(ts[i], fs[i]) {
        if i > 0 { assert ts[i] == ts[1..][i - 1] && fs[i] == fs[1..][i - 1]; }
      }
    }
    if FieldsShape(ts, fs) {
      forall i | 0 <= i < |ts| - 1 ensures FullMatch(ts[1..][i], fs[1..][i]) {
        assert ts[1..][i] == ts[i + 1] && fs[1..][i] == fs[i + 1];
      }
    }
  }

  /**
   * The matcher accepts exactly the lines whose leading fields have the tokens'
   * shapes; its groups are those fields and the rest is the remaining fields
   * joined again.
   */
  lemma {:induction false} FieldsAgree(ts: seq<Token>, s: string)
    requires forall i :: 0 <= i < |ts| ==> TokenOk(ts[i])
    ensures MatchFields(ts, s).Some? <==> FieldsShape(ts, Split(s, ','))
    ensures MatchFields(ts, s).Some? ==>
      MatchFields(ts, s).value == (Split(s, ',')[..|ts|], Join(Split(s, ',')[|ts|..], ','))
    decreases |ts|
  {
    if |ts| == 0 {
      FieldsEmpty(ts, s);
    } else {
      var k := IndexOf(s, ',');
      if k < |s| {
        FieldsAgree(ts[1..], s[k + 1..]);
        FieldsStep(ts, s, k);
      } else {
        FieldsNoComma(ts, s);
      }
    }
  }

  lemma FieldsEmpty(ts: seq<Token>, s: string)
    requires |ts| == 0
    ensures MatchFields(ts, s) == Some((Split(s, ',')[..0], Join(Split(s, ',')[0..], ',')))
    ensures FieldsShape(ts, Split(s, ','))
  {
    JoinSplit(s, ',');
    assert Split(s, ',')[0..] == Split(s, ',');
  }

  /** The inductive step of `FieldsAgree`: the first field, then the rest of the line. */
  lemma FieldsStep(ts: seq<Token>, s: string, k: nat)
    requires |ts| > 0 && forall i :: 0 <= i < |ts| ==> TokenOk(ts[i])
    requires k == IndexOf(s, ',') && k < |s|
    requires var s' := s[k + 1..]; var fs' := Split(s', ',');
      && (MatchFields(ts[1..], s').Some? <==> FieldsShape(ts[1..], fs'))
      && (MatchFields(ts[1..], s').Some? ==> MatchFields(ts[1..], s').value == (fs'[..|ts| - 1], Join(fs'[|ts| - 1..], ',')))
    ensures MatchFields(ts, s).Some? <==> FieldsShape(ts, Split(s, ','))
    ensures MatchFields(ts, s).Some? ==>
      MatchFields(ts, s).value == (Split(s, ',')[..|ts|], Join(Split(s, ',')[|ts|..], ','))
  {
    MatchFieldsFirst(ts, s, k);
    SplitFirst(s, ',');
    var fs := Split(s, ',');
    var fs' := Split(s[k + 1..], ',');
    assert fs[0] == s[..k] && fs[1..] == fs';
    FieldsShapeCons(ts, fs);
    if MatchFields(ts, s).Some? {
      GroupsCons(MatchFields(ts, s).value, s[..k], MatchFields(ts[1..], s[k + 1..]).value, fs, fs', |ts|);
    }
  }

  /** The matcher takes the first field when its token matches all of it, and goes on after the comma. */
  lemma MatchFieldsFirst(ts: seq<Token>, s: string, k: nat)
    requires |ts| > 0 && TokenOk(ts[0])
    requires k == IndexOf(s, ',') && k < |s|
    ensures MatchFields(ts, s).Some? <==> FullMatch(ts[0], s[..k]) && MatchFields(ts[1..], s[k + 1..]).Some?
    ensures MatchFields(ts, s).Some? ==>
      var r := MatchFields(ts[1..], s[k + 1..]).value;
      MatchFields(ts, s).value == ([s[..k]] + r.0, r.1)
  {
    TokenAgree(ts[0], s);
    if FullMatch(ts[0], s[..k]) {
      MatchFieldsHit(ts, s, k);
    } else {
      MatchFieldsMiss(ts, s);
    }
  }

  lemma MatchFieldsHit(ts: seq<Token>, s: string, k: nat)
    requires |ts| > 0 && MatchToken(ts[0], s) == Some(k) && k < |s| && s[k] == ','
    ensures MatchFields(ts, s).Some? <==> MatchFields(ts[1..], s[k + 1..]).Some?
    ensures MatchFields(ts, s).Some? ==>
      var r := MatchFields(ts[1..], s[k + 1..]).value;
      MatchFields(ts, s).value == ([s[..k]] + r.0, r.1)
  {
  }

  lemma MatchFieldsMiss(ts: seq<Token>, s: string)
    requires |ts| > 0
    requires var n := MatchToken(ts[0], s); !(n.Some? && n.value < |s| && s[n.value] == ',')
    ensures MatchFields(ts, s).None?
  {
  }

  lemma GroupsCons(m: (seq<string>, string), f: string, r: (seq<string>, string), fs: seq<string>, fs': seq<string>, n: nat)
    requires n > 0 && fs == [f] + fs' && |fs'| >= n
    requires m == ([f] + r.0, r.1) && r == (fs'[..n - 1], Join(fs'[n - 1..], ','))
    ensures m == (fs[..n], Join(fs[n..], ','))
  {
    assert fs[..n] == [f] + fs'[..n - 1];
    assert fs[n..] == fs'[n - 1..];
  }

  /** A line without a comma has no field followed by one. */
  lemma FieldsNoComma(ts: seq<Token>, s: string)
    requires |ts| > 0 && IndexOf(s, ',') == |s|
    ensures MatchFields(ts, s).None? && !FieldsShape(ts, Split(s, ','))
  {
    SplitFirst(s, ',');
  }

  // ---------------------------------------------------------------- GGA tail

  /**
   * The regular expression `.+,.+, ... ,.+` (k groups) can match a prefix of a
   * newline-free text `l`: some comma splits off a non-empty first group and the
   * rest splits into k - 1 groups. The last group may run to the end of `l`.
   */
  predicate CanSplit(l: string, k: nat)
    decreases k
  {
    if k <= 1 then k == 1 && |l| > 0
    else exists c :: 0 < c < |l| && l[c] == ',' && CanSplit(l[c + 1..], k - 1)
  }

  /**
   * The groups the regular-expression engine picks for `k` consecutive `.+`
   * groups separated by commas, the last one open-ended: backtracking tries the
   * first group longest first, so the first success is leftmost-longest.
   */
  function GreedySplit(l: string, k: nat): (r: Option<seq<string>>)
    requires k >= 1
    ensures r.Some? ==> |r.value| == k && Join(r.value, ',') == l
    ensures r.Some? ==> forall i :: 0 <= i < k ==> r.value[i] != []
    decreases k, |l| + 1
  {
    if k == 1 then (if |l| > 0 then Some([l]) else None)
    else SearchSplit(l, k, |l|)
  }

  /** Tries the commas of `l` before position `c` as the end of the first group, last one first. */
  function SearchSplit(l: string, k: nat, c: nat): (r: Option<seq<string>>)
    requires k >= 2 && c <= |l|
    ensures r.Some? ==> |r.value| == k && Join(r.value, ',') == l
    ensures r.Some? ==> forall i :: 0 <= i < k ==> r.value[i] != []
    ensures r.Some? ==> |r.value[0]| < c
    decreases k, c
  {
    if c <= 1 then None
    else
      var p := c - 1;
      if l[p] == ',' then
        match GreedySplit(l[p + 1..], k - 1)
        case Some(rest) =>
          var r := [l[..p]] + rest;
          assert r[1..] == rest;
          assert l == l[..p] + [','] + l[p + 1..];
          Some(r)
        case None => SearchSplit(l, k, p)
      else SearchSplit(l, k, p)
  }

  /** The engine finds groups exactly when some split exists. */
  lemma {:induction false} GreedySplitComplete(l: string, k: nat)
    requires k >= 1
    ensures GreedySplit(l, k).Some? <==> CanSplit(l, k)
    decreases k, 1
  {
    if k > 1 {
      if CanSplit(l, k) {
        var c :| 0 < c < |l| && l[c] == ',' && CanSplit(l[c + 1..], k - 1);
        GreedySplitComplete(l[c + 1..], k - 1);
        SearchFinds(l, k, c, |l|);
      }
      if GreedySplit(l, k).Some? {
        SearchSound(l, k, |l|);
      }
    }
  }

  lemma {:induction false} SearchFinds(l: string, k: nat, c: nat, top: nat)
    requires k >= 2 && top <= |l|
    requires 0 < c < top && l[c] == ',' && GreedySplit(l[c + 1..], k - 1).Some?
    ensures SearchSplit(l, k, top).Some?
    decreases top
  {
    if top - 1 != c {
      if !(l[top - 1] == ',' && GreedySplit(l[top..], k - 1).Some?) {
        SearchFinds(l, k, c, top - 1);
      }
    }
  }

  lemma {:induction false} SearchSound(l: string, k: nat, top: nat)
    requires k >= 2 && top <= |l|
    requires SearchSplit(l, k, top).Some?
    ensures CanSplit(l, k)
    decreases k, 0, top
  {
    var p := top - 1;
    if l[p] == ',' && GreedySplit(l[p + 1..], k - 1).Some? {
      GreedySplitComplete(l[p + 1..], k - 1);
    } else {
      SearchSound(l, k, p);
    }
  }

  /** The first group is the longest one that still lets the remaining groups match. */
  lemma {:induction false} GreedySplitLongestFirst(l: string, k: nat)
    requires k >= 2 && GreedySplit(l, k).Some?
    ensures var g := GreedySplit(l, k).value[0];
      forall c :: |g| < c < |l| && l[c] == ',' ==> !CanSplit(l[c + 1..], k - 1)
  {
    SearchLongest(l, k, |l|);
  }

  lemma {:induction false} SearchLongest(l: string, k: nat, top: nat)
    requires k >= 2 && top <= |l| && SearchSplit(l, k, top).Some?
    ensures var g := SearchSplit(l, k, top).value[0];
      forall c :: |g| < c < top && l[c] == ',' ==> !CanSplit(l[c + 1..], k - 1)
    decreases top
  {
    var p := top - 1;
    if l[p] == ',' && GreedySplit(l[p + 1..], k - 1).Some? {
      assert |SearchSplit(l, k, top).value[0]| == p;
    } else {
      SearchLongest(l, k, p);
      SearchLongestStep(l, k, top);
    }
  }

  /** A comma the search passes over cannot start the remaining groups. */
  lemma SearchLongestStep(l: string, k: nat, top: nat)
    requires k >= 2 && 0 < top <= |l|
    requires !(l[top - 1] == ',' && GreedySplit(l[top..], k - 1).Some?)
    requires SearchSplit(l, k, top - 1).Some?
    requires var g := SearchSplit(l, k, top - 1).value[0];
      forall c :: |g| < c < top - 1 && l[c] == ',' ==> !CanSplit(l[c + 1..], k - 1)
    ensures SearchSplit(l, k, top) == SearchSplit(l, k, top - 1)
    ensures var g := SearchSplit(l, k, top).value[0];
      forall c :: |g| < c < top && l[c] == ',' ==> !CanSplit(l[c + 1..], k - 1)
  {
    assert SearchSplit(l, k, top) == SearchSplit(l, k, top - 1);
    var g := SearchSplit(l, k, top - 1).value[0];
    forall c | |g| < c < top && l[c] == ','
      ensures !CanSplit(l[c + 1..], k - 1)
    {
      if c == top - 1 {
        GreedySplitComplete(l[top..], k - 1);
      }
    }
  }

  /** The groups after the first are the engine's groups for the text after the first group's comma. */
  lemma {:induction false} SearchTail(l: string, k: nat, top: nat)
    requires k >= 2 && top <= |l| && SearchSplit(l, k, top).Some?
    ensures var r := SearchSplit(l, k, top).value; var p := |r[0]|;
      && p < |l| && l[p] == ','
      && GreedySplit(l[p + 1..], k - 1) == Some(r[1..])
    decreases top
  {
    var p := top - 1;
    if !(l[p] == ',' && GreedySplit(l[p + 1..], k - 1).Some?) {
      SearchTail(l, k, p);
      assert SearchSplit(l, k, top) == SearchSplit(l, k, p);
    }
  }

  /**
   * Every group but the last is the longest that still lets the later groups
   * match, each taken in the text left after the groups before it.
   */
  predicate LongestFirst(l: string, gs: seq<string>)
    decreases |gs|
  {
    || |gs| <= 1
    || (&& |gs[0]| < |l|
        && (forall c :: |gs[0]| < c < |l| && l[c] == ',' ==> !CanSplit(l[c + 1..], |gs| - 1))
        && LongestFirst(l[|gs[0]| + 1..], gs[1..]))
  }

  /** The engine picks every group longest first, not only the first one. */
  lemma {:induction false} GreedySplitLongest(l: string, k: nat)
    requires k >= 1 && GreedySplit(l, k).Some?
    ensures LongestFirst(l, GreedySplit(l, k).value)
    decreases k
  {
    if k >= 2 {
      var r := GreedySplit(l, k).value;
      var p := |r[0]|;
      GreedySplitLongestFirst(l, k);
      assert GreedySplit(l, k) == SearchSplit(l, k, |l|);
      SearchTail(l, k, |l|);
      GreedySplitLongest(l[p + 1..], k - 1);
      assert GreedySplit(l[p + 1..], k - 1).value == r[1..];
      LongestFirstCons(l, r, k);
    }
  }

  lemma LongestFirstCons(l: string, gs: seq<string>, k: nat)
    requires |gs| == k >= 2 && |gs[0]| < |l|
    requires forall c :: |gs[0]| < c < |l| && l[c] == ',' ==> !CanSplit(l[c + 1..], k - 1)
    requires LongestFirst(l[|gs[0]| + 1..], gs[1..])
    ensures LongestFirst(l, gs)
  {
  }

  // ---------------------------------------------------------------- records

  /** A decoded `$GNRMC` ("Recommended Minimum") sentence; latitude and longitude are signed degrees. */
  datatype PositionFix = PositionFix(
    time: string, status: string,
    lat: real, latDir: string, lon: real, lonDir: string,
    speed: string, course: string, date: string)

  /** A decoded `$GNGGA` ("Fix Data") sentence; latitude and longitude are signed degrees. */
  datatype QualityFix = QualityFix(
    time: string,
    lat: real, latDir: string, lon: real, lonDir: string,
    fix: string, sats: string,
    hdop: string, alt: string, units: string, undulation: string, age: string, stationId: string)

  /**
   * What `parse_gps_data` does with one line: decode a sentence of either kind,
   * ignore the line (unknown prefix, or a known prefix that does not match), or
   * take the `except` branch, which writes one error message.
   */
  datatype Sentence = Rmc(position: PositionFix) | Gga(quality: QualityFix) | Ignored | Failed(message: string)

  /** The error messages a parse result writes to the error log. */
  function ErrorWrites(r: Sentence): (log: seq<string>)
    ensures |log| <= 1 && (log == [] <==> !r.Failed?)
  {
    if r.Failed? then [r.message] else []
  }

  const ParseErrorPrefix := "An error occurred while parsing the GPS data: "

  /** The `except` branch for a `ValueError` raised by `float(text)`. */
  function ConversionFailure(text: string): Sentence {
    Failed(ParseErrorPrefix + "could not convert string to float: '" + text + "'")
  }

  /**
   * Signed decimal degrees from the packed magnitude and its hemisphere letter:
   * the magnitude divided by 100, negated unless the letter is the positive one
   * (`N` for latitude, `E` for longitude).
   */
  function Hemisphere(magnitude: real, dir: string, positive: string): (r: real)
    ensures r == magnitude / 100.0 || r == -(magnitude / 100.0)
    ensures magnitude > 0.0 ==> (r > 0.0 <==> dir == positive)
    ensures magnitude >= 0.0 ==> (r >= 0.0 <==> (dir == positive || magnitude == 0.0))
  {
    if dir == positive then magnitude / 100.0 else -magnitude / 100.0
  }

  /** The same magnitude in the two hemispheres gives exact negatives. */
  lemma HemispheresOpposite(magnitude: real, positive: string, negative: string)
    requires positive != negative
    ensures Hemisphere(magnitude, negative, positive) == -Hemisphere(magnitude, positive, positive)
  {
  }

  /** Packs signed degrees back into a magnitude and a hemisphere letter. */
  function Pack(degrees: real, positive: string, negative: string): (real, string) {
    if degrees >= 0.0 then (degrees * 100.0, positive) else (-degrees * 100.0, negative)
  }

  /** Decoding then packing again gives back the magnitude and the letter (the letter of a zero magnitude is lost). */
  lemma HemisphereRoundTrip(magnitude: real, dir: string, positive: string, negative: string)
    requires positive != negative && (dir == positive || dir == negative)
    requires magnitude > 0.0 || (magnitude == 0.0 && dir == positive)
    ensures Pack(Hemisphere(magnitude, dir, positive), positive, negative) == (magnitude, dir)
  {
  }

  // ---------------------------------------------------------------- RMC

  /** The sentence tags `parse_gps_data` dispatches on. */
  const RmcTag: string := "$GNRMC"
  const GgaTag: string := "$GNGGA"

  lemma TagFacts()
    ensures |RmcTag| == 6 && |GgaTag| == 6 && ',' !in RmcTag && ',' !in GgaTag
    ensures RmcTag[3] != GgaTag[3]
  {
  }

  /** time, status, lat, lat_dir, lon, lon_dir, speed, course (each followed by a comma). */
  const RmcTokens: seq<Token> :=
    [Decimal, Either('A', 'V'), Decimal, Either('N', 'S'), Decimal, Either('E', 'W'), Decimal, Decimal]

  /** The groups of the `$GNRMC` pattern matched at the start of `s`, date last. */
  function MatchRmc(s: string): (m: Option<seq<string>>)
    ensures m.Some? ==> |m.value| == 9 && IsDecimalLit(m.value[2]) && IsDecimalLit(m.value[4])
  {
    if !StartsWith(s, RmcTag + [',']) then None else RmcGroups(s[7..])
  }

  /** The RMC groups matched at the start of the text after `$GNRMC,`. */
  function RmcGroups(t: string): (m: Option<seq<string>>)
    ensures m.Some? ==> |m.value| == 9 && IsDecimalLit(m.value[2]) && IsDecimalLit(m.value[4])
  {
    match MatchFields(RmcTokens, t)
    case None => None
    case Some(r) =>
      match MatchToken(Decimal, r.1)
      case None => None
      case Some(n) =>
        assert FullMatch(RmcTokens[2], r.0[2]) && FullMatch(RmcTokens[4], r.0[4]);
        Some(r.0 + [r.1[..n]])
  }

  /**
   * The conversions of an RMC match: a position fix when both coordinates
   * convert, else the `except` branch, naming the first one `float()` refuses.
   */
  function DecodeRmc(g: seq<string>): (r: Sentence)
    requires |g| == 9
    ensures r.Rmc? || r.Failed?
    ensures r.Rmc? <==> ToFloat(g[2]).Some? && ToFloat(g[4]).Some?
    ensures r.Failed? ==> r == ConversionFailure(if ToFloat(g[2]).None? then g[2] else g[4])
  {
    match ToFloat(g[2])
    case None => ConversionFailure(g[2])
    case Some(lat) =>
      match ToFloat(g[4])
      case None => ConversionFailure(g[4])
      case Some(lon) =>
        Rmc(PositionFix(g[0], g[1], Hemisphere(lat, g[3], "N"), g[3], Hemisphere(lon, g[5], "E"), g[5],
                        g[6], g[7], g[8]))
  }

  /** Some prefix of `f` is a decimal literal. */
  predicate HasDecimalPrefix(f: string) {
    exists n :: 0 < n <= |f| && IsDecimalLit(f[..n])
  }

  /**
   * The `$GNRMC` pattern over the comma-separated fields: the sentence tag, then
   * time, status A or V, latitude, N or S, longitude, E or W, speed and course,
   * each `\d+\.\d+` or a letter, and a tenth field that begins with the date
   * `\d+\.\d+`; anything may follow the date.
   */
  predicate RmcShape(s: string) {
    var fs := Split(s, ',');
    && |fs| >= 10 && fs[0] == RmcTag
    && IsDecimalLit(fs[1]) && (fs[2] == "A" || fs[2] == "V")
    && IsDecimalLit(fs[3]) && (fs[4] == "N" || fs[4] == "S")
    && IsDecimalLit(fs[5]) && (fs[6] == "E" || fs[6] == "W")
    && IsDecimalLit(fs[7]) && IsDecimalLit(fs[8])
    && HasDecimalPrefix(fs[9])
  }

  /**
   * The date group: the decimal literal at the start of `r` exists exactly when
   * the first field of `r` begins with one, and it is the longest such prefix.
   */
  lemma DecimalPrefixAgree(r: string)
    ensures MatchToken(Decimal, r).Some? <==> HasDecimalPrefix(Split(r, ',')[0])
    ensures MatchToken(Decimal, r).Some? ==>
      var n := MatchToken(Decimal, r).value; var f := Split(r, ',')[0];
      n <= |f| && f[..n] == r[..n] && (n < |f| ==> !IsDigit(f[n]))
  {
    var f := Split(r, ',')[0];
    assert f == r[..IndexOf(r, ',')];
    if MatchToken(Decimal, r).Some? {
      DecimalMatchInField(r, f);
    }
    if HasDecimalPrefix(f) {
      DecimalPrefixMatches(r, f);
    }
  }

  lemma DecimalMatchInField(r: string, f: string)
    requires f == r[..IndexOf(r, ',')] && MatchToken(Decimal, r).Some?
    ensures var n := MatchToken(Decimal, r).value;
      0 < n <= |f| && IsDecimalLit(f[..n]) && f[..n] == r[..n] && (n < |f| ==> !IsDigit(f[n]))
  {
    var n := MatchToken(Decimal, r).value;
    FullMatchNoComma(Decimal, r[..n]);
    assert forall i :: 0 <= i < n ==> r[..n][i] == r[i];
    assert f[..n] == r[..n];
  }

  lemma DecimalPrefixMatches(r: string, f: string)
    requires f == r[..IndexOf(r, ',')] && HasDecimalPrefix(f)
    ensures MatchToken(Decimal, r).Some?
  {
    var m :| 0 < m <= |f| && IsDecimalLit(f[..m]);
    var g := f[..m];
    var p :| 0 < p < |g| - 1 && g[p] == '.' && AllDigits(g[..p]) && AllDigits(g[p + 1..]);
    assert g[..p] == r[..p] && r[p] == '.';
    ScanDigitsAt(r, p);
    assert IsDigit(g[p + 1..][0]);
    assert r[p + 1..][0] == g[p + 1];
  }

  /** The RMC tokens read field by field. */
  lemma RmcTokensSpelled(fs: seq<string>)
    requires |fs| > 0
    ensures FieldsShape(RmcTokens, fs[1..]) <==>
      (&& |fs| >= 10
       && IsDecimalLit(fs[1]) && (fs[2] == "A" || fs[2] == "V")
       && IsDecimalLit(fs[3]) && (fs[4] == "N" || fs[4] == "S")
       && IsDecimalLit(fs[5]) && (fs[6] == "E" || fs[6] == "W")
       && IsDecimalLit(fs[7]) && IsDecimalLit(fs[8]))
  {
    if |fs| >= 10 {
      var t := fs[1..];
      assert t[0] == fs[1] && t[1] == fs[2] && t[2] == fs[3] && t[3] == fs[4];
      assert t[4] == fs[5] && t[5] == fs[6] && t[6] == fs[7] && t[7] == fs[8];
      assert [fs[2][0]] == fs[2] <== |fs[2]| == 1;
    }
  }

  /** The pattern matcher and the field-wise shape accept the same lines. */
  lemma MatchRmcAgree(s: string)
    ensures MatchRmc(s).Some? <==> RmcShape(s)
  {
    TagFacts();
    HeaderFields(s, RmcTag, ',');
    if StartsWith(s, RmcTag + [',']) {
      RmcAfterHeader(s);
    }
  }

  /**
   * The groups of a matched RMC line are its fields: time to course are the
   * second to ninth fields, and the date is the longest decimal literal that
   * begins the tenth field.
   */
  lemma MatchRmcGroups(s: string)
    requires MatchRmc(s).Some?
    ensures var g := MatchRmc(s).value; var fs := Split(s, ',');
      && |fs| >= 10 && g[..8] == fs[1..9]
      && IsDecimalLit(g[8]) && g[8] <= fs[9] && (|g[8]| < |fs[9]| ==> !IsDigit(fs[9][|g[8]|]))
  {
    TagFacts();
    HeaderRest(s, RmcTag, ',');
    RmcAfterHeaderGroups(s);
    TailFields(Split(s, ','), Split(s[7..], ','));
  }

  lemma RmcAfterHeader(s: string)
    requires StartsWith(s, RmcTag + [','])
    requires Split(s, ',')[1..] == Split(s[7..], ',') && Split(s, ',')[0] == RmcTag
    ensures MatchRmc(s).Some? <==> RmcShape(s)
  {
    var fs := Split(s, ',');
    var s' := s[7..];
    assert MatchRmc(s) == RmcGroups(s');
    TokensOk();
    FieldsAgree(RmcTokens, s');
    RmcTokensSpelled(fs);
    var m := MatchFields(RmcTokens, s');
    if m.Some? {
      RmcDateAgree(s', m.value.1);
    }
  }

  lemma RmcAfterHeaderGroups(s: string)
    requires StartsWith(s, RmcTag + [','])
    requires MatchRmc(s).Some?
    ensures var g := MatchRmc(s).value; var fs := Split(s[7..], ',');
      && |fs| >= 9 && g[..8] == fs[..8]
      && IsDecimalLit(g[8]) && g[8] <= fs[8] && (|g[8]| < |fs[8]| ==> !IsDigit(fs[8][|g[8]|]))
  {
    assert MatchRmc(s) == RmcGroups(s[7..]);
    RmcGroupsFields(s[7..]);
  }

  lemma RmcGroupsFields(t: string)
    requires RmcGroups(t).Some?
    ensures var g := RmcGroups(t).value; var fs := Split(t, ',');
      && |fs| >= 9 && g[..8] == fs[..8]
      && IsDecimalLit(g[8]) && g[8] <= fs[8] && (|g[8]| < |fs[8]| ==> !IsDigit(fs[8][|g[8]|]))
  {
    TokensOk();
    FieldsAgree(RmcTokens, t);
    RmcGroupsValue(t);
    var r := MatchFields(RmcTokens, t).value;
    RmcDateAgree(t, r.1);
    DateGroup(RmcGroups(t).value, r.0, r.1, MatchToken(Decimal, r.1).value, Split(t, ','));
  }

  lemma RmcGroupsValue(t: string)
    requires RmcGroups(t).Some?
    ensures MatchFields(RmcTokens, t).Some?
    ensures var r := MatchFields(RmcTokens, t).value;
      && MatchToken(Decimal, r.1).Some?
      && RmcGroups(t).value == r.0 + [r.1[..MatchToken(Decimal, r.1).value]]
  {
  }

  lemma DateGroup(g: seq<string>, fixed: seq<string>, rest: string, n: nat, fs: seq<string>)
    requires |fs| >= 9 && fixed == fs[..8] && n <= |rest| && g == fixed + [rest[..n]]
    requires IsDecimalLit(rest[..n])
    requires n <= |fs[8]| && fs[8][..n] == rest[..n] && (n < |fs[8]| ==> !IsDigit(fs[8][n]))
    ensures g[..8] == fs[..8]
    ensures IsDecimalLit(g[8]) && g[8] <= fs[8] && (|g[8]| < |fs[8]| ==> !IsDigit(fs[8][|g[8]|]))
  {
    assert g[..8] == fixed && g[8] == rest[..n];
  }

  lemma RmcDateAgree(t: string, rest: string)
    requires |Split(t, ',')| >= 9 && rest == Join(Split(t, ',')[8..], ',')
    ensures var f := Split(t, ',')[8];
      && (MatchToken(Decimal, rest).Some? <==> HasDecimalPrefix(f))
      && (MatchToken(Decimal, rest).Some? ==>
           var n := MatchToken(Decimal, rest).value;
           n <= |f| && f[..n] == rest[..n] && (n < |f| ==> !IsDigit(f[n])))
  {
    SplitSuffixJoin(t, ',', 8);
    DecimalPrefixAgree(rest);
  }

  // ---------------------------------------------------------------- GGA

  /** time, lat, lat_dir, lon, lon_dir, fix, sats (each followed by a comma). */
  const GgaTokens: seq<Token> :=
    [Decimal, Decimal, Either('N', 'S'), Decimal, Either('E', 'W'), Integer, Integer]

  lemma TokensOk()
    ensures forall i :: 0 <= i < |RmcTokens| ==> TokenOk(RmcTokens[i])
    ensures forall i :: 0 <= i < |GgaTokens| ==> TokenOk(GgaTokens[i])
  {
  }

  /**
   * The groups of the `$GNGGA` pattern matched at the start of `s`: the seven
   * fixed fields, then hdop, alt, units, undulation, age and stationID.
   */
  function MatchGga(s: string): (m: Option<seq<string>>)
    ensures m.Some? ==> |m.value| == 13 && IsDecimalLit(m.value[1]) && IsDecimalLit(m.value[3])
  {
    if !StartsWith(s, GgaTag + [',']) then None else GgaGroups(s[7..])
  }

  /** The GGA groups matched at the start of the text after `$GNGGA,`. */
  function GgaGroups(t: string): (m: Option<seq<string>>)
    ensures m.Some? ==> |m.value| == 13 && IsDecimalLit(m.value[1]) && IsDecimalLit(m.value[3])
  {
    match MatchFields(GgaTokens, t)
    case None => None
    case Some(r) =>
      match GreedySplit(Line(r.1), 6)
      case None => None
      case Some(tail) =>
        assert FullMatch(GgaTokens[1], r.0[1]) && FullMatch(GgaTokens[3], r.0[3]);
        Some(r.0 + tail)
  }

  /**
   * The conversions of a GGA match: a quality fix when both coordinates
   * convert, else the `except` branch, naming the first one `float()` refuses.
   */
  function DecodeGga(g: seq<string>): (r: Sentence)
    requires |g| == 13
    ensures r.Gga? || r.Failed?
    ensures r.Gga? <==> ToFloat(g[1]).Some? && ToFloat(g[3]).Some?
    ensures r.Failed? ==> r == ConversionFailure(if ToFloat(g[1]).None? then g[1] else g[3])
  {
    match ToFloat(g[1])
    case None => ConversionFailure(g[1])
    case Some(lat) =>
      match ToFloat(g[3])
      case None => ConversionFailure(g[3])
      case Some(lon) =>
        Gga(QualityFix(g[0], Hemisphere(lat, g[2], "N"), g[2], Hemisphere(lon, g[4], "E"), g[4],
                       g[5], g[6], g[7], g[8], g[9], g[10], g[11], g[12]))
  }

  /**
   * The `$GNGGA` pattern over the comma-separated fields: the sentence tag, then
   * time, latitude, N or S, longitude, E or W (as for RMC), the fix quality and
   * the satellite count, each `\d+`; the rest of the line, up to its first line
   * feed, must split at commas into six non-empty groups (which may themselves
   * hold commas).
   */
  predicate GgaShape(s: string) {
    var fs := Split(s, ',');
    && |fs| >= 9 && fs[0] == GgaTag
    && IsDecimalLit(fs[1]) && IsDecimalLit(fs[2]) && (fs[3] == "N" || fs[3] == "S")
    && IsDecimalLit(fs[4]) && (fs[5] == "E" || fs[5] == "W")
    && IsInteger(fs[6]) && IsInteger(fs[7])
    && CanSplit(Line(Join(fs[8..], ',')), 6)
  }

  /** The GGA tokens read field by field. */
  lemma GgaTokensSpelled(fs: seq<string>)
    requires |fs| > 0
    ensures FieldsShape(GgaTokens, fs[1..]) <==>
      (&& |fs| >= 9
       && IsDecimalLit(fs[1]) && IsDecimalLit(fs[2]) && (fs[3] == "N" || fs[3] == "S")
       && IsDecimalLit(fs[4]) && (fs[5] == "E" || fs[5] == "W")
       && IsInteger(fs[6]) && IsInteger(fs[7]))
  {
    if |fs| >= 9 {
      var t := fs[1..];
      assert t[0] == fs[1] && t[1] == fs[2] && t[2] == fs[3] && t[3] == fs[4];
      assert t[4] == fs[5] && t[5] == fs[6] && t[6] == fs[7];
    }
  }

  /** The pattern matcher and the field-wise shape accept the same lines. */
  lemma MatchGgaAgree(s: string)
    ensures MatchGga(s).Some? <==> GgaShape(s)
  {
    TagFacts();
    HeaderFields(s, GgaTag, ',');
    if StartsWith(s, GgaTag + [',']) {
      GgaAfterHeader(s);
    }
  }

  lemma GgaAfterHeader(s: string)
    requires StartsWith(s, GgaTag + [','])
    requires Split(s, ',')[1..] == Split(s[7..], ',') && Split(s, ',')[0] == GgaTag
    ensures MatchGga(s).Some? <==> GgaShape(s)
  {
    var fs := Split(s, ',');
    var t := s[7..];
    assert MatchGga(s) == GgaGroups(t);
    TokensOk();
    FieldsAgree(GgaTokens, t);
    GgaTokensSpelled(fs);
    var m := MatchFields(GgaTokens, t);
    if m.Some? {
      assert fs[8..] == Split(t, ',')[7..];
      GreedySplitComplete(Line(m.value.1), 6);
    }
  }

  /**
   * The groups of a matched GGA line: the seven fixed groups are the second to
   * eighth fields, and the last six are the engine's split of the rest of the line.
   */
  lemma MatchGgaGroups(s: string)
    requires MatchGga(s).Some?
    ensures var g := MatchGga(s).value; var fs := Split(s, ',');
      && |fs| >= 9 && g[..7] == fs[1..8]
      && Some(g[7..]) == GreedySplit(Line(Join(fs[8..], ',')), 6)
  {
    GgaHeader(s);
    GgaGroupsFields(s[7..]);
    ShiftGroups(MatchGga(s).value, Split(s, ','), Split(s[7..], ','), 7);
  }

  lemma GgaHeader(s: string)
    requires MatchGga(s).Some?
    ensures StartsWith(s, GgaTag + [',']) && MatchGga(s) == GgaGroups(s[7..])
    ensures Split(s, ',')[1..] == Split(s[7..], ',')
  {
    TagFacts();
    HeaderRest(s, GgaTag, ',');
  }

  /** Groups that are the first `n` fields after the header are the second to `n + 1`-th of the line. */
  lemma ShiftGroups(g: seq<string>, fs: seq<string>, fs': seq<string>, n: nat)
    requires |fs| > 0 && fs[1..] == fs' && |fs'| > n && |g| >= n && g[..n] == fs'[..n]
    ensures g[..n] == fs[1..n + 1] && fs[n + 1..] == fs'[n..]
  {
  }

  lemma GgaGroupsFields(t: string)
    requires GgaGroups(t).Some?
    ensures var g := GgaGroups(t).value; var fs := Split(t, ',');
      && |fs| >= 8 && g[..7] == fs[..7]
      && Some(g[7..]) == GreedySplit(Line(Join(fs[7..], ',')), 6)
  {
    TokensOk();
    FieldsAgree(GgaTokens, t);
    GgaGroupsValue(t);
    var r := MatchFields(GgaTokens, t).value;
    AppendSplit(r.0, GreedySplit(Line(r.1), 6).value);
  }

  lemma GgaGroupsValue(t: string)
    requires GgaGroups(t).Some?
    ensures MatchFields(GgaTokens, t).Some?
    ensures var r := MatchFields(GgaTokens, t).value;
      && GreedySplit(Line(r.1), 6).Some?
      && GgaGroups(t).value == r.0 + GreedySplit(Line(r.1), 6).value
  {
  }

  lemma AppendSplit<T>(a: seq<T>, b: seq<T>)
    ensures (a + b)[..|a|] == a && (a + b)[|a|..] == b
  {
  }

  // ---------------------------------------------------------------- parse_gps_data

  /**
   * `parse_gps_data(line)`: an empty line is ignored; otherwise the stripped
   * line is dispatched.
   */
  function ParseGpsData(line: string): (r: Sentence)
  {
    if line == [] then Ignored else Dispatch(Strip(line))
  }

  /**
   * The stripped line is dispatched on its `$GNRMC` / `$GNGGA` prefix; a line
   * that fails its pattern is dropped, and a matched one is decoded.
   */
  function Dispatch(s: string): Sentence {
    if StartsWith(s, RmcTag) then
      match MatchRmc(s)
      case None => Ignored
      case Some(g) => DecodeRmc(g)
    else if StartsWith(s, GgaTag) then
      match MatchGga(s)
      case None => Ignored
      case Some(g) => DecodeGga(g)
    else Ignored
  }

  /**
   * The empty-line check in front of the dispatch changes nothing: an empty line
   * strips to the empty text, which the dispatch ignores as well.
   */
  lemma EmptyCheckRedundant(line: string)
    ensures ParseGpsData(line) == Dispatch(Strip(line))
  {
    if line == [] {
      assert Strip(line) == [];
      assert !StartsWith([], RmcTag) && !StartsWith([], GgaTag) by { TagFacts(); }
    }
  }

  /** A record of either kind comes only from a line with its own tag; a line with neither tag is ignored. */
  lemma DispatchTags(s: string)
    ensures Dispatch(s).Rmc? ==> StartsWith(s, RmcTag)
    ensures Dispatch(s).Gga? ==> StartsWith(s, GgaTag) && !StartsWith(s, RmcTag)
    ensures !StartsWith(s, RmcTag) && !StartsWith(s, GgaTag) ==> Dispatch(s) == Ignored
  {
    if StartsWith(s, RmcTag) && MatchRmc(s).Some? {
      assert Dispatch(s) == DecodeRmc(MatchRmc(s).value);
    }
  }

  /**
   * The `except` branch is unreachable through a conversion: `float()` never
   * raises on a matched latitude or longitude. Console writes are taken as
   * infallible.
   */
  lemma DispatchNeverFails(s: string)
    ensures !Dispatch(s).Failed?
  {
    if StartsWith(s, RmcTag) {
      if MatchRmc(s).Some? {
        var g := MatchRmc(s).value;
        DecimalLitToFloat(g[2]);
        DecimalLitToFloat(g[4]);
      }
    } else if StartsWith(s, GgaTag) {
      if MatchGga(s).Some? {
        var g := MatchGga(s).value;
        DecimalLitToFloat(g[1]);
        DecimalLitToFloat(g[3]);
      }
    }
  }

  /**
   * No line takes the `except` branch through a conversion, so parsing a line
   * never writes an error while console writes succeed.
   */
  lemma ParseNeverFails(line: string)
    ensures !ParseGpsData(line).Failed?
    ensures ErrorWrites(ParseGpsData(line)) == []
  {
    if line != [] {
      DispatchNeverFails(Strip(line));
    }
  }

  lemma DispatchRmcIff(s: string)
    ensures Dispatch(s).Rmc? <==> RmcShape(s)
  {
    MatchRmcAgree(s);
    DispatchRmcMatch(s);
  }

  lemma DispatchRmcMatch(s: string)
    ensures Dispatch(s).Rmc? <==> MatchRmc(s).Some?
  {
    if MatchRmc(s).Some? {
      StartsWithLonger(s, RmcTag, [',']);
      var g := MatchRmc(s).value;
      assert Dispatch(s) == DecodeRmc(g);
      DecimalLitToFloat(g[2]);
      DecimalLitToFloat(g[4]);
    } else if StartsWith(s, RmcTag) {
      assert Dispatch(s) == Ignored;
    } else if StartsWith(s, GgaTag) && MatchGga(s).Some? {
      assert Dispatch(s) == DecodeGga(MatchGga(s).value);
    }
  }

  lemma DispatchGgaIff(s: string)
    ensures Dispatch(s).Gga? <==> GgaShape(s)
  {
    MatchGgaAgree(s);
    DispatchGgaMatch(s);
    if GgaShape(s) {
      GgaNotRmc(s);
    }
  }

  lemma DispatchGgaMatch(s: string)
    ensures Dispatch(s).Gga? <==> MatchGga(s).Some? && !StartsWith(s, RmcTag)
  {
    if StartsWith(s, RmcTag) {
      if MatchRmc(s).Some? {
        assert Dispatch(s) == DecodeRmc(MatchRmc(s).value);
      }
    } else if MatchGga(s).Some? {
      StartsWithLonger(s, GgaTag, [',']);
      var g := MatchGga(s).value;
      assert Dispatch(s) == DecodeGga(g);
      DecimalLitToFloat(g[1]);
      DecimalLitToFloat(g[3]);
    }
  }

  lemma GgaNotRmc(s: string)
    requires GgaShape(s)
    ensures StartsWith(s, GgaTag) && !StartsWith(s, RmcTag)
  {
    TagFacts();
    HeaderRest(s, GgaTag, ',');
    assert s[..6] == GgaTag;
  }

  lemma RmcNotGga(s: string)
    requires RmcShape(s)
    ensures StartsWith(s, RmcTag) && !StartsWith(s, GgaTag)
  {
    TagFacts();
    HeaderRest(s, RmcTag, ',');
    assert s[..6] == RmcTag;
  }

  lemma EmptyLineHasNoShape(line: string)
    requires line == []
    ensures !RmcShape(Strip(line)) && !GgaShape(Strip(line))
  {
    assert Strip(line) == [];
    assert Split([], ',') == [[]];
  }

  /** A line decodes to a position fix exactly when its stripped form has the RMC shape. */
  lemma ParseRmcIff(line: string)
    ensures ParseGpsData(line).Rmc? <==> RmcShape(Strip(line))
  {
    if line == [] { EmptyLineHasNoShape(line); } else { DispatchRmcIff(Strip(line)); }
  }

  /** A line decodes to a quality fix exactly when its stripped form has the GGA shape. */
  lemma ParseGgaIff(line: string)
    ensures ParseGpsData(line).Gga? <==> GgaShape(Strip(line))
  {
    if line == [] { EmptyLineHasNoShape(line); } else { DispatchGgaIff(Strip(line)); }
  }

  /** A line is ignored exactly when its stripped form has neither shape; it then writes nothing. */
  lemma ParseIgnoredIff(line: string)
    ensures ParseGpsData(line) == Ignored <==> !RmcShape(Strip(line)) && !GgaShape(Strip(line))
    ensures ErrorWrites(ParseGpsData(line)) == []
  {
    ParseRmcIff(line);
    ParseGgaIff(line);
    ParseNeverFails(line);
  }

  /** An empty line, or one whose stripped form has neither known prefix, is ignored and writes nothing. */
  lemma UnknownPrefixIgnored(line: string)
    requires line == [] || (!StartsWith(Strip(line), RmcTag) && !StartsWith(Strip(line), GgaTag))
    ensures ParseGpsData(line) == Ignored && ErrorWrites(ParseGpsData(line)) == []
  {
  }

  /** A line with a known prefix that fails its pattern is dropped silently: no record, no error. */
  lemma MalformedDropped(line: string)
    requires var s := Strip(line);
      (StartsWith(s, RmcTag) && !RmcShape(s)) || (StartsWith(s, GgaTag) && !GgaShape(s))
    ensures ParseGpsData(line) == Ignored && ErrorWrites(ParseGpsData(line)) == []
  {
    var s := Strip(line);
    if RmcShape(s) { RmcNotGga(s); }
    if GgaShape(s) { GgaNotRmc(s); }
    ParseIgnoredIff(line);
  }

  /**
   * An RMC line whose date field is plain digits (`ddmmyy`, as receivers send
   * it) does not match the pattern, which wants `\d+\.\d+` there: it is dropped.
   */
  lemma UndottedDateDropped(line: string)
    requires var fs := Split(Strip(line), ',');
      StartsWith(Strip(line), RmcTag) && |fs| >= 10 && AllDigits(fs[9])
    ensures ParseGpsData(line) == Ignored && ErrorWrites(ParseGpsData(line)) == []
  {
    var f := Split(Strip(line), ',')[9];
    forall n | 0 < n <= |f|
      ensures !IsDecimalLit(f[..n])
    {
      forall p | 0 < p < n - 1
        ensures f[..n][p] != '.'
      {
        assert f[..n][p] == f[p] && IsDigit(f[p]);
      }
    }
    MalformedDropped(line);
  }

  /**
   * The position fix of a stripped RMC line holds its fields: the texts as they stand,
   * latitude and longitude as signed degrees, and as date the longest decimal
   * literal that begins the tenth field.
   */
  lemma DispatchRmcFields(s: string)
    requires RmcShape(s)
    ensures Dispatch(s).Rmc?
    ensures var fs := Split(s, ','); var p := Dispatch(s).position;
      && p.time == fs[1] && p.status == fs[2]
      && p.lat == Hemisphere(DecimalValue(fs[3]), fs[4], "N") && p.latDir == fs[4]
      && p.lon == Hemisphere(DecimalValue(fs[5]), fs[6], "E") && p.lonDir == fs[6]
      && p.speed == fs[7] && p.course == fs[8]
      && IsDecimalLit(p.date) && p.date <= fs[9] && (|p.date| < |fs[9]| ==> !IsDigit(fs[9][|p.date|]))
  {
    DispatchRmcIff(s);
    MatchRmcAgree(s);
    MatchRmcGroups(s);
    var g := MatchRmc(s).value;
    assert Dispatch(s) == DecodeRmc(g);
    RmcGroupsDecoded(Split(s, ','), g);
  }

  lemma RmcGroupsDecoded(fs: seq<string>, g: seq<string>)
    requires |fs| >= 10 && |g| == 9 && g[..8] == fs[1..9]
    requires IsDecimalLit(fs[3]) && IsDecimalLit(fs[5])
    requires IsDecimalLit(g[8]) && g[8] <= fs[9] && (|g[8]| < |fs[9]| ==> !IsDigit(fs[9][|g[8]|]))
    ensures DecodeRmc(g).Rmc?
    ensures var p := DecodeRmc(g).position;
      && p.time == fs[1] && p.status == fs[2]
      && p.lat == Hemisphere(DecimalValue(fs[3]), fs[4], "N") && p.latDir == fs[4]
      && p.lon == Hemisphere(DecimalValue(fs[5]), fs[6], "E") && p.lonDir == fs[6]
      && p.speed == fs[7] && p.course == fs[8]
      && IsDecimalLit(p.date) && p.date <= fs[9] && (|p.date| < |fs[9]| ==> !IsDigit(fs[9][|p.date|]))
  {
    assert forall i :: 0 <= i < 8 ==> g[..8][i] == g[i] && fs[1..9][i] == fs[i + 1];
    DecimalLitToFloat(g[2]);
    DecimalLitToFloat(g[4]);
  }

  /**
   * The quality fix of a stripped GGA line holds its fields: the seven fixed ones, and six
   * non-empty groups that make up the rest of the line up to its first line feed,
   * each of them, from hdop to age, as long as the groups after it allow.
   */
  lemma DispatchGgaFields(s: string)
    requires GgaShape(s)
    ensures Dispatch(s).Gga?
    ensures var fs := Split(s, ','); var q := Dispatch(s).quality;
      var rest := Line(Join(fs[8..], ','));
      && q.time == fs[1]
      && q.lat == Hemisphere(DecimalValue(fs[2]), fs[3], "N") && q.latDir == fs[3]
      && q.lon == Hemisphere(DecimalValue(fs[4]), fs[5], "E") && q.lonDir == fs[5]
      && q.fix == fs[6] && q.sats == fs[7]
      && Join([q.hdop, q.alt, q.units, q.undulation, q.age, q.stationId], ',') == rest
      && q.hdop != [] && q.alt != [] && q.units != [] && q.undulation != [] && q.age != [] && q.stationId != []
      && LongestFirst(rest, [q.hdop, q.alt, q.units, q.undulation, q.age, q.stationId])
  {
    GgaDecoded(s);
    MatchGgaGroups(s);
    GgaGroupsDecoded(Split(s, ','), MatchGga(s).value);
  }

  lemma GgaDecoded(s: string)
    requires GgaShape(s)
    ensures MatchGga(s).Some? && Dispatch(s) == DecodeGga(MatchGga(s).value)
  {
    MatchGgaAgree(s);
    GgaNotRmc(s);
  }

  lemma GgaGroupsDecoded(fs: seq<string>, g: seq<string>)
    requires |fs| >= 9 && |g| == 13 && g[..7] == fs[1..8]
    requires IsDecimalLit(fs[2]) && IsDecimalLit(fs[4]) && IsDecimalLit(g[1]) && IsDecimalLit(g[3])
    requires Some(g[7..]) == GreedySplit(Line(Join(fs[8..], ',')), 6)
    ensures DecodeGga(g).Gga?
    ensures var q := DecodeGga(g).quality;
      var rest := Line(Join(fs[8..], ','));
      && q.time == fs[1]
      && q.lat == Hemisphere(DecimalValue(fs[2]), fs[3], "N") && q.latDir == fs[3]
      && q.lon == Hemisphere(DecimalValue(fs[4]), fs[5], "E") && q.lonDir == fs[5]
      && q.fix == fs[6] && q.sats == fs[7]
      && Join([q.hdop, q.alt, q.units, q.undulation, q.age, q.stationId], ',') == rest
      && q.hdop != [] && q.alt != [] && q.units != [] && q.undulation != [] && q.age != [] && q.stationId != []
      && LongestFirst(rest, [q.hdop, q.alt, q.units, q.undulation, q.age, q.stationId])
  {
    GgaFixedGroups(fs, g);
    GgaTailGroups(fs, g);
  }

  lemma GgaFixedGroups(fs: seq<string>, g: seq<string>)
    requires |fs| >= 9 && |g| == 13 && g[..7] == fs[1..8]
    requires IsDecimalLit(fs[2]) && IsDecimalLit(fs[4])
    ensures DecodeGga(g).Gga?
    ensures var q := DecodeGga(g).quality;
      && q.time == fs[1]
      && q.lat == Hemisphere(DecimalValue(fs[2]), fs[3], "N") && q.latDir == fs[3]
      && q.lon == Hemisphere(DecimalValue(fs[4]), fs[5], "E") && q.lonDir == fs[5]
      && q.fix == fs[6] && q.sats == fs[7]
  {
    assert forall i :: 0 <= i < 7 ==> g[..7][i] == g[i] && fs[1..8][i] == fs[i + 1];
    DecimalLitToFloat(g[1]);
    DecimalLitToFloat(g[3]);
  }

  lemma GgaTailGroups(fs: seq<string>, g: seq<string>)
    requires |fs| >= 9 && |g| == 13 && IsDecimalLit(g[1]) && IsDecimalLit(g[3])
    requires Some(g[7..]) == GreedySplit(Line(Join(fs[8..], ',')), 6)
    ensures DecodeGga(g).Gga?
    ensures var q := DecodeGga(g).quality;
      var rest := Line(Join(fs[8..], ','));
      && Join([q.hdop, q.alt, q.units, q.undulation, q.age, q.stationId], ',') == rest
      && q.hdop != [] && q.alt != [] && q.units != [] && q.undulation != [] && q.age != [] && q.stationId != []
      && LongestFirst(rest, [q.hdop, q.alt, q.units, q.undulation, q.age, q.stationId])
  {
    DecimalLitToFloat(g[1]);
    DecimalLitToFloat(g[3]);
    var rest := Line(Join(fs[8..], ','));
    var tail := g[7..];
    assert tail == [g[7], g[8], g[9], g[10], g[11], g[12]];
    assert forall i :: 0 <= i < 6 ==> tail[i] != [];
    GreedySplitLongest(rest, 6);
  }

  lemma TailFields(fs: seq<string>, fs': seq<string>)
    requires |fs| > 0 && fs[1..] == fs' && |fs'| >= 9
    ensures fs[1..9] == fs'[..8] && fs[9] == fs'[8]
  {
  }
}
