/**
 * The few operations on Python `str` that the sentence parser relies on:
 * `str.isspace` / `str.strip`, `str.startswith`, and splitting a line into
 * its comma-separated fields.
 */
module Text {

  predicate IsDigit(c: char) { '0' <= c <= '9' }

  predicate AllDigits(s: string) { forall i :: 0 <= i < |s| ==> IsDigit(s[i]) }

  /**
   * The characters Python's `str.isspace` accepts, i.e. those `str.strip()`
   * removes. All lie outside printable ASCII, so none is a digit, a letter or
   * a punctuation mark of a sentence.
   */
  predicate IsSpace(c: char): (b: bool)
    ensures b ==> c <= ' ' || c >= '\U{85}'
  {
    || ('\t' <= c <= '\r')                // tab, line feed, vertical tab, form feed, carriage return
    || ('\U{1C}' <= c <= '\U{1F}')        // file, group, record and unit separators
    || c == ' ' || c == '\U{85}' || c == '\U{A0}' || c == '\U{1680}'
    || ('\U{2000}' <= c <= '\U{200A}')
    || c == '\U{2028}' || c == '\U{2029}' || c == '\U{202F}' || c == '\U{205F}' || c == '\U{3000}'
  }

  predicate AllSpace(s: string) { forall i :: 0 <= i < |s| ==> IsSpace(s[i]) }

  /** `s.lstrip()`: the suffix left after dropping the leading whitespace. */
  function TrimStart(s: string): (r: string)
    ensures |r| <= |s| && r == s[|s| - |r|..]
    ensures AllSpace(s[..|s| - |r|])
    ensures r == [] || !IsSpace(r[0])
  {
    if |s| > 0 && IsSpace(s[0]) then
      var r := TrimStart(s[1..]);
      DropFirst(s, |s| - |r|);
      r
    else s
  }

  /** `s.rstrip()`: the prefix left after dropping the trailing whitespace. */
  function TrimEnd(s: string): (r: string)
    ensures r <= s
    ensures AllSpace(s[|r|..])
    ensures r == [] || !IsSpace(r[|r| - 1])
  {
    if |s| > 0 && IsSpace(s[|s| - 1]) then
      var r := TrimEnd(s[..|s| - 1]);
      DropLast(s, |r|);
      r
    else s
  }

  lemma DropFirst(s: string, n: nat)
    requires 0 < n <= |s|
    ensures s[1..][n - 1..] == s[n..]
    ensures AllSpace(s[..n]) <== IsSpace(s[0]) && AllSpace(s[1..][..n - 1])
  {
    if IsSpace(s[0]) && AllSpace(s[1..][..n - 1]) {
      forall i | 0 <= i < n ensures IsSpace(s[..n][i]) {
        if i > 0 { assert s[..n][i] == s[1..][..n - 1][i - 1]; }
      }
    }
  }

  lemma DropLast(s: string, n: nat)
    requires 0 < |s| && n < |s|
    ensures s[..|s| - 1][..n] == s[..n]
    ensures AllSpace(s[n..]) <== IsSpace(s[|s| - 1]) && AllSpace(s[..|s| - 1][n..])
  {
    if IsSpace(s[|s| - 1]) && AllSpace(s[..|s| - 1][n..]) {
      forall i | 0 <= i < |s| - n ensures IsSpace(s[n..][i]) {
        if i < |s| - 1 - n { assert s[n..][i] == s[..|s| - 1][n..][i]; }
      }
    }
  }

  /** `s.strip()`: `s` without its leading and its trailing whitespace. */
  function Strip(s: string): (r: string)
    ensures |r| <= |s|
    ensures r == [] || (!IsSpace(r[0]) && !IsSpace(r[|r| - 1]))
  {
    TrimEnd(TrimStart(s))
  }

  /** `r` sits at position `i` of `s`, with only whitespace before and after it. */
  predicate SpaceAround(s: string, r: string, i: nat) {
    i + |r| <= |s| && r == s[i..i + |r|] && AllSpace(s[..i]) && AllSpace(s[i + |r|..])
  }

  /** What `strip` removes is whitespace on either side: the result is an infix of `s`. */
  lemma StripInfix(s: string)
    ensures exists i :: SpaceAround(s, Strip(s), i)
  {
    var t := TrimStart(s);
    var r := TrimEnd(t);
    var i := |s| - |t|;
    PrefixOfSuffix(s, i, r);
    assert r == s[i..i + |r|];
    assert AllSpace(s[..i]);
    assert AllSpace(s[i + |r|..]);
    assert Strip(s) == r && SpaceAround(s, r, i);
  }

  lemma PrefixOfSuffix(s: string, i: nat, r: string)
    requires i <= |s| && r <= s[i..]
    ensures i + |r| <= |s| && r == s[i..i + |r|] && s[i + |r|..] == s[i..][|r|..]
  {
  }

  /** Stripping twice is stripping once. */
  lemma {:induction false} StripIdempotent(s: string)
    ensures Strip(Strip(s)) == Strip(s)
  {
    var r := Strip(s);
    if r != [] {
      assert TrimStart(r) == r;
      assert TrimEnd(r) == r;
    }
  }

  /** `s.startswith(p)`. */
  predicate StartsWith(s: string, p: string): (b: bool)
    ensures b <==> |p| <= |s| && s == p + s[|p|..]
  {
    var b := |p| <= |s| && s[..|p|] == p;
    assert b ==> s == p + s[|p|..];
    assert |p| <= |s| && s == p + s[|p|..] ==> s[..|p|] == p;
    b
  }

  lemma StartsWithLonger(s: string, p: string, q: string)
    requires StartsWith(s, p + q)
    ensures StartsWith(s, p)
  {
    assert s[..|p|] == s[..|p + q|][..|p|] == (p + q)[..|p|] == p;
  }

  /** The index of the first `c` in `s`, or `|s|` when there is none. */
  function IndexOf(s: string, c: char): (k: nat)
    ensures k <= |s|
    ensures k < |s| ==> s[k] == c
    ensures forall i :: 0 <= i < k ==> s[i] != c
  {
    if |s| == 0 then 0 else if s[0] == c then 0 else 1 + IndexOf(s[1..], c)
  }

  lemma IndexOfAt(s: string, c: char, k: nat)
    requires k < |s| && s[k] == c
    requires forall i :: 0 <= i < k ==> s[i] != c
    ensures IndexOf(s, c) == k
  {
  }

  /** The text of `s` up to its first line feed: what a regular-expression `.` can reach. */
  function Line(s: string): (l: string)
    ensures l <= s && '\n' !in l
    ensures |l| < |s| ==> s[|l|] == '\n'
  {
    s[..IndexOf(s, '\n')]
  }

  /** The fields of `s` separated by `sep` (Python's `s.split(sep)`). */
  function Split(s: string, sep: char): (fs: seq<string>)
    ensures |fs| > 0
    decreases |s|
  {
    var k := IndexOf(s, sep);
    if k == |s| then [s] else [s[..k]] + Split(s[k + 1..], sep)
  }

  /** No field holds the separator. */
  lemma {:induction false} SplitFieldsNoSep(s: string, sep: char)
    ensures forall i :: 0 <= i < |Split(s, sep)| ==> sep !in Split(s, sep)[i]
    decreases |s|
  {
    var k := IndexOf(s, sep);
    SplitFirst(s, sep);
    if k < |s| {
      SplitFieldsNoSep(s[k + 1..], sep);
      var fs := Split(s, sep);
      forall i | 0 <= i < |fs| ensures sep !in fs[i] {
        if i == 0 {
          assert forall j :: 0 <= j < k ==> s[..k][j] == s[j];
        } else {
          assert fs[i] == Split(s[k + 1..], sep)[i - 1];
        }
      }
    } else {
      assert forall j :: 0 <= j < |s| ==> s[j] != sep;
    }
  }

  /** The fields `fs` put back together with `sep` between them (Python's `sep.join(fs)`). */
  function Join(fs: seq<string>, sep: char): string
    requires |fs| > 0
  {
    if |fs| == 1 then fs[0] else fs[0] + [sep] + Join(fs[1..], sep)
  }

  /** Splitting a line and joining its fields again gives back the line. */
  lemma {:induction false} JoinSplit(s: string, sep: char)
    ensures Join(Split(s, sep), sep) == s
    decreases |s|
  {
    var k := IndexOf(s, sep);
    if k < |s| {
      JoinSplit(s[k + 1..], sep);
      JoinSplitStep(s, sep, k);
    } else {
      SplitFirst(s, sep);
    }
  }

  lemma JoinSplitStep(s: string, sep: char, k: nat)
    requires k == IndexOf(s, sep) && k < |s|
    requires Join(Split(s[k + 1..], sep), sep) == s[k + 1..]
    ensures Join(Split(s, sep), sep) == s
  {
    SplitFirst(s, sep);
    JoinCons(s[..k], Split(s[k + 1..], sep), sep);
    assert s == s[..k] + [sep] + s[k + 1..];
  }

  /** One step of `Split`: the text before the first separator, then the fields of the rest. */
  lemma SplitFirst(s: string, sep: char)
    ensures var k := IndexOf(s, sep);
      && (k < |s| ==> Split(s, sep) == [s[..k]] + Split(s[k + 1..], sep))
      && (k == |s| ==> Split(s, sep) == [s])
  {
  }

  lemma JoinCons(f: string, fs: seq<string>, sep: char)
    requires |fs| > 0
    ensures Join([f] + fs, sep) == f + [sep] + Join(fs, sep)
  {
    assert ([f] + fs)[1..] == fs;
  }

  /** Joining fields that hold no separator and splitting the result gives back the fields. */
  lemma {:induction false} SplitJoin(fs: seq<string>, sep: char)
    requires |fs| > 0
    requires forall i :: 0 <= i < |fs| ==> sep !in fs[i]
    ensures Split(Join(fs, sep), sep) == fs
  {
    if |fs| > 1 {
      var s := Join(fs, sep);
      var f := fs[0];
      assert s == f + [sep] + Join(fs[1..], sep);
      assert forall i :: 0 <= i < |f| ==> s[i] == f[i] && s[i] != sep;
      IndexOfAt(s, sep, |f|);
      assert s[|f| + 1..] == Join(fs[1..], sep);
      SplitJoin(fs[1..], sep);
      assert s[..|f|] == f;
    } else {
      var f := fs[0];
      assert forall i :: 0 <= i < |f| ==> f[i] != sep;
      assert IndexOf(f, sep) == |f|;
    }
  }

  /**
   * A line begins with `h` followed by `sep` exactly when its first field is `h`
   * and another field follows; the fields after the header are then those of the rest.
   */
  lemma HeaderFields(s: string, h: string, sep: char)
    requires sep !in h
    ensures StartsWith(s, h + [sep]) <==> (|Split(s, sep)| > 1 && Split(s, sep)[0] == h)
    ensures StartsWith(s, h + [sep]) ==> Split(s, sep)[1..] == Split(s[|h| + 1..], sep)
  {
    if StartsWith(s, h + [sep]) {
      HeaderToFields(s, h, sep);
    }
    if |Split(s, sep)| > 1 && Split(s, sep)[0] == h {
      HeaderFromField(s, h, sep);
    }
  }

  lemma HeaderToFields(s: string, h: string, sep: char)
    requires sep !in h && StartsWith(s, h + [sep])
    ensures |Split(s, sep)| > 1 && Split(s, sep)[0] == h && Split(s, sep)[1..] == Split(s[|h| + 1..], sep)
  {
    HeaderEndsAtSep(s, h, sep);
    SplitFirst(s, sep);
    assert s[..|h|] == h;
  }

  lemma HeaderEndsAtSep(s: string, h: string, sep: char)
    requires sep !in h && StartsWith(s, h + [sep])
    ensures IndexOf(s, sep) == |h|
  {
    assert forall i :: 0 <= i < |h| ==> s[i] == (h + [sep])[i] == h[i];
    IndexOfAt(s, sep, |h|);
  }

  lemma HeaderFromField(s: string, h: string, sep: char)
    requires |Split(s, sep)| > 1 && Split(s, sep)[0] == h
    ensures StartsWith(s, h + [sep])
  {
    var k := IndexOf(s, sep);
    SplitFirst(s, sep);
    assert k < |s| && s[..k] == h;
    assert s[..|h| + 1] == h + [sep];
  }

  /** Joining the fields from the `n`-th on and splitting again gives back those fields. */
  lemma SplitSuffixJoin(s: string, sep: char, n: nat)
    requires n < |Split(s, sep)|
    ensures Split(Join(Split(s, sep)[n..], sep), sep) == Split(s, sep)[n..]
  {
    var fs := Split(s, sep)[n..];
    SplitFieldsNoSep(s, sep);
    assert forall i :: 0 <= i < |fs| ==> sep !in fs[i] by {
      forall i | 0 <= i < |fs| ensures sep !in fs[i] {
        assert fs[i] == Split(s, sep)[n + i];
      }
    }
    SplitJoin(fs, sep);
  }

  /** The fields after a header are the fields of the text after it. */
  lemma HeaderRest(s: string, h: string, sep: char)
    requires sep !in h && StartsWith(s, h + [sep])
    ensures Split(s, sep)[0] == h && Split(s, sep)[1..] == Split(s[|h| + 1..], sep)
  {
    HeaderFields(s, h, sep);
  }
}
