/** Character classes and the string operations the parsers borrow from the
    host language: `str.strip()`, `str.split('\n')`, decimal rendering of a
    question number and `str.replace(pattern, '')`. */
module Strings {

  /** Whitespace as `str.isspace()` and the regular-expression class `\s`
      see it. */
  predicate IsSpace(c: char) {
    c == ' ' || ('\U{9}' <= c <= '\U{D}') || ('\U{1C}' <= c <= '\U{1F}')
    || c == '\U{85}' || c == '\U{A0}' || c == '\U{1680}'
    || ('\U{2000}' <= c <= '\U{200A}') || c == '\U{2028}' || c == '\U{2029}'
    || c == '\U{202F}' || c == '\U{205F}' || c == '\U{3000}'
  }

  /** Decimal digits as `\d` sees them: ASCII and full-width forms. */
  predicate IsDigit(c: char) {
    ('0' <= c <= '9') || ('\U{FF10}' <= c <= '\U{FF19}')
  }

  predicate AllSpace(s: string) {
    forall i :: 0 <= i < |s| ==> IsSpace(s[i])
  }

  /** Greedy `\s*` from `i`: the first index at or after `i` that holds no
      whitespace. The run it passes over is described by `SkipSpacesRun`. */
  function SkipSpaces(s: string, i: nat): (j: nat)
    requires i <= |s|
    ensures i <= j <= |s|
    ensures j == |s| || !IsSpace(s[j])
    decreases |s| - i
  {
    if i < |s| && IsSpace(s[i]) then SkipSpaces(s, i + 1) else i
  }

  /** Everything a greedy scan passes over is whitespace. */
  lemma SkipSpacesRun(s: string, i: nat)
    requires i <= |s|
    ensures forall k :: i <= k < SkipSpaces(s, i) ==> IsSpace(s[k])
    decreases |s| - i
  {
    if i < |s| && IsSpace(s[i]) { SkipSpacesRun(s, i + 1); }
  }

  /** A greedy scan stops exactly at the end of the run it was given. */
  lemma SkipSpacesExact(s: string, i: nat, j: nat)
    requires i <= j <= |s|
    requires forall k :: i <= k < j ==> IsSpace(s[k])
    requires j == |s| || !IsSpace(s[j])
    ensures SkipSpaces(s, i) == j
    decreases j - i
  {
    if i < j { SkipSpacesExact(s, i + 1, j); }
  }

  /** The start of the whitespace run that ends at `j`. */
  function SpaceRunStart(s: string, j: nat): (i: nat)
    requires j <= |s|
    ensures i <= j
    ensures i == 0 || !IsSpace(s[i - 1])
  {
    if j > 0 && IsSpace(s[j - 1]) then SpaceRunStart(s, j - 1) else j
  }

  /** Everything a backward scan passes over is whitespace. */
  lemma SpaceRunStartRun(s: string, j: nat)
    requires j <= |s|
    ensures forall k :: SpaceRunStart(s, j) <= k < j ==> IsSpace(s[k])
  {
    if j > 0 && IsSpace(s[j - 1]) { SpaceRunStartRun(s, j - 1); }
  }

  /** A backward scan stops exactly at the start of the run it was given. */
  lemma SpaceRunStartExact(s: string, i: nat, j: nat)
    requires i <= j <= |s|
    requires forall k :: i <= k < j ==> IsSpace(s[k])
    requires i == 0 || !IsSpace(s[i - 1])
    ensures SpaceRunStart(s, j) == i
  {
    if i < j { SpaceRunStartExact(s, i, j - 1); }
  }

  /** `s.strip()`: the text between the leading and the trailing whitespace
      runs. */
  function Strip(s: string): (r: string)
    ensures |r| <= |s|
    ensures r == [] || (!IsSpace(r[0]) && !IsSpace(r[|r| - 1]))
    ensures r == [] <==> AllSpace(s)
  {
    var a := SkipSpaces(s, 0);
    SkipSpacesRun(s, 0);
    if a == |s| then []
    else
      var b := SpaceRunStart(s, |s|);
      SpaceRunStartRun(s, |s|);
      assert !IsSpace(s[a]);
      s[a..b]
  }

  /** Text with no whitespace at its edges, surrounded by whitespace, is
      what `strip` returns. */
  lemma StripUnique(lead: string, r: string, trail: string)
    requires AllSpace(lead) && AllSpace(trail)
    requires r == [] || (!IsSpace(r[0]) && !IsSpace(r[|r| - 1]))
    ensures Strip(lead + r + trail) == r
  {
    var s := lead + r + trail;
    if r == [] {
      assert AllSpace(s) by {
        forall k | 0 <= k < |s| ensures IsSpace(s[k]) {
          if k < |lead| { assert s[k] == lead[k]; } else { assert s[k] == trail[k - |lead|]; }
        }
      }
    } else {
      var a, b := |lead|, |lead| + |r|;
      assert s[a] == r[0] && s[b - 1] == r[|r| - 1];
      forall k | 0 <= k < a ensures IsSpace(s[k]) { assert s[k] == lead[k]; }
      forall k | b <= k < |s| ensures IsSpace(s[k]) { assert s[k] == trail[k - b]; }
      SkipSpacesExact(s, 0, a);
      SpaceRunStartExact(s, b, |s|);
      assert s[a..b] == r;
    }
  }

  /** `strip` is idempotent. */
  lemma StripIdempotent(s: string)
    ensures Strip(Strip(s)) == Strip(s)
  {
    assert Strip(s) == [] + Strip(s) + [];
    StripUnique([], Strip(s), []);
  }

  /** `s.split('\n')`, character by character: a newline closes the current
      piece and opens an empty one, any other character extends the last
      piece. */
  function SplitLines(s: string): (r: seq<string>)
    ensures |r| >= 1
    ensures forall k :: 0 <= k < |r| ==> '\n' !in r[k]
  {
    if s == [] then [""]
    else
      var parts := SplitLines(s[..|s| - 1]);
      var c := s[|s| - 1];
      if c == '\n' then parts + [""]
      else parts[..|parts| - 1] + [parts[|parts| - 1] + [c]]
  }

  /** Every piece of whitespace-only text is whitespace only. */
  lemma {:induction false} SplitLinesOfBlank(s: string)
    requires AllSpace(s)
    ensures forall k :: 0 <= k < |SplitLines(s)| ==> AllSpace(SplitLines(s)[k])
  {
    if s != [] {
      var init, c := s[..|s| - 1], s[|s| - 1];
      assert AllSpace(init) by { forall i | 0 <= i < |init| ensures IsSpace(init[i]) { assert init[i] == s[i]; } }
      SplitLinesOfBlank(init);
      var parts := SplitLines(init);
      if c == '\n' {
        BlankSnocPiece(parts, "");
      } else {
        BlankExtendLast(parts, c);
      }
    }
  }

  lemma BlankSnocPiece(parts: seq<string>, p: string)
    requires forall k :: 0 <= k < |parts| ==> AllSpace(parts[k])
    requires AllSpace(p)
    ensures forall k :: 0 <= k < |parts + [p]| ==> AllSpace((parts + [p])[k])
  {
  }

  lemma BlankExtendLast(parts: seq<string>, c: char)
    requires parts != [] && IsSpace(c)
    requires forall k :: 0 <= k < |parts| ==> AllSpace(parts[k])
    ensures var r := parts[..|parts| - 1] + [parts[|parts| - 1] + [c]];
            forall k :: 0 <= k < |r| ==> AllSpace(r[k])
  {
    var last := parts[|parts| - 1];
    assert AllSpace(last + [c]) by {
      forall i | 0 <= i < |last| + 1 ensures IsSpace((last + [c])[i]) {
        if i < |last| { assert (last + [c])[i] == last[i]; }
      }
    }
    BlankSnocPiece(parts[..|parts| - 1], last + [c]);
  }

  /** The pieces joined back into one text with a newline between each
      two of them. */
  function JoinLines(parts: seq<string>): string
  {
    if parts == [] then ""
    else if |parts| == 1 then parts[0]
    else JoinLines(parts[..|parts| - 1]) + "\n" + parts[|parts| - 1]
  }

  /** Joining the pieces with newlines gives back the text that was split. */
  lemma {:induction false} JoinSplitLines(s: string)
    ensures JoinLines(SplitLines(s)) == s
  {
    if s != [] {
      var init := s[..|s| - 1];
      var c := s[|s| - 1];
      JoinSplitLines(init);
      assert s == init + [c];
      if c == '\n' {
        JoinLinesSnoc(SplitLines(init), "");
      } else {
        JoinLinesExtendLast(SplitLines(init), c);
      }
    }
  }

  /** One more piece is joined after one more newline. */
  lemma JoinLinesSnoc(parts: seq<string>, p: string)
    requires parts != []
    ensures JoinLines(parts + [p]) == JoinLines(parts) + "\n" + p
  {
    assert (parts + [p])[..|parts|] == parts;
  }

  /** A character added to the last piece ends the joined text. */
  lemma JoinLinesExtendLast(parts: seq<string>, c: char)
    requires parts != []
    ensures JoinLines(parts[..|parts| - 1] + [parts[|parts| - 1] + [c]]) == JoinLines(parts) + [c]
  {
    var init, last := parts[..|parts| - 1], parts[|parts| - 1];
    if init != [] {
      LastSplit(parts);
      JoinLinesSnoc(init, last);
      JoinLinesSnoc(init, last + [c]);
      AppendAssoc(JoinLines(init) + "\n", last, [c]);
    }
  }

  lemma LastSplit<T>(xs: seq<T>)
    requires xs != []
    ensures xs == xs[..|xs| - 1] + [xs[|xs| - 1]]
  {
  }

  lemma AppendAssoc<T>(a: seq<T>, b: seq<T>, c: seq<T>)
    ensures a + (b + c) == (a + b) + c
  {
  }

  /** The character of a decimal digit `d`. */
  function DigitChar(d: nat): (c: char)
    requires d < 10
    ensures '0' <= c <= '9'
  {
    "0123456789"[d]
  }

  /** The value of an ASCII decimal numeral. */
  function DecimalValue(s: string): nat
  {
    if s == [] then 0
    else
      var c := s[|s| - 1];
      10 * DecimalValue(s[..|s| - 1]) + (if '0' <= c <= '9' then (c as int - '0' as int) else 0)
  }

  /** `str(n)`: the decimal numeral of `n`, without leading zeros. */
  function NatToString(n: nat): string
  {
    if n < 10 then [DigitChar(n)]
    else NatToString(n / 10) + [DigitChar(n % 10)]
  }

  /** The numeral is a non-empty run of ASCII digits, with a leading zero
      only for zero itself. */
  lemma {:induction false} NatToStringDigits(n: nat)
    ensures var r := NatToString(n);
            r != [] && (forall i :: 0 <= i < |r| ==> '0' <= r[i] <= '9') && (r[0] == '0' ==> n == 0 && r == "0")
  {
    if n >= 10 {
      NatToStringDigits(n / 10);
    }
  }

  /** Reading the numeral back gives the number. */
  lemma {:induction false} DecimalRoundTrip(n: nat)
    ensures DecimalValue(NatToString(n)) == n
  {
    var r := NatToString(n);
    if n < 10 {
      assert r[..0] == [];
      assert DigitChar(n) as int - '0' as int == n;
    } else {
      DecimalRoundTrip(n / 10);
      assert r[..|r| - 1] == NatToString(n / 10);
      assert DigitChar(n % 10) as int - '0' as int == n % 10;
    }
  }

  /** Distinct numbers render to distinct numerals. */
  lemma NatToStringInjective(a: nat, b: nat)
    requires NatToString(a) == NatToString(b)
    ensures a == b
  {
    DecimalRoundTrip(a);
    DecimalRoundTrip(b);
  }

  /** `f"{n}."`, the label the primary grammar synthesises. */
  function Label(n: nat): string
  {
    NatToString(n) + "."
  }

  /** A label is a run of digits followed by one period. */
  lemma LabelShape(n: nat)
    ensures var r := Label(n);
            |r| >= 2 && r[|r| - 1] == '.' && forall i :: 0 <= i < |r| - 1 ==> '0' <= r[i] <= '9'
  {
    NatToStringDigits(n);
  }

  /** Labels of distinct question numbers are distinct. */
  lemma LabelInjective(a: nat, b: nat)
    requires Label(a) == Label(b)
    ensures a == b
  {
    assert NatToString(a) == Label(a)[..|Label(a)| - 1];
    assert NatToString(b) == Label(b)[..|Label(b)| - 1];
    NatToStringInjective(a, b);
  }

  /** `s.replace(p, '')`: occurrences of `p` are removed left to right,
      without overlap. */
  function RemoveAll(s: string, p: string): (r: string)
    requires p != []
    ensures |r| <= |s|
    ensures multiset(r) <= multiset(s)
    ensures (forall i :: 0 <= i < |s| ==> s[i] != p[0]) ==> r == s
    decreases |s|
  {
    if |s| < |p| then s
    else if s[..|p|] == p then
      assert s == s[..|p|] + s[|p|..];
      RemoveAll(s[|p|..], p)
    else
      assert s == [s[0]] + s[1..];
      [s[0]] + RemoveAll(s[1..], p)
  }

  /** A leading occurrence of the pattern is removed, and removal goes on
      after it. */
  lemma RemoveAllLeading(p: string, x: string)
    requires p != []
    ensures RemoveAll(p + x, p) == RemoveAll(x, p)
  {
    assert (p + x)[..|p|] == p;
    assert (p + x)[|p|..] == x;
  }

  /** Whether `p` occurs in `s` starting at index `i`. */
  predicate OccursAt(s: string, i: nat, p: string) {
    i + |p| <= |s| && s[i..i + |p|] == p
  }

  /** Text in which the pattern occurs nowhere is left as it is. */
  lemma {:induction false} RemoveAllAbsent(s: string, p: string)
    requires p != []
    requires forall i :: 0 <= i <= |s| ==> !OccursAt(s, i, p)
    ensures RemoveAll(s, p) == s
    decreases |s|
  {
    if |s| >= |p| {
      assert !OccursAt(s, 0, p);
      var t := s[1..];
      forall i | 0 <= i <= |t| ensures !OccursAt(t, i, p) {
        if OccursAt(t, i, p) {
          assert t[i..i + |p|] == s[i + 1..i + 1 + |p|];
          assert OccursAt(s, i + 1, p);
        }
      }
      RemoveAllAbsent(t, p);
      assert [s[0]] + t == s;
    }
  }

  /** The first occurrence of the pattern is removed, the text before it is
      kept, and removal goes on after it: no occurrence starts inside `u`,
      so `u + p + w` becomes `u` followed by `w` with the pattern removed. */
  lemma {:induction false} RemoveAllFirst(u: string, p: string, w: string)
    requires p != []
    requires forall i :: 0 <= i < |u| ==> !OccursAt(u + p, i, p)
    ensures RemoveAll(u + p + w, p) == u + RemoveAll(w, p)
    decreases |u|
  {
    if u == [] {
      assert u + p + w == p + w;
      RemoveAllLeading(p, w);
    } else {
      var t := u[1..] + p + w;
      NoOccurrenceInTail(u, p);
      RemoveAllFirst(u[1..], p, w);
      SplitHead(u, p, w);
      KeepFirst(u[0], t, p);
      SplitHead(u, RemoveAll(w, p), []);
    }
  }

  /** `u + x + y` is the first character of `u` followed by the rest. */
  lemma SplitHead(u: string, x: string, y: string)
    requires u != []
    ensures u + x + y == [u[0]] + (u[1..] + x + y)
    ensures u + x == [u[0]] + (u[1..] + x)
    ensures (u + x + y)[..|x|] == (u + x)[..|x|]
  {
    assert u == [u[0]] + u[1..];
  }

  /** A character that starts no occurrence is kept in front of the rest. */
  lemma KeepFirst(c: char, t: string, p: string)
    requires p != []
    requires |t| + 1 < |p| || ([c] + t)[..|p|] != p
    ensures RemoveAll([c] + t, p) == [c] + RemoveAll(t, p)
  {
    assert ([c] + t)[1..] == t;
  }

  /** Dropping the first character keeps a text free of occurrences. */
  lemma NoOccurrenceInTail(u: string, p: string)
    requires u != []
    requires forall i :: 0 <= i < |u| ==> !OccursAt(u + p, i, p)
    ensures (u + p)[..|p|] != p
    ensures forall i :: 0 <= i < |u| - 1 ==> !OccursAt(u[1..] + p, i, p)
  {
    assert !OccursAt(u + p, 0, p);
    assert (u + p)[0..|p|] == (u + p)[..|p|];
    var u' := u[1..];
    forall i | 0 <= i < |u'| ensures !OccursAt(u' + p, i, p) {
      assert (u' + p)[i..i + |p|] == (u + p)[i + 1..i + 1 + |p|];
      assert !OccursAt(u + p, i + 1, p);
    }
  }
}
