/** Character classes and the string operations the downloaders rely on. */
module Text {

  /** `\d`, read as the ASCII digits. */
  predicate IsDigit(c: char) { '0' <= c <= '9' }

  /** `\s`, read as the ASCII whitespace characters. */
  predicate IsSpace(c: char) {
    c == ' ' || c == '\t' || c == '\n' || c == '\r' || c == '\U{0B}' || c == '\U{0C}'
  }

  predicate AllDigits(s: string) { forall i :: 0 <= i < |s| ==> IsDigit(s[i]) }

  predicate AllSpace(s: string) { forall i :: 0 <= i < |s| ==> IsSpace(s[i]) }

  function DigitChar(d: nat): (c: char)
    requires d < 10
    ensures IsDigit(c)
  {
    (48 + d) as char
  }

  function DigitValue(c: char): nat
    requires IsDigit(c)
  {
    c as nat - 48
  }

  /** Decimal rendering of a counter or a chapter number, as `str(n)` and `String(n)` give it. */
  function NatToString(n: nat): (s: string)
    ensures |s| > 0 && AllDigits(s)
    ensures |s| > 1 ==> s[0] != '0'
    decreases n
  {
    if n < 10 then [DigitChar(n)] else NatToString(n / 10) + [DigitChar(n % 10)]
  }

  function ParseNat(s: string): nat
    requires AllDigits(s)
  {
    if s == [] then 0 else 10 * ParseNat(s[..|s| - 1]) + DigitValue(s[|s| - 1])
  }

  /** Reading the decimal rendering back gives the number: distinct counters print distinctly. */
  lemma {:induction false} ParseNatToString(n: nat)
    ensures ParseNat(NatToString(n)) == n
    decreases n
  {
    if n >= 10 {
      var s := NatToString(n);
      assert s[..|s| - 1] == NatToString(n / 10);
      ParseNatToString(n / 10);
    }
  }

  /** Concatenation regroups. */
  lemma AppendAssoc<T>(a: seq<T>, b: seq<T>, c: seq<T>)
    ensures a + (b + c) == (a + b) + c
  {
  }

  /** Number of occurrences of `c` in `s`. */
  function Occurrences(s: string, c: char): nat
  {
    if s == [] then 0 else (if s[0] == c then 1 else 0) + Occurrences(s[1..], c)
  }

  /** `len(s.split(c))` in Python and `s.split(c).length` in JavaScript. */
  function SplitParts(s: string, c: char): nat
  {
    Occurrences(s, c) + 1
  }

  /** Python's `s.replace(pat, rep)`: every non-overlapping occurrence, left to right. */
  function ReplaceAll(s: string, pat: string, rep: string): (r: string)
    requires |pat| > 0
    ensures |pat| == |rep| ==> |r| == |s|
    decreases |s|
  {
    if s == [] then []
    else if pat <= s then rep + ReplaceAll(s[|pat|..], pat, rep)
    else [s[0]] + ReplaceAll(s[1..], pat, rep)
  }

  /** With no occurrence of the pattern, `replace` changes nothing. */
  lemma {:induction false} ReplaceAllAbsent(s: string, pat: string, rep: string)
    requires |pat| > 0
    requires forall i :: 0 <= i < |s| ==> !(pat <= s[i..])
    ensures ReplaceAll(s, pat, rep) == s
    decreases |s|
  {
    if s != [] {
      assert !(pat <= s[0..]);
      forall i | 0 <= i < |s[1..]| ensures !(pat <= s[1..][i..]) {
        assert s[1..][i..] == s[i + 1..];
      }
      ReplaceAllAbsent(s[1..], pat, rep);
    }
  }

  /** Up to the first occurrence of the pattern the text is copied; the occurrence is replaced. */
  lemma {:induction false} ReplaceAllAfter(p: string, pat: string, rep: string, q: string)
    requires |pat| > 0
    requires forall i :: 0 <= i < |p| ==> !(pat <= (p + pat + q)[i..])
    ensures ReplaceAll(p + pat + q, pat, rep) == p + rep + ReplaceAll(q, pat, rep)
    decreases |p|
  {
    if p == [] {
      ReplaceAllAtPattern(pat, rep, q);
      assert p + pat + q == pat + q;
    } else {
      var s := p + pat + q;
      assert s[0..] == s;
      assert s[1..] == p[1..] + pat + q;
      forall i | 0 <= i < |p[1..]| ensures !(pat <= (p[1..] + pat + q)[i..]) {
        assert (p[1..] + pat + q)[i..] == s[i + 1..];
      }
      ReplaceAllAfter(p[1..], pat, rep, q);
      assert p == [p[0]] + p[1..];
      AppendAssoc([p[0]], p[1..] + rep, ReplaceAll(q, pat, rep));
      AppendAssoc([p[0]], p[1..], rep);
    }
  }

  lemma ReplaceAllAtPattern(pat: string, rep: string, q: string)
    requires |pat| > 0
    ensures ReplaceAll(pat + q, pat, rep) == rep + ReplaceAll(q, pat, rep)
  {
    assert (pat + q)[..|pat|] == pat;
    assert (pat + q)[|pat|..] == q;
  }

  /** Index of the first `c` in `s`, or `|s|` when there is none. */
  function IndexOf(s: string, c: char): (k: nat)
    ensures k <= |s| && c !in s[..k]
    ensures forall j :: 0 <= j < k ==> s[j] != c
    ensures k < |s| ==> s[k] == c
    ensures k == |s| ==> c !in s
  {
    if s == [] then 0
    else if s[0] == c then 0
    else
      var k := 1 + IndexOf(s[1..], c);
      assert s[..k] == [s[0]] + s[1..][..k - 1];
      k
  }

  /** JavaScript's `s.replace(c, d)` with a one-character string pattern: the first occurrence only. */
  function ReplaceFirst(s: string, c: char, d: char): (r: string)
    ensures |r| == |s|
    ensures c !in s ==> r == s
    ensures c in s ==> exists k :: 0 <= k < |s| && s[k] == c && c !in s[..k] && r == s[..k] + [d] + s[k + 1..]
  {
    var k := IndexOf(s, c);
    if k < |s| then s[..k] + [d] + s[k + 1..] else s
  }

  /** An occurrence after the first one survives the replacement. */
  lemma ReplaceFirstKeepsLater(s: string, c: char, d: char, i: nat, j: nat)
    requires i < j < |s| && s[i] == c && s[j] == c
    ensures ReplaceFirst(s, c, d)[j] == c
  {
    var k := IndexOf(s, c);
    assert k <= i;
    var r := s[..k] + [d] + s[k + 1..];
    assert ReplaceFirst(s, c, d) == r;
    assert r[j] == s[k + 1..][j - k - 1];
  }
}
