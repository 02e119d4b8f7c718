/**
 * The cue-timing pass of the converters: the text is cut into the leftmost,
 * non-overlapping matches of the cue pattern and the characters between them,
 * every match is rewritten into a SubRip timing line and numbered from 1 in
 * document order, and everything else is copied.
 */
module SubRip {
  import opened Basics
  import opened Text
  import opened WebVtt

  // ------------------------------------------------------------------
  // Rewriting one timing line

  /** `if len(p.split(":")) == 2: p = "00:" + p`: a timestamp with one colon gets a zero hour. */
  function PadHour(p: string): string
  {
    if SplitParts(p, ':') == 2 then "00:" + p else p
  }

  /** The same padding described by the shape of the timestamp: `MM:SS` becomes `00:MM:SS`. */
  function WithHours(p: string): string
  {
    if |p| == 5 then "00:" + p else p
  }

  lemma OccurrencesStep(s: string, c: char, i: nat)
    requires i < |s|
    ensures Occurrences(s[i..], c) == (if s[i] == c then 1 else 0) + Occurrences(s[i + 1..], c)
  {
    assert s[i..][1..] == s[i + 1..];
  }

  /** A `MM:SS` timestamp has one colon and a `HH:MM:SS` one has two. */
  lemma ClockColons(p: string)
    requires IsClock(p)
    ensures Occurrences(p, ':') == if |p| == 8 then 2 else 1
  {
    var n := |p|;
    OccurrencesStep(p, ':', 0);
    OccurrencesStep(p, ':', 1);
    OccurrencesStep(p, ':', 2);
    OccurrencesStep(p, ':', 3);
    OccurrencesStep(p, ':', 4);
    if n == 8 {
      OccurrencesStep(p, ':', 5);
      OccurrencesStep(p, ':', 6);
      OccurrencesStep(p, ':', 7);
    }
    assert p[n..] == [];
    assert p[0..] == p;
  }

  /** The padding the source computes from the colon count is the padding by shape, to `HH:MM:SS`. */
  lemma PadHourOfClock(p: string)
    requires IsClock(p)
    ensures PadHour(p) == WithHours(p)
    ensures |PadHour(p)| == 8 && ClockAt(PadHour(p), 0, true)
    ensures |p| == 8 ==> PadHour(p) == p
    ensures |p| == 5 ==> PadHour(p) == "00:" + p
  {
    ClockColons(p);
  }

  /** `replaceTimeCodes` and the replacer of downloader.py: `p1,p3 --> p4,p6` with the hours padded. */
  function ReplaceTimeCodes(m: CueMatch): string
  {
    PadHour(m.start) + "," + m.startMs + " --> " + PadHour(m.end) + "," + m.endMs
  }

  /**
   * The rewritten timing line of a match: both timestamps as `HH:MM:SS`, a
   * comma for each separator, the milliseconds with the whitespace they
   * carried (so the space before the arrow is doubled) and exactly one space
   * after the arrow.
   */
  lemma ReplaceTimeCodesOfMatch(sep: Separator, m: CueMatch)
    requires WellFormed(sep, m)
    ensures ReplaceTimeCodes(m)
      == WithHours(m.start) + "," + m.startMs + " --> " + WithHours(m.end) + "," + m.endMs
    ensures |WithHours(m.start)| == 8 && |WithHours(m.end)| == 8
  {
    PadHourOfClock(m.start);
    PadHourOfClock(m.end);
  }

  // ------------------------------------------------------------------
  // Cutting the text into matches and the characters between them

  datatype Token = Verbatim(c: char) | Cue(m: CueMatch)

  /**
   * The leftmost, non-overlapping matches: at each position the pattern is
   * tried; on a match the scan resumes after it, otherwise one character is
   * copied and the scan moves on by one.
   */
  function Tokens(sep: Separator, t: string): seq<Token>
    decreases |t|
  {
    if t == [] then []
    else match MatchCue(sep, t)
      case Some(m) => [Cue(m)] + Tokens(sep, t[|Source(m)|..])
      case None => [Verbatim(t[0])] + Tokens(sep, t[1..])
  }

  /** The text the tokens were cut from. */
  function Original(ts: seq<Token>): string
  {
    if ts == [] then []
    else (match ts[0] case Verbatim(c) => [c] case Cue(m) => Source(m)) + Original(ts[1..])
  }

  function CountCues(ts: seq<Token>): nat
  {
    if ts == [] then 0 else (if ts[0].Cue? then 1 else 0) + CountCues(ts[1..])
  }

  /** Cutting loses nothing and adds nothing. */
  lemma {:induction false} TokensCover(sep: Separator, t: string)
    ensures Original(Tokens(sep, t)) == t
    decreases |t|
  {
    if t != [] {
      var n := FirstLength(sep, t);
      FirstOriginal(sep, t);
      TokensCover(sep, t[n..]);
      CoverJoin(Tokens(sep, t)[0], Tokens(sep, t[n..]), t, n);
    }
  }

  /** The first token is cut from the front of the text. */
  lemma FirstOriginal(sep: Separator, t: string)
    requires t != []
    ensures Original([Tokens(sep, t)[0]]) == t[..FirstLength(sep, t)]
  {
    var x := Tokens(sep, t)[0];
    assert [x][1..] == [];
    if MatchCue(sep, t).None? {
      assert t[..1] == [t[0]];
    }
  }

  lemma CoverJoin(x: Token, rest: seq<Token>, t: string, n: nat)
    requires n <= |t| && Original([x]) == t[..n] && Original(rest) == t[n..]
    ensures Original([x] + rest) == t
  {
    OriginalAppend([x], rest);
    assert t == t[..n] + t[n..];
  }

  // ------------------------------------------------------------------
  // Rendering

  /** `f"{k}{separator}..."`: the number of the match, a newline and the rewritten timing line. */
  function Numbered(k: nat, m: CueMatch): string
  {
    NatToString(k) + "\n" + ReplaceTimeCodes(m)
  }

  /** Copies the characters between matches and numbers the matches from k on. */
  function Render(ts: seq<Token>, k: nat): string
  {
    if ts == [] then []
    else match ts[0]
      case Verbatim(c) => [c] + Render(ts[1..], k)
      case Cue(m) => Numbered(k, m) + Render(ts[1..], k + 1)
  }

  /** The libraries' inner substitution: matches rewritten, not numbered. */
  function RenderPlain(ts: seq<Token>): string
  {
    if ts == [] then []
    else match ts[0]
      case Verbatim(c) => [c] + RenderPlain(ts[1..])
      case Cue(m) => ReplaceTimeCodes(m) + RenderPlain(ts[1..])
  }

  /** The cue-timing pass of all three converters, numbering from 1. */
  function Convert(sep: Separator, t: string): string
  {
    Render(Tokens(sep, t), 1)
  }

  /** `re.sub(itemMatcher, self.replaceTimeCodes, text)` and the inner `replace` of lib/index.js. */
  function SubTimeCodes(sep: Separator, t: string): string
  {
    RenderPlain(Tokens(sep, t))
  }

  /** Rendering a concatenation: the second part is numbered on from where the first stopped. */
  lemma {:induction false} RenderAppend(p: seq<Token>, q: seq<Token>, k: nat)
    ensures Render(p + q, k) == Render(p, k) + Render(q, k + CountCues(p))
    ensures CountCues(p + q) == CountCues(p) + CountCues(q)
  {
    if p == [] {
      assert p + q == q;
    } else {
      var k' := k + (if p[0].Cue? then 1 else 0);
      assert p + q == [p[0]] + (p[1..] + q);
      RenderCons(p + q, p[1..] + q, k);
      RenderCons(p, p[1..], k);
      RenderAppend(p[1..], q, k');
      var later := Render(q, k' + CountCues(p[1..]));
      match p[0]
      case Cue(m) => AppendAssoc(Numbered(k, m), Render(p[1..], k'), later);
      case Verbatim(c) => AppendAssoc([c], Render(p[1..], k'), later);
    }
  }

  /**
   * The i-th token, when it is a match, is rendered with the number k plus
   * the count of matches before it; what precedes and follows it is rendered
   * on its own.
   */
  lemma RenderNumbering(ts: seq<Token>, i: nat, k: nat)
    requires i < |ts| && ts[i].Cue?
    ensures var n := k + CountCues(ts[..i]);
      Render(ts, k) == Render(ts[..i], k) + Numbered(n, ts[i].m) + Render(ts[i + 1..], n + 1)
  {
    var pre, x := ts[..i], [ts[i]] + ts[i + 1..];
    var n := k + CountCues(pre);
    assert ts == pre + x;
    RenderAppend(pre, x, k);
    RenderCons(x, ts[i + 1..], n);
    AppendAssoc(Render(pre, k), Numbered(n, ts[i].m), Render(ts[i + 1..], n + 1));
  }

  /** Without matches, rendering gives back the text. */
  lemma {:induction false} RenderVerbatim(ts: seq<Token>, k: nat)
    requires CountCues(ts) == 0
    ensures Render(ts, k) == Original(ts)
  {
    if ts != [] {
      RenderVerbatim(ts[1..], k);
    }
  }

  lemma {:induction false} OriginalAppend(p: seq<Token>, q: seq<Token>)
    ensures Original(p + q) == Original(p) + Original(q)
  {
    if p == [] {
      assert p + q == q;
    } else {
      assert (p + q)[1..] == p[1..] + q;
      OriginalAppend(p[1..], q);
    }
  }

  /** Where the i-th token starts in the text. */
  function Offset(ts: seq<Token>, i: nat): nat
    requires i <= |ts|
  {
    |Original(ts[..i])|
  }

  /**
   * The i-th token is what the scan found at its offset: the match of the
   * pattern there, or a character where the pattern does not match.
   */
  predicate FoundAt(sep: Separator, t: string, ts: seq<Token>, i: nat)
    requires i < |ts|
  {
    var o := Offset(ts, i);
    o < |t| &&
    match ts[i]
    case Cue(m) => MatchCue(sep, t[o..]) == Some(m)
    case Verbatim(c) => MatchCue(sep, t[o..]).None? && t[o] == c
  }

  /** Every token is the leftmost match (or the unmatched character) at the place where the previous one ended. */
  lemma {:induction false} TokensLeftmost(sep: Separator, t: string, i: nat)
    requires i < |Tokens(sep, t)|
    ensures FoundAt(sep, t, Tokens(sep, t), i)
    decreases |t|
  {
    var ts := Tokens(sep, t);
    var n := FirstLength(sep, t);
    if i == 0 {
      FirstToken(sep, t);
    } else {
      var tail := Tokens(sep, t[n..]);
      TokensLeftmost(sep, t[n..], i - 1);
      OffsetStep(t, ts[0], tail, n, i);
      LaterToken(sep, t, n, ts, tail, i);
    }
  }

  /** How much of t the first token covers. */
  function FirstLength(sep: Separator, t: string): (n: nat)
    requires t != []
    ensures 0 < n <= |t|
    ensures Tokens(sep, t) == [Tokens(sep, t)[0]] + Tokens(sep, t[n..])
    ensures |Original([Tokens(sep, t)[0]])| == n
    ensures MatchCue(sep, t).Some? ==> Tokens(sep, t)[0] == Cue(MatchCue(sep, t).value) && n == |Source(MatchCue(sep, t).value)|
    ensures MatchCue(sep, t).None? ==> Tokens(sep, t)[0] == Verbatim(t[0]) && n == 1
  {
    var n := if MatchCue(sep, t).Some? then |Source(MatchCue(sep, t).value)| else 1;
    assert Original([Tokens(sep, t)[0]]) == Original([Tokens(sep, t)[0]][..1]) + Original([]);
    n
  }

  lemma FirstToken(sep: Separator, t: string)
    requires |Tokens(sep, t)| > 0
    ensures FoundAt(sep, t, Tokens(sep, t), 0)
  {
    assert Tokens(sep, t)[..0] == [];
    assert t[0..] == t;
  }

  lemma LaterToken(sep: Separator, t: string, n: nat, ts: seq<Token>, tail: seq<Token>, i: nat)
    requires 0 < i <= |tail| && n <= |t| && |ts| > 0 && ts == [ts[0]] + tail && |Original([ts[0]])| == n
    requires FoundAt(sep, t[n..], tail, i - 1)
    requires Offset(ts, i) == n + Offset(tail, i - 1)
    requires t[Offset(ts, i)..] == t[n..][Offset(tail, i - 1)..]
    ensures FoundAt(sep, t, ts, i)
  {
    var o := Offset(tail, i - 1);
    assert ts[i] == tail[i - 1];
    assert t[n + o] == t[n..][o];
  }

  /** The offset of a later token is the length of the first one plus its offset in the rest. */
  lemma OffsetStep(t: string, x: Token, tail: seq<Token>, n: nat, i: nat)
    requires 0 < i <= |tail| && |Original([x])| == n <= |t|
    ensures Offset([x] + tail, i) == n + Offset(tail, i - 1)
    ensures Offset(tail, i - 1) <= |t| - n ==> t[Offset([x] + tail, i)..] == t[n..][Offset(tail, i - 1)..]
  {
    assert ([x] + tail)[..i] == [x] + tail[..i - 1];
    OriginalAppend([x], tail[..i - 1]);
  }

  /** Text without any match comes out unchanged: the pass renumbers nothing and rewrites nothing. */
  lemma {:induction false} ConvertWithoutCues(sep: Separator, t: string, k: nat)
    requires forall i :: 0 <= i < |t| ==> MatchCue(sep, t[i..]).None?
    ensures Render(Tokens(sep, t), k) == t
    decreases |t|
  {
    if t != [] {
      assert t[0..] == t;
      forall i | 0 <= i < |t[1..]| ensures MatchCue(sep, t[1..][i..]).None? {
        assert t[1..][i..] == t[i + 1..];
      }
      ConvertWithoutCues(sep, t[1..], k);
      assert t == [t[0]] + t[1..];
    }
  }

  /** With the escaped separator every match holds a `.`. */
  lemma MatchCueHasDot(t: string)
    requires MatchCue(LiteralDot, t).Some?
    ensures '.' in t
  {
    var m := MatchCue(LiteralDot, t).value;
    assert Source(m)[|m.start|] == '.';
    assert t[|m.start|] == t[..|Source(m)|][|m.start|];
  }

  /** downloader.py and lib/index.js leave text without a `.` unchanged. */
  lemma ConvertWithoutDot(t: string)
    requires '.' !in t
    ensures Convert(LiteralDot, t) == t
  {
    forall i | 0 <= i < |t| ensures MatchCue(LiteralDot, t[i..]).None? {
      assert '.' !in t[i..] by {
        forall j | 0 <= j < |t[i..]| ensures t[i..][j] != '.' {
          assert t[i..][j] == t[i + j];
        }
      }
      if MatchCue(LiteralDot, t[i..]).Some? {
        MatchCueHasDot(t[i..]);
      }
    }
    ConvertWithoutCues(LiteralDot, t, 1);
  }

  // ------------------------------------------------------------------
  // The converters' loops, token by token

  /** Rendering one more token: its character, or its timing line numbered after the matches before it. */
  lemma RenderPrefixStep(ts: seq<Token>, j: nat, k: nat)
    requires j < |ts|
    ensures CountCues(ts[..j + 1]) == CountCues(ts[..j]) + (if ts[j].Cue? then 1 else 0)
    ensures ts[j].Cue? ==> Render(ts[..j + 1], k) == Render(ts[..j], k) + Numbered(k + CountCues(ts[..j]), ts[j].m)
    ensures ts[j].Verbatim? ==> Render(ts[..j + 1], k) == Render(ts[..j], k) + [ts[j].c]
  {
    assert ts[..j + 1] == ts[..j] + [ts[j]];
    RenderAppend(ts[..j], [ts[j]], k);
    assert [ts[j]][1..] == [];
  }

  /** Each token covers at least one character, and the next one starts where it ends. */
  lemma OffsetNext(ts: seq<Token>, j: nat)
    requires j < |ts|
    ensures Offset(ts, j + 1) == Offset(ts, j) + |Original([ts[j]])|
    ensures |Original([ts[j]])| > 0
    ensures ts[j].Cue? ==> Offset(ts, j + 1) == Offset(ts, j) + |Source(ts[j].m)|
    ensures ts[j].Verbatim? ==> Offset(ts, j + 1) == Offset(ts, j) + 1
  {
    assert ts[..j + 1] == ts[..j] + [ts[j]];
    OriginalAppend(ts[..j], [ts[j]]);
    assert [ts[j]][1..] == [];
  }

  /**
   * One step of a converter's scan: writing the token's rendering and moving
   * past its text keeps the output equal to the rendering of the tokens
   * scanned so far.
   */
  lemma ScanStep(ts: seq<Token>, j: nat, i: nat, count: nat, piece: string, next: nat, count': nat)
    requires j < |ts| && i == Offset(ts, j) && count == CountCues(ts[..j])
    requires ts[j].Cue? ==> piece == Numbered(count + 1, ts[j].m) && next == i + |Source(ts[j].m)| && count' == count + 1
    requires ts[j].Verbatim? ==> piece == [ts[j].c] && next == i + 1 && count' == count
    ensures next == Offset(ts, j + 1) && i < next
    ensures Render(ts[..j], 1) + piece == Render(ts[..j + 1], 1)
    ensures count' == CountCues(ts[..j + 1])
  {
    RenderPrefixStep(ts, j, 1);
    OffsetNext(ts, j);
  }

  /** A token that is not the last one starts before the end of the text. */
  lemma OffsetBeforeEnd(ts: seq<Token>, j: nat)
    requires j < |ts|
    ensures Offset(ts, j) < Offset(ts, |ts|)
  {
    assert ts[..|ts|] == ts[..j] + ts[j..];
    OriginalAppend(ts[..j], ts[j..]);
    assert ts[j..] == [ts[j]] + ts[j + 1..];
    OriginalAppend([ts[j]], ts[j + 1..]);
    OffsetNext(ts, j);
  }

  /** The tokens of a text end where the text ends. */
  lemma OffsetAtEnd(sep: Separator, t: string)
    ensures Offset(Tokens(sep, t), |Tokens(sep, t)|) == |t|
  {
    var ts := Tokens(sep, t);
    TokensCover(sep, t);
    assert ts[..|ts|] == ts;
  }

  /** All tokens rendered are the converted text. */
  lemma RenderAll(ts: seq<Token>)
    ensures Render(ts[..|ts|], 1) == Render(ts, 1)
  {
    assert ts[..|ts|] == ts;
  }

  /** Rendering a token sequence by its first token. */
  lemma RenderCons(ts: seq<Token>, tail: seq<Token>, k: nat)
    requires |ts| > 0 && ts == [ts[0]] + tail
    ensures ts[0].Cue? ==> Render(ts, k) == Numbered(k, ts[0].m) + Render(tail, k + 1)
    ensures ts[0].Verbatim? ==> Render(ts, k) == [ts[0].c] + Render(tail, k)
    ensures ts[0].Cue? ==> RenderPlain(ts) == ReplaceTimeCodes(ts[0].m) + RenderPlain(tail)
    ensures CountCues(ts) == (if ts[0].Cue? then 1 else 0) + CountCues(tail)
  {
    assert ts[1..] == tail;
  }

  // ------------------------------------------------------------------
  // The text of one match

  /** Scanning the text of a match finds that match and nothing else. */
  lemma TokensOfOwnText(sep: Separator, t: string)
    requires MatchCue(sep, t).Some?
    ensures Tokens(sep, Source(MatchCue(sep, t).value)) == [Cue(MatchCue(sep, t).value)]
  {
    var m := MatchCue(sep, t).value;
    var s := Source(m);
    MatchCueOnOwnText(sep, t);
    var n := FirstLength(sep, s);
    assert s[n..] == [];
  }

  /**
   * The libraries' inner substitution over `match.group(0)` gives the
   * rewritten timing line of the outer match.
   */
  lemma SubTimeCodesOfMatch(sep: Separator, t: string)
    requires MatchCue(sep, t).Some?
    ensures SubTimeCodes(sep, Source(MatchCue(sep, t).value)) == ReplaceTimeCodes(MatchCue(sep, t).value)
  {
    var m := MatchCue(sep, t).value;
    TokensOfOwnText(sep, t);
    RenderCons([Cue(m)], [], 1);
  }

  /** A cue on its own becomes cue number 1. */
  lemma ConvertOfMatch(sep: Separator, t: string)
    requires MatchCue(sep, t).Some?
    ensures Convert(sep, Source(MatchCue(sep, t).value)) == "1\n" + ReplaceTimeCodes(MatchCue(sep, t).value)
  {
    var m := MatchCue(sep, t).value;
    TokensOfOwnText(sep, t);
    RenderCons([Cue(m)], [], 1);
    FirstNumber(m);
  }

  lemma FirstNumber(m: CueMatch)
    ensures Numbered(1, m) == "1\n" + ReplaceTimeCodes(m)
  {
    assert NatToString(1) == "1";
  }

  // ------------------------------------------------------------------
  // Converting the output again

  /** The milliseconds group is digits and whitespace. */
  lemma MillisHasNoDot(p: string, minSpace: nat)
    requires IsMillis(p, minSpace)
    ensures '.' !in p
  {
    forall i | 0 <= i < |p| ensures p[i] != '.' {
      if i >= 3 { assert IsSpace(p[i]); }
    }
  }

  lemma ClockHasNoDot(p: string)
    requires IsClock(p)
    ensures '.' !in PadHour(p)
  {
    PadHourOfClock(p);
    var q := PadHour(p);
    forall i | 0 <= i < |q| ensures q[i] != '.' {
      assert i in {0, 1, 2, 3, 4, 5, 6, 7};
    }
  }

  /** A rewritten timing line holds no `.`, whatever separators the match had. */
  lemma RewriteHasNoDot(sep: Separator, m: CueMatch)
    requires WellFormed(sep, m)
    ensures '.' !in ReplaceTimeCodes(m)
  {
    ClockHasNoDot(m.start);
    ClockHasNoDot(m.end);
    MillisHasNoDot(m.startMs, 1);
    MillisHasNoDot(m.endMs, 0);
  }

  /** With the escaped separator a rewritten timing line converts to itself. */
  lemma DotRewriteIsFixed(sep: Separator, m: CueMatch)
    requires WellFormed(sep, m)
    ensures Convert(LiteralDot, ReplaceTimeCodes(m)) == ReplaceTimeCodes(m)
  {
    RewriteHasNoDot(sep, m);
    ConvertWithoutDot(ReplaceTimeCodes(m));
  }

  /** The characters of a rewritten timing line that rule out a second match with `\.`. */
  lemma RewriteShape(sep: Separator, m: CueMatch, rest: string)
    requires WellFormed(sep, m)
    ensures var u := ReplaceTimeCodes(m) + rest;
      |u| > 8 && ClockAt(u, 0, true) && u[5] == ':' && u[8] == ','
  {
    PadHourOfClock(m.start);
    var u := ReplaceTimeCodes(m) + rest;
    var h := PadHour(m.start);
    assert u == h + ("," + (m.startMs + " --> " + PadHour(m.end) + "," + m.endMs + rest));
    assert u[..8] == h;
    assert u[8] == ',';
  }

  /**
   * With the escaped separator, a rewritten timing line does not match the
   * pattern a second time, whatever follows it.
   */
  lemma DotOutputNotRematched(sep: Separator, m: CueMatch, rest: string)
    requires WellFormed(sep, m)
    ensures MatchCue(LiteralDot, ReplaceTimeCodes(m) + rest).None?
  {
    RewriteShape(sep, m, rest);
    var u := ReplaceTimeCodes(m) + rest;
    assert Clock(u, true).value.rest[0] == u[8];
    assert Clock(u, false).value.rest[0] == u[5];
  }

  /**
   * With the unescaped separator a rewritten timing line is itself a match:
   * the comma passes for the separator, and the extra space before the arrow
   * joins the milliseconds group.
   */
  lemma AnyOutputRematched(sep: Separator, m: CueMatch, rest: string)
    requires WellFormed(sep, m)
    ensures MatchCue(AnyButNewline, ReplaceTimeCodes(m) + rest).Some?
  {
    ReplaceTimeCodesOfMatch(sep, m);
    PadHourOfClock(m.start);
    PadHourOfClock(m.end);
    var m2 := CueMatch(WithHours(m.start), ',', m.startMs + " ", " ", WithHours(m.end), ',', m.endMs);
    assert IsMillis(m2.startMs, 1) by {
      assert m2.startMs[..|m.startMs|] == m.startMs;
    }
    assert AllSpace(m2.gap);
    assert Source(m2) == ReplaceTimeCodes(m);
    MatchCueComplete(AnyButNewline, m2, rest);
  }

  /** No cue starts where the first two characters are not both digits. */
  lemma NoCueBeforeNonDigit(sep: Separator, t: string)
    requires (|t| > 0 && !IsDigit(t[0])) || (|t| > 1 && !IsDigit(t[1]))
    ensures MatchCue(sep, t).None?
  {
    assert Clock(t, true).None? && Clock(t, false).None?;
  }

  /** The scan at a position where no cue starts copies one character. */
  lemma TokensAtNonCue(sep: Separator, t: string)
    requires t != [] && MatchCue(sep, t).None?
    ensures Tokens(sep, t) == [Verbatim(t[0])] + Tokens(sep, t[1..])
  {
  }

  /** The scan at a position where a cue starts takes that cue first. */
  lemma TokensAtCue(sep: Separator, t: string)
    requires MatchCue(sep, t).Some?
    ensures |Tokens(sep, t)| > 0 && Tokens(sep, t)[0] == Cue(MatchCue(sep, t).value)
  {
  }

  lemma RenderTwoVerbatim(a: char, b: char, ts: seq<Token>, k: nat)
    ensures Render([Verbatim(a)] + ([Verbatim(b)] + ts), k) == [a, b] + Render(ts, k)
  {
    RenderCons([Verbatim(a)] + ([Verbatim(b)] + ts), [Verbatim(b)] + ts, k);
    RenderCons([Verbatim(b)] + ts, ts, k);
  }

  lemma PrefixOfConcat(p: string, r: string)
    ensures |p + r| >= |p| && (p + r)[..|p|] == p
  {
  }

  /** Tokens that start with a cue render to a text whose second character is the newline after `1`. */
  lemma RenderStartsNumbered(ts: seq<Token>)
    requires |ts| > 0 && ts[0].Cue?
    ensures |Render(ts, 1)| >= 2 && Render(ts, 1)[0] == '1' && Render(ts, 1)[1] == '\n'
  {
    var r := ReplaceTimeCodes(ts[0].m) + Render(ts[1..], 2);
    assert Render(ts, 1) == Numbered(1, ts[0].m) + Render(ts[1..], 2);
    FirstNumber(ts[0].m);
    PrefixOfConcat("1\n", r);
  }

  /** The scan copies a leading `1\n`: no cue starts at either of its characters. */
  lemma TokensAfterNumberLine(sep: Separator, u: string, once: string)
    requires once == "1\n" + u
    ensures Tokens(sep, once) == [Verbatim('1')] + ([Verbatim('\n')] + Tokens(sep, u))
  {
    var v := once[1..];
    assert once[0] == '1' && v == "\n" + u && v[0] == '\n' && v[1..] == u;
    NoCueBeforeNonDigit(sep, once);
    NoCueBeforeNonDigit(sep, v);
    TokensAtNonCue(sep, once);
    TokensAtNonCue(sep, v);
  }

  /**
   * Converting `1\n` followed by any text keeps the `1\n` and converts the
   * rest as if it stood alone, numbering from 1.
   */
  lemma ConvertAfterNumberLine(sep: Separator, u: string, once: string)
    requires once == "1\n" + u
    ensures Convert(sep, once) == "1\n" + Convert(sep, u)
  {
    TokensAfterNumberLine(sep, u, once);
    RenderTwoVerbatim('1', '\n', Tokens(sep, u), 1);
  }

  /** With the unescaped separator, a numbered rewrite converts to a text that differs from it. */
  lemma AnyNumberedRewriteChanges(sep: Separator, m: CueMatch, once: string)
    requires WellFormed(sep, m) && once == "1\n" + ReplaceTimeCodes(m)
    ensures Convert(AnyButNewline, once) == "1\n" + Convert(AnyButNewline, ReplaceTimeCodes(m))
    ensures |Convert(AnyButNewline, ReplaceTimeCodes(m))| >= 2 && Convert(AnyButNewline, ReplaceTimeCodes(m))[..2] == "1\n"
    ensures Convert(AnyButNewline, once) != once
  {
    var u := ReplaceTimeCodes(m);
    ConvertAfterNumberLine(AnyButNewline, u, once);
    assert |Tokens(AnyButNewline, u)| > 0 && Tokens(AnyButNewline, u)[0].Cue? by {
      AnyOutputRematched(sep, m, []);
      assert u + [] == u;
      TokensAtCue(AnyButNewline, u);
    }
    RenderStartsNumbered(Tokens(AnyButNewline, u));
    var c := Convert(AnyButNewline, u);
    assert c[..2] == "1\n";
    assert IsDigit(once[3]) by {
      RewriteShape(sep, m, []);
      assert once[3] == (u + [])[1];
    }
    assert ("1\n" + c)[3] == c[1];
  }

  /** With the escaped separator, a numbered rewrite converts to itself. */
  lemma DotNumberedRewriteFixed(sep: Separator, m: CueMatch, once: string)
    requires WellFormed(sep, m) && once == "1\n" + ReplaceTimeCodes(m)
    ensures Convert(LiteralDot, once) == once
  {
    ConvertAfterNumberLine(LiteralDot, ReplaceTimeCodes(m), once);
    DotRewriteIsFixed(sep, m);
  }

  /**
   * The unescaped pattern is not idempotent: converting its output for a cue
   * again numbers the cue a second time, since the text after `1\n` is a
   * match once more.
   */
  lemma AnyConvertNotIdempotent(t: string)
    requires MatchCue(AnyButNewline, t).Some?
    ensures var once := Convert(AnyButNewline, Source(MatchCue(AnyButNewline, t).value));
      |once| > 2 && once[..2] == "1\n" && MatchCue(AnyButNewline, once[2..]).Some?
      && Convert(AnyButNewline, once) == "1\n" + Convert(AnyButNewline, once[2..])
      && |Convert(AnyButNewline, once[2..])| >= 2 && Convert(AnyButNewline, once[2..])[..2] == "1\n"
      && Convert(AnyButNewline, once) != once
  {
    var m := MatchCue(AnyButNewline, t).value;
    ConvertOfMatch(AnyButNewline, t);
    var once := Convert(AnyButNewline, Source(m));
    assert once[2..] == ReplaceTimeCodes(m) + [];
    AnyOutputRematched(AnyButNewline, m, []);
    AnyNumberedRewriteChanges(AnyButNewline, m, once);
  }

  /** The escaped pattern is idempotent on a converted cue: the second conversion changes nothing. */
  lemma DotConvertKeepsCue(t: string)
    requires MatchCue(LiteralDot, t).Some?
    ensures var once := Convert(LiteralDot, Source(MatchCue(LiteralDot, t).value));
      |once| > 2 && once[..2] == "1\n" && MatchCue(LiteralDot, once[2..]).None?
      && Convert(LiteralDot, once) == once
  {
    var m := MatchCue(LiteralDot, t).value;
    ConvertOfMatch(LiteralDot, t);
    var once := Convert(LiteralDot, Source(m));
    assert once[2..] == ReplaceTimeCodes(m) + [];
    DotOutputNotRematched(LiteralDot, m, []);
    DotNumberedRewriteFixed(LiteralDot, m, once);
  }

  // ------------------------------------------------------------------
  // The libraries' substitution

  /**
   * `replaceItem` of lib/VideoDownloader.py and the outer callback of
   * lib/index.js, or one character the substitution copies: a match is
   * replaced by the raised counter, a newline and the inner substitution
   * applied to the match's own text.
   */
  method ReplaceItem(sep: Separator, t: string, i: nat, lineCounter: nat, ghost ts: seq<Token>, ghost j: nat)
    returns (piece: string, next: nat, counter: nat)
    requires j < |ts| && i == Offset(ts, j) && FoundAt(sep, t, ts, j)
    ensures ts[j].Cue? ==> piece == Numbered(lineCounter + 1, ts[j].m) && next == i + |Source(ts[j].m)| && counter == lineCounter + 1
    ensures ts[j].Verbatim? ==> piece == [ts[j].c] && next == i + 1 && counter == lineCounter
  {
    match MatchCue(sep, t[i..]) {
      case Some(m) =>
        assert ts[j] == Cue(m);
        SubTimeCodesOfMatch(sep, t[i..]);
        counter := lineCounter + 1;
        piece := NatToString(counter) + "\n" + SubTimeCodes(sep, Source(m));
        next := i + |Source(m)|;
      case None =>
        assert ts[j] == Verbatim(t[i]);
        counter := lineCounter;
        piece := [t[i]];
        next := i + 1;
    }
  }

  /**
   * The libraries' cue pass over a text: one scan in which `lineCounter`
   * counts the matches; the result is the text with its k-th match replaced
   * by `k`, a newline and its rewritten timing line.
   */
  method SubstituteCues(sep: Separator, t: string) returns (srt: string)
    ensures srt == Convert(sep, t)
  {
    ghost var ts := Tokens(sep, t);
    OffsetAtEnd(sep, t);
    var lineCounter: nat := 0;
    srt := "";
    var i: nat := 0;
    ghost var j: nat := 0;
    while i < |t|
      invariant j <= |ts| && i == Offset(ts, j)
      invariant srt == Render(ts[..j], 1) && lineCounter == CountCues(ts[..j])
      decreases |t| - i
    {
      if j == |ts| {
        assert false;
      }
      TokensLeftmost(sep, t, j);
      var piece, next, counter := ReplaceItem(sep, t, i, lineCounter, ts, j);
      ScanStep(ts, j, i, lineCounter, piece, next, counter);
      srt, i, lineCounter, j := srt + piece, next, counter, j + 1;
      if j < |ts| { OffsetBeforeEnd(ts, j); }
    }
    if j < |ts| { OffsetBeforeEnd(ts, j); }
    RenderAll(ts);
  }
}
