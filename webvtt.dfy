/**
 * WebVTT to SubRip conversion as the three downloaders do it with two regular
 * expressions: the signature pass `(WEBVTT\s+)(\d{2}:)` and the cue-timing pass
 * `((\d{2}:)?\d{2}:\d{2})SEP(\d{3}\s+)-->\s+((\d{2}:)?\d{2}:\d{2})SEP(\d{3}\s*)`,
 * where SEP is `\.` in downloader.py and lib/index.js and a bare `.` in
 * lib/VideoDownloader.py. Both patterns are hand-written scanners with the
 * leftmost, backtracking semantics of Python's `re` and JavaScript's RegExp.
 */
module WebVtt {
  import opened Basics
  import opened Text

  /** End of the maximal whitespace run that starts at j (greedy `\s*`). */
  function SpaceEnd(t: string, j: nat): (k: nat)
    requires j <= |t|
    ensures j <= k <= |t|
    ensures forall i :: j <= i < k ==> IsSpace(t[i])
    ensures k == |t| || !IsSpace(t[k])
    decreases |t| - j
  {
    if j < |t| && IsSpace(t[j]) then SpaceEnd(t, j + 1) else j
  }

  /** A whitespace run that stops at a non-space character (or the end) is the greedy one. */
  lemma SpaceEndUnique(t: string, j: nat, k: nat)
    requires j <= k <= |t|
    requires forall i :: j <= i < k ==> IsSpace(t[i])
    requires k == |t| || !IsSpace(t[k])
    ensures SpaceEnd(t, j) == k
  {
  }

  // ------------------------------------------------------------------
  // The signature pass

  const Signature: string := "WEBVTT"

  /** `WEBVTT` at position i. */
  predicate SignatureAt(t: string, i: nat)
  {
    i + 6 <= |t| && t[i] == 'W' && t[i + 1] == 'E' && t[i + 2] == 'B'
    && t[i + 3] == 'V' && t[i + 4] == 'T' && t[i + 5] == 'T'
  }

  /** Two digits and a colon at position w: the `(\d{2}:)` group. */
  predicate HourAt(t: string, w: nat)
  {
    w + 3 <= |t| && IsDigit(t[w]) && IsDigit(t[w + 1]) && t[w + 2] == ':'
  }

  /**
   * Length of a match of `WEBVTT\s+\d{2}:` at the start of t. Greedy `\s+` cannot
   * usefully give characters back, since a digit is never whitespace.
   */
  function SignatureMatch(t: string): (n: Option<nat>)
    ensures n.Some? ==> 10 <= n.value <= |t| && SignatureAt(t, 0)
    ensures n.Some? ==> AllSpace(t[6..n.value - 3]) && HourAt(t, n.value - 3)
  {
    if SignatureAt(t, 0) then
      var w := SpaceEnd(t, 6);
      if w > 6 && HourAt(t, w) then
        assert forall i :: 0 <= i < |t[6..w]| ==> t[6..w][i] == t[6 + i];
        Some(w + 3)
      else None
    else None
  }

  /** When no match is found, no split of the whitespace makes the pattern match. */
  lemma SignatureMatchComplete(t: string, w: nat)
    requires SignatureAt(t, 0) && 6 < w <= |t|
    requires forall i :: 6 <= i < w ==> IsSpace(t[i])
    requires HourAt(t, w)
    ensures SignatureMatch(t) == Some(w + 3)
  {
    SpaceEndUnique(t, 6, w);
  }

  /** `re.sub(vtt_removal, r"\2", source)`: every match loses its `WEBVTT\s+` and keeps `\d{2}:`. */
  function StripSignature(t: string): (r: string)
    ensures |r| <= |t|
    decreases |t|
  {
    if t == [] then []
    else match SignatureMatch(t)
      case Some(n) => t[n - 3..n] + StripSignature(t[n..])
      case None => [t[0]] + StripSignature(t[1..])
  }

  /** A signature directly followed (after whitespace) by a timestamp is removed, the digits kept. */
  lemma StripSignatureBeforeTimestamp(ws: string, d1: char, d2: char, rest: string)
    requires |ws| > 0 && AllSpace(ws) && IsDigit(d1) && IsDigit(d2)
    ensures StripSignature(Signature + ws + [d1, d2, ':'] + rest) == [d1, d2, ':'] + StripSignature(rest)
  {
    var t := Signature + ws + [d1, d2, ':'] + rest;
    var w := 6 + |ws|;
    assert SignatureAt(t, 0);
    forall i | 6 <= i < w ensures IsSpace(t[i]) {
      assert t[i] == ws[i - 6];
    }
    SignatureMatchComplete(t, w);
    assert t[w..w + 3] == [d1, d2, ':'];
    assert t[w + 3..] == rest;
  }

  /** Nothing changes where `WEBVTT` does not occur. */
  lemma {:induction false} StripSignatureAbsent(t: string)
    requires forall i :: 0 <= i < |t| ==> !SignatureAt(t, i)
    ensures StripSignature(t) == t
    decreases |t|
  {
    if t != [] {
      assert !SignatureAt(t, 0);
      forall i | 0 <= i < |t[1..]| ensures !SignatureAt(t[1..], i) {
        assert !SignatureAt(t, i + 1);
      }
      StripSignatureAbsent(t[1..]);
    }
  }

  /** Positions where the signature pattern does not match pass their character through. */
  lemma {:induction false} StripSignatureUnmatched(t: string, k: nat)
    requires k <= |t|
    requires forall i :: 0 <= i < k ==> SignatureMatch(t[i..]).None?
    ensures StripSignature(t) == t[..k] + StripSignature(t[k..])
    decreases k
  {
    if k > 0 {
      assert t[0..] == t;
      StripSignatureStep(t);
      forall i | 0 <= i < k - 1 ensures SignatureMatch(t[1..][i..]).None? {
        assert t[1..][i..] == t[i + 1..];
      }
      StripSignatureUnmatched(t[1..], k - 1);
      assert t[1..][k - 1..] == t[k..];
      assert t[..k] == [t[0]] + t[1..][..k - 1];
      AppendAssoc([t[0]], t[1..][..k - 1], StripSignature(t[k..]));
    }
  }

  /** An unmatched position passes its character through. */
  lemma StripSignatureStep(t: string)
    requires t != [] && SignatureMatch(t).None?
    ensures StripSignature(t) == [t[0]] + StripSignature(t[1..])
  {
  }

  /** A signature that is not followed by whitespace and a timestamp stays in place. */
  lemma StripSignatureKeepsOther(t: string)
    requires SignatureAt(t, 0) && SignatureMatch(t).None?
    ensures StripSignature(t) == Signature + StripSignature(t[6..])
  {
    forall i | 0 <= i < 6 ensures SignatureMatch(t[i..]).None? {
      if i > 0 {
        assert t[i..][0] == t[i];
      } else {
        assert t[0..] == t;
      }
    }
    StripSignatureUnmatched(t, 6);
    assert t[..6] == Signature;
  }

  // ------------------------------------------------------------------
  // The cue-timing pattern

  /** What the pattern accepts between the seconds and the milliseconds. */
  datatype Separator =
    | LiteralDot     // `\.` in downloader.py and lib/index.js
    | AnyButNewline  // `.` in lib/VideoDownloader.py

  predicate Accepts(sep: Separator, c: char)
  {
    match sep
    case LiteralDot => c == '.'
    case AnyButNewline => c != '\n'
  }

  /**
   * One match of the cue pattern, split into its parts: the four groups the
   * replacement uses (p1 = start, p3 = startMs, p4 = end, p6 = endMs) and the
   * characters matched between them.
   */
  datatype CueMatch = CueMatch(
    start: string, startSep: char, startMs: string, gap: string,
    end: string, endSep: char, endMs: string)

  /** The text a match covers. */
  function Source(m: CueMatch): string
  {
    m.start + [m.startSep] + m.startMs + "-->" + m.gap + m.end + [m.endSep] + m.endMs
  }

  predicate TwoDigitsAt(t: string, i: nat)
  {
    i + 2 <= |t| && IsDigit(t[i]) && IsDigit(t[i + 1])
  }

  /** `(\d{2}:)?\d{2}:\d{2}` at i, with the hour group taken or skipped. */
  predicate ClockAt(t: string, i: nat, hour: bool)
  {
    if hour then
      i + 8 <= |t| && TwoDigitsAt(t, i) && t[i + 2] == ':' && TwoDigitsAt(t, i + 3)
      && t[i + 5] == ':' && TwoDigitsAt(t, i + 6)
    else
      i + 5 <= |t| && TwoDigitsAt(t, i) && t[i + 2] == ':' && TwoDigitsAt(t, i + 3)
  }

  function ClockLength(hour: bool): nat
  {
    if hour then 8 else 5
  }

  /** `MM:SS` or `HH:MM:SS`. */
  predicate IsClock(p: string)
  {
    (|p| == 5 && ClockAt(p, 0, false)) || (|p| == 8 && ClockAt(p, 0, true))
  }

  predicate MillisAt(t: string, i: nat)
  {
    i + 3 <= |t| && IsDigit(t[i]) && IsDigit(t[i + 1]) && IsDigit(t[i + 2])
  }

  /** Three digits and whitespace, at least `minSpace` characters of it. */
  predicate IsMillis(p: string, minSpace: nat)
  {
    |p| >= 3 + minSpace && MillisAt(p, 0) && forall i :: 3 <= i < |p| ==> IsSpace(p[i])
  }

  /** The parts of a match have the shapes the pattern gives them. */
  predicate WellFormed(sep: Separator, m: CueMatch)
  {
    IsClock(m.start) && Accepts(sep, m.startSep) && IsMillis(m.startMs, 1)
    && |m.gap| >= 1 && AllSpace(m.gap)
    && IsClock(m.end) && Accepts(sep, m.endSep) && IsMillis(m.endMs, 0)
  }

  /** A piece of text the pattern consumed and what it left. */
  datatype Cut = Cut(part: string, rest: string)

  /** `(\d{2}:)?\d{2}:\d{2}` at the start of t, with the hour group taken or skipped. */
  function Clock(t: string, hour: bool): (r: Option<Cut>)
    ensures r.Some? <==> ClockAt(t, 0, hour)
    ensures r.Some? ==> t == r.value.part + r.value.rest && |r.value.part| == ClockLength(hour)
  {
    if ClockAt(t, 0, hour) then
      var e := ClockLength(hour);
      assert t == t[..e] + t[e..];
      Some(Cut(t[..e], t[e..]))
    else None
  }

  lemma ClockShape(t: string, hour: bool)
    requires Clock(t, hour).Some?
    ensures IsClock(Clock(t, hour).value.part)
  {
  }

  /**
   * A separator, three digits and the greedy whitespace run after them, of
   * at least minSpace characters (`\.\d{3}\s+` or `\.\d{3}\s*`).
   */
  function Millis(sep: Separator, t: string, minSpace: nat): (r: Option<Cut>)
    ensures r.Some? ==> (t == r.value.part + r.value.rest && |r.value.part| > 0
                         && (r.value.rest == [] || !IsSpace(r.value.rest[0])))
  {
    if |t| > 0 && Accepts(sep, t[0]) && MillisAt(t, 1) then
      var n := SpaceEnd(t, 4);
      if n - 4 >= minSpace then
        assert t == t[..n] + t[n..];
        Some(Cut(t[..n], t[n..]))
      else None
    else None
  }

  lemma MillisShape(sep: Separator, t: string, minSpace: nat)
    requires Millis(sep, t, minSpace).Some?
    ensures var p := Millis(sep, t, minSpace).value.part;
      Accepts(sep, p[0]) && IsMillis(p[1..], minSpace)
  {
    var n := SpaceEnd(t, 4);
    var p := t[..n][1..];
    assert p[0] == t[1] && p[1] == t[2] && p[2] == t[3];
    assert forall i :: 3 <= i < |p| ==> p[i] == t[i + 1];
  }

  /** The non-empty greedy whitespace run `\s+` at the start of t. */
  function Gap(t: string): (r: Option<Cut>)
    ensures r.Some? ==> (t == r.value.part + r.value.rest && |r.value.part| > 0
                         && (r.value.rest == [] || !IsSpace(r.value.rest[0])))
  {
    var b := SpaceEnd(t, 0);
    if b > 0 then
      assert t == t[..b] + t[b..];
      Some(Cut(t[..b], t[b..]))
    else None
  }

  lemma GapShape(t: string)
    requires Gap(t).Some?
    ensures AllSpace(Gap(t).value.part)
  {
    var b := SpaceEnd(t, 0);
    assert forall i :: 0 <= i < b ==> t[..b][i] == t[i];
  }

  /** `-->` at the start of q. */
  predicate ArrowAt(q: string)
  {
    |q| >= 3 && q[0] == '-' && q[1] == '-' && q[2] == '>'
  }

  /** What the pattern reads after the arrow, and the text it leaves. */
  datatype Tail = Tail(gap: string, end: string, endSep: char, endMs: string, rest: string)

  /** `\s+((\d{2}:)?\d{2}:\d{2})SEP(\d{3}\s*)` at the start of r2, with the hour group of the second clock as h4 says. */
  function Second(sep: Separator, r2: string, h4: bool): Option<Tail>
  {
    match Gap(r2)
    case None => None
    case Some(c3) =>
      match Clock(c3.rest, h4)
      case None => None
      case Some(c4) =>
        match Millis(sep, c4.rest, 0)
        case None => None
        case Some(c5) => Some(Tail(c3.part, c4.part, c5.part[0], c5.part[1..], c5.rest))
  }

  /**
   * The pattern at the start of t for one choice of the two optional hour
   * groups. The `\s+` before and after the arrow are greedy, and what
   * follows each of them (`-` and a digit) is never whitespace, so only the
   * hour groups leave the engine anything to backtrack over.
   */
  function Trial(sep: Separator, t: string, h1: bool, h4: bool): Option<CueMatch>
  {
    match Clock(t, h1)
    case None => None
    case Some(c1) =>
      match Millis(sep, c1.rest, 1)
      case None => None
      case Some(c2) =>
        if !ArrowAt(c2.rest) then None else
        match Second(sep, c2.rest[3..], h4)
        case None => None
        case Some(s) => Some(CueMatch(c1.part, c2.part[0], c2.part[1..], s.gap, s.end, s.endSep, s.endMs))
  }

  /** m is a well-formed match at the start of t whose trailing whitespace is greedy. */
  predicate MatchedBy(sep: Separator, t: string, m: CueMatch)
  {
    WellFormed(sep, m) && |Source(m)| <= |t| && t[..|Source(m)|] == Source(m)
    && (|Source(m)| == |t| || !IsSpace(t[|Source(m)|]))
  }

  lemma HeadTail(p: string)
    requires |p| > 0
    ensures p == [p[0]] + p[1..]
  {
  }

  lemma DropHead(c: char, x: string)
    ensures ([c] + x)[0] == c && ([c] + x)[1..] == x
  {
  }

  lemma ArrowCut(q: string)
    requires ArrowAt(q)
    ensures q == "-->" + q[3..]
  {
    assert q[..3] == "-->";
  }

  lemma ArrowPrefix(r2: string)
    ensures ArrowAt("-->" + r2) && ("-->" + r2)[3..] == r2
  {
  }

  /** The text of a match followed by rest, as the stages read it, part after part. */
  lemma SourceNested(m: CueMatch, rest: string)
    ensures Source(m) + rest
      == m.start + (([m.startSep] + m.startMs) + ("-->" + (m.gap + (m.end + (([m.endSep] + m.endMs) + rest)))))
  {
  }

  /** The text after the arrow is what the second half read, followed by what it left. */
  lemma SecondText(sep: Separator, r2: string, h4: bool, s: Tail)
    requires Second(sep, r2, h4) == Some(s)
    ensures r2 == s.gap + (s.end + (([s.endSep] + s.endMs) + s.rest))
    ensures s.rest == [] || !IsSpace(s.rest[0])
  {
    var c3 := Gap(r2).value;
    var c4 := Clock(c3.rest, h4).value;
    var c5 := Millis(sep, c4.rest, 0).value;
    assert s == Tail(c3.part, c4.part, c5.part[0], c5.part[1..], c5.rest);
    HeadTail(c5.part);
  }

  lemma SecondShape(sep: Separator, r2: string, h4: bool, s: Tail)
    requires Second(sep, r2, h4) == Some(s)
    ensures |s.gap| > 0 && AllSpace(s.gap) && IsClock(s.end) && |s.end| == ClockLength(h4)
    ensures Accepts(sep, s.endSep) && IsMillis(s.endMs, 0)
  {
    var c3 := Gap(r2).value;
    var c4 := Clock(c3.rest, h4).value;
    GapShape(r2);
    ClockShape(c3.rest, h4);
    MillisShape(sep, c4.rest, 0);
  }

  /** Whatever a trial returns is a well-formed match at the start of t, with the hour choices asked for. */
  lemma TrialSound(sep: Separator, t: string, h1: bool, h4: bool)
    requires Trial(sep, t, h1, h4).Some?
    ensures MatchedBy(sep, t, Trial(sep, t, h1, h4).value)
    ensures |Trial(sep, t, h1, h4).value.start| == ClockLength(h1)
    ensures |Trial(sep, t, h1, h4).value.end| == ClockLength(h4)
  {
    var m := Trial(sep, t, h1, h4).value;
    TrialShape(sep, t, h1, h4, m);
    TrialText(sep, t, h1, h4, m);
  }

  lemma TrialShape(sep: Separator, t: string, h1: bool, h4: bool, m: CueMatch)
    requires Trial(sep, t, h1, h4) == Some(m)
    ensures WellFormed(sep, m) && |m.start| == ClockLength(h1) && |m.end| == ClockLength(h4)
  {
    var c1 := Clock(t, h1).value;
    var c2 := Millis(sep, c1.rest, 1).value;
    var s := Second(sep, c2.rest[3..], h4).value;
    assert m == CueMatch(c1.part, c2.part[0], c2.part[1..], s.gap, s.end, s.endSep, s.endMs);
    ClockShape(t, h1);
    MillisShape(sep, c1.rest, 1);
    SecondShape(sep, c2.rest[3..], h4, s);
  }

  lemma TrialText(sep: Separator, t: string, h1: bool, h4: bool, m: CueMatch)
    requires Trial(sep, t, h1, h4) == Some(m)
    ensures |Source(m)| <= |t| && t[..|Source(m)|] == Source(m)
    ensures |Source(m)| == |t| || !IsSpace(t[|Source(m)|])
  {
    var c1 := Clock(t, h1).value;
    var c2 := Millis(sep, c1.rest, 1).value;
    var r2 := c2.rest[3..];
    var s := Second(sep, r2, h4).value;
    assert m == CueMatch(c1.part, c2.part[0], c2.part[1..], s.gap, s.end, s.endSep, s.endMs);
    ArrowCut(c2.rest);
    SecondText(sep, r2, h4, s);
    SourceChain(t, c1.part, c1.rest, c2.part, c2.rest, r2, s);
  }

  /** The stages' cuts put back together give the text of the match and what follows it. */
  lemma SourceChain(t: string, p1: string, r1: string, p2: string, q2: string, r2: string, s: Tail)
    requires t == p1 + r1 && r1 == p2 + q2 && q2 == "-->" + r2 && |p2| > 0
    requires r2 == s.gap + (s.end + (([s.endSep] + s.endMs) + s.rest))
    ensures var src := Source(CueMatch(p1, p2[0], p2[1..], s.gap, s.end, s.endSep, s.endMs));
      t == src + s.rest && |src| <= |t| && t[..|src|] == src && (s.rest != [] ==> t[|src|] == s.rest[0])
  {
    var m := CueMatch(p1, p2[0], p2[1..], s.gap, s.end, s.endSep, s.endMs);
    HeadTail(p2);
    SourceNested(m, s.rest);
    assert t[..|Source(m)|] == Source(m);
  }

  /** `\d{3}\s*` followed by rest: the greedy run continues into rest. */
  lemma MillisComplete(sep: Separator, c: char, ms: string, rest: string, minSpace: nat)
    requires Accepts(sep, c) && IsMillis(ms, minSpace)
    ensures var k := SpaceEnd(rest, 0);
      Millis(sep, [c] + ms + rest, minSpace) == Some(Cut([c] + ms + rest[..k], rest[k..]))
  {
    var k := SpaceEnd(rest, 0);
    var u := [c] + ms + rest;
    var n := |ms| + 1 + k;
    assert u[0] == c;
    assert u[1] == ms[0] && u[2] == ms[1] && u[3] == ms[2];
    assert forall i :: 4 <= i <= |ms| ==> u[i] == ms[i - 1];
    assert forall i :: |ms| + 1 <= i < n ==> u[i] == rest[i - |ms| - 1];
    assert n == |u| || u[n] == rest[k];
    SpaceEndUnique(u, 4, n);
    assert u[..n] == [c] + ms + rest[..k];
    assert u[n..] == rest[k..];
  }

  /** The whitespace run after the first milliseconds stops at the arrow. */
  lemma MillisBeforeArrow(sep: Separator, c: char, ms: string, r2: string)
    requires Accepts(sep, c) && IsMillis(ms, 1)
    ensures Millis(sep, [c] + ms + ("-->" + r2), 1) == Some(Cut([c] + ms, "-->" + r2))
  {
    var q := "-->" + r2;
    MillisComplete(sep, c, ms, q, 1);
    assert SpaceEnd(q, 0) == 0;
    assert q[..0] == [] && q[0..] == q;
    assert [c] + ms + [] == [c] + ms;
  }

  lemma ClockComplete(p: string, rest: string)
    requires IsClock(p)
    ensures Clock(p + rest, |p| == 8) == Some(Cut(p, rest))
  {
    assert forall i :: 0 <= i < |p| ==> (p + rest)[i] == p[i];
    assert (p + rest)[..|p|] == p;
  }

  /** A non-empty whitespace run followed by a digit is exactly the greedy run. */
  lemma GapComplete(gap: string, r3: string)
    requires |gap| > 0 && AllSpace(gap) && r3 != [] && IsDigit(r3[0])
    ensures Gap(gap + r3) == Some(Cut(gap, r3))
  {
    var r2 := gap + r3;
    assert r2[|gap|] == r3[0];
    SpaceEndUnique(r2, 0, |gap|);
    assert r2[..|gap|] == gap;
    assert r2[|gap|..] == r3;
  }

  /** The second half reads back its own parts; its `\s*` also takes the whitespace after them. */
  lemma SecondComplete(sep: Separator, gap: string, end: string, es: char, ems: string, rest: string)
    requires |gap| > 0 && AllSpace(gap) && IsClock(end) && Accepts(sep, es) && IsMillis(ems, 0)
    ensures var k := SpaceEnd(rest, 0);
      Second(sep, gap + (end + (([es] + ems) + rest)), |end| == 8) == Some(Tail(gap, end, es, ems + rest[..k], rest[k..]))
  {
    var k := SpaceEnd(rest, 0);
    var r4 := ([es] + ems) + rest;
    GapClockComplete(gap, end, r4);
    MillisComplete(sep, es, ems, rest, 0);
    JoinHead(es, ems, rest[..k]);
    SecondOfStages(sep, gap + (end + r4), |end| == 8, Cut(gap, end + r4), Cut(end, r4), Cut([es] + ems + rest[..k], rest[k..]));
  }

  lemma GapClockComplete(gap: string, end: string, r4: string)
    requires |gap| > 0 && AllSpace(gap) && IsClock(end)
    ensures Gap(gap + (end + r4)) == Some(Cut(gap, end + r4))
    ensures Clock(end + r4, |end| == 8) == Some(Cut(end, r4))
  {
    assert (end + r4)[0] == end[0];
    GapComplete(gap, end + r4);
    ClockComplete(end, r4);
  }

  lemma JoinHead(c: char, x: string, y: string)
    ensures ([c] + x + y)[0] == c && ([c] + x + y)[1..] == x + y
  {
    assert [c] + x + y == [c] + (x + y);
  }

  /** The second half succeeds when each of its stages does, and returns what they cut out. */
  lemma SecondOfStages(sep: Separator, r2: string, h4: bool, c3: Cut, c4: Cut, c5: Cut)
    requires Gap(r2) == Some(c3) && Clock(c3.rest, h4) == Some(c4) && Millis(sep, c4.rest, 0) == Some(c5)
    ensures |c5.part| > 0 && Second(sep, r2, h4) == Some(Tail(c3.part, c4.part, c5.part[0], c5.part[1..], c5.rest))
  {
  }

  /**
   * Every well-formed match is found by the trial with its hour choices; the
   * greedy `\s*` at the end also takes the whitespace that follows it.
   */
  lemma TrialComplete(sep: Separator, m: CueMatch, rest: string)
    requires WellFormed(sep, m)
    ensures var k := SpaceEnd(rest, 0);
      Trial(sep, Source(m) + rest, |m.start| == 8, |m.end| == 8) == Some(m.(endMs := m.endMs + rest[..k]))
  {
    var r2 := m.gap + (m.end + (([m.endSep] + m.endMs) + rest));
    var r1 := ([m.startSep] + m.startMs) + ("-->" + r2);
    SourceNested(m, rest);
    ClockComplete(m.start, r1);
    MillisBeforeArrow(sep, m.startSep, m.startMs, r2);
    ArrowPrefix(r2);
    SecondComplete(sep, m.gap, m.end, m.endSep, m.endMs, rest);
    DropHead(m.startSep, m.startMs);
  }

  // ------------------------------------------------------------------
  // The leftmost match at one position

  /**
   * The cue pattern at the start of t, as a backtracking engine finds it:
   * the first hour group is tried taken, then skipped, and for each choice the
   * second hour group is tried taken, then skipped.
   */
  function MatchCue(sep: Separator, t: string): (r: Option<CueMatch>)
    ensures r.Some? ==> MatchedBy(sep, t, r.value)
  {
    if Trial(sep, t, true, true).Some? then
      TrialSound(sep, t, true, true); Trial(sep, t, true, true)
    else if Trial(sep, t, true, false).Some? then
      TrialSound(sep, t, true, false); Trial(sep, t, true, false)
    else if Trial(sep, t, false, true).Some? then
      TrialSound(sep, t, false, true); Trial(sep, t, false, true)
    else if Trial(sep, t, false, false).Some? then
      TrialSound(sep, t, false, false); Trial(sep, t, false, false)
    else None
  }

  /** Wherever a well-formed match starts, the pattern matches. */
  lemma MatchCueComplete(sep: Separator, m: CueMatch, rest: string)
    requires WellFormed(sep, m)
    ensures MatchCue(sep, Source(m) + rest).Some?
  {
    TrialComplete(sep, m, rest);
    MatchCueOfTrial(sep, Source(m) + rest, |m.start| == 8, |m.end| == 8);
  }

  /** The pattern matches wherever one of its alternatives does. */
  lemma MatchCueOfTrial(sep: Separator, t: string, h1: bool, h4: bool)
    requires Trial(sep, t, h1, h4).Some?
    ensures MatchCue(sep, t).Some?
  {
    if h1 && h4 {
      assert Trial(sep, t, true, true).Some?;
    } else if h1 {
      assert Trial(sep, t, true, false).Some?;
    } else if h4 {
      assert Trial(sep, t, false, true).Some?;
    } else {
      assert Trial(sep, t, false, false).Some?;
    }
  }

  /** A trial that succeeds on s also succeeds on any longer text starting with s. */
  lemma TrialExtends(sep: Separator, s: string, rest: string, h1: bool, h4: bool)
    requires Trial(sep, s, h1, h4).Some?
    ensures Trial(sep, s + rest, h1, h4).Some?
  {
    var m := Trial(sep, s, h1, h4).value;
    TrialSound(sep, s, h1, h4);
    var x := s[|Source(m)|..];
    SplitAtPrefix(s, Source(m), rest);
    TrialComplete(sep, m, x + rest);
  }

  lemma PrefixJoin(t: string, p: string)
    requires |p| <= |t| && t[..|p|] == p
    ensures t == p + t[|p|..]
  {
    assert t == t[..|p|] + t[|p|..];
  }

  lemma SplitAtPrefix(s: string, p: string, rest: string)
    requires |p| <= |s| && s[..|p|] == p
    ensures s + rest == p + (s[|p|..] + rest)
  {
    assert s == s[..|p|] + s[|p|..];
  }

  /** The trial that found m in a longer text finds exactly m in m's own text. */
  lemma TrialOnOwnText(sep: Separator, t: string, h1: bool, h4: bool)
    requires Trial(sep, t, h1, h4).Some?
    ensures Trial(sep, Source(Trial(sep, t, h1, h4).value), h1, h4) == Trial(sep, t, h1, h4)
  {
    var m := Trial(sep, t, h1, h4).value;
    TrialSound(sep, t, h1, h4);
    EmptyRest(m);
    TrialComplete(sep, m, []);
  }

  lemma EmptyRest(m: CueMatch)
    ensures Source(m) + [] == Source(m) && SpaceEnd([], 0) == 0 && m.(endMs := m.endMs + [][..0]) == m
  {
    assert m.endMs + [][..0] == m.endMs;
  }

  /**
   * Matching the pattern again against the text of a match finds the same
   * match: the libraries' second pass over `match.group(0)` sees the groups
   * of the first.
   */
  lemma MatchCueOnOwnText(sep: Separator, t: string)
    requires MatchCue(sep, t).Some?
    ensures MatchCue(sep, Source(MatchCue(sep, t).value)) == MatchCue(sep, t)
  {
    var m := MatchCue(sep, t).value;
    var s := Source(m);
    var rest := t[|s|..];
    PrefixJoin(t, s);
    if Trial(sep, t, true, true).Some? {
      TrialOnOwnText(sep, t, true, true);
    } else if Trial(sep, t, true, false).Some? {
      TrialOnOwnText(sep, t, true, false);
      if Trial(sep, s, true, true).Some? { TrialExtends(sep, s, rest, true, true); }
    } else if Trial(sep, t, false, true).Some? {
      TrialOnOwnText(sep, t, false, true);
      if Trial(sep, s, true, true).Some? { TrialExtends(sep, s, rest, true, true); }
      if Trial(sep, s, true, false).Some? { TrialExtends(sep, s, rest, true, false); }
    } else {
      TrialOnOwnText(sep, t, false, false);
      if Trial(sep, s, true, true).Some? { TrialExtends(sep, s, rest, true, true); }
      if Trial(sep, s, true, false).Some? { TrialExtends(sep, s, rest, true, false); }
      if Trial(sep, s, false, true).Some? { TrialExtends(sep, s, rest, false, true); }
    }
  }

  // ------------------------------------------------------------------
  // Which match

  /** Every match of the pattern at the start of t is what the trial of its own hour groups finds. */
  lemma TrialOfMatchedBy(sep: Separator, t: string, m: CueMatch)
    requires MatchedBy(sep, t, m)
    ensures Trial(sep, t, |m.start| == 8, |m.end| == 8) == Some(m)
  {
    var s := Source(m);
    var rest := t[|s|..];
    assert t == s + rest by {
      PrefixJoin(t, s);
    }
    assert SpaceEnd(rest, 0) == 0 by {
      assert rest == [] || rest[0] == t[|s|];
    }
    assert m.(endMs := m.endMs + rest[..0]) == m by {
      assert m.endMs + rest[..0] == m.endMs;
    }
    TrialComplete(sep, m, rest);
  }

  /** With `\.` the character after `MM:SS` says whether the hour group was taken. */
  lemma DotClockChoice(x: string, h: bool, minSpace: nat)
    requires Clock(x, h).Some? && Millis(LiteralDot, Clock(x, h).value.rest, minSpace).Some?
    ensures |x| > 5 && (h <==> x[5] == ':')
  {
    if !h {
      assert Clock(x, h).value.rest[0] == x[5];
    }
  }

  /** With `\.` at most one choice of the two hour groups matches. */
  lemma DotTrialFlags(t: string, h1: bool, h4: bool, g1: bool, g4: bool)
    requires Trial(LiteralDot, t, h1, h4).Some? && Trial(LiteralDot, t, g1, g4).Some?
    ensures h1 == g1 && h4 == g4
  {
    DotClockChoice(t, h1, 1);
    DotClockChoice(t, g1, 1);
    var c2 := Millis(LiteralDot, Clock(t, h1).value.rest, 1).value;
    var c3 := Gap(c2.rest[3..]).value;
    DotClockChoice(c3.rest, h4, 0);
    DotClockChoice(c3.rest, g4, 0);
  }

  /**
   * With `\.` (downloader.py and lib/index.js) the pattern has at most one
   * match at a position, so `MatchCue` returns the only one there is.
   */
  lemma DotMatchUnique(t: string, m1: CueMatch, m2: CueMatch)
    requires MatchedBy(LiteralDot, t, m1) && MatchedBy(LiteralDot, t, m2)
    ensures m1 == m2
  {
    TrialOfMatchedBy(LiteralDot, t, m1);
    TrialOfMatchedBy(LiteralDot, t, m2);
    DotTrialFlags(t, |m1.start| == 8, |m1.end| == 8, |m2.start| == 8, |m2.end| == 8);
  }

  /** With `\.`, whatever matches at the start of t is exactly what `MatchCue` returns. */
  lemma DotMatchCueIsTheMatch(t: string, m: CueMatch)
    requires MatchedBy(LiteralDot, t, m)
    ensures MatchCue(LiteralDot, t) == Some(m)
  {
    TrialOfMatchedBy(LiteralDot, t, m);
    MatchCueOfTrial(LiteralDot, t, |m.start| == 8, |m.end| == 8);
    DotMatchUnique(t, MatchCue(LiteralDot, t).value, m);
  }

  /** Without the hour group of the first clock, the trial with the second hour group taken comes first. */
  lemma MatchCueWithoutFirstHour(sep: Separator, t: string)
    requires Clock(t, true).None? && Trial(sep, t, false, true).Some?
    ensures MatchCue(sep, t) == Trial(sep, t, false, true)
  {
    assert Trial(sep, t, true, true).None? && Trial(sep, t, true, false).None?;
  }

  /** A text on which the unescaped `.` has two readings. */
  const AmbiguousCue: string := "00:01.000 --> 12:34:567890"

  /** The reading with the second hour group taken: `12:34:56`, `7` for the separator, `890`. */
  const HourTaken: CueMatch := CueMatch("00:01", '.', "000 ", " ", "12:34:56", '7', "890")

  /** The reading with the second hour group skipped: `12:34`, `:` for the separator, `567`. */
  const HourSkipped: CueMatch := CueMatch("00:01", '.', "000 ", " ", "12:34", ':', "567")

  lemma ClockParts()
    ensures IsClock("00:01") && IsClock("12:34") && IsClock("12:34:56")
  {
    assert ClockAt("00:01", 0, false) && ClockAt("12:34", 0, false) && ClockAt("12:34:56", 0, true);
  }

  lemma MillisParts()
    ensures IsMillis("000 ", 1) && IsMillis("890", 0) && IsMillis("567", 0) && AllSpace(" ")
  {
    assert MillisAt("000 ", 0) && MillisAt("890", 0) && MillisAt("567", 0);
  }

  lemma HourTakenMatches()
    ensures MatchedBy(AnyButNewline, AmbiguousCue, HourTaken)
  {
    ClockParts();
    MillisParts();
    assert Source(HourTaken) == AmbiguousCue;
  }

  lemma HourSkippedMatches()
    ensures MatchedBy(AnyButNewline, AmbiguousCue, HourSkipped)
  {
    ClockParts();
    MillisParts();
    assert Source(HourSkipped) == AmbiguousCue[..23];
    assert !IsSpace(AmbiguousCue[23]);
  }

  /**
   * With the unescaped `.` (lib/VideoDownloader.py) two matches can start at
   * the same position; the trial order, hour groups taken first, decides, as
   * Python's backtracking does.
   */
  lemma AnyMatchAmbiguous()
    ensures MatchedBy(AnyButNewline, AmbiguousCue, HourTaken) && MatchedBy(AnyButNewline, AmbiguousCue, HourSkipped)
    ensures HourTaken != HourSkipped
    ensures MatchCue(AnyButNewline, AmbiguousCue) == Some(HourTaken)
  {
    HourTakenMatches();
    HourSkippedMatches();
    assert HourTaken.end != HourSkipped.end by {
      assert |HourTaken.end| == 8 && |HourSkipped.end| == 5;
    }
    TrialOfMatchedBy(AnyButNewline, AmbiguousCue, HourTaken);
    assert Clock(AmbiguousCue, true).None? by {
      assert AmbiguousCue[5] == '.';
    }
    MatchCueWithoutFirstHour(AnyButNewline, AmbiguousCue);
  }
}
