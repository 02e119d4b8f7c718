/**
 * The pure core of downloader.py: which items of a course are lectures, which
 * encode of a lecture is downloaded, the names of the files it writes, and the
 * WebVTT to SubRip conversion of its subtitles.
 */
module Downloader {
  import opened Basics
  import opened Text
  import opened Media
  import opened WebVtt
  import opened SubRip

  // ------------------------------------------------------------------
  // Lecture titles

  /** The characters `[\\/:*?<>|]` that may not appear in a file name. */
  predicate IsForbidden(c: char)
  {
    c == '\\' || c == '/' || c == ':' || c == '*' || c == '?' || c == '<' || c == '>' || c == '|'
  }

  function SanitizeChar(c: char): char
  {
    if IsForbidden(c) then '-' else c
  }

  /** `format_lecture_title`: `re.sub(r"[\\/:*?<>|]", "-", title)`. */
  function FormatLectureTitle(title: string): (r: string)
    ensures |r| == |title|
    ensures forall i :: 0 <= i < |r| ==> !IsForbidden(r[i])
    ensures forall i :: 0 <= i < |r| ==> (if IsForbidden(title[i]) then r[i] == '-' else r[i] == title[i])
  {
    if title == [] then []
    else [SanitizeChar(title[0])] + FormatLectureTitle(title[1..])
  }

  /** A sanitised title is left alone by a second sanitisation. */
  lemma FormatLectureTitleIdempotent(title: string)
    ensures FormatLectureTitle(FormatLectureTitle(title)) == FormatLectureTitle(title)
  {
    var r := FormatLectureTitle(title);
    var rr := FormatLectureTitle(r);
    assert forall i :: 0 <= i < |rr| ==> rr[i] == r[i];
  }

  /** A title without forbidden characters is kept as it is. */
  lemma FormatLectureTitleKeepsClean(title: string)
    requires forall i :: 0 <= i < |title| ==> !IsForbidden(title[i])
    ensures FormatLectureTitle(title) == title
  {
    var r := FormatLectureTitle(title);
    assert forall i :: 0 <= i < |r| ==> r[i] == title[i];
  }

  // ------------------------------------------------------------------
  // Choosing the encode

  /** The position `sorted(videos, key=size)[-1]` takes: the last of the largest sizes. */
  function LastLargest(videos: seq<Video>): (k: nat)
    requires |videos| > 0
    ensures k < |videos|
    ensures forall j :: 0 <= j < |videos| ==> videos[j].size <= videos[k].size
    ensures forall j :: k < j < |videos| ==> videos[j].size < videos[k].size
  {
    if |videos| == 1 then 0
    else
      var k := LastLargest(videos[..|videos| - 1]);
      if videos[|videos| - 1].size >= videos[k].size then |videos| - 1 else k
  }

  /** Only one position is a largest size with nothing as large after it. */
  lemma LastLargestUnique(videos: seq<Video>, k: nat)
    requires k < |videos|
    requires forall j :: 0 <= j < |videos| ==> videos[j].size <= videos[k].size
    requires forall j :: k < j < |videos| ==> videos[j].size < videos[k].size
    ensures LastLargest(videos) == k
  {
  }

  /**
   * `select_best_quality_video`: the stable sort by size keeps equal sizes in
   * list order, so the last element is the last of the largest; indexing the
   * sorted empty list raises IndexError.
   */
  function SelectBestQualityVideo(videos: seq<Video>): (r: Result<Video>)
    ensures r.Err? <==> videos == []
    ensures r.Err? ==> r.error == IndexError
    ensures r.Ok? ==> exists k :: (0 <= k < |videos| && videos[k] == r.value
                                   && (forall j :: 0 <= j < |videos| ==> videos[j].size <= r.value.size)
                                   && (forall j :: k < j < |videos| ==> videos[j].size < r.value.size))
  {
    if videos == [] then Err(IndexError) else Ok(videos[LastLargest(videos)])
  }

  /** Appending a strictly larger encode makes it the choice; an equal one wins too, being later. */
  lemma SelectLaterOfEqualSize(videos: seq<Video>, v: Video)
    requires forall j :: 0 <= j < |videos| ==> videos[j].size <= v.size
    ensures SelectBestQualityVideo(videos + [v]) == Ok(v)
  {
    var w := videos + [v];
    LastLargestUnique(w, |videos|);
  }

  // ------------------------------------------------------------------
  // File names

  /** No '/' in s: a name that stays in the folder it is put in. */
  predicate SlashFree(s: string)
  {
    forall k :: 0 <= k < |s| ==> s[k] != '/'
  }

  lemma SlashFreeAppend(a: string, b: string)
    requires SlashFree(a) && SlashFree(b)
    ensures SlashFree(a + b)
  {
    forall k | 0 <= k < |a + b| ensures (a + b)[k] != '/' {
      if k >= |a| { assert (a + b)[k] == b[k - |a|]; }
    }
  }

  /** `{chapter_number}-{format_lecture_title}`: digits, a dash and the sanitised title, none of them a '/'. */
  lemma LectureNameSlashFree(chapterNumber: nat, title: string)
    ensures SlashFree(NatToString(chapterNumber) + "-" + FormatLectureTitle(title))
  {
    var d := NatToString(chapterNumber);
    assert SlashFree(d) by {
      forall k | 0 <= k < |d| ensures d[k] != '/' { assert IsDigit(d[k]); }
    }
    assert SlashFree(FormatLectureTitle(title)) by {
      forall k | 0 <= k < |FormatLectureTitle(title)| ensures FormatLectureTitle(title)[k] != '/' {
        assert !IsForbidden(FormatLectureTitle(title)[k]);
      }
    }
    SlashFreeAppend(d, "-");
    SlashFreeAppend(d + "-", FormatLectureTitle(title));
  }

  lemma SubtitleNameSlashFree(chapterNumber: nat, title: string, language: string)
    ensures SlashFree(language) ==> SlashFree(NatToString(chapterNumber) + "-" + FormatLectureTitle(title) + "." + language + ".vtt")
  {
    if SlashFree(language) {
      var name := NatToString(chapterNumber) + "-" + FormatLectureTitle(title);
      LectureNameSlashFree(chapterNumber, title);
      SlashFreeAppend(name, ".");
      SlashFreeAppend(name + ".", language);
      SlashFreeAppend(name + "." + language, ".vtt");
    }
  }

  /**
   * `f"{course_path}/{chapter_number}-{format_lecture_title}.mp4"`: an `.mp4`
   * file directly inside the course folder, whatever the title holds.
   */
  function VideoFilename(coursePath: string, chapterNumber: nat, title: string): (r: string)
    ensures |r| > |coursePath| + 4 && r[..|coursePath| + 1] == coursePath + "/" && r[|r| - 4..] == ".mp4"
    ensures SlashFree(r[|coursePath| + 1..])
  {
    var name := NatToString(chapterNumber) + "-" + FormatLectureTitle(title);
    LectureNameSlashFree(chapterNumber, title);
    SlashFreeAppend(name, ".mp4");
    var r := coursePath + "/" + (name + ".mp4");
    assert r[..|coursePath| + 1] == coursePath + "/" && r[|coursePath| + 1..] == name + ".mp4";
    r
  }

  /** `f"{course_path}/{chapter_number}-{format_lecture_title}.{language}.vtt"`, without the suffix. */
  function SubtitleStem(coursePath: string, chapterNumber: nat, title: string, language: string): string
  {
    coursePath + "/" + NatToString(chapterNumber) + "-" + FormatLectureTitle(title) + "." + language
  }

  /**
   * The path a subtitle is fetched to: a `.vtt` file, directly inside the
   * course folder unless the language code itself holds a '/'.
   */
  function SubtitleFilename(coursePath: string, chapterNumber: nat, title: string, language: string): (r: string)
    ensures |r| > |coursePath| + 4 && r[..|coursePath| + 1] == coursePath + "/" && r[|r| - 4..] == ".vtt"
    ensures SlashFree(language) ==> SlashFree(r[|coursePath| + 1..])
  {
    var name := NatToString(chapterNumber) + "-" + FormatLectureTitle(title);
    var r := SubtitleStem(coursePath, chapterNumber, title, language) + ".vtt";
    assert r == coursePath + "/" + (name + "." + language + ".vtt");
    assert r[..|coursePath| + 1] == coursePath + "/" && r[|coursePath| + 1..] == name + "." + language + ".vtt";
    SubtitleNameSlashFree(chapterNumber, title, language);
    r
  }

  /** `vtt_subtitle_path.replace(".vtt", ".srt")`: every occurrence, not only the suffix. */
  function SrtFilename(vttPath: string): (r: string)
    ensures |r| == |vttPath|
  {
    ReplaceAll(vttPath, ".vtt", ".srt")
  }

  /** `.vtt` at position i. */
  predicate VttAt(s: string, i: nat)
  {
    i + 4 <= |s| && s[i] == '.' && s[i + 1] == 'v' && s[i + 2] == 't' && s[i + 3] == 't'
  }

  lemma VttAtPrefix(s: string, i: nat)
    requires i <= |s|
    ensures ".vtt" <= s[i..] <==> VttAt(s, i)
  {
    if VttAt(s, i) {
      assert s[i..][..4] == ".vtt";
    }
  }

  /**
   * The converted subtitle sits beside the downloaded one, with `.srt` for
   * `.vtt`, whenever `.vtt` first occurs as the suffix of the path.
   */
  lemma SrtBesideVtt(stem: string)
    requires forall i :: 0 <= i < |stem| ==> !VttAt(stem + ".vtt", i)
    ensures SrtFilename(stem + ".vtt") == stem + ".srt"
  {
    forall i | 0 <= i < |stem| ensures !(".vtt" <= (stem + ".vtt" + [])[i..]) {
      assert stem + ".vtt" + [] == stem + ".vtt";
      VttAtPrefix(stem + ".vtt", i);
    }
    ReplaceAllAfter(stem, ".vtt", ".srt", []);
    assert stem + ".vtt" + [] == stem + ".vtt";
  }

  /**
   * A `.vtt` earlier in the path, as in a title `a.vtt`, is replaced as well:
   * `c/1-a.vtt.en.vtt` becomes `c/1-a.srt.en.srt`.
   */
  lemma SrtReplacesEveryVtt(p: string, q: string)
    requires forall i :: 0 <= i < |p| ==> !VttAt(p + ".vtt" + q + ".vtt", i)
    requires forall i :: 0 <= i < |q| ==> !VttAt(q + ".vtt", i)
    ensures SrtFilename(p + ".vtt" + q + ".vtt") == p + ".srt" + q + ".srt"
  {
    var whole := p + ".vtt" + (q + ".vtt");
    assert whole == p + ".vtt" + q + ".vtt";
    forall i | 0 <= i < |p| ensures !(".vtt" <= whole[i..]) {
      VttAtPrefix(whole, i);
    }
    ReplaceAllAfter(p, ".vtt", ".srt", q + ".vtt");
    SrtBesideVtt(q);
  }

  // ------------------------------------------------------------------
  // Lectures of a course

  predicate IsLecture(item: Item)
  {
    item.kind == Some("LECTURE")
  }

  /** The lectures among one chapter's items, in item order. */
  function Lectures(items: seq<Item>): seq<Item>
  {
    if items == [] then []
    else Lectures(items[..|items| - 1]) + (if IsLecture(items[|items| - 1]) then [items[|items| - 1]] else [])
  }

  /** `chapters.get("items", [])`: a chapter without items has no lectures. */
  function ChapterLectures(chapter: Chapter): seq<Item>
  {
    match chapter.items
    case None => []
    case Some(items) => Lectures(items)
  }

  /** The lectures of the course in chapter order, then item order. */
  function CourseLectures(chapters: seq<Chapter>): seq<Item>
  {
    if chapters == [] then []
    else CourseLectures(chapters[..|chapters| - 1]) + ChapterLectures(chapters[|chapters| - 1])
  }

  /** The lectures of a chapter are exactly its items whose type is `LECTURE`. */
  lemma {:induction false} LecturesMembers(items: seq<Item>, x: Item)
    ensures x in Lectures(items) <==> x in items && IsLecture(x)
  {
    if items != [] {
      var init := items[..|items| - 1];
      LecturesMembers(init, x);
      assert items == init + [items[|items| - 1]];
    }
  }

  /** x is among the items of the chapter. */
  predicate InChapter(chapter: Chapter, x: Item)
  {
    chapter.items.Some? && x in chapter.items.value
  }

  lemma ChapterLecturesMembers(chapter: Chapter, x: Item)
    ensures x in ChapterLectures(chapter) <==> InChapter(chapter, x) && IsLecture(x)
  {
    if chapter.items.Some? {
      LecturesMembers(chapter.items.value, x);
    }
  }

  lemma InSomeChapterSplit(chapters: seq<Chapter>, init: seq<Chapter>, x: Item)
    requires chapters != [] && init == chapters[..|chapters| - 1]
    ensures (exists c :: 0 <= c < |chapters| && InChapter(chapters[c], x))
      <==> (exists c :: 0 <= c < |init| && InChapter(init[c], x)) || InChapter(chapters[|init|], x)
  {
    if exists c :: 0 <= c < |chapters| && InChapter(chapters[c], x) {
      var c :| 0 <= c < |chapters| && InChapter(chapters[c], x);
      if c < |init| {
        assert init[c] == chapters[c];
      }
    }
    if exists c :: 0 <= c < |init| && InChapter(init[c], x) {
      var c :| 0 <= c < |init| && InChapter(init[c], x);
      assert init[c] == chapters[c];
    }
  }

  /**
   * An item is submitted exactly when it is a `LECTURE` item of a chapter
   * that has items.
   */
  lemma {:induction false} CourseLecturesMembers(chapters: seq<Chapter>, x: Item)
    ensures x in CourseLectures(chapters)
      <==> IsLecture(x) && exists c :: 0 <= c < |chapters| && InChapter(chapters[c], x)
  {
    if chapters != [] {
      var n := |chapters| - 1;
      CourseLecturesMembers(chapters[..n], x);
      ChapterLecturesMembers(chapters[n], x);
      InSomeChapterSplit(chapters, chapters[..n], x);
    }
  }

  lemma LecturesStep(items: seq<Item>, i: nat)
    requires i < |items|
    ensures Lectures(items[..i + 1]) == Lectures(items[..i]) + (if IsLecture(items[i]) then [items[i]] else [])
  {
    assert items[..i + 1][..i] == items[..i];
  }

  lemma CourseLecturesStep(chapters: seq<Chapter>, c: nat)
    requires c < |chapters|
    ensures CourseLectures(chapters[..c + 1]) == CourseLectures(chapters[..c]) + ChapterLectures(chapters[c])
  {
    assert chapters[..c + 1][..c] == chapters[..c];
  }

  /** The inner loop of `download_course_videos`: a task for each `LECTURE` item of one chapter, in order. */
  method SubmitChapter(items: seq<Item>) returns (submitted: seq<Item>)
    ensures submitted == Lectures(items)
  {
    submitted := [];
    var i := 0;
    while i < |items|
      invariant i <= |items|
      invariant submitted == Lectures(items[..i])
    {
      LecturesStep(items, i);
      if IsLecture(items[i]) {
        submitted := submitted + [items[i]];
      }
      i := i + 1;
    }
    assert items[..|items|] == items;
  }

  /**
   * The submission loop of `download_course_videos`: every chapter, every
   * item of it, and a task for each `LECTURE`, in that order.
   */
  method SubmitLectures(chapters: seq<Chapter>) returns (submitted: seq<Item>)
    ensures submitted == CourseLectures(chapters)
  {
    submitted := [];
    var c := 0;
    while c < |chapters|
      invariant c <= |chapters|
      invariant submitted == CourseLectures(chapters[..c])
    {
      var items := match chapters[c].items case None => [] case Some(its) => its;
      var lectures := SubmitChapter(items);
      CourseLecturesStep(chapters, c);
      submitted := submitted + lectures;
      c := c + 1;
    }
    assert chapters[..|chapters|] == chapters;
  }

  // ------------------------------------------------------------------
  // One lecture

  function SubtitleJobs(coursePath: string, chapterNumber: nat, info: LectureInfo): (jobs: seq<SubtitleJob>)
    ensures |jobs| == |info.subtitles|
    ensures forall i :: 0 <= i < |jobs| ==> (jobs[i].url == info.subtitles[i].link
                                          && jobs[i].vttPath == SubtitleFilename(coursePath, chapterNumber, info.title, info.subtitles[i].language)
                                          && jobs[i].srtPath == SrtFilename(jobs[i].vttPath))
    decreases |info.subtitles|
  {
    if info.subtitles == [] then []
    else
      var s := info.subtitles[0];
      var vtt := SubtitleFilename(coursePath, chapterNumber, info.title, s.language);
      [SubtitleJob(s.link, vtt, SrtFilename(vtt))] + SubtitleJobs(coursePath, chapterNumber, info.(subtitles := info.subtitles[1..]))
  }

  /** `download_lecture_video` once an encode is chosen: nothing when its link is empty. */
  function VideoTransfer(coursePath: string, chapterNumber: nat, title: string, best: Video): (t: Option<Transfer>)
    ensures t.Some? <==> best.link != []
    ensures t.Some? ==> t.value == Transfer(best.link, VideoFilename(coursePath, chapterNumber, title))
    ensures t.Some? ==> coursePath + "/" <= t.value.path && SlashFree(t.value.path[|coursePath| + 1..])
  {
    if best.link != [] then Some(Transfer(best.link, VideoFilename(coursePath, chapterNumber, title))) else None
  }

  /**
   * `process_lecture` as written: the video step runs first and its
   * IndexError on an empty encode list ends the lecture before any subtitle.
   */
  function ProcessLecture(coursePath: string, chapterNumber: nat, info: LectureInfo): (r: Result<LecturePlan>)
    ensures r.Err? <==> info.videos == []
    ensures r.Err? ==> r.error == IndexError
    ensures r.Ok? ==> r.value.subtitles == SubtitleJobs(coursePath, chapterNumber, info)
    ensures r.Ok? ==> r.value.video == VideoTransfer(coursePath, chapterNumber, info.title, SelectBestQualityVideo(info.videos).value)
  {
    match SelectBestQualityVideo(info.videos)
    case Err(e) => Err(e)
    case Ok(best) =>
      Ok(LecturePlan(VideoTransfer(coursePath, chapterNumber, info.title, best), SubtitleJobs(coursePath, chapterNumber, info)))
  }

  /** The evidently intended behaviour: an empty encode list skips the video step only, as the libraries do. */
  function ProcessLectureIntended(coursePath: string, chapterNumber: nat, info: LectureInfo): (p: LecturePlan)
    ensures p.subtitles == SubtitleJobs(coursePath, chapterNumber, info)
    ensures info.videos == [] ==> p.video.None?
  {
    match SelectBestQualityVideo(info.videos)
    case Err(_) => LecturePlan(None, SubtitleJobs(coursePath, chapterNumber, info))
    case Ok(best) => LecturePlan(VideoTransfer(coursePath, chapterNumber, info.title, best), SubtitleJobs(coursePath, chapterNumber, info))
  }

  /** Where the code gets through, it and the intended behaviour agree. */
  lemma ProcessLectureAgrees(coursePath: string, chapterNumber: nat, info: LectureInfo)
    requires info.videos != []
    ensures ProcessLecture(coursePath, chapterNumber, info) == Ok(ProcessLectureIntended(coursePath, chapterNumber, info))
  {
  }

  /** A lecture with subtitles but no encodes loses its subtitles in the code. */
  lemma ProcessLectureLosesSubtitles(coursePath: string, chapterNumber: nat, info: LectureInfo)
    requires info.videos == [] && info.subtitles != []
    ensures ProcessLecture(coursePath, chapterNumber, info).Err?
    ensures |ProcessLectureIntended(coursePath, chapterNumber, info).subtitles| == |info.subtitles| > 0
  {
  }

  // ------------------------------------------------------------------
  // Subtitle conversion

  /**
   * One call of `replacer`, or one character the substitution copies: given
   * the count of matches so far, what is written next, how far the scan
   * moves and the new count.
   */
  method ReplaceStep(t: string, i: nat, lineCounter: nat, ghost ts: seq<Token>, ghost j: nat)
    returns (piece: string, next: nat, counter: nat)
    requires j < |ts| && i == Offset(ts, j) && FoundAt(LiteralDot, t, ts, j)
    ensures ts[j].Cue? ==> piece == Numbered(lineCounter + 1, ts[j].m) && next == i + |Source(ts[j].m)| && counter == lineCounter + 1
    ensures ts[j].Verbatim? ==> piece == [ts[j].c] && next == i + 1 && counter == lineCounter
  {
    match MatchCue(LiteralDot, t[i..]) {
      case Some(m) =>
        assert ts[j] == Cue(m);
        counter := lineCounter + 1;
        piece := Numbered(counter, m);
        next := i + |Source(m)|;
      case None =>
        assert ts[j] == Verbatim(t[i]);
        counter := lineCounter;
        piece := [t[i]];
        next := i + 1;
    }
  }

  /**
   * `vtt2srt`: the signature pass, then one scan over the text in which
   * `line_counter[0]` counts the matches and each match is replaced by its
   * number, a newline and its rewritten timing line.
   */
  method Vtt2Srt(source: string) returns (srt: string)
    ensures srt == Convert(LiteralDot, StripSignature(source))
  {
    var t := StripSignature(source);
    ghost var ts := Tokens(LiteralDot, t);
    OffsetAtEnd(LiteralDot, t);
    var lineCounter: nat := 0;
    srt := "";
    var i: nat := 0;
    ghost var j: nat := 0;
    while i < |t|
      invariant j <= |ts| && i == Offset(ts, j)
      invariant srt == Render(ts[..j], 1) && lineCounter == CountCues(ts[..j])
      decreases |t| - i
    {
      if j == |ts| {
        assert false;
      }
      TokensLeftmost(LiteralDot, t, j);
      var piece, next, counter := ReplaceStep(t, i, lineCounter, ts, j);
      ScanStep(ts, j, i, lineCounter, piece, next, counter);
      srt, i, lineCounter, j := srt + piece, next, counter, j + 1;
      if j < |ts| { OffsetBeforeEnd(ts, j); }
    }
    if j < |ts| { OffsetBeforeEnd(ts, j); }
    RenderAll(ts);
  }
}
