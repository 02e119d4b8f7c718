/**
 * The pure core of lib/index.js: which encode of a lecture is downloaded,
 * the replacement of the first '/' in folder and file names, the names of the
 * files a lecture task writes, and the WebVTT to SubRip conversion.
 */
module LibIndex {
  import opened Basics
  import opened Text
  import opened Media
  import opened WebVtt
  import opened SubRip
  import Python = LibVideoDownloader

  // ------------------------------------------------------------------
  // Choosing the encode

  /**
   * `videos.find(item => item.height > 720)`: the first tall encode, or none;
   * a missing height is `undefined`, which compares false.
   */
  function FindVideo(videos: seq<Video>): (r: Option<Video>)
    ensures r.None? <==> forall j :: 0 <= j < |videos| ==> !Tall(videos[j])
    ensures r.Some? ==> exists k :: (0 <= k < |videos| && videos[k] == r.value && Tall(videos[k])
                                     && forall j :: 0 <= j < k ==> !Tall(videos[j]))
  {
    if videos == [] then None
    else if Tall(videos[0]) then Some(videos[0])
    else
      var r := FindVideo(videos[1..]);
      assert forall j :: 1 <= j < |videos| ==> videos[j] == videos[1..][j - 1];
      r
  }

  /** Where every encode has a height, the two libraries choose the same one. */
  lemma {:induction false} ChoicesAgree(videos: seq<Video>)
    requires forall j :: 0 <= j < |videos| ==> videos[j].height.Some?
    ensures Python.ChooseVideo(videos) == Ok(FindVideo(videos))
  {
    if videos != [] {
      assert forall j :: 0 <= j < |videos| - 1 ==> videos[1..][j] == videos[j + 1];
      ChoicesAgree(videos[1..]);
    }
  }

  /**
   * A missing height before any tall encode: lib/VideoDownloader.py gives up
   * on the lecture, lib/index.js passes over that encode.
   */
  lemma ChoicesDiffer(videos: seq<Video>, k: nat)
    requires k < |videos| && videos[k].height.None?
    requires forall j :: 0 <= j < k ==> Short(videos[j])
    ensures Python.ChooseVideo(videos) == Err(TypeError)
    ensures FindVideo(videos) == FindVideo(videos[k + 1..])
  {
    Python.ChooseVideoMissingHeight(videos, k);
    assert forall j :: 0 <= j < k + 1 ==> !Tall(videos[j]) by {
      forall j | 0 <= j < k + 1 ensures !Tall(videos[j]) {
        if j < k { assert Short(videos[j]); }
      }
    }
    SkipShort(videos, k + 1);
  }

  /** Encodes that are not tall at the front do not change the choice. */
  lemma {:induction false} SkipShort(videos: seq<Video>, n: nat)
    requires n <= |videos|
    requires forall j :: 0 <= j < n ==> !Tall(videos[j])
    ensures FindVideo(videos) == FindVideo(videos[n..])
  {
    if n > 0 {
      assert forall j :: 0 <= j < n - 1 ==> videos[1..][j] == videos[j + 1];
      SkipShort(videos[1..], n - 1);
      assert videos[1..][n - 1..] == videos[n..];
    }
  }

  // ------------------------------------------------------------------
  // Names

  /** `s.replace('/', '-')`: JavaScript replaces only the first occurrence of a string pattern. */
  function SlashToDash(s: string): (r: string)
    ensures |r| == |s|
    ensures '/' !in s ==> r == s
    ensures '/' in s ==> exists k :: (0 <= k < |s| && s[k] == '/' && '/' !in s[..k]
                                      && r[k] == '-' && r[..k] == s[..k] && r[k + 1..] == s[k + 1..])
  {
    ReplaceFirst(s, '/', '-')
  }

  /** A second '/' survives, so the video path gains a directory level the title did not mean. */
  lemma SecondSlashKept(s: string, i: nat, j: nat)
    requires i < j < |s| && s[i] == '/' && s[j] == '/'
    ensures SlashToDash(s)[j] == '/'
  {
    ReplaceFirstKeepsLater(s, '/', '-', i, j);
  }

  /** `${chapterNumber}-${title}.${subtitle.language}` with the title's first '/' replaced. */
  function SubtitleName(chapterNumber: nat, title: string, language: string): string
  {
    NatToString(chapterNumber) + "-" + SlashToDash(title) + "." + language
  }

  /**
   * The subtitle downloads of one lecture: each is fetched to
   * `${fileName}.vtt` in the working directory and converted into
   * `${folderName}/${fileName}.srt`.
   */
  function SubtitleJobs(folderName: string, chapterNumber: nat, title: string, subtitles: seq<Subtitle>): (jobs: seq<SubtitleJob>)
    ensures |jobs| == |subtitles|
    ensures forall i :: 0 <= i < |jobs| ==> (jobs[i].url == subtitles[i].link
      && jobs[i].vttPath == SubtitleName(chapterNumber, title, subtitles[i].language) + ".vtt"
      && jobs[i].srtPath == folderName + "/" + jobs[i].vttPath[..|jobs[i].vttPath| - 4] + ".srt")
  {
    if subtitles == [] then []
    else
      var name := SubtitleName(chapterNumber, title, subtitles[0].language);
      assert (name + ".vtt")[..|name + ".vtt"| - 4] == name;
      [SubtitleJob(subtitles[0].link, name + ".vtt", folderName + "/" + name + ".srt")]
        + SubtitleJobs(folderName, chapterNumber, title, subtitles[1..])
  }

  /**
   * The body of the item loop of `download`, for the course titled
   * `courseTitle`: the folder is the title with its first '/' replaced, the
   * chosen encode goes to `${folderName}/${chapterNumber}-${title}.mp4`, then
   * every subtitle is fetched and converted.
   */
  function PlanLecture(courseTitle: string, chapterNumber: nat, info: LectureInfo): (p: LecturePlan)
    ensures p.subtitles == SubtitleJobs(SlashToDash(courseTitle), chapterNumber, info.title, info.subtitles)
    ensures p.video.Some? <==> exists k :: 0 <= k < |info.videos| && Tall(info.videos[k])
    ensures p.video.Some? ==> p.video.value.url == FindVideo(info.videos).value.link
    ensures p.video.Some? ==>
      p.video.value.path == SlashToDash(courseTitle) + "/" + NatToString(chapterNumber) + "-" + SlashToDash(info.title) + ".mp4"
  {
    var folderName := SlashToDash(courseTitle);
    var video := match FindVideo(info.videos)
      case None => None
      case Some(v) => Some(Transfer(v.link, folderName + "/" + NatToString(chapterNumber) + "-" + SlashToDash(info.title) + ".mp4"));
    LecturePlan(video, SubtitleJobs(folderName, chapterNumber, info.title, info.subtitles))
  }

  // ------------------------------------------------------------------
  // Subtitle conversion

  /**
   * `vtt2srt`: the signature pass keeping `$2`, then the cue pass with the
   * escaped `\.`, whose callback numbers each match and re-applies the
   * pattern to the match's own text.
   */
  method Vtt2Srt(source: string) returns (srt: string)
    ensures srt == Convert(LiteralDot, StripSignature(source))
  {
    var srtString := StripSignature(source);
    srt := SubstituteCues(LiteralDot, srtString);
  }
}
