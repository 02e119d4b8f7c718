/**
 * The pure core of lib/VideoDownloader.py: which encode of a lecture is
 * downloaded, the names of the files a lecture task writes, and the WebVTT to
 * SubRip conversion with its unescaped `.` between seconds and milliseconds.
 */
module LibVideoDownloader {
  import opened Basics
  import opened Text
  import opened Media
  import opened WebVtt
  import opened SubRip

  // ------------------------------------------------------------------
  // Choosing the encode

  /**
   * `next((v for v in videos if v.get('height') > 720), None)`: the generator
   * stops at the first tall encode; comparing a missing height (`None`) with
   * 720 raises TypeError in Python 3, so the encodes before it must be short.
   */
  function ChooseVideo(videos: seq<Video>): (r: Result<Option<Video>>)
    ensures r.Err? ==> r.error == TypeError
    ensures r.Err? ==> exists k :: (0 <= k < |videos| && videos[k].height.None?
                                    && forall j :: 0 <= j < k ==> Short(videos[j]))
    ensures r.Ok? && r.value.Some? ==> exists k :: (0 <= k < |videos| && videos[k] == r.value.value && Tall(videos[k])
                                                    && forall j :: 0 <= j < k ==> Short(videos[j]))
    ensures r == Ok(None) <==> forall j :: 0 <= j < |videos| ==> Short(videos[j])
  {
    if videos == [] then Ok(None)
    else if videos[0].height.None? then Err(TypeError)
    else if videos[0].height.value > 720 then Ok(Some(videos[0]))
    else
      var r := ChooseVideo(videos[1..]);
      assert forall j :: 1 <= j < |videos| ==> videos[j] == videos[1..][j - 1];
      r
  }

  /** Encodes of at most 720 lines before the first tall one are passed over, and that one is taken. */
  lemma {:induction false} ChooseVideoFirstTall(videos: seq<Video>, k: nat)
    requires k < |videos| && Tall(videos[k])
    requires forall j :: 0 <= j < k ==> Short(videos[j])
    ensures ChooseVideo(videos) == Ok(Some(videos[k]))
  {
    if k > 0 {
      assert Short(videos[0]);
      assert videos[1..][k - 1] == videos[k];
      assert forall j :: 0 <= j < k - 1 ==> videos[1..][j] == videos[j + 1];
      ChooseVideoFirstTall(videos[1..], k - 1);
    }
  }

  /** A missing height reached before any tall encode aborts the lecture. */
  lemma {:induction false} ChooseVideoMissingHeight(videos: seq<Video>, k: nat)
    requires k < |videos| && videos[k].height.None?
    requires forall j :: 0 <= j < k ==> Short(videos[j])
    ensures ChooseVideo(videos) == Err(TypeError)
  {
    if k > 0 {
      assert Short(videos[0]);
      assert videos[1..][k - 1] == videos[k];
      assert forall j :: 0 <= j < k - 1 ==> videos[1..][j] == videos[j + 1];
      ChooseVideoMissingHeight(videos[1..], k - 1);
    }
  }

  // ------------------------------------------------------------------
  // One lecture

  /** `f"{chapterNumber}-{title}.{subtitle['language']}"`: the title is used as it comes. */
  function SubtitleName(chapterNumber: nat, title: string, language: string): string
  {
    NatToString(chapterNumber) + "-" + title + "." + language
  }

  /**
   * The subtitle downloads of one lecture: each is fetched to
   * `{fileName}.vtt` in the working directory and converted into
   * `{folderName}/{fileName}.srt`.
   */
  function SubtitleJobs(folderName: string, chapterNumber: nat, title: string, subtitles: seq<Subtitle>): (jobs: seq<SubtitleJob>)
    ensures |jobs| == |subtitles|
    ensures forall i :: 0 <= i < |jobs| ==> (jobs[i].url == subtitles[i].link
      && jobs[i].vttPath == SubtitleName(chapterNumber, title, subtitles[i].language) + ".vtt"
      && jobs[i].srtPath == folderName + "/" + jobs[i].vttPath[..|jobs[i].vttPath| - 4] + ".srt")
  {
    if subtitles == [] then []
    else
      var name := SubtitleName(chapterNumber, title, subtitles[0].language);
      assert (name + ".vtt")[..|name + ".vtt"| - 4] == name;
      [SubtitleJob(subtitles[0].link, name + ".vtt", folderName + "/" + name + ".srt")]
        + SubtitleJobs(folderName, chapterNumber, title, subtitles[1..])
  }

  /**
   * The body of the item loop of `download`: the chosen encode goes to
   * `{folderName}/{chapterNumber}-{title}.mp4`, then every subtitle is
   * fetched and converted; a TypeError from the choice ends the item.
   */
  function PlanLecture(folderName: string, chapterNumber: nat, info: LectureInfo): (r: Result<LecturePlan>)
    ensures r.Err? <==> ChooseVideo(info.videos).Err?
    ensures r.Err? ==> r.error == TypeError
    ensures r.Ok? ==> r.value.subtitles == SubtitleJobs(folderName, chapterNumber, info.title, info.subtitles)
    ensures r.Ok? ==> (r.value.video.Some? <==> exists k :: 0 <= k < |info.videos| && Tall(info.videos[k]))
    ensures r.Ok? && r.value.video.Some? ==>
      r.value.video.value.path == folderName + "/" + NatToString(chapterNumber) + "-" + info.title + ".mp4"
    ensures r.Ok? && r.value.video.Some? ==> r.value.video.value.url == ChooseVideo(info.videos).value.value.link
  {
    match ChooseVideo(info.videos)
    case Err(e) => Err(e)
    case Ok(choice) =>
      var video := match choice
        case None => None
        case Some(v) => Some(Transfer(v.link, folderName + "/" + NatToString(chapterNumber) + "-" + info.title + ".mp4"));
      assert choice.None? ==> forall k :: 0 <= k < |info.videos| ==> !Tall(info.videos[k]);
      Ok(LecturePlan(video, SubtitleJobs(folderName, chapterNumber, info.title, info.subtitles)))
  }

  // ------------------------------------------------------------------
  // Subtitle conversion

  /**
   * `vtt2srt`: the signature pass, then the cue pass with the unescaped
   * `.` of the pattern, whose `replaceItem` numbers each match and
   * re-applies the pattern to the match's own text.
   */
  method Vtt2Srt(source: string) returns (srt: string)
    ensures srt == Convert(AnyButNewline, StripSignature(source))
  {
    var t := StripSignature(source);
    srt := SubstituteCues(AnyButNewline, t);
  }
}
