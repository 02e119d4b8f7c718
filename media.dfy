/** The JSON shapes the downloaders read from the course and lecture APIs, and what they write. */
module Media {
  import opened Basics

  /** One entry of `video.videos`: an alternative encode of the lecture. */
  datatype Video = Video(link: string, size: int, height: Option<int>)

  /** `height > 720` holds: the encode is taller than 720 lines. */
  predicate Tall(v: Video)
  {
    v.height.Some? && v.height.value > 720
  }

  /** `height > 720` is false although the height is present. */
  predicate Short(v: Video)
  {
    v.height.Some? && v.height.value <= 720
  }

  /** One entry of `video.subtitles`. */
  datatype Subtitle = Subtitle(link: string, language: string)

  /** The lecture-metadata response: `title`, `video.videos`, `video.subtitles` (absent lists as empty). */
  datatype LectureInfo = LectureInfo(title: string, videos: seq<Video>, subtitles: seq<Subtitle>)

  /** One entry of a chapter's `items`: `type`, `chapterNumber`, `content._id`. */
  datatype Item = Item(kind: Option<string>, chapterNumber: nat, lectureId: string)

  /** One element of the course-items response; `items` may be absent. */
  datatype Chapter = Chapter(items: Option<seq<Item>>)

  /** One planned download: where it comes from and the file it is written to. */
  datatype Transfer = Transfer(url: string, path: string)

  /** One planned subtitle: downloaded to `vttPath`, converted into `srtPath`. */
  datatype SubtitleJob = SubtitleJob(url: string, vttPath: string, srtPath: string)

  /** What one lecture task writes: at most one video and one job per subtitle track. */
  datatype LecturePlan = LecturePlan(video: Option<Transfer>, subtitles: seq<SubtitleJob>)
}
