# hahow-video-downloader, modelled in Dafny

The repository downloads the lectures of a Hahow course. For each lecture it
fetches the largest or the first tall enough video encode and the WebVTT
subtitles, and converts the subtitles to SubRip. It does this three times
over, in three near-duplicate programs:

- `downloader.py`, the main script;
- `lib/VideoDownloader.py`, an older Python library;
- `lib/index.js`, a JavaScript library.

This project models their pure core and proves what it computes:

- the course id each program takes from the configured course URL, and the
  libraries' guard against an empty id;
- the sanitisation of lecture titles and the names of the files each program
  writes;
- which video encode each program chooses;
- which course items `downloader.py` treats as lectures;
- the WebVTT → SubRip conversion. It deletes the `WEBVTT` signature where a
  timestamp follows it, then numbers and rewrites every cue-timing line.

Modules:

| file | module | models |
|---|---|---|
| basics.dfy | `Basics` | `Option`, `Result` and the exceptions on the modelled paths |
| text.dfy | `Text` | characters, decimal numbers, `str.replace`, JavaScript's first-occurrence `replace` |
| media.dfy | `Media` | the JSON shapes (encodes, subtitles, items, chapters) and the planned downloads |
| course_url.dfy | `CourseUrl` | `extract_course_id`, both libraries' `getCourseId`, and the empty-id guards |
| webvtt.dfy | `WebVtt` | the signature pass and a hand-written matcher for the cue-timing pattern |
| subrip.dfy | `SubRip` | the cue pass: leftmost non-overlapping matches, numbering and rewriting |
| downloader.dfy | `Downloader` | the rest of `downloader.py` |
| lib_video_downloader.dfy | `LibVideoDownloader` | the rest of `lib/VideoDownloader.py` |
| lib_index.dfy | `LibIndex` | the rest of `lib/index.js` |

The regular expressions are modelled pattern by pattern, each as the call that
uses it does:

- **Substitution passes** (the signature pass, the cue pass and
  `format_lecture_title`'s `re.sub`). A scanner tries start positions left to
  right and takes the leftmost match. After a match it resumes at the match's
  end; otherwise it copies one character and moves on.
- **`extract_course_id`** uses `re.match`, which is anchored: only position 0
  is tried (`CourseUrl.ExtractCourseId`).
- **Both `getCourseId`** are one search (`re.search`, `String.match` without
  `g`). They take the first match and never resume (`CourseUrl.SearchCourseSegment`).
- **Optional hour groups.** For each of them the taken branch is tried before
  the skipped one, as a backtracking engine does. With `\.` at most one match
  can start at a position (`WebVtt.DotMatchUnique`). With the unescaped `.` two
  can, and that order decides which one is used (`WebVtt.AnyMatchAmbiguous`).

- **`.` between seconds and milliseconds.** The cue pattern is shared. Its
  `\.` is a literal dot in `downloader.py` and `lib/index.js`; in
  `lib/VideoDownloader.py` it is an unescaped `.`, which matches any character
  but a newline (`WebVtt.Separator`).
- **The conversion loops.** Each `vtt2srt` (the `re.sub` / `String.replace`
  with a callback that bumps a counter) is a `method` with a `while` loop over
  the text. The loop carries that counter. Each loop is proved equal to
  `SubRip.Convert`: the text cut into tokens (`SubRip.Tokens`), each match
  rewritten and numbered in order, and every other character copied.

Where the code departs from what it evidently intends, the model follows the code:

- **Empty list of encodes.** The evidently intended behaviour, and what both
  libraries do, is to skip the video of a lecture with no encodes and keep its
  subtitles. In `downloader.py`, `sorted(videos)[-1]` raises
  `IndexError` instead. That ends `process_lecture` before any subtitle is
  fetched (see Findings).
- **Space before the arrow.** A SubRip timing line normally has one space before
  `-->`. In the code, group `p3` keeps the whitespace that matched before the
  arrow, and the replacement adds a space of its own. So `00:12.500 --> 00:15.000`
  becomes `00:00:12,500  --> 00:00:15,000`, with two spaces
  (`SubRip.ReplaceTimeCodesOfMatch`).

## Model

| member | source | states |
|---|---|---|
| `CourseUrl.ExtractCourseId` | downloader.py:18-22 | the URL is accepted iff it starts with `https://hahow` + any non-newline character + `in/courses/` and a non-'/' follows; the id is then the maximal non-empty run of non-'/' characters there; otherwise ValueError |
| `CourseUrl.ExtractCourseIdOfCourseUrl` | downloader.py:19 | every `https://hahow.in/courses/<id>` URL, optionally followed by `/…`, yields exactly `<id>` |
| `CourseUrl.SegmentEnd` | downloader.py:19 | `[^/]+` ends at the first '/' or at the end of the text, and covers no '/' |
| `CourseUrl.SegmentAtUnique` | downloader.py:19 | the maximal slash-free run from a position is unique |
| `CourseUrl.FirstIdStart` | lib/VideoDownloader.py:54 | the search finds the leftmost position where `courses/` followed by a non-'/' starts, or reports that there is none |
| `CourseUrl.SearchCourseSegment` | lib/VideoDownloader.py:54 | `re.search(r"courses\/([^/]+)", url)` is None iff no position matches; otherwise group 1 is the segment after the leftmost match |
| `CourseUrl.GetCourseId` | lib/VideoDownloader.py:52-55 | `getCourseId` (the same in lib/index.js:58-62) is `''` iff the search finds nothing, otherwise the segment after the leftmost `courses/` |
| `CourseUrl.CourseTitleRequest` | lib/VideoDownloader.py:57-61 | an empty id raises before any request (also lib/index.js:64-70); otherwise the request URL is the courses endpoint followed by the id |
| `CourseUrl.CourseItemsRequest` | lib/VideoDownloader.py:69-73 | the same guard before the items request (also lib/index.js:78-84) |
| `CourseUrl.RequestsGuarded` | lib/index.js:58-84 | both requests are refused exactly when the configured URL has no course segment; otherwise they ask for the course the search found |
| `CourseUrl.SearchAgreesOnAcceptedUrls` | lib/VideoDownloader.py:54 | on every URL `downloader.py` accepts, the libraries' search finds the same id |
| `CourseUrl.SearchAcceptsMoreThanMatch` | lib/index.js:60 | the search accepts `courses/abc`, which the anchored match of `downloader.py` rejects |
| `CourseUrl.GetCourseIdOfCourseUrl` | lib/index.js:58-62 | a course page URL gives the libraries its id, and the guard lets the requests through |
| `Downloader.FormatLectureTitle` | downloader.py:88-89 | same length; each of `\ / : * ? < > \|` becomes '-', every other character stays in place, so none of them remains |
| `Downloader.FormatLectureTitleIdempotent` | downloader.py:88-89 | sanitising twice equals sanitising once |
| `Downloader.FormatLectureTitleKeepsClean` | downloader.py:89 | a title without forbidden characters is unchanged |
| `Downloader.LastLargest` | downloader.py:92-93 | the last element of the stable sort by size: a largest size, with only strictly smaller sizes after it |
| `Downloader.LastLargestUnique` | downloader.py:92-93 | exactly one position has those two properties |
| `Downloader.SelectBestQualityVideo` | downloader.py:91-93 | IndexError iff the list is empty; otherwise an element of maximal size, the last such in list order |
| `Downloader.SelectLaterOfEqualSize` | downloader.py:92 | an encode appended with a size at least every other's is chosen, even when it only ties |
| `Downloader.VideoFilename` | downloader.py:83-85 | the video path is `{course}/` followed by a name ending in `.mp4` that holds no '/', so the file lies directly in the course folder whatever the title holds |
| `Downloader.SubtitleFilename` | downloader.py:100 | the subtitle path is `{course}/` followed by a name ending in `.vtt`, with no '/' in the name unless the language code holds one |
| `Downloader.VideoTransfer` | downloader.py:80-86 | a video is downloaded iff the chosen encode's link is non-empty, to `{course}/{chapter}-{sanitised title}.mp4`, a path with no '/' after `{course}/` |
| `Downloader.SrtFilename` | downloader.py:105 | the `.srt` path has the length of the `.vtt` path |
| `Downloader.VttAtPrefix` | downloader.py:105 | `.vtt` is a prefix of the text at i iff its four characters stand at i |
| `Downloader.SrtBesideVtt` | downloader.py:100-105 | when `.vtt` first occurs as the suffix, the `.srt` path is the subtitle path with the suffix swapped |
| `Downloader.SrtReplacesEveryVtt` | downloader.py:105 | an earlier `.vtt` (in the title, say) is replaced too: `p.vtt q.vtt` becomes `p.srt q.srt` |
| `Downloader.Lectures` | downloader.py:52-53 | no contract of its own; its meaning is stated by `Downloader.LecturesMembers` |
| `Downloader.ChapterLectures` | downloader.py:52-53 | no contract of its own; its meaning is stated by `Downloader.ChapterLecturesMembers` |
| `Downloader.CourseLectures` | downloader.py:51-54 | no contract of its own; its meaning is stated by `Downloader.CourseLecturesMembers` and `Downloader.SubmitLectures` |
| `Downloader.IsLecture` | downloader.py:53 | no contract of its own: `item.get("type") == "LECTURE"`, a missing type being no lecture; its meaning is stated by `Downloader.LecturesMembers` |
| `Downloader.LecturesMembers` | downloader.py:52-53 | an item is kept iff it is among the chapter's items and its type is `LECTURE` |
| `Downloader.ChapterLecturesMembers` | downloader.py:52 | a chapter without `items` contributes nothing; otherwise its `LECTURE` items |
| `Downloader.CourseLecturesMembers` | downloader.py:51-54 | a task is submitted for an item iff it is a `LECTURE` item of some chapter |
| `Downloader.SubmitChapter` | downloader.py:52-54 | the inner loop submits the chapter's `LECTURE` items in item order |
| `Downloader.SubmitLectures` | downloader.py:51-54 | the nested loops submit the course's `LECTURE` items in chapter order, then item order |
| `Downloader.SubtitleJobs` | downloader.py:95-102 | one job per subtitle, in order: its link, `{course}/{chapter}-{sanitised title}.{language}.vtt`, and that path with `.vtt` replaced by `.srt` |
| `Downloader.ProcessLecture` | downloader.py:69-74 | as written: fails with IndexError iff the lecture has no encodes; otherwise the video transfer of the chosen encode and every subtitle job |
| `Downloader.ProcessLectureIntended` | downloader.py:73-74 | corrected: the subtitle jobs always, and no video when there are no encodes |
| `Downloader.ProcessLectureAgrees` | downloader.py:73-74 | with at least one encode, the code and the corrected version agree |
| `Downloader.ProcessLectureLosesSubtitles` | downloader.py:91-93 | with no encodes but some subtitles, the code fails while the corrected version keeps the subtitles |
| `Downloader.ReplaceStep` | downloader.py:136-143 | one call of `replacer` bumps the counter and writes `{counter}\n` plus the rewritten timing line; a character outside any match is copied |
| `Downloader.Vtt2Srt` | downloader.py:126-146 | the result is the signature pass followed by the cue pass with the escaped `\.` |
| `WebVtt.SpaceEnd` | downloader.py:127 | `\s+` runs to the first non-whitespace character |
| `WebVtt.SignatureMatch` | downloader.py:127 | a match of `(WEBVTT\s+)(\d{2}:)` at the start of the text covers the signature, whitespace and two digits with a colon |
| `WebVtt.SignatureMatchComplete` | downloader.py:127 | wherever the signature, whitespace, two digits and a colon stand, the pattern matches to exactly there |
| `WebVtt.StripSignature` | downloader.py:133 | the signature pass never lengthens the text |
| `WebVtt.StripSignatureBeforeTimestamp` | downloader.py:133 | `WEBVTT` plus whitespace before `DD:` is deleted and the digits are kept (also lib/VideoDownloader.py:102 with `\1`, lib/index.js:121 with `$2`) |
| `WebVtt.StripSignatureAbsent` | downloader.py:133 | a text without `WEBVTT` is unchanged |
| `WebVtt.StripSignatureUnmatched` | downloader.py:133 | the text before the first match is copied unchanged |
| `WebVtt.StripSignatureKeepsOther` | downloader.py:133 | `WEBVTT` not followed by whitespace and a timestamp stays in place |
| `WebVtt.MatchCue` | downloader.py:129 | what the cue pattern matches at the start of the text is a well-formed match of it, covering a prefix of the text |
| `WebVtt.Trial` | downloader.py:129 | no contract of its own: one choice of taking or skipping each optional hour group; its meaning is stated by `WebVtt.TrialComplete` and the soundness clause of `WebVtt.MatchCue` |
| `WebVtt.MatchCueComplete` | downloader.py:129 | every well-formed timing line is matched, whatever follows it |
| `WebVtt.MatchCueOnOwnText` | lib/VideoDownloader.py:107 | applying the pattern to a match's own text gives the same match |
| `WebVtt.TrialComplete` | downloader.py:129 | a well-formed timing line followed by any text is matched by the branch of its own hour groups, and the trailing `\s*` takes all the whitespace that follows |
| `WebVtt.DotMatchUnique` | downloader.py:129 | with `\.` any two matches of the pattern at the same position are equal |
| `WebVtt.DotMatchCueIsTheMatch` | lib/index.js:119 | with `\.` the match found is exactly the one that exists |
| `WebVtt.AnyMatchAmbiguous` | lib/VideoDownloader.py:100 | with the unescaped `.` one text has two different matches at its start, and the one with the second hour group taken is used |
| `SubRip.PadHourOfClock` | downloader.py:139-142 | a one-colon timestamp gets `00:`, a two-colon one is kept; both end with hours |
| `SubRip.ClockColons` | downloader.py:139 | `p.split(":")` has two parts exactly for an hour-less timestamp |
| `SubRip.PadHour` | downloader.py:139-142 | no contract of its own; its meaning is stated by `SubRip.PadHourOfClock` and `SubRip.ClockColons` |
| `SubRip.ReplaceTimeCodes` | lib/VideoDownloader.py:111-117 | no contract of its own (the same rewrite as the replacer at downloader.py:138-143); its meaning is stated by `SubRip.ReplaceTimeCodesOfMatch` |
| `SubRip.Numbered` | downloader.py:143 | no contract of its own: `f"{k}{separator}…"`, as built at lib/VideoDownloader.py:107; its meaning is stated by `SubRip.RenderNumbering` |
| `SubRip.SubTimeCodes` | lib/VideoDownloader.py:107 | no contract of its own: the inner substitution over `match.group(0)` (lib/index.js:125-133 too); its meaning is stated by `SubRip.SubTimeCodesOfMatch` |
| `Text.SplitParts` | downloader.py:139 | no contract of its own: `len(p.split(":"))` (`.split(':').length` in lib/index.js); its meaning is stated by `SubRip.ClockColons` |
| `SubRip.Tokens` | downloader.py:145 | no contract of its own: the leftmost non-overlapping matches of `re.sub`; its meaning is stated by `SubRip.TokensCover` and `SubRip.TokensLeftmost` |
| `SubRip.Render` | downloader.py:145 | no contract of its own; its meaning is stated by `SubRip.RenderNumbering`, `SubRip.RenderAppend` and `SubRip.RenderVerbatim` |
| `SubRip.Convert` | downloader.py:145 | no contract of its own: the cue pass numbering from 1; its meaning is stated by the lemmas on `Tokens` and `Render`, and the three `Vtt2Srt` loops are proved equal to it |
| `SubRip.ReplaceTimeCodesOfMatch` | lib/VideoDownloader.py:111-117 | `replaceTimeCodes` writes `p1,p3 --> p4,p6` with hours added, keeping `p3`'s whitespace before the arrow (also downloader.py:143, lib/index.js:125-133) |
| `SubRip.TokensCover` | downloader.py:145 | the tokens of a text spell out the text: matches and copied characters together cover it |
| `SubRip.TokensLeftmost` | downloader.py:145 | each token is the match found, or the character left unmatched, where the previous token ended |
| `SubRip.RenderNumbering` | downloader.py:136-145 | the k-th match in document order is replaced by `k`, a newline and its rewritten timing line |
| `SubRip.RenderAppend` | lib/index.js:122-124 | the matches of a later part are numbered on from the count of the earlier part |
| `SubRip.RenderVerbatim` | downloader.py:145 | text without matches is copied unchanged |
| `SubRip.ConvertWithoutCues` | downloader.py:145 | with no match anywhere, the cue pass returns its input |
| `SubRip.ConvertWithoutDot` | lib/index.js:119 | with the escaped pattern, a text without '.' is returned unchanged |
| `SubRip.RewriteHasNoDot` | downloader.py:143 | a rewritten timing line holds no '.' |
| `SubRip.DotRewriteIsFixed` | lib/index.js:119 | the escaped pattern leaves a rewritten timing line alone |
| `SubRip.DotOutputNotRematched` | lib/index.js:119 | the escaped pattern does not match at the start of a rewritten timing line |
| `SubRip.AnyOutputRematched` | lib/VideoDownloader.py:100 | the unescaped pattern matches at the start of every rewritten timing line, since `,` passes for `.` |
| `SubRip.AnyConvertNotIdempotent` | lib/VideoDownloader.py:100 | converting one cue with the unescaped pattern gives `1\n` + text that is again a match; converting that output again keeps `1\n`, numbers the cue `1` a second time, and so differs from it |
| `SubRip.DotConvertKeepsCue` | lib/index.js:119 | with the escaped pattern, the converted cue is not matched again, and converting the output a second time returns it unchanged |
| `SubRip.ConvertAfterNumberLine` | downloader.py:129 | the pattern needs two digits at its start, so a leading `1\n` is copied and the rest is converted as if it stood alone |
| `SubRip.NoCueBeforeNonDigit` | downloader.py:129 | no match starts unless the text starts with two digits |
| `SubRip.TokensOfOwnText` | lib/VideoDownloader.py:107 | scanning a match's own text finds that one match and nothing else |
| `SubRip.SubTimeCodesOfMatch` | lib/VideoDownloader.py:107 | the inner substitution over `match.group(0)` equals `replaceTimeCodes` of the outer match |
| `SubRip.ConvertOfMatch` | lib/VideoDownloader.py:104-108 | a cue on its own becomes `1\n` followed by its rewritten timing line |
| `SubRip.ReplaceItem` | lib/VideoDownloader.py:104-107 | `replaceItem` bumps the counter and writes `{counter}\n` plus the inner substitution over the match, which is the rewritten timing line; a character outside any match is copied |
| `SubRip.SubstituteCues` | lib/VideoDownloader.py:103-108 | the libraries' cue pass (also lib/index.js:122-134) equals the numbered conversion of the text |
| `LibVideoDownloader.ChooseVideo` | lib/VideoDownloader.py:26 | TypeError when a missing height comes before any encode taller than 720; otherwise the first encode taller than 720 after only shorter ones; no encode iff every height is present and at most 720 |
| `Media.Tall` | lib/VideoDownloader.py:26 | no contract of its own: `height > 720` with the height present (lib/index.js:25 too); its meaning is stated by `LibVideoDownloader.ChooseVideo` and `LibIndex.FindVideo` |
| `LibVideoDownloader.ChooseVideoFirstTall` | lib/VideoDownloader.py:26 | an encode taller than 720 with only shorter ones before it is the choice |
| `LibVideoDownloader.ChooseVideoMissingHeight` | lib/VideoDownloader.py:26 | a missing height with only shorter encodes before it raises TypeError |
| `LibVideoDownloader.SubtitleName` | lib/VideoDownloader.py:32 | no contract of its own: `{chapterNumber}-{title}.{language}` with the title unsanitised; its meaning is stated by `LibVideoDownloader.SubtitleJobs` |
| `LibVideoDownloader.SubtitleJobs` | lib/VideoDownloader.py:30-40 | one job per subtitle: its link, `{chapter}-{title}.{language}.vtt` in the working directory, and `{folder}/{chapter}-{title}.{language}.srt` |
| `LibVideoDownloader.PlanLecture` | lib/VideoDownloader.py:19-40 | a TypeError from the choice ends the item; otherwise the chosen encode goes to `{folder}/{chapter}-{title}.mp4` with the title unsanitised, a video exists iff some encode is taller than 720, and every subtitle job follows |
| `LibVideoDownloader.Vtt2Srt` | lib/VideoDownloader.py:98-109 | the result is the signature pass followed by the numbered cue pass with the unescaped `.` |
| `LibIndex.FindVideo` | lib/index.js:25 | the first encode taller than 720, where a missing height compares false; none iff no encode is taller than 720 |
| `LibIndex.ChoicesAgree` | lib/index.js:25 | where every encode has a height, both libraries choose the same encode |
| `LibIndex.ChoicesDiffer` | lib/index.js:25 | a missing height before any tall encode: the Python library raises, the JavaScript one passes over that encode |
| `LibIndex.SkipShort` | lib/index.js:25 | encodes at the front that are not taller than 720 do not change the choice |
| `LibIndex.SlashToDash` | lib/index.js:23 | `replace('/', '-')` replaces only the first '/', and leaves a text without '/' unchanged (also the folder name, lib/index.js:12) |
| `LibIndex.SecondSlashKept` | lib/index.js:23 | a second '/' in the title survives into the file name |
| `LibIndex.SubtitleName` | lib/index.js:32 | no contract of its own: the name with the once-dashed title; its meaning is stated by `LibIndex.SubtitleJobs` |
| `LibIndex.SubtitleJobs` | lib/index.js:30-39 | one job per subtitle: its link, `${chapter}-${title}.${language}.vtt` in the working directory, and the `.srt` beside it in the folder |
| `LibIndex.PlanLecture` | lib/index.js:12-39 | the folder and the title have their first '/' replaced; a video exists iff some encode is taller than 720, goes to `${folder}/${chapter}-${title}.mp4`, and every subtitle job follows |
| `LibIndex.Vtt2Srt` | lib/index.js:117-136 | the result is the signature pass followed by the numbered cue pass with the escaped `\.` |
| `Text.NatToString` | downloader.py:143 | the counter is written in decimal without leading zeros |
| `Text.ParseNatToString` | downloader.py:143 | the decimal text of a number reads back as that number |
| `Text.ReplaceAll` | downloader.py:105 | `str.replace` keeps the length when pattern and replacement are equally long |
| `Text.ReplaceAllAbsent` | downloader.py:105 | a text without the pattern is unchanged |
| `Text.ReplaceAllAfter` | downloader.py:105 | text before the first occurrence is copied, that occurrence is replaced, and the rest is replaced in turn |
| `Text.ReplaceFirst` | lib/index.js:23 | JavaScript's `replace` with a string pattern changes only the first occurrence |
| `Text.ReplaceFirstKeepsLater` | lib/index.js:12 | an occurrence after the first one survives |

## Left out

- HTTP requests, sessions, headers, `raise_for_status` and the JSON decoding: network I/O. The response bodies are parameters (`Media.LectureInfo`, `Media.Chapter`).
- Streamed downloads, `requests.head` for the size, tqdm progress, axios streams and promises: I/O. A download is modelled as a planned `Media.Transfer` or `Media.SubtitleJob`.
- Thread pool scheduling in `download_course_videos`: concurrency. Only which lectures are submitted, and in which order, is modelled.
- File reads, writes, deletion, `mkdir` and `os.path.exists`: filesystem side effects. Only the file-name strings are modelled.
- `Path(course_title)`: its normalisation of the course path is not modelled. The course path is taken as the text given.
- `validate_config` and config.py: YAML loading and a global mutable configuration.
- The print and console statements, and the try/except nesting in the libraries' `download` that only logs and moves on. Its effect on a lecture is modelled: an exception in `PlanLecture` ends that item.
- The libraries' loops over chapters and items in `download`. Unlike `downloader.py`, they do not filter by type: every item is fetched. Only the per-item body (`PlanLecture`) is modelled, not the loop around it.
- Missing JSON keys other than those the model represents (`type`, `items`, `height`, and empty lists for `videos` and `subtitles`), JSON nulls, and null or empty subtitle entries (`if subtitle:` in the libraries). A `chapterNumber` is modelled as a natural number (`Media.Item`): a negative, fractional or non-numeric one, which the f-strings and template literals would print as it comes, is not represented.
- Python's `re` and the `regex` module take `\d` and `\s` to be Unicode classes, and so does JavaScript's `\s`. The model uses ASCII digits and ASCII whitespace (space, tab, newline, carriage return, vertical tab, form feed).
- `MULTILINE` and the `m` flag: they change only `^` and `$`, which no pattern here uses.
- `WebVtt.StripSignature`: its own contract states only a length bound. What it computes is stated by the `StripSignature…` lemmas: the signature is deleted before a timestamp and kept elsewhere.
- `Text.ReplaceAll`: its own contract states the length only for equally long pattern and replacement. Its meaning is stated by `Text.ReplaceAllAbsent` and `Text.ReplaceAllAfter`.

## Findings

| source | as written | input that shows it | evidently intended | confidence | as-written member | corrected member |
|---|---|---|---|---|---|---|
| downloader.py:91-93 | `download_lecture_video` calls `sorted(videos)[-1]`, which raises IndexError on an empty list, so `process_lecture` ends before the subtitle step | a lecture whose `video.videos` is `[]` and whose `video.subtitles` has one track | skip the video and still download and convert the subtitles | not executed | `Downloader.ProcessLecture`, `Downloader.ProcessLectureLosesSubtitles` | `Downloader.ProcessLectureIntended`, `Downloader.ProcessLectureAgrees` |
| lib/VideoDownloader.py:100 | the `.` between seconds and milliseconds is unescaped, so it matches any character but a newline, including the `,` of converted output | `00:01.000 --> 00:02.000`: converted once it is `1\n00:00:01,000  --> 00:00:02,000`; the text after `1\n` matches the pattern again, so a second conversion gives `1\n1\n…` and not its input | a literal `\.`, as in downloader.py:129 and lib/index.js:119, so that converted cues are not matched again | not executed | `LibVideoDownloader.Vtt2Srt`, `SubRip.AnyConvertNotIdempotent` | `LibIndex.Vtt2Srt`, `SubRip.DotConvertKeepsCue` |
