/**
 * The two course-URL patterns: the anchored one of downloader.py and the
 * searching one of the two libraries.
 */
module CourseUrl {
  import opened Basics

  /** End of `[^/]+` started at i: the maximal run of characters other than '/'. */
  function SegmentEnd(s: string, i: nat): (k: nat)
    requires i <= |s|
    ensures i <= k <= |s|
    ensures forall j :: i <= j < k ==> s[j] != '/'
    ensures k == |s| || s[k] == '/'
    decreases |s| - i
  {
    if i < |s| && s[i] != '/' then SegmentEnd(s, i + 1) else i
  }

  /** `seg` is the non-empty, maximal, slash-free run of `s` that starts at i. */
  predicate SegmentAt(s: string, i: nat, seg: string)
  {
    |seg| > 0 && i + |seg| <= |s| && s[i..i + |seg|] == seg && '/' !in seg
    && (i + |seg| == |s| || s[i + |seg|] == '/')
  }

  lemma SegmentEndIsSegment(s: string, i: nat)
    requires i < |s| && s[i] != '/'
    ensures SegmentAt(s, i, s[i..SegmentEnd(s, i)])
  {
    var k := SegmentEnd(s, i);
    assert s[i..i + |s[i..k]|] == s[i..k];
    forall j | 0 <= j < k - i ensures s[i..k][j] != '/' {
      assert s[i..k][j] == s[i + j];
    }
  }

  /** Length of the literal part `https://hahow.in/courses/`. */
  const MainPrefixLength: nat := 25

  /** `https:\/\/hahow.in\/courses\/` at the very start, whose `.` is any character but a newline. */
  predicate MainPrefixAt(url: string)
  {
    |url| >= MainPrefixLength && url[..13] == "https://hahow" && url[13] != '\n'
    && url[14..MainPrefixLength] == "in/courses/"
  }

  /**
   * `extract_course_id`: `re.match(r"https:\/\/hahow.in\/courses\/([^/]+)", url)`,
   * group 1 on a match and ValueError otherwise.
   */
  function ExtractCourseId(url: string): (r: Result<string>)
    ensures r.Ok? <==> MainPrefixAt(url) && |url| > MainPrefixLength && url[MainPrefixLength] != '/'
    ensures r.Ok? ==> SegmentAt(url, MainPrefixLength, r.value)
    ensures r.Err? ==> r.error == BadCourseUrl
  {
    if MainPrefixAt(url) && |url| > MainPrefixLength && url[MainPrefixLength] != '/' then
      SegmentEndIsSegment(url, MainPrefixLength);
      Ok(url[MainPrefixLength..SegmentEnd(url, MainPrefixLength)])
    else
      Err(BadCourseUrl)
  }

  /** Two maximal slash-free runs from the same place are the same run. */
  lemma SegmentAtUnique(s: string, i: nat, a: string, b: string)
    requires SegmentAt(s, i, a) && SegmentAt(s, i, b)
    ensures a == b
  {
  }

  /** A course page URL yields its id: the segment after `courses/` up to the next '/'. */
  lemma ExtractCourseIdOfCourseUrl(id: string, rest: string)
    requires |id| > 0 && '/' !in id
    requires rest == [] || rest[0] == '/'
    ensures ExtractCourseId("https://hahow.in/courses/" + id + rest) == Ok(id)
  {
    var pre := "https://hahow.in/courses/";
    var url := pre + id + rest;
    assert url[..MainPrefixLength] == pre;
    assert url[..13] == pre[..13] && url[13] == pre[13] && url[14..MainPrefixLength] == pre[14..];
    assert MainPrefixAt(url);
    assert url[MainPrefixLength..MainPrefixLength + |id|] == id;
    assert url[MainPrefixLength] == id[0];
    assert id[0] in id;
    var r := ExtractCourseId(url);
    assert SegmentAt(url, MainPrefixLength, id);
    SegmentAtUnique(url, MainPrefixLength, r.value, id);
  }

  /** `courses/` at i, followed by at least one character other than '/'. */
  predicate IdStartsAt(s: string, i: nat)
  {
    i + 9 <= |s| && s[i..i + 8] == "courses/" && s[i + 8] != '/'
  }

  /** Leftmost position at or after i where `courses\/([^/]+)` matches. */
  function FirstIdStart(s: string, i: nat): (k: Option<nat>)
    requires i <= |s|
    ensures k.None? ==> forall j :: i <= j < |s| ==> !IdStartsAt(s, j)
    ensures k.Some? ==> i <= k.value < |s| && IdStartsAt(s, k.value)
    ensures k.Some? ==> forall j :: i <= j < k.value ==> !IdStartsAt(s, j)
    decreases |s| - i
  {
    if i == |s| then None
    else if IdStartsAt(s, i) then Some(i)
    else FirstIdStart(s, i + 1)
  }

  /**
   * Group 1 of `re.search(r"courses\/([^/]+)", url)` (Python) or of
   * `url.match(/courses\/([^/]+)/)` (JavaScript): the leftmost match, if any.
   */
  function SearchCourseSegment(url: string): (m: Option<string>)
    ensures m.None? <==> forall j :: 0 <= j < |url| ==> !IdStartsAt(url, j)
    ensures m.Some? ==> exists i :: 0 <= i < |url| && IdStartsAt(url, i)
                          && (forall j :: 0 <= j < i ==> !IdStartsAt(url, j))
                          && SegmentAt(url, i + 8, m.value)
  {
    match FirstIdStart(url, 0)
    case None => None
    case Some(i) =>
      SegmentEndIsSegment(url, i + 8);
      Some(url[i + 8..SegmentEnd(url, i + 8)])
  }

  /**
   * Every URL that downloader.py accepts gives the libraries the same id: the
   * fixed prefix holds no earlier `courses/`.
   */
  lemma SearchAgreesOnAcceptedUrls(url: string)
    requires ExtractCourseId(url).Ok?
    ensures SearchCourseSegment(url) == Some(ExtractCourseId(url).value)
  {
    forall j | 0 <= j < 17 ensures !IdStartsAt(url, j) {
      if j == 13 {
        assert url[14] == url[14..MainPrefixLength][0];
        NoIdAt(url, 13, 1);
      } else if j < 13 {
        assert url[j] == url[..13][j];
        NoIdAt(url, j, 0);
      } else {
        assert url[j] == url[14..MainPrefixLength][j - 14];
        NoIdAt(url, j, 0);
      }
    }
    assert url[17..25] == url[14..MainPrefixLength][3..];
    FirstIdStartIs(url, 17);
    SegmentEndIsSegment(url, 25);
    SegmentAtUnique(url, 25, url[25..SegmentEnd(url, 25)], ExtractCourseId(url).value);
  }

  /** `courses/` does not start at j when the character at j + k differs from its k-th letter. */
  lemma NoIdAt(s: string, j: nat, k: nat)
    requires k < 8 && j + k < |s| && s[j + k] != "courses/"[k]
    ensures !IdStartsAt(s, j)
  {
    if j + 8 <= |s| {
      assert s[j..j + 8][k] == s[j + k];
    }
  }

  /** The search finds the first place where the pattern matches. */
  lemma FirstIdStartIs(s: string, k: nat)
    requires k < |s| && IdStartsAt(s, k)
    requires forall j :: 0 <= j < k ==> !IdStartsAt(s, j)
    ensures FirstIdStart(s, 0) == Some(k)
  {
    var f := FirstIdStart(s, 0);
    assert f.Some?;
    assert f.value <= k;
  }

  /** The libraries accept URLs that downloader.py rejects, such as one without the site prefix. */
  lemma SearchAcceptsMoreThanMatch()
    ensures ExtractCourseId("courses/abc").Err?
    ensures SearchCourseSegment("courses/abc") == Some("abc")
  {
    var url := "courses/abc";
    assert url[0..8] == "courses/";
    assert IdStartsAt(url, 0);
    SegmentEndIsSegment(url, 8);
    assert SegmentAt(url, 8, "abc");
    SegmentAtUnique(url, 8, url[8..SegmentEnd(url, 8)], "abc");
  }

  // ------------------------------------------------------------------
  // The libraries' course id and its guards

  /**
   * `getCourseId` of both libraries: group 1 of the leftmost search match,
   * or `''` when there is none (`match.group(1) if match else ''` in Python,
   * `match && match[1] ? match[1] : ''` in JavaScript, where group 1 is
   * never empty).
   */
  function GetCourseId(url: string): (id: string)
    ensures id == [] <==> forall j :: 0 <= j < |url| ==> !IdStartsAt(url, j)
    ensures id != [] ==> exists i :: (0 <= i < |url| && IdStartsAt(url, i)
                                      && (forall j :: 0 <= j < i ==> !IdStartsAt(url, j))
                                      && SegmentAt(url, i + 8, id))
  {
    match SearchCourseSegment(url)
    case None => []
    case Some(seg) => seg
  }

  /** Course-metadata endpoint, requested only for a non-empty id. */
  const CoursesEndpoint := "https://api.hahow.in/api/courses/"

  /**
   * `getCourseTitle`'s guard and request URL: an empty id raises before any
   * request is made.
   */
  function CourseTitleRequest(courseId: string): (r: Result<string>)
    ensures r.Err? <==> courseId == []
    ensures r.Err? ==> r.error == EmptyCourseId
    ensures r.Ok? ==> CoursesEndpoint + courseId <= r.value
  {
    if courseId == [] then Err(EmptyCourseId)
    else Ok(CoursesEndpoint + courseId + "?requestBackup=false")
  }

  /** `getCourseItems`'s guard and request URL. */
  function CourseItemsRequest(courseId: string): (r: Result<string>)
    ensures r.Err? <==> courseId == []
    ensures r.Err? ==> r.error == EmptyCourseId
    ensures r.Ok? ==> CoursesEndpoint + courseId <= r.value
  {
    if courseId == [] then Err(EmptyCourseId)
    else Ok(CoursesEndpoint + courseId + "/modules/items")
  }

  /**
   * Both requests are refused exactly for a configured URL in which the
   * search finds no course segment; otherwise they ask for that course.
   */
  lemma RequestsGuarded(url: string)
    ensures CourseTitleRequest(GetCourseId(url)).Err? <==> forall j :: 0 <= j < |url| ==> !IdStartsAt(url, j)
    ensures CourseItemsRequest(GetCourseId(url)).Err? <==> forall j :: 0 <= j < |url| ==> !IdStartsAt(url, j)
    ensures SearchCourseSegment(url).Some? ==> CourseTitleRequest(GetCourseId(url)) == Ok(CoursesEndpoint + SearchCourseSegment(url).value + "?requestBackup=false")
  {
  }

  /** A course page URL gives the libraries the same id as downloader.py, so their requests go ahead. */
  lemma GetCourseIdOfCourseUrl(id: string, rest: string)
    requires |id| > 0 && '/' !in id
    requires rest == [] || rest[0] == '/'
    ensures GetCourseId("https://hahow.in/courses/" + id + rest) == id
    ensures CourseItemsRequest(GetCourseId("https://hahow.in/courses/" + id + rest)).Ok?
  {
    ExtractCourseIdOfCourseUrl(id, rest);
    SearchAgreesOnAcceptedUrls("https://hahow.in/courses/" + id + rest);
  }
}
