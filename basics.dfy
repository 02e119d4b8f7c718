/** Failure-carrying results shared by the three downloaders. */
module Basics {

  datatype Option<T> = None | Some(value: T)

  /** The exceptions the downloaders raise on the paths that are modelled. */
  datatype Error =
    | BadCourseUrl    // ValueError("课程URL格式错误,请检查") in downloader.py
    | EmptyCourseId   // "CourseId获取失败,请检查课程URL" in both libraries
    | IndexError      // indexing an empty sorted list
    | TypeError       // comparing a missing height with 720 in Python

  datatype Result<T> = Ok(value: T) | Err(error: Error)
}
