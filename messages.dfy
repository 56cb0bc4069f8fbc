/** The records the content script and the background worker exchange. */
module Messages {
  import opened Wrappers

  /**
   * The payload of `LEETCODE_ACCEPTED`.  The optional fields are the ones
   * the page may not supply (`null` or `undefined`).
   */
  datatype Problem = Problem(
    title: string,
    slug: string,
    difficulty: Option<string>,
    topics: seq<string>,
    url: string,
    questionHtml: Option<string>,
    code: Option<string>,
    language: Option<string>,
    screenshot: Option<string>)

  /** A runtime message: its `type` and, for `LEETCODE_ACCEPTED`, its `payload`. */
  datatype Message = Message(kind: string, payload: Option<Problem>)

  const LoginGithub := "LOGIN_GITHUB"
  const LeetcodeAccepted := "LEETCODE_ACCEPTED"
  const GetPendingProblem := "GET_PENDING_PROBLEM"
  const UserConfirmedPush := "USER_CONFIRMED_PUSH"
  const UserDeniedPush := "USER_DENIED_PUSH"
}
