/** The two login probes of a site, reduced to what the scripts decide from them:
    `wpLogin` (src/checker.js:30-75, src/poster.js:43-88) and the XML-RPC verdict of
    src/checker.js:101-117. The HTTP request, its regular expressions and its cookie test
    are foreign calls; their answers arrive here as booleans. */
module Login {
  import opened Wrappers

  /** What became of the login POST: it threw (network error, timeout, anything), or it
      answered, and then the scripts look at three things in the answer. */
  datatype LoginAttempt =
    | Threw
    | Answered(unknownUserMessage: bool,   // body says the username is not registered
               wrongPasswordMessage: bool, // body says the password is incorrect
               loggedInCookie: bool)       // a Set-Cookie header names wordpress_logged_in

  /** The record `wpLogin` returns. */
  datatype LoginResult = LoginResult(usernameOk: bool, passwordOk: bool, loggedIn: bool)

  /** The record starts all false and is overwritten only when the request answered; a
      thrown request leaves it all false. Each flag is true exactly when the request
      answered and the answer shows it. */
  function WpLogin(attempt: LoginAttempt): (r: LoginResult)
    ensures attempt.Threw? ==> r == LoginResult(false, false, false)
    ensures r.usernameOk <==> attempt.Answered? && !attempt.unknownUserMessage
    ensures r.passwordOk <==> attempt.Answered? && !attempt.wrongPasswordMessage
    ensures r.loggedIn <==> attempt.Answered? && attempt.loggedInCookie
  {
    var result := LoginResult(false, false, false);
    match attempt
    case Threw => result
    case Answered(noUser, badPassword, cookie) =>
      result.(loggedIn := cookie, usernameOk := !noUser, passwordOk := !badPassword)
  }

  /** A blog listed by `wp.getUsersBlogs`; only its id is used. */
  datatype Blog = Blog(blogid: nat)

  /** The settled value of `methodCall('wp.getUsersBlogs', …).catch(e => e)`: the list of
      blogs, or the error the call was rejected with. Node's system errors (refused
      connection, DNS failure, timeout) carry an `errno`; an XML-RPC fault or a body that
      is not XML-RPC is rejected with an error that has none. */
  datatype RpcSettled = Resolved(blogs: seq<Blog>) | Rejected(errno: Option<int>)

  /** The XML-RPC verdict `value.errno === undefined`: false exactly for a rejection that
      carries an `errno`. */
  function RpcVerdict(s: RpcSettled): (ok: bool)
    ensures !ok <==> s.Rejected? && s.errno.Some?
    ensures s.Resolved? ==> ok
  {
    match s
    case Resolved(_) => true
    case Rejected(errno) => errno.None?
  }

  /** `[{blogid}] = await methodCall2('wp.getUsersBlogs', …)` inside a try whose catch is
      empty: the id of the first blog, and undefined when the call was rejected, returned
      no blog (destructuring then throws inside the try). */
  function FirstBlogId(s: RpcSettled): (id: Option<nat>)
    ensures id.Some? <==> s.Resolved? && |s.blogs| >= 1
    ensures id.Some? ==> id.value == s.blogs[0].blogid
  {
    match s
    case Resolved(blogs) => if |blogs| >= 1 then Some(blogs[0].blogid) else None
    case Rejected(_) => None
  }
}
