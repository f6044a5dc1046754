# yawpp core, modelled in Dafny

yawpp is a pair of Node scripts that work through a file of WordPress target lines, each
of the form `url;username;password`:

- `src/checker.js` cuts the list into windows of `n` lines (10 by default). For every line
  of a window it launches two login probes: a form login (`wpLogin`) and the XML-RPC call
  `wp.getUsersBlogs`. Once the whole window has settled it prints one report per line, in
  list order.
- `src/poster.js` goes through the lines one at a time from index `from` on. It probes the
  login and reads the first blog id. When it has a blog id it can publish a post picked from
  a folder, first checking page by page (`getPostId`, 100 posts per request) that no post
  with the same title exists. It can also update the user's profile. It stops once
  `maxPosts` new posts exist.

This project models the logic under the network calls and proves what it promises:

| file | module | models |
|---|---|---|
| `wrappers.dfy` | `Wrappers` | `Option` |
| `targets.dfy` | `Targets` | the line split on `\r\n`, `\r` or `\n`; the `http` filter; the field split on a literal separator or, for `:`, on a colon with no `/` after it; the destructuring into url, username and password |
| `endpoint.dfy` | `Endpoint` | `createXmlClient`: the port, the client kind and the path, chosen from the protocol |
| `login.dfy` | `Login` | the result record of `wpLogin`; the XML-RPC verdict `errno === undefined`; the first blog id |
| `batches.dfy` | `Batches` | `nBulks`; the window bounds `[i*n, min(N, i*n+n))`; their coverage and disjointness; what a string `-n` does to them |
| `checker.dfy` | `Checker` | `run` of `src/checker.js` as nested loops, proved to print each line's own report in list order |
| `post_scan.dfy` | `PostScan` | `getPostId` as its `do … while` loop, proved against a page-by-page specification and against a search of the whole listing |
| `poster.dfy` | `Poster` | `run` of `src/poster.js` as its `for` loop, proved against a line-by-line state machine that carries the counters, the skips and the cap |

Every remote outcome is a parameter indexed by the line's position in the target list:
- the login POST;
- `wp.getUsersBlogs`;
- the pages `wp.getPosts` returns;
- `wp.newPost`;
- `wp.editProfile`;
- the title of the randomly picked post.

Whether `new URL(url)` accepts a url is a parameter `validUrl`. When it rejects a url, the
exception escapes `run`, and the model ends the run there and reports `aborted`.

Three behaviours of the code are easy to get wrong:
- **The colon split at a port.** With the separator `:`, the pattern `/:(?=[^\/]*$)/`
  splits at every colon that has no `/` after it. It does not keep a port with its host:
  `http://a.com:80:bob:pw` gives url `http://a.com`, username `80` and password `bob`
  (`Targets.ColonRuleSplitsAtPort`).
- **The XML-RPC verdict.** `src/checker.js` checks only `errno === undefined`. An XML-RPC
  fault or a body that is not XML-RPC carries no `errno`, so it counts as success. Only a
  Node system error (refused connection, DNS failure, timeout) counts as failure
  (`Login.RpcVerdict`).
- **Resuming.** `src/checker.js` cannot resume part-way through the list. Only
  `src/poster.js` has `from`, and it is a line index, not a window index.

## Model

| member | source | states |
|---|---|---|
| Targets.SplitLines | src/poster.js:143 | the split yields at least one line, and no line holds CR or LF |
| Targets.SplitLinesNoBreak | src/poster.js:143 | a text without a line break is a single line |
| Targets.SplitLinesOfLine | src/poster.js:143 | a line without breaks, put in front of a text that starts with a break, is the first line of the split, and the text's lines follow it |
| Targets.SplitLinesJoinLines | src/poster.js:143 | writing lines with CR LF, CR or LF between them and splitting gives back the same lines in the same order |
| Targets.KeepTargets | src/poster.js:143 | a line is kept exactly when it was in the list and starts with `http`; nothing is added |
| Targets.KeepTargetsAppend | src/poster.js:143 | filtering keeps the original order: filtering two parts and concatenating is filtering the whole |
| Targets.KeepTargetsKeepsAll | src/poster.js:143 | a list made only of `http` lines passes the filter unchanged |
| Targets.TargetLines | src/checker.js:83 | the targets are the file's lines filtered in file order: a string is a target exactly when it is a line of the file that starts with `http`; no target holds a line break |
| Targets.SplitFields | src/poster.js:158-160 | `line.split(re)` gives exactly one piece more than the line has boundaries |
| Targets.RuleFor | src/poster.js:158 | the lookahead rule is chosen exactly for the separator `:`, and every rule joins with the separator it was chosen for |
| Targets.JoinSplitFields | src/poster.js:158-160 | joining the pieces of a split with the separator reproduces the line |
| Targets.SplitFieldsWellSplit | src/poster.js:158 | in every split, the first piece has no boundary; with `:`, no later piece holds a colon or a `/`; with a literal separator, no piece holds it |
| Targets.SplitFieldsNoBoundary | src/poster.js:158 | a field without a boundary, put in front of a boundary, is the start of the first piece |
| Targets.SplitFieldsOfJoin | src/poster.js:158-160 | splitting a joined well-formed list of pieces gives back exactly those pieces |
| Targets.ParseTarget | src/poster.js:160 | url, username and password are the first three pieces; a missing piece is `undefined` (`None`) |
| Targets.ParseTargetOfJoin | src/poster.js:158-160 | a joined well-formed list of three or more pieces parses to its first three pieces |
| Targets.ParseTargetRoundTrip | src/checker.js:99 | `url;username;password`, with no separator inside the credentials, parses back to its three parts |
| Targets.SlashesStayInUrl | src/poster.js:158 | with `:`, every `/` of the line lies in the url piece, so the colon of `http://` is never a boundary |
| Targets.SchemeUrlNoBoundary | src/poster.js:158 | with `:`, a url whose only colon is followed by a `/` has no boundary |
| Targets.ColonRuleSplitsAtPort | src/poster.js:158-160 | with `:`, `http://a.com:80:bob:pw` gives url `http://a.com`, username `80` and password `bob` |
| Endpoint.CreateXmlClient | src/poster.js:26-35 | port 443 and a secure client exactly when the protocol is `https:`; otherwise port 80 and a plain client; the host is kept; the path is `/xmlrpc.php` |
| Endpoint.ProtocolWithoutColonIsPlain | src/checker.js:16-22 | the protocol `https` without its colon gets port 80 and a plain client |
| Login.WpLogin | src/checker.js:39-72 | a thrown request leaves all three flags false; otherwise each flag is true exactly when the answer shows it |
| Login.RpcVerdict | src/checker.js:117 | the verdict is false exactly for a rejection that carries an `errno`; a resolved call is true |
| Login.FirstBlogId | src/poster.js:165-168 | there is a blog id exactly when the call resolved with at least one blog, and it is the first blog's id |
| Batches.NBulks | src/checker.js:85-87 | `nBulks` is the ceiling of `N / n`: `nBulks` windows of `n` cover `N`, one fewer do not, and there are none exactly when `N` is 0 |
| Batches.WindowStart | src/checker.js:93 | `startIdx` is a multiple of `n` whose quotient is the window number |
| Batches.WindowEnd | src/checker.js:94 | `endIdx` is the smaller of the list length and `startIdx + n` |
| Batches.WindowShape | src/checker.js:93-94 | each window is non-empty and holds at most `n` lines; every window but the last holds exactly `n` and ends where the next starts; the last ends at `N` |
| Batches.WindowOfIndex | src/checker.js:90-97 | every index below `N` lies in window `k / n`, and that window is one of the `nBulks` |
| Batches.WindowsDisjoint | src/checker.js:90-97 | an index lies in no window but window `k / n` |
| Batches.QuotientOfSlice | src/checker.js:113-114 | an index between `i*n` and `i*n + n` has quotient `i` |
| Batches.StringCountEndTooLarge | src/checker.js:94 | with `-n` given as a string, the concatenated sum `startIdx + n` (before `Math.min`) exceeds `i*n + n` from window 1 on |
| Batches.WindowEndStringCount | src/checker.js:94 | the window end as written when `-n` is a string: never before the intended end, never past the list, and equal to the intended end for window 0 |
| Batches.StringCountFirstWindow | src/checker.js:85-94 | with `-n 5` and 20 lines there are four windows, and window 0 ends at 5 as intended |
| Batches.StringCountWindowsOverlap | src/checker.js:94 | with `-n 5` and 20 lines, windows 1, 2 and 3 all end at 20, where window 1 was meant to end at 10. So lines 10-14 lie in two windows and lines 15-19 in three |
| Checker.ProbeWindow | src/checker.js:97-104 | the probe loop completes exactly when every url of the window parses. When it does, it holds each line's own two outcomes in window order. When it stops, it stops at the first url that does not parse |
| Checker.EmitWindow | src/checker.js:113-120 | the report loop, with `k = startIdx + j`, extends the reports by exactly the window's lines, each with its own line text and verdicts |
| Checker.Run | src/checker.js:80-123 | report `k` is line `k`'s text with line `k`'s own login and XML-RPC verdicts. Every reported line's url parses. The run is complete exactly when every url parses. Otherwise it stops after the windows before the first bad url's window |
| PostScan.LowerChar | src/poster.js:124 | `toLowerCase` of one character: an ASCII upper-case letter becomes its lower-case partner, any other character stays |
| PostScan.Lower | src/poster.js:124 | `toLowerCase` of a string keeps its length |
| PostScan.LowerCharwise | src/poster.js:124 | lowering keeps the length and lowers each character in place |
| PostScan.TitleMatches | src/poster.js:124 | titles that match after lowering have the same length, and every title matches itself |
| PostScan.TitleMatchesCharwise | src/poster.js:124 | two titles match exactly when they have the same length and agree character by character ignoring ASCII case |
| PostScan.HelloIsDuplicateOfUpperHello | src/poster.js:124 | `Hello` matches `HELLO` |
| PostScan.FindFirst | src/poster.js:124 | `find` gives nothing exactly when no title matches; otherwise it gives a matching post with no match before it |
| PostScan.FindFirstAppend | src/poster.js:124 | searching two parts one after the other is searching the whole list |
| PostScan.ScanPages | src/poster.js:105-137 | the id `getPostId` returns is -1 or the id of a post that `find` picks on one of the pages |
| PostScan.StopPage | src/poster.js:107-136 | the scan stops at the first page whose request failed, that has a match or that is empty: every page before it was answered with posts and no match |
| PostScan.ScanFindsMatch | src/poster.js:124-129 | a match on a page the scan reaches is the id the scan returns |
| PostScan.ScanMissesAll | src/poster.js:130-136 | without a match on any page the scan reaches, the result is -1; a failed request or an empty page ends the scan |
| PostScan.ListingPageAtOffset | src/poster.js:113-117 | page `b` of a site's listing is the slice at offset `b * 100` of at most 100 posts |
| PostScan.ScanListing | src/poster.js:102-138 | with no request failing, the paged scan returns the same id as a search of the whole listing at once |
| PostScan.GetPostId | src/poster.js:102-138 | the loop returns the page-by-page result. Its requests go to offsets 0, 100, 200, … in order: one for every page up to and including the page where the scan stops, and none after it |
| Poster.PostId | src/poster.js:187-212 | the post report's id is -1 exactly when no duplicate was found and `wp.newPost` was rejected; a duplicate's id is the id `find` picked on some page; otherwise it is the id `wp.newPost` returned |
| Poster.PostStep | src/poster.js:181-215 | without a post title the line aborts. Otherwise exactly one post report is added, carrying the post id and both counters after the step; `existingPostCount` rises by one exactly for a duplicate, `newPostCount` by one exactly when no duplicate was found and `wp.newPost` resolved, and neither changes otherwise |
| Poster.BioStep | src/poster.js:217-239 | without a biography path nothing changes. The step changes neither counter and aborts exactly when the biography cannot be read. After a successful read it adds exactly one bio report, carrying whether `wp.editProfile` resolved |
| Poster.LineStep | src/poster.js:157-239 | `newPostCount` rises by one exactly when a post is created; `existingPostCount` by one exactly when the duplicate check finds one. A line whose url parses gets first its login report, with `wpLogin`'s three flags and whether there is a blog id. With a blog id and a picked post, the post report follows with the post id and both counters. With a blog id and a read biography, the bio report comes last. No other report is added. The run aborts exactly when the url is bad or, with a blog id, the post cannot be picked or the biography cannot be read |
| Poster.RunFrom | src/poster.js:148-155 | the rest of the loop only adds reports, and its counters never go down. An aborted run stays as it is |
| Poster.RunRespectsCap | src/poster.js:146-155 | for `maxPosts >= 0` the new post counter never passes `maxPosts` |
| Poster.LineStepKeepsOrder | src/poster.js:157-239 | a line at or after `from` adds reports only about itself, after every earlier report, with post and bio reports only when it has a blog id |
| Poster.RunReportsInOrder | src/poster.js:148-178 | no line below `from` is reported; reports come in line order; post and bio reports only for lines with a blog id |
| Poster.RunStopsAtCap | src/poster.js:148-151 | once a post report shows the counter at `maxPosts`, no later line is reported |
| Poster.RunReachesEveryLine | src/poster.js:148-170 | the loop does not stop early: unless an exception escaped or the counter reached `maxPosts`, every line at or after `from` gets its login report, with its own `wpLogin` flags and blog-id flag |
| Poster.CapOfTwo | src/poster.js:148-151 | with `maxPosts` 2 and three lines that each create a post, the run makes two posts, prints two login and two post reports, and does not abort |
| Poster.PublishPost | src/poster.js:181-215 | the post block, which calls the `getPostId` loop, computes exactly the post step |
| Poster.ProcessLine | src/poster.js:157-239 | the loop body for one line computes exactly the state machine's step |
| Poster.Run | src/poster.js:140-242 | the loop computes the state machine's run from line 0. Its counter stays within the cap, nothing follows the cap, and the reports are in line order. Unless an exception escaped or the cap was reached, every line at or after `from` was reported |

## Left out

- Network I/O, timeouts and concurrency. Every remote call is an outcome given per line. The window's parallel calls are a sequence of independent outcomes, as `Promise.allSettled` over `.catch(e => e)` makes them.
- The login POST's regular expressions and cookie inspection are foreign calls. Their answers arrive as three booleans in `Login.LoginAttempt`. The username is not escaped before it goes into the regular expressions, and that is not modelled.
- `new URL(url)` is the parameter `validUrl`. `host`, `hostname` and `protocol` are not derived from the url. `Endpoint.CreateXmlClient` is modelled on its own and is not called from the two runs.
- File reading, `readdir`, the random choice of a post file, HTML title extraction and the random post date are left out. The picked title is a per-line outcome, and `None` stands for any exception there.
- The biography's content is not read; whether reading it succeeds is a per-line outcome (`bioRead`). The second `new URL(url)` and the second client of the bio step are not modelled separately, because they give the same results as the first.
- Report strings and `console.log` are left out. Reports are datatypes with the same fields.
- Command-line parsing is left out. `from` and `maxPosts` are taken as numbers and `noDuplicates` as a boolean. A value given on the command line arrives as a string, and `noDuplicates === true` is then false; that is not modelled.
- `new RegExp(sep)` for a separator longer than one character, or one that is a regular-expression metacharacter: only a literal one-character separator and the `:` rule are modelled.
- `toLowerCase` beyond ASCII: `PostScan.LowerChar` lowers only `A`-`Z`.
- Checker.Run: requires `n > 0`. With `n = 0` and a non-empty list, the script's `nBulks` is `Infinity` and `run` never ends. A negative `n` reports nothing. Neither case is modelled.
- Checker.Run: uses the numeric window end. The end the script computes when `-n` comes from the command line is modelled separately (see Findings).
- PostScan.GetPostId: a post whose title cannot be lowered makes `find` throw. It is modelled as a `Failed` page, with the same result.
- Poster.Run: the XML-RPC ids are taken as natural numbers. The id printed for a new post is whatever `wp.newPost` returned.

## Findings

| source | as written | input that shows it | evidently intended | confidence | as-written member | corrected member |
|---|---|---|---|---|---|---|
| src/checker.js:94 | `startIdx + nParrallelRequests` concatenates, because commander passes `-n` as a string | `-n 5` with 20 target lines: the window ends are "0" + "5" = 5, then min(20, 55), min(20, 105) and min(20, 155), all 20. So the windows are [0, 5), [5, 20), [10, 20) and [15, 20): lines 10-14 are probed and reported twice and lines 15-19 three times | end `min(N, i*n + n)`: windows of `n` lines that do not overlap | high; not executed | Batches.StringCountWindowsOverlap | Batches.WindowShape |
