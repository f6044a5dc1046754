/** `run` of src/checker.js (lines 80-123): the target list is cut into windows of `n`
    lines; for every line of a window both login probes are launched, and once the whole
    window has settled one report per line is printed, in list order. The probes are
    oracles indexed by the line's position in the target list. */
module Checker {
  import opened Targets
  import opened Login
  import opened Batches

  /** One `login|line|usernameOk|passwordOk|loggedIn|xmlLoginResult` line. */
  datatype LoginReport = LoginReport(line: string, login: LoginResult, rpcOk: bool)

  /** The url field of a target line: the first piece of `line.split(';')`. */
  function UrlOf(line: string): string
  {
    ParseTarget(Literal(';'), line).url
  }

  /** The report line `k` gets: its own line text and the verdicts of its own two probes,
      and nothing from any other line. */
  function ReportFor(lines: seq<string>, k: nat, login: nat -> LoginAttempt,
                     blogs: nat -> RpcSettled): LoginReport
    requires k < |lines|
  {
    LoginReport(lines[k], WpLogin(login(k)), RpcVerdict(blogs(k)))
  }

  /** Every line in `[from, to)` has a url `new URL` accepts. */
  predicate AllValid(lines: seq<string>, from: nat, to: nat, validUrl: string -> bool)
    requires from <= to <= |lines|
  {
    forall k :: from <= k < to ==> validUrl(UrlOf(lines[k]))
  }

  /** The reports printed so far are the reports of the first lines, in list order. */
  predicate ReportsPrefix(reports: seq<LoginReport>, lines: seq<string>,
                          login: nat -> LoginAttempt, blogs: nat -> RpcSettled)
  {
    |reports| <= |lines| &&
    forall k :: 0 <= k < |reports| ==> reports[k] == ReportFor(lines, k, login, blogs)
  }

  /** `count` lines were reported when the first line whose url `new URL` rejects is line `k`:
      every window before window `k / n`, and nothing of that window or after it. */
  predicate StopsAtFirstBad(lines: seq<string>, n: nat, validUrl: string -> bool, count: nat)
    requires n > 0
  {
    exists k :: 0 <= k < |lines| && !validUrl(UrlOf(lines[k])) &&
                AllValid(lines, 0, k, validUrl) && count == WindowStart(k / n, n)
  }

  /** The first inner loop (lines 92-97): for each line of the window, parse its url and
      launch both probes. A url `new URL` rejects throws before the window settles. */
  method ProbeWindow(lines: seq<string>, startIdx: nat, endIdx: nat, validUrl: string -> bool,
                     login: nat -> LoginAttempt, blogs: nat -> RpcSettled)
    returns (loginResults: seq<LoginResult>, blogsResults: seq<RpcSettled>, aborted: bool)
    requires startIdx <= endIdx <= |lines|
    ensures !aborted <==> AllValid(lines, startIdx, endIdx, validUrl)
    ensures aborted ==> exists k :: startIdx <= k < endIdx && !validUrl(UrlOf(lines[k])) &&
                                    AllValid(lines, startIdx, k, validUrl)
    ensures !aborted ==> |loginResults| == |blogsResults| == endIdx - startIdx
    ensures !aborted ==> forall t :: 0 <= t < |loginResults| ==>
                           loginResults[t] == WpLogin(login(startIdx + t)) &&
                           blogsResults[t] == blogs(startIdx + t)
  {
    loginResults, blogsResults, aborted := [], [], false;
    var j := startIdx;
    while j < endIdx
      invariant startIdx <= j <= endIdx
      invariant |loginResults| == |blogsResults| == j - startIdx
      invariant forall t :: 0 <= t < |loginResults| ==>
                  loginResults[t] == WpLogin(login(startIdx + t)) &&
                  blogsResults[t] == blogs(startIdx + t)
      invariant AllValid(lines, startIdx, j, validUrl)
    {
      var fields := ParseTarget(Literal(';'), lines[j]);
      if !validUrl(fields.url) {
        aborted := true;
        return;
      }
      loginResults := loginResults + [WpLogin(login(j))];
      blogsResults := blogsResults + [blogs(j)];
      j := j + 1;
    }
  }

  /** The second inner loop (lines 113-119): once the window starting at `startIdx` has
      settled, one report per line, in order; the `j`-th result belongs to line
      `startIdx + j`. The reports so far are those of the lines before the window. */
  method EmitWindow(lines: seq<string>, startIdx: nat, reports: seq<LoginReport>,
                    loginResults: seq<LoginResult>, blogsResults: seq<RpcSettled>,
                    login: nat -> LoginAttempt, blogs: nat -> RpcSettled)
    returns (reports': seq<LoginReport>)
    requires ReportsPrefix(reports, lines, login, blogs) && |reports| == startIdx
    requires |loginResults| == |blogsResults| && startIdx + |blogsResults| <= |lines|
    requires forall t :: 0 <= t < |loginResults| ==>
               loginResults[t] == WpLogin(login(startIdx + t)) &&
               blogsResults[t] == blogs(startIdx + t)
    ensures ReportsPrefix(reports', lines, login, blogs)
    ensures |reports'| == startIdx + |blogsResults|
  {
    reports' := reports;
    var j := 0;
    while j < |blogsResults|
      invariant j <= |blogsResults|
      invariant |reports'| == startIdx + j
      invariant ReportsPrefix(reports', lines, login, blogs)
    {
      var k := startIdx + j;
      reports' := reports' + [LoginReport(lines[k], loginResults[j], RpcVerdict(blogsResults[j]))];
      j := j + 1;
    }
  }

  /** `new URL(url)` is given by `validUrl`; when it throws, the exception escapes `run` and
      the process stops, so the windows before the first failing line's window have been
      reported and nothing after. Otherwise every target line is reported exactly once, in order. */
  method Run(contents: string, n: nat, validUrl: string -> bool,
             login: nat -> LoginAttempt, blogs: nat -> RpcSettled)
    returns (reports: seq<LoginReport>, aborted: bool)
    requires n > 0
    ensures ReportsPrefix(reports, TargetLines(contents), login, blogs)
    ensures AllValid(TargetLines(contents), 0, |reports|, validUrl)
    ensures !aborted <==> AllValid(TargetLines(contents), 0, |TargetLines(contents)|, validUrl)
    ensures !aborted ==> |reports| == |TargetLines(contents)|
    ensures aborted ==> StopsAtFirstBad(TargetLines(contents), n, validUrl, |reports|)
  {
    var lines := TargetLines(contents);
    var nBulks := NBulks(|lines|, n);
    reports, aborted := [], false;
    var i := 0;
    while i < nBulks
      invariant i <= nBulks
      invariant |reports| == Min(|lines|, WindowStart(i, n))
      invariant ReportsPrefix(reports, lines, login, blogs)
      invariant AllValid(lines, 0, |reports|, validUrl)
    {
      WindowShape(|lines|, n, i);
      var startIdx := WindowStart(i, n);
      var endIdx := WindowEnd(|lines|, i, n);
      var loginResults, blogsResults;
      loginResults, blogsResults, aborted :=
        ProbeWindow(lines, startIdx, endIdx, validUrl, login, blogs);
      if aborted {
        ghost var k :| startIdx <= k < endIdx && !validUrl(UrlOf(lines[k])) &&
                       AllValid(lines, startIdx, k, validUrl);
        QuotientOfSlice(i, n, k);
        assert AllValid(lines, 0, k, validUrl);
        return;
      }
      reports := EmitWindow(lines, startIdx, reports, loginResults, blogsResults, login, blogs);
      assert WindowStart(i + 1, n) == WindowStart(i, n) + n by {
        assert (i + 1) * n == i * n + n;
      }
      i := i + 1;
    }
  }
}
