/** `run` of src/poster.js (lines 140-242): the target lines are processed one at a time.
    Each line is probed for a login and a blog id; with a blog id a post is published (after
    an optional duplicate check) and/or the profile is updated. Two counters record the new
    and the already existing posts, and the run stops once `maxPosts` new posts exist.
    Every remote call is an oracle indexed by the line's position in the target list. */
module Poster {
  import opened Wrappers
  import opened Targets
  import opened Login
  import opened PostScan

  /** The options of a run: `from`, the field separator, whether a post folder was given,
      `noDuplicates`, `maxPosts`, and whether a biography file was given. */
  datatype Config = Config(from: int, sep: char, withPosts: bool, noDuplicates: bool,
                           maxPosts: int, withBio: bool)

  /** How the site of one target line answers.
      `postTitle` is the title of the post picked at random for this line, or `None` when
      picking it throws (no post file in the folder, no `<title>` in the picked file);
      `pages` answers `wp.getPosts`; `newPost` is the id `wp.newPost` returns, or `None` when
      it is rejected; `bioRead` says whether reading the biography file succeeded (its
      failure is not caught); `profileUpdated` says whether `wp.editProfile` resolved. */
  datatype Site = Site(login: LoginAttempt, usersBlogs: RpcSettled, postTitle: Option<string>,
                       pages: seq<PageReply>, newPost: Option<nat>, bioRead: bool,
                       profileUpdated: bool)

  /** The three kinds of report line: `i|login|…`, `i|post|…` and `i|bio|…`. */
  datatype Report =
    | LoginLine(index: nat, line: string, login: LoginResult, hasBlog: bool)
    | PostLine(index: nat, line: string, postId: int, newPosts: nat, existingPosts: nat)
    | BioLine(index: nat, line: string, success: bool)

  /** The reports printed so far, the two counters, and whether an exception escaped. */
  datatype RunState = RunState(reports: seq<Report>, newPosts: nat, existingPosts: nat,
                               aborted: bool)

  const Start: RunState := RunState([], 0, 0, false)

  /** The url field of a line under the configured separator. */
  function UrlOf(cfg: Config, line: string): string
  {
    ParseTarget(RuleFor(cfg.sep), line).url
  }

  /** The line's url parses and `wp.getUsersBlogs` gave a blog id. */
  predicate HasBlog(cfg: Config, line: string, site: Site, validUrl: string -> bool)
  {
    validUrl(UrlOf(cfg, line)) && FirstBlogId(site.usersBlogs).Some?
  }

  /** The duplicate check runs for the picked title and finds a post with it. */
  predicate Duplicate(cfg: Config, site: Site)
  {
    site.postTitle.Some? && cfg.noDuplicates && ScanPages(site.pages, site.postTitle.value) != -1
  }

  /** The line's post step finds a duplicate. */
  predicate FindsDuplicate(cfg: Config, line: string, site: Site, validUrl: string -> bool)
  {
    HasBlog(cfg, line, site, validUrl) && cfg.withPosts && Duplicate(cfg, site)
  }

  /** The line's post step creates a post: no duplicate was found and `wp.newPost` resolved. */
  predicate CreatesPost(cfg: Config, line: string, site: Site, validUrl: string -> bool)
  {
    HasBlog(cfg, line, site, validUrl) && cfg.withPosts && site.postTitle.Some? &&
    !Duplicate(cfg, site) && site.newPost.Some?
  }

  /** The `postid` of the post report (line 212): the duplicate's id, else the id
      `wp.newPost` returned, else -1. It is -1 exactly when no post exists or was made. */
  function PostId(cfg: Config, site: Site): (id: int)
    requires site.postTitle.Some?
    ensures id == -1 <==> !Duplicate(cfg, site) && site.newPost.None?
    ensures Duplicate(cfg, site) ==>
              exists b :: 0 <= b < |site.pages| && site.pages[b].Page? &&
                FindFirst(site.pages[b].posts, site.postTitle.value).Some? &&
                FindFirst(site.pages[b].posts, site.postTitle.value).value.id == id
    ensures !Duplicate(cfg, site) && site.newPost.Some? ==> id == site.newPost.value
  {
    if Duplicate(cfg, site) then ScanPages(site.pages, site.postTitle.value)
    else if site.newPost.Some? then site.newPost.value
    else -1
  }

  /** The post step (lines 181-215): pick a post, look for a duplicate when asked to, and
      create the post when none was found. A post that cannot be picked raises; otherwise
      exactly one post report follows, carrying the post id and both counters, and the
      counter of the outcome (a duplicate found, a post created) rises by one. */
  function PostStep(cfg: Config, i: nat, line: string, site: Site, st: RunState): (next: RunState)
    ensures next.aborted <==> st.aborted || site.postTitle.None?
    ensures site.postTitle.None? ==> next == st.(aborted := true)
    ensures site.postTitle.Some? ==>
              next.reports == st.reports + [PostLine(i, line, PostId(cfg, site), next.newPosts,
                                                     next.existingPosts)] &&
              next.newPosts == st.newPosts +
                               (if !Duplicate(cfg, site) && site.newPost.Some? then 1 else 0) &&
              next.existingPosts == st.existingPosts + (if Duplicate(cfg, site) then 1 else 0)
  {
    match site.postTitle
    case None => st.(aborted := true)
    case Some(title) =>
      var found := if cfg.noDuplicates then ScanPages(site.pages, title) else -1;
      if found != -1 then
        var existing := st.existingPosts + 1;
        st.(reports := st.reports + [PostLine(i, line, found, st.newPosts, existing)],
            existingPosts := existing)
      else
        match site.newPost
        case Some(id) =>
          var created := st.newPosts + 1;
          st.(reports := st.reports + [PostLine(i, line, id, created, st.existingPosts)],
              newPosts := created)
        case None =>
          st.(reports := st.reports + [PostLine(i, line, -1, st.newPosts, st.existingPosts)])
  }

  /** The profile step (lines 217-239): read the biography, whose failure is not caught,
      then report whether `wp.editProfile` resolved. Without a biography path nothing
      happens; after a successful read exactly one bio report follows. Nothing runs after
      an exception. */
  function BioStep(cfg: Config, i: nat, line: string, site: Site, st: RunState): (next: RunState)
    ensures !cfg.withBio ==> next == st
    ensures next.newPosts == st.newPosts && next.existingPosts == st.existingPosts
    ensures next.aborted <==> st.aborted || (cfg.withBio && !site.bioRead)
    ensures next.reports == st.reports + (if !st.aborted && cfg.withBio && site.bioRead
                                          then [BioLine(i, line, site.profileUpdated)] else [])
  {
    if st.aborted || !cfg.withBio then st
    else if !site.bioRead then st.(aborted := true)
    else st.(reports := st.reports + [BioLine(i, line, site.profileUpdated)])
  }

  /** The profile step of a line with a blog id runs to its report: a biography path is
      given, the file is read, and nothing raised before it. */
  predicate BioRuns(cfg: Config, site: Site, st: RunState)
  {
    !st.aborted && cfg.withBio && site.bioRead && !(cfg.withPosts && site.postTitle.None?)
  }

  /** One processed line (lines 157-239). The new post counter rises exactly when a post is
      created and the existing post counter exactly when the duplicate check finds one; the
      profile step changes neither. Every report it adds is about this line, and only the
      login report can stand for a line without a blog id. An exception ends the run: a url
      `new URL` rejects, a post that cannot be picked, or a biography file that cannot be
      read (line 220, outside any `try`). */
  function LineStep(cfg: Config, i: nat, line: string, site: Site, validUrl: string -> bool,
                    st: RunState): (next: RunState)
    ensures next.newPosts == st.newPosts + (if CreatesPost(cfg, line, site, validUrl) then 1 else 0)
    ensures next.existingPosts ==
            st.existingPosts + (if FindsDuplicate(cfg, line, site, validUrl) then 1 else 0)
    ensures next.aborted <==>
            st.aborted || !validUrl(UrlOf(cfg, line)) ||
            (HasBlog(cfg, line, site, validUrl) &&
             ((cfg.withPosts && site.postTitle.None?) || (cfg.withBio && !site.bioRead)))
    ensures st.reports <= next.reports
    ensures |next.reports| == |st.reports| + (if validUrl(UrlOf(cfg, line)) then 1 else 0) +
              (if HasBlog(cfg, line, site, validUrl) && cfg.withPosts && site.postTitle.Some?
               then 1 else 0) +
              (if HasBlog(cfg, line, site, validUrl) && BioRuns(cfg, site, st) then 1 else 0)
    ensures validUrl(UrlOf(cfg, line)) ==>
              next.reports[|st.reports|] ==
              LoginLine(i, line, WpLogin(site.login), FirstBlogId(site.usersBlogs).Some?)
    ensures HasBlog(cfg, line, site, validUrl) && cfg.withPosts && site.postTitle.Some? ==>
              next.reports[|st.reports| + 1] ==
              PostLine(i, line, PostId(cfg, site), next.newPosts, next.existingPosts)
    ensures HasBlog(cfg, line, site, validUrl) && BioRuns(cfg, site, st) ==>
              next.reports[|next.reports| - 1] == BioLine(i, line, site.profileUpdated)
    ensures forall k :: |st.reports| <= k < |next.reports| ==>
              next.reports[k].index == i && next.reports[k].line == line
    ensures forall k :: |st.reports| <= k < |next.reports| && !next.reports[k].LoginLine? ==>
              HasBlog(cfg, line, site, validUrl)
    ensures forall k :: |st.reports| <= k < |next.reports| && next.reports[k].PostLine? ==>
              next.reports[k].newPosts == next.newPosts
  {
    if !validUrl(UrlOf(cfg, line)) then st.(aborted := true)
    else
      var blogid := FirstBlogId(site.usersBlogs);
      var logged := st.(reports := st.reports + [LoginLine(i, line, WpLogin(site.login), blogid.Some?)]);
      if blogid.None? then logged
      else
        var posted := if cfg.withPosts then PostStep(cfg, i, line, site, logged) else logged;
        BioStep(cfg, i, line, site, posted)
  }

  /** The rest of the `for` loop from line `i` on: stop when an exception escaped or
      `newPostCount == maxPosts`, skip lines below `from`, process the others. */
  function RunFrom(cfg: Config, lines: seq<string>, sites: nat -> Site, validUrl: string -> bool,
                   i: nat, st: RunState): (r: RunState)
    requires i <= |lines|
    ensures st.reports <= r.reports
    ensures st.newPosts <= r.newPosts && st.existingPosts <= r.existingPosts
    ensures st.aborted ==> r == st
    decreases |lines| - i
  {
    if i == |lines| || st.aborted || st.newPosts == cfg.maxPosts then st
    else if i < cfg.from then RunFrom(cfg, lines, sites, validUrl, i + 1, st)
    else RunFrom(cfg, lines, sites, validUrl, i + 1, LineStep(cfg, i, lines[i], sites(i), validUrl, st))
  }

  /** With a non-negative cap the new post counter never passes it: it is compared with the
      cap before every line and a line adds at most one. */
  lemma {:induction false} RunRespectsCap(cfg: Config, lines: seq<string>, sites: nat -> Site,
                                          validUrl: string -> bool, i: nat, st: RunState)
    requires i <= |lines| && 0 <= cfg.maxPosts && st.newPosts <= cfg.maxPosts
    ensures RunFrom(cfg, lines, sites, validUrl, i, st).newPosts <= cfg.maxPosts
    decreases |lines| - i
  {
    if i < |lines| && !st.aborted && st.newPosts != cfg.maxPosts {
      if i < cfg.from {
        RunRespectsCap(cfg, lines, sites, validUrl, i + 1, st);
      } else {
        RunRespectsCap(cfg, lines, sites, validUrl, i + 1,
                       LineStep(cfg, i, lines[i], sites(i), validUrl, st));
      }
    }
  }

  /** Reports about lines in list order: each names a line at or after `from` and below
      `bound` together with that line's text, post and profile reports only for lines that
      have a blog id, and the line indices never go down. */
  ghost predicate ReportsInOrder(cfg: Config, lines: seq<string>, sites: nat -> Site,
                                 validUrl: string -> bool, reports: seq<Report>, bound: nat)
  {
    bound <= |lines| &&
    (forall k :: 0 <= k < |reports| ==>
       cfg.from <= reports[k].index < bound &&
       reports[k].line == lines[reports[k].index] &&
       (!reports[k].LoginLine? ==>
          HasBlog(cfg, lines[reports[k].index], sites(reports[k].index), validUrl))) &&
    (forall a, b :: 0 <= a < b < |reports| ==> reports[a].index <= reports[b].index)
  }

  /** A line at or after `from` keeps the reports in order: what it adds is about this line,
      after every earlier report. */
  lemma LineStepKeepsOrder(cfg: Config, lines: seq<string>, sites: nat -> Site,
                           validUrl: string -> bool, i: nat, st: RunState)
    requires cfg.from <= i < |lines| && ReportsInOrder(cfg, lines, sites, validUrl, st.reports, i)
    ensures ReportsInOrder(cfg, lines, sites, validUrl,
                           LineStep(cfg, i, lines[i], sites(i), validUrl, st).reports, i + 1)
  {
    var next := LineStep(cfg, i, lines[i], sites(i), validUrl, st);
    forall a, b | 0 <= a < b < |next.reports|
      ensures next.reports[a].index <= next.reports[b].index
    {
      if b < |st.reports| {
        assert next.reports[a] == st.reports[a] && next.reports[b] == st.reports[b];
      } else if a < |st.reports| {
        assert next.reports[a] == st.reports[a];
      }
    }
    forall k | 0 <= k < |next.reports|
      ensures cfg.from <= next.reports[k].index < i + 1
      ensures next.reports[k].line == lines[next.reports[k].index]
      ensures !next.reports[k].LoginLine? ==>
                HasBlog(cfg, lines[next.reports[k].index], sites(next.reports[k].index), validUrl)
    {
      if k < |st.reports| {
        assert next.reports[k] == st.reports[k];
      }
    }
  }

  /** The run never reports a line below `from`, reports lines in list order, and never runs
      the post or the profile step for a line without a blog id. */
  lemma {:induction false} RunReportsInOrder(cfg: Config, lines: seq<string>, sites: nat -> Site,
                                             validUrl: string -> bool, i: nat, st: RunState)
    requires i <= |lines| && ReportsInOrder(cfg, lines, sites, validUrl, st.reports, i)
    ensures ReportsInOrder(cfg, lines, sites, validUrl,
                           RunFrom(cfg, lines, sites, validUrl, i, st).reports, |lines|)
    decreases |lines| - i
  {
    if i == |lines| || st.aborted || st.newPosts == cfg.maxPosts {
    } else if i < cfg.from {
      RunReportsInOrder(cfg, lines, sites, validUrl, i + 1, st);
    } else {
      var next := LineStep(cfg, i, lines[i], sites(i), validUrl, st);
      LineStepKeepsOrder(cfg, lines, sites, validUrl, i, st);
      RunReportsInOrder(cfg, lines, sites, validUrl, i + 1, next);
    }
  }

  /** Line `k`'s login report, with its `wpLogin` flags and blog-id flag, is among the
      reports from position `lo` on. */
  ghost predicate LoginReported(reports: seq<Report>, lo: nat, k: nat, line: string, site: Site)
  {
    exists t :: lo <= t < |reports| &&
      reports[t] == LoginLine(k, line, WpLogin(site.login), FirstBlogId(site.usersBlogs).Some?)
  }

  /** Every line from `i` on that is at or after `from` has its login report among the
      reports from position `lo` on. */
  ghost predicate AllLoginsReported(cfg: Config, lines: seq<string>, sites: nat -> Site,
                                    reports: seq<Report>, lo: nat, i: nat)
  {
    forall k :: i <= k < |lines| && cfg.from <= k ==>
      LoginReported(reports, lo, k, lines[k], sites(k))
  }

  /** The loop does not stop early: unless the run ended at an exception or at the cap, every
      line at or after `from` got its login report. */
  lemma {:induction false} RunReachesEveryLine(cfg: Config, lines: seq<string>,
                                               sites: nat -> Site, validUrl: string -> bool,
                                               i: nat, st: RunState)
    requires i <= |lines|
    ensures var r := RunFrom(cfg, lines, sites, validUrl, i, st);
            r.aborted || r.newPosts == cfg.maxPosts ||
            AllLoginsReported(cfg, lines, sites, r.reports, |st.reports|, i)
    decreases |lines| - i
  {
    if i == |lines| || st.aborted || st.newPosts == cfg.maxPosts {
    } else if i < cfg.from {
      RunReachesEveryLine(cfg, lines, sites, validUrl, i + 1, st);
    } else {
      var next := LineStep(cfg, i, lines[i], sites(i), validUrl, st);
      RunReachesEveryLine(cfg, lines, sites, validUrl, i + 1, next);
      var r := RunFrom(cfg, lines, sites, validUrl, i + 1, next);
      if !r.aborted && r.newPosts != cfg.maxPosts {
        LineStepLogs(cfg, i, lines[i], sites(i), validUrl, st, r.reports);
        AllLoginsReportedFrom(cfg, lines, sites, r.reports, |st.reports|, |next.reports|, i);
      }
    }
  }

  /** A line step that does not raise puts the line's login report first among what it adds,
      so any extension of its reports holds that report. */
  lemma LineStepLogs(cfg: Config, i: nat, line: string, site: Site, validUrl: string -> bool,
                     st: RunState, reports: seq<Report>)
    requires !LineStep(cfg, i, line, site, validUrl, st).aborted
    requires LineStep(cfg, i, line, site, validUrl, st).reports <= reports
    ensures LoginReported(reports, |st.reports|, i, line, site)
  {
    var next := LineStep(cfg, i, line, site, validUrl, st);
    assert reports[|st.reports|] == next.reports[|st.reports|];
  }

  /** Line `i`'s login report from `lo` on, and the later lines' reports from `hi >= lo` on,
      give every line's report from `lo` on. */
  lemma AllLoginsReportedFrom(cfg: Config, lines: seq<string>, sites: nat -> Site,
                              reports: seq<Report>, lo: nat, hi: nat, i: nat)
    requires lo <= hi && i < |lines|
    requires LoginReported(reports, lo, i, lines[i], sites(i))
    requires AllLoginsReported(cfg, lines, sites, reports, hi, i + 1)
    ensures AllLoginsReported(cfg, lines, sites, reports, lo, i)
  {
    forall k | i + 1 <= k < |lines| && cfg.from <= k
      ensures LoginReported(reports, lo, k, lines[k], sites(k))
    {
      assert LoginReported(reports, hi, k, lines[k], sites(k));
    }
  }

  /** With a cap of two and three lines that each create a post, the run publishes two posts
      and stops: two login reports and two post reports, and the third line is not touched. */
  lemma CapOfTwo(cfg: Config, lines: seq<string>, sites: nat -> Site, validUrl: string -> bool)
    requires |lines| == 3 && cfg.maxPosts == 2 && cfg.from == 0 && !cfg.withBio
    requires forall k :: 0 <= k < 3 ==> CreatesPost(cfg, lines[k], sites(k), validUrl)
    ensures RunFrom(cfg, lines, sites, validUrl, 0, Start).newPosts == 2
    ensures |RunFrom(cfg, lines, sites, validUrl, 0, Start).reports| == 4
    ensures !RunFrom(cfg, lines, sites, validUrl, 0, Start).aborted
  {
    assert CreatesPost(cfg, lines[0], sites(0), validUrl);
    assert CreatesPost(cfg, lines[1], sites(1), validUrl);
    var s1 := LineStep(cfg, 0, lines[0], sites(0), validUrl, Start);
    var s2 := LineStep(cfg, 1, lines[1], sites(1), validUrl, s1);
    assert RunFrom(cfg, lines, sites, validUrl, 2, s2) == s2;
  }

  /** Once a post report shows the new post counter at the cap, no later line is reported. */
  ghost predicate NothingAfterCap(reports: seq<Report>, maxPosts: int)
  {
    forall a, b ::
      (0 <= a < |reports| && 0 <= b < |reports| &&
       reports[a].PostLine? && reports[a].newPosts == maxPosts) ==>
      reports[b].index <= reports[a].index
  }

  /** The cap is a stop for the whole run, not only for publishing: the line whose post
      brings the counter to `maxPosts` is the last line reported. */
  lemma {:induction false} RunStopsAtCap(cfg: Config, lines: seq<string>, sites: nat -> Site,
                                         validUrl: string -> bool, i: nat, st: RunState)
    requires i <= |lines| && 0 <= cfg.maxPosts && st.newPosts <= cfg.maxPosts
    requires forall k :: 0 <= k < |st.reports| ==> st.reports[k].index < i
    requires forall k :: 0 <= k < |st.reports| && st.reports[k].PostLine? ==>
               st.reports[k].newPosts <= st.newPosts
    requires NothingAfterCap(st.reports, cfg.maxPosts)
    ensures NothingAfterCap(RunFrom(cfg, lines, sites, validUrl, i, st).reports, cfg.maxPosts)
    decreases |lines| - i
  {
    if i == |lines| || st.aborted || st.newPosts == cfg.maxPosts {
    } else if i < cfg.from {
      RunStopsAtCap(cfg, lines, sites, validUrl, i + 1, st);
    } else {
      var next := LineStep(cfg, i, lines[i], sites(i), validUrl, st);
      assert NothingAfterCap(next.reports, cfg.maxPosts) by {
        forall a, b | 0 <= a < |next.reports| && 0 <= b < |next.reports| &&
                      next.reports[a].PostLine? && next.reports[a].newPosts == cfg.maxPosts
          ensures next.reports[b].index <= next.reports[a].index
        {
          if a < |st.reports| {
            assert false;
          }
          if b < |st.reports| {
            assert next.reports[b] == st.reports[b];
          }
        }
      }
      forall k | 0 <= k < |next.reports| && next.reports[k].PostLine?
        ensures next.reports[k].newPosts <= next.newPosts
      {
        if k < |st.reports| {
          assert next.reports[k] == st.reports[k];
        }
      }
      RunStopsAtCap(cfg, lines, sites, validUrl, i + 1, next);
    }
  }

  /** The post block (lines 181-215), as written: pick a post (an exception when that
      fails), look for a duplicate with the `getPostId` loop when asked to, and create the
      post when none was found. */
  method PublishPost(cfg: Config, i: nat, line: string, site: Site, st: RunState)
    returns (next: RunState)
    requires !st.aborted
    ensures next == PostStep(cfg, i, line, site, st)
  {
    if site.postTitle.None? {
      return st.(aborted := true);
    }
    var postTitle := site.postTitle.value;
    var newPostCount, existingPostCount := st.newPosts, st.existingPosts;
    var postid := -1;
    if cfg.noDuplicates {
      var offsets;
      postid, offsets := GetPostId(site.pages, postTitle);
    }
    if postid == -1 {
      if site.newPost.Some? {
        postid := site.newPost.value;
        newPostCount := newPostCount + 1;
      }
    } else {
      existingPostCount := existingPostCount + 1;
    }
    var reports := st.reports + [PostLine(i, line, postid, newPostCount, existingPostCount)];
    return RunState(reports, newPostCount, existingPostCount, false);
  }

  /** The body of the `for` loop for one line at or after `from` (lines 157-239), as
      written: the login report, `continue` without a blog id, the post block and the
      profile step. An exception ends the line with `aborted` set. */
  method ProcessLine(cfg: Config, i: nat, line: string, site: Site, validUrl: string -> bool,
                     st: RunState)
    returns (next: RunState)
    requires !st.aborted
    ensures next == LineStep(cfg, i, line, site, validUrl, st)
  {
    var fields := ParseTarget(RuleFor(cfg.sep), line);
    if !validUrl(fields.url) {
      return st.(aborted := true);
    }
    var loginResult := WpLogin(site.login);
    var blogid := FirstBlogId(site.usersBlogs);
    next := st.(reports := st.reports + [LoginLine(i, line, loginResult, blogid.Some?)]);
    if blogid.None? {
      return;
    }
    if cfg.withPosts {
      next := PublishPost(cfg, i, line, site, next);
      if next.aborted {
        return;
      }
    }
    if cfg.withBio {
      if !site.bioRead {
        return next.(aborted := true);
      }
      next := next.(reports := next.reports + [BioLine(i, line, site.profileUpdated)]);
    }
  }

  /** The `for` loop of `run`, as written: `break` at the cap, `continue` below `from` and
      after a line without a blog id. An exception (a url `new URL` rejects, a post that
      cannot be picked) ends the run where it happens. */
  method Run(contents: string, cfg: Config, validUrl: string -> bool, sites: nat -> Site)
    returns (reports: seq<Report>, newPostCount: nat, existingPostCount: nat, aborted: bool)
    ensures RunState(reports, newPostCount, existingPostCount, aborted) ==
            RunFrom(cfg, TargetLines(contents), sites, validUrl, 0, Start)
    ensures cfg.maxPosts >= 0 ==> newPostCount <= cfg.maxPosts
    ensures cfg.maxPosts >= 0 ==> NothingAfterCap(reports, cfg.maxPosts)
    ensures ReportsInOrder(cfg, TargetLines(contents), sites, validUrl, reports, |TargetLines(contents)|)
    ensures aborted || newPostCount == cfg.maxPosts ||
            AllLoginsReported(cfg, TargetLines(contents), sites, reports, 0, 0)
  {
    var lines := TargetLines(contents);
    ghost var expected := RunFrom(cfg, lines, sites, validUrl, 0, Start);
    reports, newPostCount, existingPostCount, aborted := [], 0, 0, false;
    var i := 0;
    while i < |lines|
      invariant i <= |lines| && !aborted
      invariant RunFrom(cfg, lines, sites, validUrl, i,
                        RunState(reports, newPostCount, existingPostCount, false)) == expected
    {
      if newPostCount == cfg.maxPosts {
        break;
      }
      if i < cfg.from {
        i := i + 1;
        continue;
      }
      var next := ProcessLine(cfg, i, lines[i], sites(i), validUrl,
                              RunState(reports, newPostCount, existingPostCount, false));
      reports, newPostCount, existingPostCount, aborted :=
        next.reports, next.newPosts, next.existingPosts, next.aborted;
      if aborted {
        break;
      }
      i := i + 1;
    }
    assert RunState(reports, newPostCount, existingPostCount, aborted) == expected;
    if cfg.maxPosts >= 0 {
      RunRespectsCap(cfg, lines, sites, validUrl, 0, Start);
      RunStopsAtCap(cfg, lines, sites, validUrl, 0, Start);
    }
    RunReportsInOrder(cfg, lines, sites, validUrl, 0, Start);
    RunReachesEveryLine(cfg, lines, sites, validUrl, 0, Start);
  }
}
