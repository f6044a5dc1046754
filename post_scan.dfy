/** `getPostId` of src/poster.js (lines 102-138): look for an existing post with the same
    title, 100 posts at a time. The remote `wp.getPosts` is an oracle: `pages[b]` is its
    reply to the request at offset `b * BulkSize`, and every request past the end of `pages`
    gets an empty page. */
module PostScan {
  import opened Wrappers

  /** Posts asked for per `wp.getPosts` request. */
  const BulkSize: nat := 100

  /** A post as `wp.getPosts` lists it (fields `post_id` and `post_title`). WordPress ids are
      positive, so none of them is the "not found" value -1. */
  datatype Post = Post(id: nat, title: string)

  /** The outcome of one `wp.getPosts` request: a page of posts, or a rejection (transport
      error, XML-RPC fault, a post whose title cannot be lowered). */
  datatype PageReply = Page(posts: seq<Post>) | Failed

  // ---------------------------------------------------------------------------------------
  // `p.post_title.toLowerCase() === postTitle.toLowerCase()`
  // ---------------------------------------------------------------------------------------

  /** `toLowerCase` on one character, for the ASCII letters: an upper-case letter becomes
      its lower-case partner, every other character stays. */
  function LowerChar(c: char): (lower: char)
    ensures 'A' <= c <= 'Z' ==> 'a' <= lower <= 'z' && lower as int - c as int == 'a' as int - 'A' as int
    ensures !('A' <= c <= 'Z') ==> lower == c
  {
    if 'A' <= c <= 'Z' then (c as int + 32) as char else c
  }

  /** `toLowerCase` on a string, character by character (`LowerCharwise`). */
  function Lower(s: string): (lower: string)
    ensures |lower| == |s|
  {
    if s == [] then [] else [LowerChar(s[0])] + Lower(s[1..])
  }

  /** Lowering keeps the length and lowers every character in place. */
  lemma {:induction false} LowerCharwise(s: string)
    ensures |Lower(s)| == |s|
    ensures forall k :: 0 <= k < |s| ==> Lower(s)[k] == LowerChar(s[k])
  {
    if s != [] {
      LowerCharwise(s[1..]);
      assert forall k :: 1 <= k < |s| ==> Lower(s)[k] == Lower(s[1..])[k - 1];
    }
  }

  /** Two titles match when they are equal after lowering both. */
  predicate TitleMatches(title: string, candidate: string)
    ensures TitleMatches(title, candidate) ==> |title| == |candidate|
    ensures title == candidate ==> TitleMatches(title, candidate)
  {
    LowerCharwise(title);
    LowerCharwise(candidate);
    Lower(title) == Lower(candidate)
  }

  /** Titles match exactly when they have the same length and agree letter by letter up to
      case. */
  lemma TitleMatchesCharwise(a: string, b: string)
    ensures TitleMatches(a, b) <==>
            |a| == |b| && forall k :: 0 <= k < |a| ==> LowerChar(a[k]) == LowerChar(b[k])
  {
    LowerCharwise(a);
    LowerCharwise(b);
    if |a| == |b| && forall k :: 0 <= k < |a| ==> LowerChar(a[k]) == LowerChar(b[k]) {
      assert forall k :: 0 <= k < |a| ==> Lower(a)[k] == Lower(b)[k];
    }
    if TitleMatches(a, b) {
      assert forall k :: 0 <= k < |a| ==> Lower(a)[k] == LowerChar(a[k]) && Lower(b)[k] == LowerChar(b[k]);
    }
  }

  /** An existing post "Hello" is a duplicate of a candidate "HELLO". */
  lemma HelloIsDuplicateOfUpperHello()
    ensures TitleMatches("Hello", "HELLO")
  {
    TitleMatchesCharwise("Hello", "HELLO");
  }

  // ---------------------------------------------------------------------------------------
  // `posts.find(p => …)`
  // ---------------------------------------------------------------------------------------

  /** No post before position `k` has a matching title. */
  predicate NoMatchBefore(posts: seq<Post>, title: string, k: nat)
    requires k <= |posts|
  {
    forall k' :: 0 <= k' < k ==> !TitleMatches(posts[k'].title, title)
  }

  /** The first post of the page whose title matches, if any. */
  function FindFirst(posts: seq<Post>, title: string): (r: Option<Post>)
    ensures r.None? <==> NoMatchBefore(posts, title, |posts|)
    ensures r.Some? ==> exists k :: 0 <= k < |posts| && posts[k] == r.value &&
                          TitleMatches(r.value.title, title) && NoMatchBefore(posts, title, k)
  {
    if posts == [] then None
    else if TitleMatches(posts[0].title, title) then Some(posts[0])
    else
      var r := FindFirst(posts[1..], title);
      assert r.None? <==> NoMatchBefore(posts, title, |posts|) by {
        assert forall k' :: 1 <= k' < |posts| ==> posts[k'] == posts[1..][k' - 1];
      }
      assert r.Some? ==> exists k :: 1 <= k < |posts| && posts[k] == r.value &&
                           NoMatchBefore(posts, title, k) by {
        if r.Some? {
          var k :| 0 <= k < |posts| - 1 && posts[1..][k] == r.value &&
                   NoMatchBefore(posts[1..], title, k);
          assert forall k' :: 1 <= k' < k + 1 ==> posts[k'] == posts[1..][k' - 1];
          assert NoMatchBefore(posts, title, k + 1);
        }
      }
      r
  }

  /** Searching two pieces of a list one after the other is searching the whole list. */
  lemma {:induction false} FindFirstAppend(a: seq<Post>, b: seq<Post>, title: string)
    ensures FindFirst(a + b, title) ==
            if FindFirst(a, title).Some? then FindFirst(a, title) else FindFirst(b, title)
  {
    if a == [] {
      assert a + b == b;
    } else {
      assert (a + b)[1..] == a[1..] + b;
      FindFirstAppend(a[1..], b, title);
    }
  }

  // ---------------------------------------------------------------------------------------
  // The paged scan
  // ---------------------------------------------------------------------------------------

  /** The reply to the request for page `b`. */
  function ReplyAt(pages: seq<PageReply>, b: nat): PageReply
  {
    if b < |pages| then pages[b] else Page([])
  }

  /** The value `getPostId` returns, page by page: the id of the first match on the first
      page that has one; -1 once a request fails or a page comes back empty. */
  function ScanPages(pages: seq<PageReply>, title: string): (id: int)
    ensures id == -1 || exists b :: 0 <= b < |pages| && pages[b].Page? &&
                          FindFirst(pages[b].posts, title).Some? &&
                          FindFirst(pages[b].posts, title).value.id == id
    decreases |pages|
  {
    if pages == [] then -1
    else match pages[0]
      case Failed => -1
      case Page(posts) =>
        match FindFirst(posts, title)
        case Some(p) => p.id
        case None => if posts == [] then -1 else ScanPages(pages[1..], title)
  }

  /** The scan reaches page `b`: every earlier request answered with a non-empty page that
      has no match. */
  ghost predicate Reached(pages: seq<PageReply>, title: string, b: nat)
  {
    b <= |pages| &&
    forall b' :: 0 <= b' < b ==>
      pages[b'].Page? && pages[b'].posts != [] && FindFirst(pages[b'].posts, title).None?
  }

  /** A match on a reached page is what the scan returns. */
  lemma {:induction false} ScanFindsMatch(pages: seq<PageReply>, title: string, b: nat, p: Post)
    requires b < |pages| && Reached(pages, title, b)
    requires pages[b].Page? && FindFirst(pages[b].posts, title) == Some(p)
    ensures ScanPages(pages, title) == p.id
  {
    if b > 0 {
      assert Reached(pages[1..], title, b - 1) by {
        forall b' | 0 <= b' < b - 1
          ensures pages[1..][b'].Page? && pages[1..][b'].posts != [] &&
                  FindFirst(pages[1..][b'].posts, title).None?
        {
          assert pages[1..][b'] == pages[b' + 1];
        }
      }
      ScanFindsMatch(pages[1..], title, b - 1, p);
      assert pages[0].Page? && pages[0].posts != [];
    }
  }

  /** The page at which the scan stops: the first page whose request failed, that has a match
      or that is empty; `|pages|` (the first empty page past the end) when there is none. */
  function StopPage(pages: seq<PageReply>, title: string): (b: nat)
    ensures b <= |pages| && Reached(pages, title, b)
    ensures b < |pages| ==>
              pages[b].Failed? || pages[b].posts == [] || FindFirst(pages[b].posts, title).Some?
    decreases |pages|
  {
    if pages == [] then 0
    else match pages[0]
      case Failed => 0
      case Page(posts) =>
        if posts == [] || FindFirst(posts, title).Some? then 0
        else
          var b := StopPage(pages[1..], title);
          assert Reached(pages, title, b + 1) by {
            forall b' | 1 <= b' < b + 1
              ensures pages[b'].Page? && pages[b'].posts != [] &&
                      FindFirst(pages[b'].posts, title).None?
            {
              assert pages[b'] == pages[1..][b' - 1];
            }
          }
          b + 1
  }

  /** Without a match on any reached page the scan returns -1: in particular a failed request
      ends the scan with -1 even when a later page would have matched. */
  lemma {:induction false} ScanMissesAll(pages: seq<PageReply>, title: string)
    requires forall b :: 0 <= b < |pages| && Reached(pages, title, b) ==>
               !(pages[b].Page? && FindFirst(pages[b].posts, title).Some?)
    ensures ScanPages(pages, title) == -1
  {
    if pages != [] && pages[0].Page? && pages[0].posts != [] {
      assert Reached(pages, title, 0);
      if FindFirst(pages[0].posts, title).None? {
        forall b | 0 <= b < |pages[1..]| && Reached(pages[1..], title, b)
          ensures !(pages[1..][b].Page? && FindFirst(pages[1..][b].posts, title).Some?)
        {
          assert Reached(pages, title, b + 1) by {
            forall b' | 0 <= b' < b + 1
              ensures pages[b'].Page? && pages[b'].posts != [] &&
                      FindFirst(pages[b'].posts, title).None?
            {
              if b' > 0 {
                assert pages[b'] == pages[1..][b' - 1];
              }
            }
          }
        }
        ScanMissesAll(pages[1..], title);
      }
    }
  }

  /** The pages a site with posts `site` serves: slices of `BulkSize` posts in listing
      order, then nothing. */
  function Listing(site: seq<Post>): (pages: seq<PageReply>)
    decreases |site|
  {
    if site == [] then []
    else
      var m := if |site| < BulkSize then |site| else BulkSize;
      [Page(site[..m])] + Listing(site[m..])
  }

  /** Page `b` of the listing is the slice the request at offset `b * BulkSize` asks for. */
  lemma {:induction false} ListingPageAtOffset(site: seq<Post>, b: nat)
    requires b * BulkSize < |site|
    ensures b < |Listing(site)|
    ensures var end := if |site| < b * BulkSize + BulkSize then |site| else b * BulkSize + BulkSize;
            Listing(site)[b] == Page(site[b * BulkSize..end])
  {
    var m := if |site| < BulkSize then |site| else BulkSize;
    assert Listing(site) == [Page(site[..m])] + Listing(site[m..]);
    if b > 0 {
      assert m == BulkSize && (b - 1) * BulkSize + BulkSize == b * BulkSize;
      ListingPageAtOffset(site[m..], b - 1);
      assert Listing(site)[b] == Listing(site[m..])[b - 1];
      assert site[m..][(b - 1) * BulkSize..] == site[b * BulkSize..];
    }
  }

  /** The id `getPostId`'s search would give over the whole listing at once. */
  function FirstMatchId(site: seq<Post>, title: string): int
  {
    match FindFirst(site, title)
    case Some(p) => p.id
    case None => -1
  }

  /** Scanning a site's listing page by page, with no request failing, finds the same post as
      searching the whole listing: the first one in listing order whose title matches. */
  lemma {:induction false} ScanListing(site: seq<Post>, title: string)
    ensures ScanPages(Listing(site), title) == FirstMatchId(site, title)
    decreases |site|
  {
    if site != [] {
      var m := if |site| < BulkSize then |site| else BulkSize;
      var pages := Listing(site);
      assert pages[0] == Page(site[..m]) && pages[1..] == Listing(site[m..]);
      FindFirstAppend(site[..m], site[m..], title);
      assert site[..m] + site[m..] == site;
      ScanListing(site[m..], title);
    }
  }

  /** The `do … while (posts.length > 0)` loop. Besides the id it returns the offsets of the
      requests it made, in order: one per page up to and including the page where the scan
      stops, and none after it. */
  method GetPostId(pages: seq<PageReply>, postTitle: string) returns (postid: int, offsets: seq<nat>)
    ensures postid == ScanPages(pages, postTitle)
    ensures |offsets| == StopPage(pages, postTitle) + 1
    ensures forall t :: 0 <= t < |offsets| ==> offsets[t] == t * BulkSize
  {
    var bulkCounter := 0;
    postid := -1;
    offsets := [];
    var posts: seq<Post> := [];
    while true
      invariant bulkCounter <= |pages|
      invariant postid == -1
      invariant ScanPages(pages[bulkCounter..], postTitle) == ScanPages(pages, postTitle)
      invariant bulkCounter + StopPage(pages[bulkCounter..], postTitle) == StopPage(pages, postTitle)
      invariant |offsets| == bulkCounter
      invariant forall t :: 0 <= t < |offsets| ==> offsets[t] == t * BulkSize
      decreases |pages| - bulkCounter
    {
      offsets := offsets + [bulkCounter * BulkSize];
      var reply := ReplyAt(pages, bulkCounter);
      if reply.Failed? {
        break;
      }
      posts := reply.posts;
      var post := FindFirst(posts, postTitle);
      if post.Some? {
        postid := post.value.id;
        break;
      }
      if bulkCounter < |pages| {
        assert pages[bulkCounter..][1..] == pages[bulkCounter + 1..];
      }
      bulkCounter := bulkCounter + 1;
      if posts == [] {
        break;
      }
    }
  }
}
