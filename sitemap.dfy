/**
 * The sitemap: four fixed pages followed by one entry per post, newest post
 * first. Priorities are kept in tenths; `lastModified` is not modelled.
 */
module Sitemap {
  import opened Wrappers
  import opened ArraySort
  import opened Posts
  import opened PostOrder

  datatype ChangeFrequency = Daily | Weekly | Monthly

  /** One entry of the sitemap, with its priority in tenths (`0.8` is 8). */
  datatype SitemapEntry = SitemapEntry(url: string, changeFrequency: ChangeFrequency, priority: nat)

  const BaseUrl: string := "https://yourblog.com"

  const PostsPrefix: string := BaseUrl + "/posts/"

  /**
   * The home page, the post list, the tag index and the about page, in that
   * order, with strictly decreasing priorities.
   */
  function FixedEntries(): (r: seq<SitemapEntry>)
    ensures |r| == 4
    ensures r[0].url == BaseUrl && r[1].url == BaseUrl + "/posts"
    ensures r[2].url == BaseUrl + "/tags" && r[3].url == BaseUrl + "/about"
    ensures forall i, j :: 0 <= i < j < |r| ==> r[i].priority > r[j].priority
    ensures r[0].changeFrequency == Daily && r[1].changeFrequency == Daily
    ensures r[2].changeFrequency == Weekly && r[3].changeFrequency == Monthly
  {
    [ SitemapEntry(BaseUrl, Daily, 10),
      SitemapEntry(BaseUrl + "/posts", Daily, 9),
      SitemapEntry(BaseUrl + "/tags", Weekly, 7),
      SitemapEntry(BaseUrl + "/about", Monthly, 5) ]
  }

  /** The address of a post: the base url, `/posts/`, then the post's id. */
  function PostUrl(id: string): (url: string)
    ensures |url| == |PostsPrefix| + |id|
    ensures url[..|PostsPrefix|] == PostsPrefix && url[|PostsPrefix|..] == id
  {
    PostsPrefix + id
  }

  /** One entry per post, in the order given: the post's url, monthly, priority 0.8. */
  function PostEntries(posts: seq<Post>): (r: seq<SitemapEntry>)
    ensures |r| == |posts|
    ensures forall k :: 0 <= k < |posts| ==> r[k] == SitemapEntry(BaseUrl + "/posts/" + posts[k].id, Monthly, 8)
  {
    seq(|posts|, k requires 0 <= k < |posts| => SitemapEntry(PostUrl(posts[k].id), Monthly, 8))
  }

  /** The sitemap for a list of posts: the four fixed entries, then one entry per post. */
  function SitemapOf(posts: seq<Post>): (r: seq<SitemapEntry>)
    ensures |r| == 4 + |posts|
    ensures r[..4] == FixedEntries()
    ensures forall k :: 0 <= k < |posts| ==> r[4 + k] == SitemapEntry(BaseUrl + "/posts/" + posts[k].id, Monthly, 8)
  {
    FixedEntries() + PostEntries(posts)
  }

  /** `sitemap()`: a missing posts directory leaves the fixed entries alone. */
  function SitemapFor(dir: Directory): (r: seq<SitemapEntry>)
    ensures dir.None? ==> r == FixedEntries()
    ensures |r| == 4 + |SortedPostsData(dir)|
  {
    SitemapOf(SortedPostsData(dir))
  }

  /** The post entries follow the newest-first order of the post list. */
  lemma SitemapForOrder(dir: Directory)
    ensures |SitemapFor(dir)| == 4 + |SortedPostsData(dir)|
    ensures forall k :: 0 <= k < |SortedPostsData(dir)| ==>
              SitemapFor(dir)[4 + k].url == PostUrl(SortedPostsData(dir)[k].id)
    ensures DateSorted(SortedPostsData(dir))
  {
  }

  /** The post id can be read back from its url. */
  lemma PostUrlInjective(a: string, b: string)
    ensures PostUrl(a) == PostUrl(b) ==> a == b
  {
    assert a == PostUrl(a)[|PostsPrefix|..] && b == PostUrl(b)[|PostsPrefix|..];
  }

  /** No post url is the url of a fixed page. */
  lemma PostUrlNotFixed(id: string, e: SitemapEntry)
    requires e in FixedEntries()
    ensures PostUrl(id) != e.url
  {
    var url := PostUrl(id);
    var n := |BaseUrl|;
    assert url[n] == '/' && url[n + 1] == 'p' && url[n + 6] == '/';
    if e.url == BaseUrl + "/posts" {
      assert |e.url| == n + 6;
    } else if e.url == BaseUrl + "/tags" {
      assert e.url[n + 1] == 't';
    } else if e.url == BaseUrl + "/about" {
      assert e.url[n + 1] == 'a';
    } else {
      assert |e.url| == n;
    }
  }

  /** The four fixed pages have four different urls. */
  lemma FixedUrlsDistinct()
    ensures forall i, j :: 0 <= i < j < |FixedEntries()| ==> FixedEntries()[i].url != FixedEntries()[j].url
  {
    var fixed := FixedEntries();
    var n := |BaseUrl|;
    assert fixed[1].url[n + 1] == 'p' && fixed[2].url[n + 1] == 't' && fixed[3].url[n + 1] == 'a';
    assert |fixed[0].url| == n && |fixed[1].url| == n + 6 && |fixed[2].url| == n + 5;
  }

  /** Two positions of the sitemap of posts with distinct ids hold different urls. */
  lemma SitemapOfUrlsDiffer(posts: seq<Post>, i: nat, j: nat)
    requires DistinctBy(posts, IdOf)
    requires i < j < 4 + |posts|
    ensures SitemapOf(posts)[i].url != SitemapOf(posts)[j].url
  {
    var s := SitemapOf(posts);
    var fixed := FixedEntries();
    if j < 4 {
      FixedUrlsDistinct();
      assert s[i] == fixed[i] && s[j] == fixed[j];
    } else if i < 4 {
      assert s[i] == fixed[i] && s[i] in fixed;
      PostUrlNotFixed(posts[j - 4].id, s[i]);
    } else {
      assert IdOf(posts[i - 4]) != IdOf(posts[j - 4]);
      PostUrlInjective(posts[i - 4].id, posts[j - 4].id);
    }
  }

  /** Posts with distinct ids give a sitemap without repeated urls. */
  lemma SitemapOfDistinctUrls(posts: seq<Post>)
    requires DistinctBy(posts, IdOf)
    ensures forall i, j :: 0 <= i < j < |SitemapOf(posts)| ==> SitemapOf(posts)[i].url != SitemapOf(posts)[j].url
  {
    forall i, j | 0 <= i < j < |SitemapOf(posts)| ensures SitemapOf(posts)[i].url != SitemapOf(posts)[j].url {
      SitemapOfUrlsDiffer(posts, i, j);
    }
  }

  /**
   * A directory whose markdown files keep their own names as ids gives a
   * sitemap in which every url appears once.
   */
  lemma SitemapForDistinctUrls(entries: seq<Entry>)
    requires UniqueNames(entries)
    requires forall e :: e in entries ==> e.frontMatter.id.None?
    ensures forall i, j :: 0 <= i < j < |SitemapFor(Some(entries))| ==>
              SitemapFor(Some(entries))[i].url != SitemapFor(Some(entries))[j].url
  {
    SortedPostsDataDistinctIds(entries);
    SitemapOfDistinctUrls(SortedPostsData(Some(entries)));
  }
}
