/**
 * `getSortedPostsData`: the post records of the listing, sorted in place by
 * date, newest first, with the comparator of the blog, which compares dates
 * as strings and never answers "equal".
 */
module PostOrder {
  import opened Wrappers
  import opened StringOrder
  import opened ArraySort
  import opened Posts

  /** The blog's date comparator: positive exactly when `b` has the later date and belongs before `a`. */
  function Compare(a: Post, b: Post): (c: int)
    ensures c == 1 || c == -1
    ensures c > 0 <==> Less(a.date, b.date)
  {
    if Less(a.date, b.date) then 1 else -1
  }

  /**
   * The comparator never answers 0, and on equal dates it answers -1 both
   * ways, so it never reports a tie; which of two posts with the same date
   * comes first is left to the sort.
   */
  lemma CompareNeverTies(a: Post, b: Post)
    ensures Compare(a, b) != 0
    ensures a.date == b.date ==> Compare(a, b) == -1 && Compare(b, a) == -1
  {
    LessIrreflexive(a.date);
  }

  /** The comparator is one a sort can rely on, inconsistent ties notwithstanding. */
  lemma CompareOrdersConsistently()
    ensures OrdersConsistently(Compare)
  {
    forall a: Post, b: Post | Compare(a, b) > 0 ensures Compare(b, a) <= 0 {
      LessAsymmetric(a.date, b.date);
    }
    forall a: Post, b: Post, c: Post | Compare(a, b) <= 0 && Compare(b, c) <= 0
      ensures Compare(a, c) <= 0
    {
      NotLessTransitive(a.date, b.date, c.date);
    }
  }

  /** Newest first: no post has a date string-less than that of a post after it. */
  predicate DateSorted(s: seq<Post>)
  {
    forall i, j :: 0 <= i < j < |s| ==> !Less(s[i].date, s[j].date)
  }

  /** A list the comparator finds in order is newest first. */
  lemma SortedByCompareIsDateSorted(s: seq<Post>)
    requires SortedBy(s, Compare)
    ensures DateSorted(s)
  {
    forall i, j | 0 <= i < j < |s| ensures !Less(s[i].date, s[j].date) {
      assert Compare(s[i], s[j]) <= 0;
    }
  }

  /** The posts of the listing in the order `getSortedPostsData` returns them: the same posts, newest first. */
  function SortByDate(posts: seq<Post>): (r: seq<Post>)
    ensures multiset(r) == multiset(posts)
    ensures DateSorted(r)
  {
    CompareOrdersConsistently();
    InsertionSortSorted(posts, Compare);
    SortedByCompareIsDateSorted(InsertionSort(posts, Compare));
    InsertionSort(posts, Compare)
  }

  /**
   * The specification of `getSortedPostsData`: no posts without a directory,
   * otherwise the listing's records rearranged newest first.
   */
  function SortedPostsData(dir: Directory): (r: seq<Post>)
    ensures dir.None? ==> r == []
    ensures dir.Some? ==> multiset(r) == multiset(AllPostsData(dir.value))
    ensures DateSorted(r)
  {
    if dir.None? then [] else SortByDate(AllPostsData(dir.value))
  }

  /**
   * `getSortedPostsData()`: a missing directory gives no posts; otherwise the
   * markdown files' records are sorted in place by date.
   */
  method GetSortedPostsData(dir: Directory) returns (posts: seq<Post>)
    ensures posts == SortedPostsData(dir)
    ensures DateSorted(posts)
    ensures dir.Some? ==> multiset(posts) == multiset(AllPostsData(dir.value))
    ensures dir.None? ==> posts == []
  {
    if dir.None? {
      return [];
    }
    var all := AllPostsData(dir.value);
    var a := new Post[|all|](k requires 0 <= k < |all| => all[k]);
    assert a[..] == all;
    SortInPlace(a, Compare);
    posts := a[..];
  }

  /** The key under which posts are told apart. */
  function IdOf(p: Post): (id: string)
    ensures id == p.id
  {
    p.id
  }

  /**
   * Ids are unique across the sorted list when the files are named uniquely
   * and no front matter sets its own id.
   */
  lemma SortedPostsDataDistinctIds(entries: seq<Entry>)
    requires UniqueNames(entries)
    requires forall e :: e in entries ==> e.frontMatter.id.None?
    ensures DistinctBy(SortedPostsData(Some(entries)), IdOf)
  {
    var all := AllPostsData(entries);
    AllPostsDataDistinctIds(entries);
    assert DistinctBy(all, IdOf);
    PermutationKeepsDistinct(SortByDate(all), all, IdOf);
  }
}
