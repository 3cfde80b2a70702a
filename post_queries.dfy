/**
 * The two queries of the post index built on the sorted list: the posts that
 * carry a tag, and the sorted list of all tags.
 */
module PostQueries {
  import opened Wrappers
  import opened StringOrder
  import opened ArraySort
  import opened Posts
  import opened PostOrder

  /** `post.tags?.includes(tag)`: some position of the post's tags holds `tag`; a post without `tags` carries no tag. */
  predicate HasTag(p: Post, tag: string): (r: bool)
    ensures r <==> p.tags.Some? && exists k :: 0 <= k < |p.tags.value| && p.tags.value[k] == tag
  {
    p.tags.Some? && tag in p.tags.value
  }

  /** The posts that carry `tag`, in their original order. */
  function PostsByTag(posts: seq<Post>, tag: string): (r: seq<Post>)
    ensures |r| <= |posts|
    ensures forall p :: p in r <==> p in posts && HasTag(p, tag)
  {
    if posts == [] then []
    else (if HasTag(posts[0], tag) then [posts[0]] else []) + PostsByTag(posts[1..], tag)
  }

  /** The filter keeps relative order: it commutes with concatenation. */
  lemma {:induction false} PostsByTagAppend(a: seq<Post>, b: seq<Post>, tag: string)
    ensures PostsByTag(a + b, tag) == PostsByTag(a, tag) + PostsByTag(b, tag)
  {
    if a == [] {
      assert a + b == b;
    } else {
      assert (a + b)[0] == a[0];
      assert (a + b)[1..] == a[1..] + b;
      PostsByTagAppend(a[1..], b, tag);
    }
  }

  /** Each post is kept as often as it occurs, if it carries the tag, and dropped otherwise. */
  lemma {:induction false} PostsByTagCounts(posts: seq<Post>, tag: string, p: Post)
    ensures multiset(PostsByTag(posts, tag))[p] == if HasTag(p, tag) then multiset(posts)[p] else 0
  {
    if posts != [] {
      PostsByTagCounts(posts[1..], tag, p);
      assert posts == [posts[0]] + posts[1..];
    }
  }

  /** Filtering a list sorted newest first leaves it sorted newest first. */
  lemma {:induction false} PostsByTagSorted(posts: seq<Post>, tag: string)
    requires DateSorted(posts)
    ensures DateSorted(PostsByTag(posts, tag))
  {
    if posts != [] {
      var rest := posts[1..];
      assert DateSorted(rest) by {
        forall i, j | 0 <= i < j < |rest| ensures !Less(rest[i].date, rest[j].date) {
          assert rest[i] == posts[i + 1] && rest[j] == posts[j + 1];
        }
      }
      PostsByTagSorted(rest, tag);
      var tail := PostsByTag(rest, tag);
      if HasTag(posts[0], tag) {
        var r := [posts[0]] + tail;
        forall i, j | 0 <= i < j < |r| ensures !Less(r[i].date, r[j].date) {
          if i == 0 {
            assert r[j] in rest;
            var k :| 0 <= k < |rest| && rest[k] == r[j];
            assert posts[k + 1] == r[j];
          } else {
            assert r[i] == tail[i - 1] && r[j] == tail[j - 1];
          }
        }
      }
    }
  }

  /**
   * `getPostsByTag(tag)`: exactly the posts of the sorted list that carry the
   * tag, in the same relative order; empty when none does.
   */
  method GetPostsByTag(dir: Directory, tag: string) returns (r: seq<Post>)
    ensures r == PostsByTag(SortedPostsData(dir), tag)
    ensures forall p :: p in r <==> p in SortedPostsData(dir) && HasTag(p, tag)
    ensures DateSorted(r)
    ensures dir.None? ==> r == []
  {
    var all := GetSortedPostsData(dir);
    r := PostsByTag(all, tag);
    PostsByTagSorted(all, tag);
  }

  /** `t` is a tag of some post. */
  predicate IsTagOf(posts: seq<Post>, t: string)
  {
    exists p :: p in posts && HasTag(p, t)
  }

  lemma IsTagOfAppend(posts: seq<Post>, i: nat, t: string)
    requires i < |posts|
    ensures IsTagOf(posts[..i + 1], t) <==> IsTagOf(posts[..i], t) || HasTag(posts[i], t)
  {
    assert posts[..i + 1] == posts[..i] + [posts[i]];
    if IsTagOf(posts[..i + 1], t) {
      var p :| p in posts[..i + 1] && HasTag(p, t);
      if p != posts[i] {
        assert p in posts[..i];
      }
    }
    if HasTag(posts[i], t) {
      assert posts[i] in posts[..i + 1];
    }
    if IsTagOf(posts[..i], t) {
      var p :| p in posts[..i] && HasTag(p, t);
      assert p in posts[..i + 1];
    }
  }

  /** `sort()` without a comparator: negative, zero or positive as `a` is below, equal to or above `b`. */
  function DefaultCompare(a: string, b: string): (c: int)
    ensures c < 0 <==> Less(a, b)
    ensures c == 0 <==> a == b
    ensures c > 0 <==> Less(b, a)
  {
    LessTotal(a, b);
    if Less(a, b) then (LessAsymmetric(a, b); -1) else if Less(b, a) then 1 else 0
  }

  lemma DefaultCompareOrdersConsistently()
    ensures OrdersConsistently(DefaultCompare)
  {
    forall a: string, b: string | DefaultCompare(a, b) > 0 ensures DefaultCompare(b, a) <= 0 {
    }
    forall a: string, b: string, c: string | DefaultCompare(a, b) <= 0 && DefaultCompare(b, c) <= 0
      ensures DefaultCompare(a, c) <= 0
    {
      if Less(a, b) {
        LessAsymmetric(a, b);
      }
      if Less(b, c) {
        LessAsymmetric(b, c);
      }
      NotLessTransitive(c, b, a);
    }
  }

  /** Ascending with no repeats. */
  predicate StrictlyAscending(s: seq<string>)
  {
    forall i, j :: 0 <= i < j < |s| ==> Less(s[i], s[j])
  }

  /** Strings are told apart by themselves. */
  function Itself(t: string): (k: string)
    ensures k == t
  {
    t
  }

  lemma SameMembers(x: seq<string>, y: seq<string>)
    requires multiset(x) == multiset(y)
    ensures forall t :: t in x <==> t in y
  {
    forall t ensures t in x <==> t in y {
      assert t in x <==> t in multiset(x);
      assert t in y <==> t in multiset(y);
    }
  }

  /** Sorting distinct strings with the default comparator puts them in strictly ascending order. */
  lemma SortDistinctAscending(s: seq<string>)
    requires DistinctBy(s, Itself)
    ensures multiset(InsertionSort(s, DefaultCompare)) == multiset(s)
    ensures StrictlyAscending(InsertionSort(s, DefaultCompare))
  {
    var r := InsertionSort(s, DefaultCompare);
    DefaultCompareOrdersConsistently();
    InsertionSortSorted(s, DefaultCompare);
    PermutationKeepsDistinct(r, s, Itself);
    forall i, j | 0 <= i < j < |r| ensures Less(r[i], r[j]) {
      assert DefaultCompare(r[i], r[j]) <= 0;
      assert Itself(r[i]) != Itself(r[j]);
      LessTotal(r[i], r[j]);
    }
  }

  /** `tags.add(tag)` for each tag of one post, in order, into a set kept in insertion order. */
  method AddTags(seen: seq<string>, ts: seq<string>) returns (r: seq<string>)
    requires DistinctBy(seen, Itself)
    ensures DistinctBy(r, Itself)
    ensures forall t :: t in r <==> t in seen || t in ts
    ensures |seen| <= |r| && r[..|seen|] == seen
  {
    r := seen;
    for j := 0 to |ts|
      invariant DistinctBy(r, Itself)
      invariant |seen| <= |r| && r[..|seen|] == seen
      invariant forall t :: t in r <==> t in seen || t in ts[..j]
    {
      if ts[j] !in r {
        r := r + [ts[j]];
      }
      assert ts[..j + 1] == ts[..j] + [ts[j]];
    }
    assert ts[..|ts|] == ts;
  }

  /** Adds the tags of every post, post by post, to an initially empty set: each tag once. */
  method CollectTags(posts: seq<Post>) returns (seen: seq<string>)
    ensures DistinctBy(seen, Itself)
    ensures forall t :: t in seen <==> IsTagOf(posts, t)
  {
    seen := [];
    for i := 0 to |posts|
      invariant DistinctBy(seen, Itself)
      invariant forall t :: t in seen <==> IsTagOf(posts[..i], t)
    {
      ghost var before := seen;
      if posts[i].tags.Some? {
        seen := AddTags(seen, posts[i].tags.value);
      }
      assert forall t :: t in seen <==> t in before || HasTag(posts[i], t);
      forall t ensures IsTagOf(posts[..i + 1], t) <==> IsTagOf(posts[..i], t) || HasTag(posts[i], t) {
        IsTagOfAppend(posts, i, t);
      }
    }
    assert posts[..|posts|] == posts;
  }

  /**
   * `getAllTags()`: the tags of all posts gathered into a set, then sorted.
   * The result holds each tag of some post exactly once, in ascending order.
   */
  method GetAllTags(dir: Directory) returns (tags: seq<string>)
    ensures StrictlyAscending(tags)
    ensures forall t :: t in tags <==> IsTagOf(SortedPostsData(dir), t)
    ensures dir.None? ==> tags == []
  {
    var posts := GetSortedPostsData(dir);
    var seen := CollectTags(posts);
    var a := new string[|seen|](k requires 0 <= k < |seen| => seen[k]);
    assert a[..] == seen;
    SortInPlace(a, DefaultCompare);
    tags := a[..];
    SortDistinctAscending(seen);
    SameMembers(tags, seen);
    assert tags != [] ==> tags[0] in tags;
  }

  /** A strictly ascending list is fixed by its members: the tag list has one possible order. */
  lemma {:induction false} StrictlyAscendingUnique(a: seq<string>, b: seq<string>)
    requires StrictlyAscending(a) && StrictlyAscending(b)
    requires forall t :: t in a <==> t in b
    ensures a == b
  {
    assert a != [] ==> a[0] in a;
    assert b != [] ==> b[0] in b;
    if a != [] && b != [] {
      assert a[0] == b[0] by {
        assert a[0] in a && b[0] in b;
        var k :| 0 <= k < |b| && b[k] == a[0];
        var m :| 0 <= m < |a| && a[m] == b[0];
        if k > 0 && m > 0 {
          LessAsymmetric(b[0], a[0]);
        }
      }
      forall t ensures t in a[1..] <==> t in b[1..] {
        if t in a[1..] {
          var i :| 1 <= i < |a| && a[i] == t;
          assert Less(a[0], t);
          LessIrreflexive(t);
          assert t in b && t != b[0];
        }
        if t in b[1..] {
          var i :| 1 <= i < |b| && b[i] == t;
          assert Less(b[0], t);
          LessIrreflexive(t);
          assert t in a && t != a[0];
        }
      }
      StrictlyAscendingUnique(a[1..], b[1..]);
      assert a == [a[0]] + a[1..] && b == [b[0]] + b[1..];
    }
  }
}
