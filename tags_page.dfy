/**
 * The tag index page: the table of how many posts carry each tag, and the
 * choice between the empty state and the grid of tag cards.
 */
module TagsPage {
  import opened Wrappers
  import opened Posts
  import opened PostOrder
  import opened PostQueries

  /** One card of the grid: the tag, its link and its post count. */
  datatype TagCard = TagCard(tag: string, href: string, count: nat)

  /** What the page shows: the empty state, or one card per tag. */
  datatype TagsView = NoTags | TagGrid(cards: seq<TagCard>)

  /**
   * The count record: starting from an empty record, each tag in turn gets as
   * its value the number of posts that carry it.
   */
  method TagCounts(tags: seq<string>, posts: seq<Post>) returns (counts: map<string, nat>)
    ensures forall t :: t in counts <==> t in tags
    ensures forall t :: t in counts ==> counts[t] == |PostsByTag(posts, t)|
  {
    counts := map[];
    for i := 0 to |tags|
      invariant forall t :: t in counts <==> t in tags[..i]
      invariant forall t :: t in counts ==> counts[t] == |PostsByTag(posts, t)|
    {
      counts := counts[tags[i] := |PostsByTag(posts, tags[i])|];
      assert tags[..i + 1] == tags[..i] + [tags[i]];
    }
    assert tags[..|tags|] == tags;
  }

  /** A post counts once for a tag however often it lists it, and not at all if it does not list it. */
  lemma TagCountStep(posts: seq<Post>, p: Post, t: string)
    ensures |PostsByTag(posts + [p], t)| == |PostsByTag(posts, t)| + (if HasTag(p, t) then 1 else 0)
  {
    PostsByTagAppend(posts, [p], t);
    assert [p][1..] == [];
  }

  /** The count of a tag that some post carries lies between 1 and the number of posts. */
  lemma TagCountBounds(posts: seq<Post>, t: string)
    requires IsTagOf(posts, t)
    ensures 1 <= |PostsByTag(posts, t)| <= |posts|
  {
    var p :| p in posts && HasTag(p, t);
    assert p in PostsByTag(posts, t);
  }

  /** The tags of the cards, in display order. */
  function CardTags(cards: seq<TagCard>): (r: seq<string>)
    ensures |r| == |cards|
    ensures forall k :: 0 <= k < |cards| ==> r[k] == cards[k].tag
  {
    seq(|cards|, k requires 0 <= k < |cards| => cards[k].tag)
  }

  /**
   * The body of the page: the empty state exactly when there are no tags,
   * otherwise one card per tag, in the order of `tags`, linking to the tag's
   * page and showing its count.
   */
  function Render(tags: seq<string>, counts: map<string, nat>): (v: TagsView)
    requires forall t :: t in tags ==> t in counts
    ensures v.NoTags? <==> tags == []
    ensures v.TagGrid? ==> CardTags(v.cards) == tags
    ensures v.TagGrid? ==> forall k :: 0 <= k < |v.cards| ==>
              v.cards[k].count == counts[tags[k]] && v.cards[k].href == "/tags/" + tags[k]
  {
    if |tags| == 0 then NoTags
    else TagGrid(seq(|tags|, k requires 0 <= k < |tags| => TagCard(tags[k], "/tags/" + tags[k], counts[tags[k]])))
  }

  /**
   * Every card of a grid built from counted tags of some post shows that tag's
   * post count, which lies between 1 and the number of posts.
   */
  lemma GridCounts(tags: seq<string>, posts: seq<Post>, counts: map<string, nat>, v: TagsView)
    requires forall t :: t in counts <==> t in tags
    requires forall t :: t in counts ==> counts[t] == |PostsByTag(posts, t)|
    requires forall t :: t in tags ==> IsTagOf(posts, t)
    requires v == Render(tags, counts)
    ensures v.TagGrid? ==> forall k :: 0 <= k < |v.cards| ==>
              && v.cards[k].count == |PostsByTag(posts, v.cards[k].tag)|
              && 1 <= v.cards[k].count <= |posts|
              && v.cards[k].href == "/tags/" + v.cards[k].tag
  {
    if v.TagGrid? {
      forall k | 0 <= k < |v.cards|
        ensures v.cards[k].count == |PostsByTag(posts, v.cards[k].tag)|
        ensures 1 <= v.cards[k].count <= |posts|
      {
        CardCount(tags, posts, counts, k);
      }
    }
  }

  /** The card at position `k` shows the post count of its tag, between 1 and the number of posts. */
  lemma CardCount(tags: seq<string>, posts: seq<Post>, counts: map<string, nat>, k: nat)
    requires forall t :: t in tags ==> t in counts && counts[t] == |PostsByTag(posts, t)|
    requires forall t :: t in tags ==> IsTagOf(posts, t)
    requires k < |tags|
    ensures Render(tags, counts).cards[k].tag == tags[k]
    ensures Render(tags, counts).cards[k].count == |PostsByTag(posts, tags[k])|
    ensures 1 <= Render(tags, counts).cards[k].count <= |posts|
  {
    assert tags[k] in tags;
    TagCountBounds(posts, tags[k]);
  }

  /**
   * The tag index page: the empty state when no post has a tag; otherwise a card for
   * every tag of some post, each once, in ascending order, each showing the
   * number of posts that carry it.
   */
  method TagsPageView(dir: Directory) returns (v: TagsView)
    ensures v.NoTags? <==> forall t :: !IsTagOf(SortedPostsData(dir), t)
    ensures v.TagGrid? ==> StrictlyAscending(CardTags(v.cards))
    ensures v.TagGrid? ==> forall t :: t in CardTags(v.cards) <==> IsTagOf(SortedPostsData(dir), t)
    ensures v.TagGrid? ==> forall k :: 0 <= k < |v.cards| ==>
              && v.cards[k].count == |PostsByTag(SortedPostsData(dir), v.cards[k].tag)|
              && 1 <= v.cards[k].count <= |SortedPostsData(dir)|
              && v.cards[k].href == "/tags/" + v.cards[k].tag
  {
    var tags := GetAllTags(dir);
    var allPosts := GetSortedPostsData(dir);
    var counts := TagCounts(tags, allPosts);
    v := Render(tags, counts);
    assert tags != [] ==> tags[0] in tags;
    GridCounts(tags, allPosts, counts, v);
  }
}
