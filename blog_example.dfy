/**
 * A two-post blog: `a.md` dated 2024-01-01 tagged `x`, and `b.md` dated
 * 2024-02-01 tagged `x` and `y`.
 */
module BlogExample {
  import opened Wrappers
  import opened StringOrder
  import opened ArraySort
  import opened Posts
  import opened PostOrder
  import opened PostQueries

  const EntryA: Entry := Entry("a.md", FrontMatter(None, "A", "2024-01-01", None, Some(["x"]), None, None), "")
  const EntryB: Entry := Entry("b.md", FrontMatter(None, "B", "2024-02-01", None, Some(["x", "y"]), None, None), "")
  const PostA: Post := Post("a", "A", "2024-01-01", None, Some(["x"]), None, None)
  const PostB: Post := Post("b", "B", "2024-02-01", None, Some(["x", "y"]), None, None)
  const Blog: Directory := Some([EntryA, EntryB])

  /** Two markdown files give their two records, in listing order. */
  lemma TwoFileSummaries(ea: Entry, eb: Entry)
    requires IsMarkdown(ea.fileName) && IsMarkdown(eb.fileName)
    ensures AllPostsData([ea, eb]) == [SummaryOf(ea), SummaryOf(eb)]
  {
    assert [ea, eb][1..] == [eb];
    assert [eb][1..] == [];
    assert MarkdownFiles([ea, eb]) == [ea, eb];
  }

  /** Of two posts, the one with the later date comes first. */
  lemma TwoPostsSort(a: Post, b: Post)
    requires Less(a.date, b.date)
    ensures SortByDate([a, b]) == [b, a]
  {
    calc {
      SortByDate([a, b]);
      InsertionSort([a, b], Compare);
      { assert [a, b][..1] == [a]; }
      Insert(InsertionSort([a], Compare), b, Compare);
      { assert [a][..0] == []; assert InsertionSort([a], Compare) == [a]; }
      Insert([a], b, Compare);
      { assert Compare(a, b) == 1; assert Insert([], b, Compare) == [b]; }
      [b, a];
    }
  }

  /** Filtering two posts by a tag keeps those that carry it, in order. */
  lemma TwoPostsByTag(p: Post, q: Post, t: string)
    ensures PostsByTag([p, q], t) == (if HasTag(p, t) then [p] else []) + (if HasTag(q, t) then [q] else [])
  {
    assert [p, q][1..] == [q];
    assert [q][1..] == [];
  }

  /** Each file is named after its post: `a.md` gives the record of post `a`. */
  lemma ExampleSummaries()
    ensures SummaryOf(EntryA) == PostA && SummaryOf(EntryB) == PostB
  {
    assert PostId(EntryA.fileName) == "a" && PostId(EntryB.fileName) == "b";
  }

  /** `"2024-01-01" < "2024-02-01"`: the strings first differ at the month's second digit. */
  lemma ExampleDatesOrdered()
    ensures Less(PostA.date, PostB.date)
  {
    assert PostA.date[..6] == PostB.date[..6];
    LessAtFirstDifference(PostA.date, PostB.date, 6);
  }

  /** The newer post `b` comes first. */
  lemma ExampleSortedPosts()
    ensures SortedPostsData(Blog) == [PostB, PostA]
  {
    assert IsMarkdown(EntryA.fileName) && IsMarkdown(EntryB.fileName);
    TwoFileSummaries(EntryA, EntryB);
    ExampleSummaries();
    ExampleDatesOrdered();
    TwoPostsSort(PostA, PostB);
  }

  /** Both posts carry `x`; only `b` carries `y`. */
  lemma ExampleByTag()
    ensures PostsByTag([PostB, PostA], "x") == [PostB, PostA]
    ensures PostsByTag([PostB, PostA], "y") == [PostB]
  {
    TwoPostsByTag(PostB, PostA, "x");
    TwoPostsByTag(PostB, PostA, "y");
    ExampleTagsOfPosts();
  }

  /** Listing all posts gives `[b, a]`; by tag `x` gives `[b, a]`; by tag `y` gives `[b]`. */
  lemma ExampleListings()
    ensures SortedPostsData(Blog) == [PostB, PostA]
    ensures PostsByTag(SortedPostsData(Blog), "x") == [PostB, PostA]
    ensures PostsByTag(SortedPostsData(Blog), "y") == [PostB]
  {
    ExampleSortedPosts();
    ExampleByTag();
  }

  /** `a` carries `x` only; `b` carries `x` and `y`. */
  lemma ExampleTagsOfPosts()
    ensures HasTag(PostB, "x") && HasTag(PostA, "x") && HasTag(PostB, "y") && !HasTag(PostA, "y")
  {
    assert "x" != "y" by {
      assert "x"[0] != "y"[0];
    }
    assert PostA.tags.value == ["x"] && PostB.tags.value == ["x", "y"];
  }

  /** A tag of a two-post list is a tag of one of the two. */
  lemma TwoPostsTagOf(p: Post, q: Post, t: string)
    ensures IsTagOf([p, q], t) <==> HasTag(p, t) || HasTag(q, t)
  {
    assert p == [p, q][0] && q == [p, q][1];
  }

  /** The tags carried by some post of the example are exactly `x` and `y`. */
  lemma ExampleTagsCarried(t: string)
    ensures IsTagOf(SortedPostsData(Blog), t) <==> t == "x" || t == "y"
  {
    ExampleListings();
    TwoPostsTagOf(PostB, PostA, t);
    ExamplePostTags(t);
  }

  /** The tags of each post, for any tag. */
  lemma ExamplePostTags(t: string)
    ensures HasTag(PostB, t) <==> t == "x" || t == "y"
    ensures HasTag(PostA, t) <==> t == "x"
  {
    var xs: seq<string>, xys: seq<string> := ["x"], ["x", "y"];
    assert PostA.tags.value == xs && PostB.tags.value == xys;
    assert t in xys <==> t == xys[0] || t == xys[1];
  }

  /** The tag list is `[x, y]`, whichever order the set of tags was filled in. */
  lemma ExampleTags(tags: seq<string>)
    requires StrictlyAscending(tags)
    requires forall t :: t in tags <==> IsTagOf(SortedPostsData(Blog), t)
    ensures tags == ["x", "y"]
  {
    assert Less("x", "y") by {
      LessAtFirstDifference("x", "y", 0);
    }
    forall t ensures t in tags <==> t in ["x", "y"] {
      ExampleTagsCarried(t);
    }
    StrictlyAscendingUnique(tags, ["x", "y"]);
  }
}
