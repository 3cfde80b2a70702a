# Post index of a markdown blog, in Dafny

This project models the post index of a small statically generated blog
whose posts are markdown files with front matter, kept in a `posts`
directory. It covers:

- the post library:
  - listing the posts, newest first (`getSortedPostsData`);
  - the route parameters of the posts (`getAllPostIds`);
  - loading one post with its rendered content (`getPostData`);
  - the posts that carry a tag (`getPostsByTag`);
  - the sorted list of all tags (`getAllTags`);
- the tag index page: the count of posts per tag, and the choice between an empty state and a grid of tag cards;
- the sitemap: four fixed pages followed by one entry per post.

The directory is an input. `None` means the directory does not exist; otherwise it
is the listing of its entries in listing order. Each entry carries its file name,
its parsed front matter and its markdown body.

The modules follow the program:

- `StringOrder`: JavaScript's `<` on strings.
- `ArraySort`: `Array.prototype.sort` with a comparator, as an in-place insertion sort on an array, proved against a functional insertion sort.
- `Posts`: records, ids, listing, `getAllPostIds`, `getPostData`.
- `PostOrder`: the date comparator and `getSortedPostsData`.
- `PostQueries`: `getPostsByTag` and `getAllTags`.
- `TagsPage`: the tag index page.
- `Sitemap`: the sitemap.
- `BlogExample`: a worked two-post blog.

The loops of the source are methods with loop invariants:

- the in-place sort;
- the tag set filled post by post;
- the `reduce` that builds the count record.

Each of these methods is proved against a function or predicate, and the
properties are proved about those.

## Model

| member | source | states |
|---|---|---|
| StringOrder.Less | lib/posts.ts:50 | JavaScript's `<` on strings: a proper prefix is less, and no string is less than itself |
| StringOrder.LessIrreflexive | lib/posts.ts:50 | no date string is `<` itself |
| StringOrder.LessAsymmetric | lib/posts.ts:50 | `a < b` and `b < a` never both hold |
| StringOrder.LessTransitive | lib/posts.ts:50 | `<` on strings is transitive |
| StringOrder.LessTotal | lib/posts.ts:50 | two strings are equal or one is `<` the other |
| StringOrder.LessAtFirstDifference | lib/posts.ts:50 | strings that agree up to position k and differ there are ordered by their characters at k |
| StringOrder.NotLessTransitive | lib/posts.ts:49-55 | "not `<`" is transitive, which is what sorting by the date comparator relies on |
| ArraySort.InsertPos | lib/posts.ts:49-55 | where an element lands when moved forward by the comparator: behind an element the comparator does not put after it, with every later element one it puts after it |
| ArraySort.Insert | lib/posts.ts:49-55 | moving one element forward into a list adds exactly one element |
| ArraySort.InsertPosUnique | lib/posts.ts:49-55 | that landing place is the only position with those two properties |
| ArraySort.InsertSplices | lib/posts.ts:49-55 | inserting by moving forward equals splicing the element in at its landing place |
| ArraySort.InsertAt | lib/posts.ts:49-55 | element by element, the insertion is the front part, the new element, then the rest moved up by one |
| ArraySort.InsertPermutes | lib/posts.ts:49-55 | one insertion adds exactly the inserted element to the multiset |
| ArraySort.InsertionSort | lib/posts.ts:49-55 | the sort returns a permutation of its input, of the same length |
| ArraySort.InsertSorted | lib/posts.ts:49-55 | with a comparator that orders consistently, inserting into a sorted list keeps it sorted |
| ArraySort.InsertionSortSorted | lib/posts.ts:49-55 | with a comparator that orders consistently, the sort returns a list in which no element is after a later one |
| ArraySort.InsertIntoPrefix | lib/posts.ts:49-55 | one pass of the in-place sort: the prefix becomes the insertion of the next element, the rest of the array is unchanged |
| ArraySort.SortInPlace | lib/posts.ts:49-55 | `array.sort(compare)` leaves the array holding the insertion sort of its old contents |
| ArraySort.PermutationKeepsDistinct | lib/posts.ts:49-55 | rearranging a list with distinct keys keeps the keys distinct |
| Posts.IsMarkdown | lib/posts.ts:29 | a file name is kept exactly when it is some stem followed by `.md` |
| Posts.PostId | lib/posts.ts:32 | the id of a markdown file plus `.md` gives back the file name; other names are kept |
| Posts.PostIdStripsOneSuffix | lib/posts.ts:32 | only the last `.md` is removed (`a.md.md` names post `a.md`) |
| Posts.PostIdInjective | lib/posts.ts:29-32 | distinct markdown file names give distinct ids |
| Posts.Spread | lib/posts.ts:42-45 | the spread of the front matter over an `id` (and content): front-matter `id` and `contentHtml` override; title, date, excerpt, tags and author are copied |
| Posts.SummaryOf | lib/posts.ts:42-45 | the record of a file: the derived id unless the front matter sets `id`, and title, date, excerpt, tags and author from the front matter |
| Posts.MarkdownFiles | lib/posts.ts:29 | keeps exactly the entries whose name ends in `.md` |
| Posts.MarkdownFilesAppend | lib/posts.ts:29 | the filter keeps listing order |
| Posts.AllPostsData | lib/posts.ts:27-46 | one record per markdown file, in listing order |
| Posts.AllPostsDataIds | lib/posts.ts:30-45 | a post that does not rename itself has the id whose `.md` file it came from |
| Posts.GetAllPostIds | lib/posts.ts:58-73 | no route parameters without a directory; otherwise one slug per markdown file, each slug plus `.md` the file name |
| Posts.SlugsAreListedIds | lib/posts.ts:58-73 | the slugs are the ids of the listed posts, position by position, unless the front matter renames a post |
| Posts.MarkdownFilesUniqueNames | lib/posts.ts:27-29 | the filter keeps names unique |
| Posts.AllPostsDataDistinctIds | lib/posts.ts:27-46 | the listing's records have distinct ids when no front matter sets `id` |
| Posts.FindFile | lib/posts.ts:76-77 | reading `<dir>/<name>` finds an entry of that name, and fails only when there is none |
| Posts.GetPostData | lib/posts.ts:75-94 | an error exactly when the directory or the file `<id>.md` is missing; otherwise the file's record, with title, date, excerpt, tags and author from the front matter and its rendered body as `contentHtml`, front-matter `id` and `contentHtml` winning |
| Posts.GetPostDataExtendsSummary | lib/posts.ts:75-94 | loading a listed post in full gives its summary record plus content |
| PostOrder.Compare | lib/posts.ts:49-55 | the comparator answers 1 or -1, and 1 exactly when the first date is string-less than the second |
| PostOrder.CompareNeverTies | lib/posts.ts:49-55 | the date comparator never answers 0, and answers -1 both ways on equal dates |
| PostOrder.CompareOrdersConsistently | lib/posts.ts:49-55 | the date comparator still orders consistently enough for the sort |
| PostOrder.SortedByCompareIsDateSorted | lib/posts.ts:49-55 | a list in which the comparator puts no post after a later one is newest first |
| PostOrder.SortByDate | lib/posts.ts:48-55 | sorting by date returns the same posts, newest first |
| PostOrder.SortedPostsData | lib/posts.ts:19-56 | no posts without a directory; otherwise a permutation of the listing's records, newest first |
| PostOrder.GetSortedPostsData | lib/posts.ts:19-56 | the in-place sort of the records gives `SortedPostsData`: none without a directory, otherwise a newest-first permutation of the records |
| PostOrder.SortedPostsDataDistinctIds | lib/posts.ts:19-56 | the sorted list has distinct ids when the files are named uniquely and none renames itself |
| PostQueries.HasTag | lib/posts.ts:98 | a post carries a tag exactly when it has a tag list and the tag occurs in it |
| PostQueries.PostsByTag | lib/posts.ts:98 | exactly the posts that list the tag, no more than the input |
| PostQueries.PostsByTagAppend | lib/posts.ts:98 | the filter keeps relative order |
| PostQueries.PostsByTagCounts | lib/posts.ts:98 | each post is kept as often as it occurs if it carries the tag, and dropped otherwise |
| PostQueries.PostsByTagSorted | lib/posts.ts:96-99 | filtering a newest-first list keeps it newest first |
| PostQueries.GetPostsByTag | lib/posts.ts:96-99 | the posts of the sorted list that carry the tag, in that order, date-sorted, none without a directory |
| PostQueries.IsTagOfAppend | lib/posts.ts:105-107 | the tags of one more post are the old tags plus that post's tags |
| PostQueries.DefaultCompare | lib/posts.ts:109 | the default order of `sort()`: negative, zero or positive exactly when the first string is less than, equal to or greater than the second |
| PostQueries.DefaultCompareOrdersConsistently | lib/posts.ts:109 | the default string order of `sort()` orders consistently |
| PostQueries.SortDistinctAscending | lib/posts.ts:109 | sorting distinct strings gives the same strings in strictly ascending order |
| PostQueries.AddTags | lib/posts.ts:106 | adding a post's tags to the set: each tag once, earlier tags keep their places |
| PostQueries.CollectTags | lib/posts.ts:103-107 | the set holds each tag of some post exactly once |
| PostQueries.GetAllTags | lib/posts.ts:101-110 | strictly ascending, and a string is in the list exactly when some post carries it |
| PostQueries.StrictlyAscendingUnique | lib/posts.ts:103-109 | two strictly ascending lists with the same members are equal, so the set's insertion order does not affect the tag list |
| TagsPage.TagCounts | app/tags/page.tsx:9-12 | one key per tag, mapped to the number of posts that carry it |
| TagsPage.TagCountStep | app/tags/page.tsx:10 | a post adds one to a tag's count if it carries the tag, however often it lists it |
| TagsPage.TagCountBounds | app/tags/page.tsx:9-12 | the count of a tag that some post carries is between 1 and the number of posts |
| TagsPage.Render | app/tags/page.tsx:20-43 | the empty state exactly when there are no tags; otherwise one card per tag in order, linking to `/tags/<tag>` with its count |
| TagsPage.CardCount | app/tags/page.tsx:28-38 | the card at each position shows that tag and its post count, between 1 and the number of posts |
| TagsPage.GridCounts | app/tags/page.tsx:9-43 | every card of the grid links to `/tags/<tag>` and shows the number of posts carrying its tag, between 1 and the number of posts |
| TagsPage.TagsPageView | app/tags/page.tsx:4-46 | the empty state exactly when no post has a tag; otherwise one card per tag of some post, ascending, each with its post count between 1 and the number of posts |
| Sitemap.FixedEntries | app/sitemap.ts:15-39 | the home, posts, tags and about pages in that order, priorities strictly decreasing, with their change frequencies |
| Sitemap.PostUrl | app/sitemap.ts:9 | a post's url is the posts prefix followed by the id |
| Sitemap.PostEntries | app/sitemap.ts:8-13 | one monthly entry of priority 0.8 per post, in post order, at the post's url |
| Sitemap.SitemapOf | app/sitemap.ts:15-40 | the four fixed entries, then the post entries in post order |
| Sitemap.SitemapFor | app/sitemap.ts:4-42 | without a posts directory the sitemap is the four fixed entries; otherwise four entries more than there are posts |
| Sitemap.SitemapForOrder | app/sitemap.ts:6-13 | the post entries follow the newest-first order of the post list |
| Sitemap.PostUrlInjective | app/sitemap.ts:9 | the id can be read back from the url |
| Sitemap.PostUrlNotFixed | app/sitemap.ts:15-39 | no post url is the url of a fixed page |
| Sitemap.FixedUrlsDistinct | app/sitemap.ts:15-39 | the four fixed pages have four different urls |
| Sitemap.SitemapOfUrlsDiffer | app/sitemap.ts:8-40 | for posts with distinct ids, any two positions of the sitemap hold different urls |
| Sitemap.SitemapOfDistinctUrls | app/sitemap.ts:8-41 | posts with distinct ids give a sitemap without repeated urls |
| Sitemap.SitemapForDistinctUrls | app/sitemap.ts:4-42 | a directory of uniquely named files, none renamed, gives a sitemap in which every url appears once |
| BlogExample.TwoPostsSort | lib/posts.ts:49-55 | of two posts, the one with the later date comes first |
| BlogExample.ExampleListings | lib/posts.ts:19-99 | for `a.md` (2024-01-01, tag x) and `b.md` (2024-02-01, tags x, y): all posts `[b, a]`, tag x `[b, a]`, tag y `[b]` |
| BlogExample.ExampleTags | lib/posts.ts:101-110 | for the same two files the tag list is `[x, y]` |

## Left out

- Filesystem, front-matter parser and markdown renderer are not modelled. The directory listing is an input, and each file arrives already parsed into front matter and body. The markdown-to-HTML transform is a function parameter of `Posts.GetPostData`.
- The `mkdirSync` that creates a missing `posts` directory is not modelled. It is a side effect with no bearing on the result, which is empty either way.
- Front matter is typed:
  - `title` and `date` are strings;
  - `tags` is a list of strings;
  - the other fields are optional strings.
  Keys outside the record's fields, which the spread also copies, are not kept. Front matter of another shape (a date parsed as a date object, a `tags` string) is not modelled.
- `getPostData` and `readFileSync` use path semantics that are not modelled. The model looks up the file name `<id>.md` among the directory's own entries, so it does not resolve `..` or nested paths. Its promise is modelled as a plain result, with the thrown error as `Err`.
- PostOrder.SortByDate: for posts with equal dates, the date comparator answers -1 both ways, so ECMAScript leaves the order implementation-defined. The model fixes one order: that of an insertion sort, which keeps such posts in listing order. A JavaScript engine may order them differently; every proved property except the exact order of those ties holds for any order.
- StringOrder.Less compares strings character by character. JavaScript compares UTF-16 code units, so strings containing characters outside the Basic Multilingual Plane may compare differently.
- `lib/date.ts` and calendar dates are not part of this model. Dates are compared as strings, as the comparator does, with no calendar parsing.
- `TagsPage.TagsPageView` reads one directory value. The page reads the directory twice (for the tags and for the posts), so a change between the two reads is not modelled.
- TagsPage.TagCounts models the count record as a map. In JavaScript the record is a plain object, so a tag spelled `__proto__` is not stored as an own key; that case is not modelled.
- The markup and styling of the tag page are not modelled. `TagsPage.Render` keeps only the choice of view and, for each card, its tag, link and count.
- The sitemap's `lastModified` values (`new Date()`, `new Date(post.date)`) are not modelled, because they depend on the clock and on date parsing. Priorities are kept in tenths (`0.8` is 8).
