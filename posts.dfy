/**
 * The post records of the blog's post index: the directory listing as input,
 * ids derived from file names, front matter spread over the derived fields,
 * the listing of post ids and the lookup of a single post.
 */
module Posts {
  import opened Wrappers

  /**
   * The parsed front matter of a markdown file. `title` and `date` are the
   * keys every post supplies; every other key is Some exactly when the file
   * gives it. Keys named `id` and `contentHtml` are kept because they override
   * the derived values of the same name.
   */
  datatype FrontMatter = FrontMatter(
    id: Option<string>,
    title: string,
    date: string,
    excerpt: Option<string>,
    tags: Option<seq<string>>,
    author: Option<string>,
    contentHtml: Option<string>)

  /** One entry of the posts directory: its name, and the parsed content of the file. */
  datatype Entry = Entry(fileName: string, frontMatter: FrontMatter, body: string)

  /** The posts directory: None when it does not exist, else its listing in listing order. */
  type Directory = Option<seq<Entry>>

  /** A post record, `PostData`; `contentHtml` is present only after a full load. */
  datatype Post = Post(
    id: string,
    title: string,
    date: string,
    excerpt: Option<string>,
    tags: Option<seq<string>>,
    author: Option<string>,
    contentHtml: Option<string>)

  /** `{ params: { slug } }`, one route parameter per post file. */
  datatype PostParams = PostParams(slug: string)

  /** Reading a file that is not there. */
  datatype PostError = NotFound(fileName: string)

  const MarkdownSuffix: string := ".md"

  predicate EndsWith(s: string, suffix: string)
  {
    |suffix| <= |s| && s[|s| - |suffix|..] == suffix
  }

  /** `fileName.endsWith('.md')`: the name is some stem followed by `.md`. */
  predicate IsMarkdown(fileName: string): (r: bool)
    ensures r <==> exists stem :: stem + MarkdownSuffix == fileName
  {
    var r := EndsWith(fileName, MarkdownSuffix);
    assert r ==> fileName[..|fileName| - |MarkdownSuffix|] + MarkdownSuffix == fileName;
    assert forall stem :: stem + MarkdownSuffix == fileName ==> fileName[|stem|..] == MarkdownSuffix;
    r
  }

  /** The id of a file: its name with one trailing `.md` removed, if there is one. */
  function PostId(fileName: string): (id: string)
    ensures IsMarkdown(fileName) ==> id + MarkdownSuffix == fileName
    ensures !IsMarkdown(fileName) ==> id == fileName
  {
    if IsMarkdown(fileName) then fileName[..|fileName| - |MarkdownSuffix|] else fileName
  }

  /** Only the last `.md` goes: `a.md.md` names the post `a.md`. */
  lemma PostIdStripsOneSuffix()
    ensures PostId("a.md.md") == "a.md"
    ensures PostId("a.md") == "a"
    ensures PostId("notes.txt") == "notes.txt"
  {
    assert IsMarkdown("a.md.md");
    assert IsMarkdown("a.md");
    assert "notes.txt"[6..] != MarkdownSuffix;
  }

  /** Distinct markdown file names give distinct ids. */
  lemma PostIdInjective(a: string, b: string)
    requires IsMarkdown(a) && IsMarkdown(b) && a != b
    ensures PostId(a) != PostId(b)
  {
  }

  /**
   * The object spread that builds a post record: the derived id and content
   * are written first and the front matter is spread over them, so a
   * front-matter key of the same name wins.
   */
  function Spread(id: string, contentHtml: Option<string>, fm: FrontMatter): (p: Post)
    ensures p.id == (if fm.id.Some? then fm.id.value else id)
    ensures p.contentHtml == (if fm.contentHtml.Some? then fm.contentHtml else contentHtml)
    ensures p.title == fm.title && p.date == fm.date && p.excerpt == fm.excerpt
    ensures p.tags == fm.tags && p.author == fm.author
  {
    Post(
      if fm.id.Some? then fm.id.value else id,
      fm.title,
      fm.date,
      fm.excerpt,
      fm.tags,
      fm.author,
      if fm.contentHtml.Some? then fm.contentHtml else contentHtml)
  }

  /** The summary record of one markdown file, as the listing builds it: `{ id, ...data }`. */
  function SummaryOf(e: Entry): (p: Post)
    ensures e.frontMatter.id.None? && IsMarkdown(e.fileName) ==> p.id + MarkdownSuffix == e.fileName
    ensures e.frontMatter.id.Some? ==> p.id == e.frontMatter.id.value
    ensures p.title == e.frontMatter.title && p.date == e.frontMatter.date && p.tags == e.frontMatter.tags
    ensures p.excerpt == e.frontMatter.excerpt && p.author == e.frontMatter.author
    ensures p.contentHtml == e.frontMatter.contentHtml
  {
    Spread(PostId(e.fileName), None, e.frontMatter)
  }

  /** The entries whose name ends in `.md`, in listing order. */
  function MarkdownFiles(entries: seq<Entry>): (md: seq<Entry>)
    ensures |md| <= |entries|
    ensures forall e :: e in md <==> e in entries && IsMarkdown(e.fileName)
  {
    if entries == [] then []
    else (if IsMarkdown(entries[0].fileName) then [entries[0]] else []) + MarkdownFiles(entries[1..])
  }

  /** The filter keeps the order of the listing: it commutes with concatenation. */
  lemma {:induction false} MarkdownFilesAppend(a: seq<Entry>, b: seq<Entry>)
    ensures MarkdownFiles(a + b) == MarkdownFiles(a) + MarkdownFiles(b)
  {
    if a != [] {
      assert (a + b)[0] == a[0];
      assert (a + b)[1..] == a[1..] + b;
      MarkdownFilesAppend(a[1..], b);
    } else {
      assert a + b == b;
    }
  }

  /** The post records of the listing, unsorted: one per markdown file, in listing order. */
  function AllPostsData(entries: seq<Entry>): (posts: seq<Post>)
    ensures |posts| == |MarkdownFiles(entries)|
    ensures forall k :: 0 <= k < |posts| ==> posts[k] == SummaryOf(MarkdownFiles(entries)[k])
  {
    var md := MarkdownFiles(entries);
    seq(|md|, k requires 0 <= k < |md| => SummaryOf(md[k]))
  }

  /** A post that does not override its id is named after its file: `id + ".md"` is the file name. */
  lemma AllPostsDataIds(entries: seq<Entry>, k: nat)
    requires k < |AllPostsData(entries)|
    requires MarkdownFiles(entries)[k].frontMatter.id.None?
    ensures AllPostsData(entries)[k].id + MarkdownSuffix == MarkdownFiles(entries)[k].fileName
  {
    var md := MarkdownFiles(entries);
    assert md[k] in entries;
  }

  /** `getAllPostIds`: one route parameter per markdown file, in listing order; nothing when the directory is missing. */
  function GetAllPostIds(dir: Directory): (ids: seq<PostParams>)
    ensures dir.None? ==> ids == []
    ensures dir.Some? ==> |ids| == |MarkdownFiles(dir.value)|
    ensures dir.Some? ==> forall k :: 0 <= k < |ids| ==>
              ids[k].slug + MarkdownSuffix == MarkdownFiles(dir.value)[k].fileName
  {
    if dir.None? then []
    else
      var md := MarkdownFiles(dir.value);
      seq(|md|, k requires 0 <= k < |md| => PostParams(PostId(md[k].fileName)))
  }

  /** The slugs are the ids of the listed posts, position by position, unless the front matter renames a post. */
  lemma SlugsAreListedIds(entries: seq<Entry>, k: nat)
    requires k < |MarkdownFiles(entries)|
    requires MarkdownFiles(entries)[k].frontMatter.id.None?
    ensures GetAllPostIds(Some(entries))[k].slug == AllPostsData(entries)[k].id
  {
    var md := MarkdownFiles(entries);
    assert md[k] in entries;
  }

  /** No two entries of a listing share a name, as in any directory. */
  predicate UniqueNames(entries: seq<Entry>)
  {
    forall i, j :: 0 <= i < j < |entries| ==> entries[i].fileName != entries[j].fileName
  }

  /** The markdown files of a listing with unique names have unique names. */
  lemma {:induction false} MarkdownFilesUniqueNames(entries: seq<Entry>)
    requires UniqueNames(entries)
    ensures UniqueNames(MarkdownFiles(entries))
  {
    if entries != [] {
      var rest := entries[1..];
      assert UniqueNames(rest) by {
        forall i, j | 0 <= i < j < |rest| ensures rest[i].fileName != rest[j].fileName {
          assert rest[i] == entries[i + 1] && rest[j] == entries[j + 1];
        }
      }
      MarkdownFilesUniqueNames(rest);
      var tail := MarkdownFiles(rest);
      forall e | e in tail ensures e.fileName != entries[0].fileName {
        var j :| 0 <= j < |rest| && rest[j] == e;
        assert entries[j + 1] == e;
      }
    }
  }

  /** The markdown files of a listing with unique names give the posts distinct ids, if none is renamed. */
  lemma AllPostsDataDistinctIds(entries: seq<Entry>)
    requires UniqueNames(entries)
    requires forall e :: e in entries ==> e.frontMatter.id.None?
    ensures forall i, j :: 0 <= i < j < |AllPostsData(entries)| ==> AllPostsData(entries)[i].id != AllPostsData(entries)[j].id
  {
    var md := MarkdownFiles(entries);
    var posts := AllPostsData(entries);
    MarkdownFilesUniqueNames(entries);
    forall i, j | 0 <= i < j < |posts| ensures posts[i].id != posts[j].id {
      assert md[i] in entries && md[j] in entries;
      AllPostsDataIds(entries, i);
      AllPostsDataIds(entries, j);
    }
  }

  /** The first entry of the listing with the given name: reading `<dir>/<name>`. */
  function FindFile(entries: seq<Entry>, name: string): (r: Option<Entry>)
    ensures r.Some? ==> r.value in entries && r.value.fileName == name
    ensures r.None? ==> forall e :: e in entries ==> e.fileName != name
  {
    if entries == [] then None
    else if entries[0].fileName == name then Some(entries[0])
    else FindFile(entries[1..], name)
  }

  /**
   * `getPostData(id)`: reads `<id>.md`, renders its body with `render` (the
   * markdown-to-HTML transform) and spreads the front matter over
   * `{ id, contentHtml }`. A missing file, or a missing directory, is an error.
   */
  function GetPostData(dir: Directory, id: string, render: string -> string): (r: Result<Post, PostError>)
    ensures r.Err? <==> dir.None? || forall e :: e in dir.value ==> e.fileName != id + MarkdownSuffix
    ensures r.Err? ==> r.error == NotFound(id + MarkdownSuffix)
    ensures r.Ok? ==> dir.Some? && exists e :: (
              && e in dir.value && e.fileName == id + MarkdownSuffix
              && r.value.title == e.frontMatter.title && r.value.date == e.frontMatter.date
              && r.value.tags == e.frontMatter.tags
              && r.value.excerpt == e.frontMatter.excerpt && r.value.author == e.frontMatter.author
              && r.value.id == (if e.frontMatter.id.Some? then e.frontMatter.id.value else id)
              && r.value.contentHtml == (if e.frontMatter.contentHtml.Some? then e.frontMatter.contentHtml
                                         else Some(render(e.body))))
  {
    var name := id + MarkdownSuffix;
    if dir.None? then Err(NotFound(name))
    else
      match FindFile(dir.value, name)
      case None => Err(NotFound(name))
      case Some(e) => Ok(Spread(id, Some(render(e.body)), e.frontMatter))
  }

  /**
   * Loading a listed post in full gives back its summary record, now with
   * content: the summary and the full record agree on every other field.
   */
  lemma GetPostDataExtendsSummary(entries: seq<Entry>, k: nat, render: string -> string)
    requires UniqueNames(entries)
    requires k < |MarkdownFiles(entries)|
    requires MarkdownFiles(entries)[k].frontMatter.id.None?
    ensures
      var e := MarkdownFiles(entries)[k];
      var p := AllPostsData(entries)[k];
      GetPostData(Some(entries), p.id, render)
        == Ok(p.(contentHtml := if p.contentHtml.Some? then p.contentHtml else Some(render(e.body))))
  {
    var e := MarkdownFiles(entries)[k];
    var p := AllPostsData(entries)[k];
    assert e in entries;
    AllPostsDataIds(entries, k);
    var found := FindFile(entries, e.fileName);
    assert found.Some?;
    var i :| 0 <= i < |entries| && entries[i] == found.value;
    var j :| 0 <= j < |entries| && entries[j] == e;
    assert i == j;
  }
}
