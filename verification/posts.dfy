/** The post repository of src/lib/posts.ts: listing every post of the
    posts directory, and loading one post by slug with its rendered body.

    The file system is an input: the posts directory is missing, present
    but not listable, or listed as a sequence of entries, each carrying
    what reading it and parsing its front matter yields (nothing when
    either step throws). The Markdown-to-HTML pipeline is
    the parameter `render`, which yields nothing when it throws. */
module Posts {
  import opened Wrappers
  import opened PostData
  import Strings
  import Seqs
  import DateSort

  const MarkdownSuffix: string := ".md"

  /** A file after reading and front-matter parsing: its metadata and the
      Markdown body that follows the front-matter block. */
  datatype ParsedFile = ParsedFile(front: FrontMatter, body: string)

  /** One name listed in the posts directory, with the outcome of reading
      and parsing it. */
  datatype Entry = Entry(name: string, file: Option<ParsedFile>)

  /** The posts directory as the code finds it. */
  datatype Directory =
      /** Nothing exists at the path; `mkdirSync` succeeds exactly when
          `creatable` (it throws on a read-only file system or without
          permission). */
    | Missing(creatable: bool)
      /** Something exists at the path but `readdirSync` throws on it,
          as when `posts` is a regular file. */
    | Unlistable
      /** A directory whose listing is `entries`. */
    | Listed(entries: seq<Entry>)

  /** The entries stored at the path: none unless it is a listable
      directory. */
  function EntriesOf(dir: Directory): seq<Entry>
  {
    if dir.Listed? then dir.entries else []
  }

  /** The directory steps of `getAllPosts`: create the directory when it
      is missing, then list it. `None` stands for the exception either
      step throws. */
  function ReadDirectory(dir: Directory): (r: Option<seq<Entry>>)
    ensures r.None? <==> (dir.Missing? && !dir.creatable) || dir.Unlistable?
    ensures r.Some? ==> r.value == EntriesOf(dir)
    ensures r == Some([]) <==> dir == Missing(true) || dir == Listed([])
  {
    match dir
    case Missing(creatable) => if creatable then Some([]) else None
    case Unlistable => None
    case Listed(entries) => Some(entries)
  }

  predicate IsMarkdownName(name: string)
  {
    Strings.EndsWith(name, MarkdownSuffix)
  }

  /** `name.replace(/\.md$/, '')` on a name ending in `.md`: exactly one
      trailing `.md` is removed. */
  function SlugOf(name: string): (slug: string)
    requires IsMarkdownName(name)
    ensures slug + MarkdownSuffix == name
  {
    name[..|name| - |MarkdownSuffix|]
  }

  function NameOf(e: Entry): (name: string)
  {
    e.name
  }

  function PostSlug(p: Post): (slug: string)
  {
    p.slug
  }

  /** File names are unique within a directory. */
  predicate UniqueNames(entries: seq<Entry>)
  {
    Seqs.NoDuplicates(Seqs.Project(entries, NameOf))
  }

  /** The listing record of a readable Markdown entry. */
  function ListedPost(e: Entry): (p: Post)
    requires IsMarkdownName(e.name) && e.file.Some?
  {
    WithDefaults(SlugOf(e.name), e.file.value.front, None)
  }

  /** `p` is the post that entry `e` contributes to the listing. */
  predicate Contributes(e: Entry, p: Post)
  {
    IsMarkdownName(e.name) && e.file.Some? && p == ListedPost(e)
  }

  /** Every Markdown entry can be read and parsed. */
  predicate MarkdownReadable(entries: seq<Entry>)
  {
    forall e :: e in entries && IsMarkdownName(e.name) ==> e.file.Some?
  }

  /** The number of names ending in `.md`. */
  function CountMarkdown(entries: seq<Entry>): (n: nat)
  {
    if |entries| == 0 then 0
    else (if IsMarkdownName(entries[0].name) then 1 else 0) + CountMarkdown(entries[1..])
  }

  /** The loop of `getAllPosts`: one record per `.md` name, in directory
      order, the others skipped; a Markdown file that cannot be read or
      parsed aborts the whole listing. */
  function Collect(entries: seq<Entry>): (r: Option<seq<Post>>)
    ensures r.Some? <==> MarkdownReadable(entries)
    ensures r.Some? ==> |r.value| == CountMarkdown(entries)
  {
    if |entries| == 0 then Some([])
    else
      var e := entries[0];
      assert entries == [e] + entries[1..];
      var rest := Collect(entries[1..]);
      if !IsMarkdownName(e.name) then rest
      else if e.file.None? || rest.None? then None
      else Some([ListedPost(e)] + rest.value)
  }

  /** Every collected post is the record of some readable Markdown entry. */
  lemma {:induction false} CollectSound(entries: seq<Entry>, p: Post)
    requires Collect(entries).Some? && p in Collect(entries).value
    ensures exists e :: e in entries && Contributes(e, p)
    decreases |entries|
  {
    var e, tail := entries[0], entries[1..];
    if IsMarkdownName(e.name) && p == ListedPost(e) {
      assert Contributes(e, p);
    } else {
      CollectSound(tail, p);
      var f :| f in tail && Contributes(f, p);
      assert f in entries;
    }
  }

  /** Every Markdown entry's record is collected. */
  lemma {:induction false} CollectComplete(entries: seq<Entry>, e: Entry)
    requires Collect(entries).Some? && e in entries && IsMarkdownName(e.name)
    ensures e.file.Some? && ListedPost(e) in Collect(entries).value
    decreases |entries|
  {
    if entries[0] != e {
      assert e in entries[1..];
      CollectComplete(entries[1..], e);
    }
  }

  /** `getAllPosts`: the collected records, newest date first. `None`
      stands for the exception a failing Markdown file raises. */
  function GetAllPosts(dir: Directory): (r: Option<seq<Post>>)
    ensures dir == Missing(true) ==> r == Some([])
    ensures r.Some? <==> dir == Missing(true) || (dir.Listed? && MarkdownReadable(dir.entries))
    ensures r.Some? ==> |r.value| == CountMarkdown(EntriesOf(dir))
    ensures r.Some? ==> DateSort.SortedByDateDesc(r.value)
    ensures r.Some? ==> multiset(r.value) == multiset(Collect(EntriesOf(dir)).value)
    ensures r.Some? ==> forall p :: p in r.value ==> exists e :: e in EntriesOf(dir) && Contributes(e, p)
    ensures r.Some? ==> forall e :: e in EntriesOf(dir) && IsMarkdownName(e.name) ==> e.file.Some? && ListedPost(e) in r.value
  {
    match ReadDirectory(dir)
    case None => None
    case Some(entries) =>
    match Collect(entries)
    case None => None
    case Some(posts) =>
      var sorted := DateSort.SortByDateDesc(posts);
      assert forall p :: p in sorted ==> exists e :: e in entries && Contributes(e, p) by {
        forall p | p in sorted
          ensures exists e :: e in entries && Contributes(e, p)
        {
          assert p in multiset(posts);
          CollectSound(entries, p);
        }
      }
      assert forall e :: e in entries && IsMarkdownName(e.name) ==> e.file.Some? && ListedPost(e) in sorted by {
        forall e | e in entries && IsMarkdownName(e.name)
          ensures e.file.Some? && ListedPost(e) in sorted
        {
          CollectComplete(entries, e);
          assert ListedPost(e) in multiset(sorted);
        }
      }
      Some(sorted)
  }

  /** Every listed post names its own file: appending `.md` to its slug
      gives the name of a Markdown entry of the directory; and no listed
      post carries rendered content. */
  lemma ListedPostNamesItsFile(dir: Directory, p: Post)
    requires GetAllPosts(dir).Some? && p in GetAllPosts(dir).value
    ensures exists e :: e in EntriesOf(dir) && e.name == p.slug + MarkdownSuffix && IsMarkdownName(e.name)
    ensures p.content.None?
  {
    var e :| e in EntriesOf(dir) && Contributes(e, p);
    assert e.name == p.slug + MarkdownSuffix;
  }

  lemma {:induction false} NoMarkdownCountsZero(entries: seq<Entry>)
    requires forall e :: e in entries ==> !IsMarkdownName(e.name)
    ensures CountMarkdown(entries) == 0
  {
    if |entries| > 0 {
      assert entries[0] in entries;
      NoMarkdownCountsZero(entries[1..]);
    }
  }

  /** A directory without any `.md` name lists no posts; the listing
      still fails when the directory cannot be created or listed. */
  lemma NoMarkdownNoPosts(dir: Directory)
    requires forall e :: e in EntriesOf(dir) ==> !IsMarkdownName(e.name)
    ensures GetAllPosts(dir).Some? <==> ReadDirectory(dir).Some?
    ensures GetAllPosts(dir).Some? ==> GetAllPosts(dir).value == []
  {
    NoMarkdownCountsZero(EntriesOf(dir));
  }

  /** Different Markdown names give different slugs. */
  lemma SlugOfInjective(a: string, b: string)
    requires IsMarkdownName(a) && IsMarkdownName(b) && a != b
    ensures SlugOf(a) != SlugOf(b)
  {
  }

  lemma UniqueNamesTail(entries: seq<Entry>)
    requires |entries| > 0 && UniqueNames(entries)
    ensures UniqueNames(entries[1..])
    ensures forall f :: f in entries[1..] ==> f.name != entries[0].name
  {
    var tail := entries[1..];
    var names, tailNames := Seqs.Project(entries, NameOf), Seqs.Project(tail, NameOf);
    forall i, j | 0 <= i < j < |tail|
      ensures tailNames[i] != tailNames[j]
    {
      assert tailNames[i] == names[i + 1] && tailNames[j] == names[j + 1];
    }
    forall f | f in tail
      ensures f.name != entries[0].name
    {
      var k :| 0 <= k < |tail| && tail[k] == f;
      assert names[k + 1] == f.name && names[0] == entries[0].name;
    }
  }

  /** Prepending a post whose slug no other post has keeps slugs distinct. */
  lemma ConsKeepsSlugsDistinct(h: Post, rest: seq<Post>)
    requires Seqs.NoDuplicates(Seqs.Project(rest, PostSlug))
    requires forall q :: q in rest ==> q.slug != h.slug
    ensures Seqs.NoDuplicates(Seqs.Project([h] + rest, PostSlug))
  {
    var restSlugs := Seqs.Project(rest, PostSlug);
    assert Seqs.Project([h] + rest, PostSlug) == [h.slug] + restSlugs;
    Seqs.ConsNoDuplicates(h.slug, restSlugs);
  }

  lemma {:induction false} CollectedSlugsDistinct(entries: seq<Entry>)
    requires UniqueNames(entries) && Collect(entries).Some?
    ensures Seqs.NoDuplicates(Seqs.Project(Collect(entries).value, PostSlug))
    decreases |entries|
  {
    if |entries| > 0 {
      var e, tail := entries[0], entries[1..];
      UniqueNamesTail(entries);
      CollectedSlugsDistinct(tail);
      if IsMarkdownName(e.name) {
        var rest := Collect(tail).value;
        forall q | q in rest
          ensures q.slug != ListedPost(e).slug
        {
          CollectSound(tail, q);
          var f :| f in tail && Contributes(f, q);
          SlugOfInjective(e.name, f.name);
        }
        ConsKeepsSlugsDistinct(ListedPost(e), rest);
      }
    }
  }

  /** Slugs are unique within a listing, so each one keys a single post. */
  lemma ListedSlugsDistinct(dir: Directory)
    requires UniqueNames(EntriesOf(dir)) && GetAllPosts(dir).Some?
    ensures Seqs.NoDuplicates(Seqs.Project(GetAllPosts(dir).value, PostSlug))
  {
    var collected := Collect(EntriesOf(dir)).value;
    CollectedSlugsDistinct(EntriesOf(dir));
    Seqs.ProjectPermutation(collected, GetAllPosts(dir).value, PostSlug);
    Seqs.PermutationKeepsNoDuplicates(Seqs.Project(collected, PostSlug), Seqs.Project(GetAllPosts(dir).value, PostSlug));
  }

  // ---------------------------------------------------------------------------
  // Loading one post

  /** The first entry called `name`. */
  function Find(entries: seq<Entry>, name: string): (r: Option<Entry>)
    ensures r.Some? ==> r.value in entries && r.value.name == name
    ensures r.None? <==> forall e :: e in entries ==> e.name != name
  {
    if |entries| == 0 then None
    else if entries[0].name == name then Some(entries[0])
    else
      assert entries == [entries[0]] + entries[1..];
      Find(entries[1..], name)
  }

  /** With unique names, the entry called `name` is the one found. */
  lemma {:induction false} FindUnique(entries: seq<Entry>, e: Entry)
    requires UniqueNames(entries) && e in entries
    ensures Find(entries, e.name) == Some(e)
    decreases |entries|
  {
    UniqueNamesTail(entries);
    if entries[0] != e {
      assert entries == [entries[0]] + entries[1..];
      FindUnique(entries[1..], e);
    }
  }

  /** With unique names, no other entry shares `e`'s name. */
  lemma NamedEntryUnique(entries: seq<Entry>, e: Entry)
    requires e in entries
    ensures UniqueNames(entries) ==> forall f :: f in entries && f.name == e.name ==> f == e
  {
    if UniqueNames(entries) {
      forall f | f in entries && f.name == e.name
        ensures f == e
      {
        FindUnique(entries, f);
        FindUnique(entries, e);
      }
    }
  }

  /** `p` is what loading entry `e` yields when `render` turns its body
      into `html`. */
  predicate Loads(e: Entry, render: string -> Option<string>, p: Post)
  {
    && IsMarkdownName(e.name)
    && e.file.Some?
    && render(e.file.value.body).Some?
    && p == WithDefaults(SlugOf(e.name), e.file.value.front, render(e.file.value.body))
  }

  /** `getPostBySlug`: read `<slug>.md`, parse its front matter, render
      its body; any failure on the way yields `None` (`null`). A missing
      or unlistable path holds no `<slug>.md`. */
  function GetPostBySlug(dir: Directory, slug: string, render: string -> Option<string>): (r: Option<Post>)
    ensures !dir.Listed? ==> r.None?
    ensures (forall e :: e in EntriesOf(dir) ==> e.name != slug + MarkdownSuffix) ==> r.None?
    ensures r.Some? ==> r.value.slug == slug && r.value.content.Some?
    ensures r.Some? ==> exists e :: e in EntriesOf(dir) && e.name == slug + MarkdownSuffix && Loads(e, render, r.value)
    ensures r.None? && UniqueNames(EntriesOf(dir)) ==>
              forall e :: e in EntriesOf(dir) && e.name == slug + MarkdownSuffix ==>
                e.file.None? || render(e.file.value.body).None?
  {
    if !dir.Listed? then None
    else
      match Find(dir.entries, slug + MarkdownSuffix)
      case None => None
      case Some(e) =>
        assert IsMarkdownName(e.name) && SlugOf(e.name) == slug;
        NamedEntryUnique(dir.entries, e);
        match e.file
        case None => None
        case Some(f) =>
          match render(f.body)
          case None => None
          case Some(html) => Some(WithDefaults(slug, f.front, Some(html)))
  }

  /** Loading the slug of a readable Markdown entry yields that entry's
      listing record with the rendered body as content, or nothing when
      rendering fails. */
  lemma LoadingAReadableEntry(dir: Directory, render: string -> Option<string>, e: Entry)
    requires UniqueNames(EntriesOf(dir)) && e in EntriesOf(dir)
    requires IsMarkdownName(e.name) && e.file.Some?
    ensures render(e.file.value.body).None? ==> GetPostBySlug(dir, SlugOf(e.name), render).None?
    ensures render(e.file.value.body).Some? ==>
              GetPostBySlug(dir, SlugOf(e.name), render) == Some(ListedPost(e).(content := render(e.file.value.body)))
  {
    FindUnique(EntriesOf(dir), e);
  }

  /** A post of the listing and the same slug loaded on its own agree on
      every field but `content`, and loading fails exactly when rendering
      that file's body fails. */
  lemma ListingAgreesWithLoading(dir: Directory, render: string -> Option<string>, p: Post)
    requires UniqueNames(EntriesOf(dir))
    requires GetAllPosts(dir).Some? && p in GetAllPosts(dir).value
    ensures GetPostBySlug(dir, p.slug, render).Some? ==>
              GetPostBySlug(dir, p.slug, render).value.(content := None) == p
    ensures GetPostBySlug(dir, p.slug, render).None? <==>
              exists e :: e in EntriesOf(dir) && Contributes(e, p) && render(e.file.value.body).None?
  {
    var e :| e in EntriesOf(dir) && Contributes(e, p);
    assert SlugOf(e.name) == p.slug;
    LoadingAReadableEntry(dir, render, e);
    NamedEntryUnique(EntriesOf(dir), e);
  }
}
