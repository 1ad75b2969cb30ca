/** The `Post` record of the blog and the fallback rule that turns parsed
    front matter into one (src/lib/posts.ts). */
module PostData {
  import opened Wrappers

  /** Date used when the front matter has no usable `date`. */
  const DefaultDate: string := "2024-01-01"

  /** The three front-matter fields the blog reads, as the front-matter
      parser hands them over: each one absent or a string. */
  datatype FrontMatter = FrontMatter(title: Option<string>, date: Option<string>, description: Option<string>)

  /** One post. `description` and `content` are optional members of the
      record; `content` holds rendered HTML and is set only when a single
      post is fetched. */
  datatype Post = Post(slug: string, title: string, date: string, description: Option<string>, content: Option<string>)

  /** JavaScript truthiness of an optional string: present and non-empty. */
  predicate Truthy(v: Option<string>)
  {
    v.Some? && v.value != ""
  }

  /** `v || fallback` for an optional string. */
  function OrElse(v: Option<string>, fallback: string): (r: string)
  {
    if Truthy(v) then v.value else fallback
  }

  /** The record both loaders build from a slug and its front matter:
      every field taken from the front matter when it is truthy, from the
      fallback otherwise (title: the slug; date: `DefaultDate`;
      description: the empty string). */
  function WithDefaults(slug: string, front: FrontMatter, content: Option<string>): (p: Post)
    ensures p.slug == slug && p.content == content
    ensures Truthy(front.title) ==> p.title == front.title.value
    ensures !Truthy(front.title) ==> p.title == slug
    ensures Truthy(front.date) ==> p.date == front.date.value
    ensures !Truthy(front.date) ==> p.date == DefaultDate
    ensures p.description.Some?
    ensures Truthy(front.description) ==> p.description == front.description
    ensures !Truthy(front.description) ==> p.description == Some("")
  {
    Post(slug, OrElse(front.title, slug), OrElse(front.date, DefaultDate), Some(OrElse(front.description, "")), content)
  }

  /** The front matter that writes out a post's own fields. */
  function FrontMatterOf(p: Post): (front: FrontMatter)
  {
    FrontMatter(Some(p.title), Some(p.date), p.description)
  }

  /** Writing a loaded post's fields back as front matter and loading it
      again gives the same post: the fallbacks are a fixed point, and a
      complete front-matter block is read back verbatim. */
  lemma DefaultsRoundTrip(slug: string, front: FrontMatter, content: Option<string>)
    ensures WithDefaults(slug, FrontMatterOf(WithDefaults(slug, front, content)), content)
         == WithDefaults(slug, front, content)
  {
  }

  /** A front-matter block that sets all three fields to non-empty strings
      is taken over unchanged. */
  lemma CompleteFrontMatterKept(slug: string, title: string, date: string, description: string, content: Option<string>)
    requires title != "" && date != "" && description != ""
    ensures WithDefaults(slug, FrontMatter(Some(title), Some(date), Some(description)), content)
         == Post(slug, title, date, Some(description), content)
  {
  }
}
