/** The search box of the home page (src/app/page.tsx): which posts the
    list shows for a search term, and when the "no posts found" notice
    appears. Lower-casing is ASCII only. */
module HomePage {
  import opened Wrappers
  import opened PostData
  import Strings
  import Seqs

  /** The lower-cased title contains the lower-cased term. */
  predicate TitleMatches(p: Post, term: string)
  {
    Strings.Contains(Strings.Lower(p.title), Strings.Lower(term))
  }

  /** The description is present and non-empty, and its lower-cased form
      contains the lower-cased term. */
  predicate DescriptionMatches(p: Post, term: string)
  {
    Truthy(p.description) && Strings.Contains(Strings.Lower(p.description.value), Strings.Lower(term))
  }

  /** The predicate handed to `posts.filter`. */
  predicate Matches(p: Post, term: string)
  {
    TitleMatches(p, term) || DescriptionMatches(p, term)
  }

  /** `filteredPosts`: the posts that match, in their original order, each
      as often as it occurs in `posts`. */
  function FilterPosts(posts: seq<Post>, term: string): (r: seq<Post>)
    ensures |r| <= |posts|
    ensures Seqs.IsSubsequence(r, posts)
    ensures forall p :: multiset(r)[p] == if Matches(p, term) then multiset(posts)[p] else 0
  {
    if |posts| == 0 then []
    else
      var rest := FilterPosts(posts[1..], term);
      assert posts == [posts[0]] + posts[1..];
      if Matches(posts[0], term) then
        assert ([posts[0]] + rest)[1..] == rest;
        [posts[0]] + rest
      else
        rest
  }

  /** The "no posts found" notice is shown. */
  predicate ShowsNoPostsNotice(posts: seq<Post>, term: string)
  {
    |FilterPosts(posts, term)| == 0 && term != ""
  }

  /** The notice appears exactly when the term is non-empty and no post
      matches it. */
  lemma NoticeExactlyWhenNothingMatches(posts: seq<Post>, term: string)
    ensures ShowsNoPostsNotice(posts, term) <==> term != "" && forall p :: p in posts ==> !Matches(p, term)
  {
    var r := FilterPosts(posts, term);
    if |r| > 0 {
      assert r[0] in multiset(r);
    }
    if exists p :: p in posts && Matches(p, term) {
      var p :| p in posts && Matches(p, term);
      assert p in multiset(r);
    }
  }

  /** A post is kept exactly when it matches. */
  lemma KeptIffMatches(posts: seq<Post>, term: string, p: Post)
    ensures p in FilterPosts(posts, term) <==> p in posts && Matches(p, term)
  {
    assert p in FilterPosts(posts, term) <==> p in multiset(FilterPosts(posts, term));
  }

  /** The empty search term keeps every post. */
  lemma {:induction false} EmptyTermKeepsAll(posts: seq<Post>)
    ensures FilterPosts(posts, "") == posts
  {
    if |posts| > 0 {
      Strings.ContainsEmpty(Strings.Lower(posts[0].title));
      EmptyTermKeepsAll(posts[1..]);
    }
  }

  /** A post whose title matches is kept, whatever its description. */
  lemma TitleMatchIsKept(posts: seq<Post>, term: string, p: Post)
    requires p in posts && TitleMatches(p, term)
    ensures p in FilterPosts(posts, term)
  {
    KeptIffMatches(posts, term, p);
  }

  /** A post without a description, or with an empty one, is kept only
      when its title matches. */
  lemma UndescribedPostNeedsTitleMatch(posts: seq<Post>, term: string, p: Post)
    requires p in FilterPosts(posts, term)
    requires p.description.None? || p.description == Some("")
    ensures TitleMatches(p, term)
  {
    KeptIffMatches(posts, term, p);
  }

  /** Searching for a term or for its lower-cased form shows the same
      posts. */
  lemma {:induction false} LowerCasedTermSameResult(posts: seq<Post>, term: string)
    ensures FilterPosts(posts, Strings.Lower(term)) == FilterPosts(posts, term)
  {
    Strings.LowerIdempotent(term);
    if |posts| > 0 {
      LowerCasedTermSameResult(posts[1..], term);
    }
  }
}
