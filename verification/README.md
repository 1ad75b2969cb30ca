# Blog post repository and search filter, in Dafny

A model of the logic of a small Next.js blog: the post repository in
`src/lib/posts.ts`, which turns the Markdown files of a `posts` directory into
post records, and the search filter of the home page in `src/app/page.tsx`.

- **Listing** (`getAllPosts`): of the directory's entries only names ending in
  `.md` become posts; the slug is the name with that one `.md` removed; `title`,
  `date` and `description` come from the front matter when they are truthy
  (present and non-empty) and otherwise fall back to the slug, `2024-01-01` and
  the empty string; listed posts carry no rendered `content`; the result is
  sorted by `date`, newest first, by plain string comparison. A Markdown file that
  cannot be read or parsed makes the whole listing fail, as the exception does
  in the code. A missing directory is created and lists nothing; when it cannot
  be created, or exists but cannot be listed, the listing fails as well.
- **Loading one post** (`getPostBySlug`): reads `<slug>.md`, applies the same
  fallbacks and adds the rendered HTML; any failure yields no post (`null`).
- **Search** (`filteredPosts`): keeps, in order, the posts whose lower-cased title
  contains the lower-cased term, or whose description is non-empty and contains
  it; the "no posts found" notice shows when nothing is kept and the term is
  non-empty.

Modules: `Wrappers` (Option), `Strings` (JavaScript `endsWith`, string `<`, ASCII
`toLowerCase`, `includes`), `Seqs` (generic permutation and projection facts),
`PostData` (the `Post` record and the fallback rule), `DateSort` (the comparator
and the date sort), `Posts` (listing and loading), `HomePage` (search).

Inputs the code gets from outside are parameters: the directory is
`Missing(creatable)` (nothing at the path; `creatable` says whether `mkdirSync`
succeeds), `Unlistable` (`readdirSync` throws, as when `posts` is a regular file)
or `Listed(entries)`, each entry carries the
outcome of reading and front-matter-parsing it (`None` when either throws), and
the Markdown-to-HTML pipeline is a function `render: string -> Option<string>`
(`None` when it throws).

The comparator `(a, b) => (a.date < b.date ? 1 : -1)` never returns 0, not even
for a post compared with itself (`DateSort.CompareNotReflexive`), so ECMAScript
leaves the whole order implementation-defined. The model assumes what engines'
comparison sorts do: they decide by the comparator's sign alone, and that sign
agrees with date order whenever two dates differ (`DateSort.CompareAgreesWithDates`),
so the result is a permutation of the collected posts with non-increasing dates.
The model proves that this already fixes the sequence of dates (`DateSort.SortedArrangementsAgreeOnDates`)
while either order of equally dated posts is allowed (`DateSort.EqualDatesEitherOrder`).
Posts with the same date are not guaranteed to keep directory order. A Markdown
file that cannot be read or parsed aborts the whole listing, and so does the
model.

## Model

| member | source | states |
|---|---|---|
| `Strings.LessIsLexicographic` | src/lib/posts.ts:44 | the string `<` used on dates is the lexicographic order: a proper prefix is smaller, otherwise the first differing character decides (both directions) |
| `Strings.LowerIdempotent` | src/app/page.tsx:29-30 | lower-casing an already lower-cased string changes nothing |
| `Strings.Lower` | src/app/page.tsx:29-30 | `toLowerCase` keeps the length and maps each character to its lower-case form |
| `Strings.ContainsIffOccurs` | src/app/page.tsx:29-30 | `includes` holds exactly when the needle occurs at some index of the haystack |
| `PostData.WithDefaults` | src/lib/posts.ts:36-41 | each of title, date and description is the front-matter value when it is present and non-empty, else the slug, `2024-01-01`, the empty string; slug and content are passed through |
| `PostData.DefaultsRoundTrip` | src/lib/posts.ts:38-40 | writing a loaded post's fields back as front matter and loading again gives the same post |
| `PostData.CompleteFrontMatterKept` | src/lib/posts.ts:38-40 | non-empty title, date and description are taken over unchanged |
| `DateSort.Compare` | src/lib/posts.ts:44 | the comparator answers only 1 or -1, and 1 exactly when the first date is smaller; it never answers 0 |
| `DateSort.CompareNotReflexive` | src/lib/posts.ts:44 | a post compared with itself gets -1, so the comparator is not consistent in the ECMAScript sense |
| `DateSort.CompareAgreesWithDates` | src/lib/posts.ts:44 | for two different dates the comparator is antisymmetric and a negative answer means the first date is the later one |
| `DateSort.Insert` | src/lib/posts.ts:44 | inserting a post into a date-sorted listing adds exactly that post and keeps the dates non-increasing |
| `DateSort.SortByDateDesc` | src/lib/posts.ts:44 | the sorted listing is a permutation of its input with non-increasing dates |
| `DateSort.NonIncreasingUnique` | src/lib/posts.ts:44 | two non-increasing arrangements of the same multiset of date strings are equal |
| `DateSort.SortedIffDatesNonIncreasing` | src/lib/posts.ts:44 | a listing is date-sorted exactly when its sequence of dates is non-increasing |
| `DateSort.SortedArrangementsAgreeOnDates` | src/lib/posts.ts:44 | any two date-sorted permutations of the same posts have the same sequence of dates |
| `DateSort.EqualDatesEitherOrder` | src/lib/posts.ts:44 | two posts with equal dates are correctly ordered either way round |
| `Posts.SlugOf` | src/lib/posts.ts:31 | appending `.md` to the slug gives back the file name |
| `Posts.SlugOfInjective` | src/lib/posts.ts:31 | different Markdown names give different slugs |
| `Posts.Collect` | src/lib/posts.ts:28-42 | succeeds exactly when every `.md` entry is readable, and then yields one post per `.md` name |
| `Posts.CollectSound` | src/lib/posts.ts:28-41 | every collected post is the defaulted record of a readable `.md` entry, with the slug taken from that entry's name |
| `Posts.CollectComplete` | src/lib/posts.ts:28-41 | the record of every `.md` entry is among the collected posts |
| `Posts.ReadDirectory` | src/lib/posts.ts:20-25 | creating and listing the directory fails exactly when it is missing and cannot be created, or cannot be listed; otherwise it yields the stored entries, none exactly for a freshly created or empty directory |
| `Posts.GetAllPosts` | src/lib/posts.ts:19-45 | a creatable missing directory lists nothing; succeeds exactly when the directory is creatable-missing or listable with every `.md` entry readable; otherwise as many posts as `.md` names, each from a `.md` entry and each `.md` entry present, a permutation of the collected posts, dates non-increasing |
| `Posts.ListedPostNamesItsFile` | src/lib/posts.ts:31-41 | every listed post's slug plus `.md` names a Markdown entry of the directory, and no listed post carries content |
| `Posts.NoMarkdownNoPosts` | src/lib/posts.ts:20-29 | a directory without `.md` names lists no posts, and fails only when it cannot be created or listed |
| `Posts.ListedSlugsDistinct` | src/lib/posts.ts:28-44 | with unique file names, the slugs of the listing are pairwise distinct |
| `Posts.Find` | src/lib/posts.ts:49-50 | the entry found has the requested name; nothing is found exactly when no entry has it |
| `Posts.FindUnique` | src/lib/posts.ts:49-50 | with unique names, looking up an entry's name finds that entry |
| `Posts.GetPostBySlug` | src/lib/posts.ts:47-71 | no post when the directory is missing or unlistable or `<slug>.md` is missing; a loaded post has the requested slug, rendered content and the fallback fields of its `<slug>.md` entry; with unique names, no post only when that file cannot be read or rendered |
| `Posts.LoadingAReadableEntry` | src/lib/posts.ts:47-70 | with unique names, loading the slug of a readable `.md` entry yields its listing record plus the rendered body, or no post exactly when rendering fails |
| `Posts.ListingAgreesWithLoading` | src/lib/posts.ts:36-65 | a listed post loaded by its slug agrees with the listing on every field but `content`, and loading fails exactly when rendering its body fails |
| `HomePage.FilterPosts` | src/app/page.tsx:28-31 | the result is an order-preserving subsequence, no longer than the input, holding every matching post as often as the input does and no other |
| `HomePage.KeptIffMatches` | src/app/page.tsx:28-31 | a post is shown exactly when it is in the list and its title or non-empty description contains the term |
| `HomePage.EmptyTermKeepsAll` | src/app/page.tsx:29 | the empty search term shows every post, in order |
| `HomePage.TitleMatchIsKept` | src/app/page.tsx:29 | a post whose title matches is shown whatever its description |
| `HomePage.UndescribedPostNeedsTitleMatch` | src/app/page.tsx:30 | a post with no or an empty description is shown only when its title matches |
| `HomePage.LowerCasedTermSameResult` | src/app/page.tsx:29-30 | searching for a term and for its lower-cased form shows the same posts |
| `HomePage.NoticeExactlyWhenNothingMatches` | src/app/page.tsx:98 | the "no posts found" notice appears exactly when the term is non-empty and no post matches |

## Left out

- File-system access (`existsSync`, `mkdirSync`, `readdirSync`, `readFileSync`) and the path built from `process.cwd()`: the directory and each file's read-and-parse outcome are inputs.
- Front-matter parsing by `gray-matter`: its result is an input of optional string fields; YAML values that are not strings (a date parsed into a `Date` object, a number) are not modelled.
- The Markdown-to-HTML pipeline (`remark`, `remark-rehype`, `rehype-highlight`, `rehype-stringify`): a foreign library, modelled as the parameter `render`.
- Logging with `console.error` and the asynchronous (`Promise`) shape of both functions.
- The HTTP handler in src/app/api/posts/route.ts, which only turns an exception of the listing into a 500 response.
- The rest of src/app/page.tsx and src/app/posts/[slug]/page.tsx: React state and effects, `fetch`, markup, and date display with `toLocaleDateString`, which depends on locale and time zone.
- Strings.Lower: lower-cases ASCII letters only, not the full Unicode mapping of `toLowerCase`.
- Strings.Less: compares characters as Unicode scalar values, while JavaScript compares UTF-16 code units; the two orders differ only between characters above U+FFFF and characters in U+E000–U+FFFF.
- DateSort.SortByDateDesc: is one particular sort (insertion driven by the comparator's sign); the order it gives equally dated posts is not a claim about the engine's `Array.prototype.sort`, and no member states one.
- Posts.GetAllPosts: states non-increasing dates, which ECMAScript does not guarantee for this comparator (it is not reflexive, so the order is implementation-defined); the model assumes what engines' comparison sorts do, deciding by the comparator's sign, which agrees with date order whenever two dates differ.
- Posts.GetPostBySlug: looks the file up by name among the directory's entries; a slug containing `/`, `\`, `.` or `..` segments, which `path.join` normalises to another path (a subdirectory, the same file spelled differently such as `./hello`, or a file outside the directory), is not modelled; a file system that matches names case-insensitively or up to Unicode normalisation (the macOS and Windows defaults) is not modelled either. There `readFileSync` also opens `hello.md` for the slug `Hello`; the model finds a file only under its exact listed name.
- Posts.GetPostBySlug: treats an `Unlistable` path as holding no files; a directory that can be searched but not listed (execute without read permission), where `readFileSync` could still open `<slug>.md`, is not modelled.
- Posts.ListingAgreesWithLoading, Posts.ListedSlugsDistinct: assume file names are unique within the directory, as a file system guarantees.
