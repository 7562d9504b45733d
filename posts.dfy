/**
 * The post repository (`getAllPosts`, `getPostBySlug`): every discovered
 * Markdown module becomes one post (slug from the file name, frontmatter
 * fields with defaults, read time, trimmed body), and the posts are
 * listed newest first by a stable sort on their dates.
 */
module Posts {
  import opened Wrappers
  import opened Strings
  import opened Frontmatter
  import opened ReadingTime

  /** A discovered content module: its path and its raw Markdown text. */
  datatype Source = Source(path: string, raw: string)

  /**
   * A post. The header record is untyped, so `title`, `excerpt`, `date`,
   * `author` and `tags` hold whatever value the header gave (a list title
   * or a scalar `tags` passes through), or their default.
   */
  datatype Post = Post(
    slug: string,
    title: Value,
    excerpt: Value,
    date: Value,
    readTime: string,
    author: Value,
    tags: Value,
    content: string)

  const DefaultAuthor: string := "Juan D\U{ED}az"
  const ExcerptLength: nat := 150
  const Ellipsis: string := "..."

  /** `name.replace('.md', '')`: the name with its first `.md` cut out. */
  function DropExtension(name: string): string
  {
    if |name| < 3 then name
    else if name[..3] == ".md" then name[3..]
    else [name[0]] + DropExtension(name[1..])
  }

  /** `path.split('/').pop()?.replace('.md', '')`: the file name without its first `.md`. */
  function Slug(path: string): string {
    DropExtension(LastPart(path, '/'))
  }

  lemma OccursAfterHead(name: string, j: int)
    requires name != [] && 1 <= j
    ensures OccursAt(name, ".md", j) <==> OccursAt(name[1..], ".md", j - 1)
  {
    if j + 3 <= |name| {
      assert name[j..j + 3] == name[1..][j - 1..j + 2];
    }
  }

  /** Without an occurrence of `.md` the name is left as it is. */
  lemma {:induction false} DropExtensionAbsent(name: string)
    requires forall j :: !OccursAt(name, ".md", j)
    ensures DropExtension(name) == name
  {
    if |name| >= 3 {
      assert !OccursAt(name, ".md", 0);
      var tail := name[1..];
      forall j ensures !OccursAt(tail, ".md", j) {
        if j >= 0 { OccursAfterHead(name, j + 1); }
      }
      DropExtensionAbsent(tail);
      assert name == [name[0]] + tail;
    }
  }

  /** The first occurrence of `.md`, at `i`, is the one cut out. */
  lemma {:induction false} DropExtensionFirst(name: string, i: nat)
    requires OccursAt(name, ".md", i)
    requires forall j :: 0 <= j < i ==> !OccursAt(name, ".md", j)
    ensures DropExtension(name) == name[..i] + name[i + 3..]
  {
    if i == 0 {
      assert name[..3] == ".md";
    } else {
      assert !OccursAt(name, ".md", 0);
      var tail := name[1..];
      OccursAfterHead(name, i);
      forall j | 0 <= j < i - 1 ensures !OccursAt(tail, ".md", j) {
        OccursAfterHead(name, j + 1);
      }
      DropExtensionFirst(tail, i - 1);
      assert name[..i] + name[i + 3..] == [name[0]] + (tail[..i - 1] + tail[i + 2..]);
    }
  }

  /**
   * The recursive cut agrees with the `indexOf` reading of `replace`: the
   * text is unchanged when `.md` does not occur, and otherwise the first
   * occurrence is removed.
   */
  lemma DropExtensionRemovesFirst(name: string)
    ensures DropExtension(name) == match IndexOfFrom(name, ".md", 0)
                                   case None => name
                                   case Some(i) => name[..i] + name[i + 3..]
  {
    match IndexOfFrom(name, ".md", 0)
    case None => DropExtensionAbsent(name);
    case Some(i) => DropExtensionFirst(name, i);
  }

  /** Cutting out `.md` brings in no new character. */
  lemma {:induction false} DropExtensionKeeps(name: string, c: char)
    requires c !in name
    ensures c !in DropExtension(name)
  {
    if |name| >= 3 && name[..3] != ".md" {
      DropExtensionKeeps(name[1..], c);
    }
  }

  /** A slug never holds a `/`. */
  lemma SlugHasNoSlash(path: string)
    ensures '/' !in Slug(path)
  {
    DropExtensionKeeps(LastPart(path, '/'), '/');
  }

  /** The first `.md` of `<base>.md` is its extension when `base` has none of its own. */
  lemma ExtensionFound(base: string)
    requires forall j :: !OccursAt(base, ".md", j)
    ensures DropExtension(base + ".md") == base
  {
    var name := base + ".md";
    var k := |base|;
    assert name[..k] == base && name[k..] == ".md";
    assert OccursAt(name, ".md", k) by { assert name[k..k + 3] == name[k..]; }
    forall j | 0 <= j < k ensures !OccursAt(name, ".md", j) {
      if j + 3 <= k {
        assert name[j..j + 3] == base[j..j + 3];
        assert !OccursAt(base, ".md", j);
      } else {
        assert name[k] == '.';
        assert name[j..j + 3][k - j] == name[k];
      }
    }
    DropExtensionFirst(name, k);
    assert name[..k] + name[k + 3..] == base;
  }

  /** A Markdown file `<dir>/<base>.md` gets the slug `<base>` when `base` has no `.md` of its own. */
  lemma SlugOfMarkdownFile(dir: string, base: string)
    requires dir == [] || dir[|dir| - 1] == '/'
    requires '/' !in base
    requires forall j :: !OccursAt(base, ".md", j)
    ensures Slug(dir + base + ".md") == base
  {
    var name := base + ".md";
    assert '/' !in name by {
      assert forall i :: 0 <= i < |name| ==> name[i] == if i < |base| then base[i] else ".md"[i - |base|];
    }
    assert dir + base + ".md" == dir + name;
    LastPartAfterSeparator(dir, '/', name);
    ExtensionFound(base);
  }

  /** `data[key] || fallback`: a missing key or an empty string is falsy; any list is truthy. */
  predicate Truthy(data: map<string, Value>, key: string) {
    key in data && data[key] != Scalar("")
  }

  function Field(data: map<string, Value>, key: string, fallback: Value): Value {
    if Truthy(data, key) then data[key] else fallback
  }

  /** `content.substring(0, 150) + '...'`. */
  function DefaultExcerpt(body: string): (e: string)
    ensures |e| <= ExcerptLength + |Ellipsis|
    ensures |e| >= |Ellipsis| && e[|e| - 3..] == Ellipsis
    ensures var shown := e[..|e| - 3]; |shown| == if |body| < ExcerptLength then |body| else ExcerptLength
    ensures var shown := e[..|e| - 3]; shown == body[..|shown|]
  {
    var shown := body[..if |body| < ExcerptLength then |body| else ExcerptLength];
    var e := shown + Ellipsis;
    assert e[..|e| - 3] == shown;
    e
  }

  /** The object pushed for one module: each header field or its default, the read time and the body. */
  function Normalize(slug: string, parsed: Parsed, today: string): Post {
    var data := parsed.data;
    Post(
      slug,
      Field(data, "title", Scalar(slug)),
      Field(data, "excerpt", Scalar(DefaultExcerpt(parsed.body))),
      Field(data, "date", Scalar(today)),
      CalculateReadTime(parsed.body),
      Field(data, "author", Scalar(DefaultAuthor)),
      Field(data, "tags", List([])),
      parsed.body)
  }

  /** The post built from one source; `today` stands for the clock's date. */
  function BuildPost(src: Source, today: string): Post {
    Normalize(Slug(src.path), Parse(src.raw), today)
  }

  /** `f` applied to each element of `xs`, pushed one at a time in order. */
  function MapInOrder<A, B>(xs: seq<A>, f: A -> B): (ys: seq<B>)
    ensures |ys| == |xs|
  {
    if xs == [] then [] else MapInOrder(xs[..|xs| - 1], f) + [f(xs[|xs| - 1])]
  }

  lemma {:induction false} MapInOrderAt<A, B>(xs: seq<A>, f: A -> B, i: int)
    requires 0 <= i < |xs|
    ensures MapInOrder(xs, f)[i] == f(xs[i])
  {
    var n := |xs| - 1;
    if i < n {
      MapInOrderAt(xs[..n], f, i);
    }
  }

  /** Building one post, for a fixed `today`. */
  function Builder(today: string): Source -> Post {
    (src: Source) => BuildPost(src, today)
  }

  /** The posts in discovery order, before sorting: one pushed per source. */
  function BuildAll(sources: seq<Source>, today: string): seq<Post> {
    MapInOrder(sources, Builder(today))
  }

  /** The `i`-th post listed before sorting is built from the `i`-th source. */
  lemma BuildAllAt(sources: seq<Source>, today: string, i: int)
    requires 0 <= i < |sources|
    ensures BuildAll(sources, today)[i] == BuildPost(sources[i], today)
  {
    MapInOrderAt(sources, Builder(today), i);
  }

  /** Slug, body and read time of a built post. */
  lemma BuiltPostBasics(src: Source, today: string)
    ensures var p := BuildPost(src, today);
            && p.slug == Slug(src.path)
            && p.content == Parse(src.raw).body && Bare(p.content)
            && p.readTime == CalculateReadTime(p.content) && Minutes(p.content) >= 1
  {
    ParseBodyIsTrimmed(src.raw);
  }

  /** Each header field is used when truthy; otherwise its default is. */
  lemma BuiltPostDefaults(src: Source, today: string)
    ensures var p := BuildPost(src, today);
            var data := Parse(src.raw).data;
            && p.title == (if Truthy(data, "title") then data["title"] else Scalar(p.slug))
            && p.excerpt == (if Truthy(data, "excerpt") then data["excerpt"] else Scalar(DefaultExcerpt(p.content)))
            && p.date == (if Truthy(data, "date") then data["date"] else Scalar(today))
            && p.author == (if Truthy(data, "author") then data["author"] else Scalar(DefaultAuthor))
            && p.tags == (if Truthy(data, "tags") then data["tags"] else List([]))
  {
  }

  /** A file without a header gets every default, and its whole text, trimmed, as the body. */
  lemma PostWithoutHeader(src: Source, today: string)
    requires !OccursAt(src.raw, Opening, 0) || forall k :: 4 <= k ==> !OccursAt(src.raw, Closing, k)
    ensures var p := BuildPost(src, today);
            && p.content == Trim(src.raw)
            && p.title == Scalar(p.slug)
            && p.excerpt == Scalar(DefaultExcerpt(Trim(src.raw)))
            && p.date == Scalar(today)
            && p.author == Scalar(DefaultAuthor)
            && p.tags == List([])
  {
    ParseWithoutHeader(src.raw);
  }

  /**
   * The last header line naming `key` decides that field of the post when
   * its value is truthy.
   */
  lemma HeaderFieldReachesPost(path: string, header: string, rest: string, today: string, i: nat, key: string)
    requires var content := Opening + header + Closing + rest;
             forall k :: 4 <= k < 4 + |header| ==> !OccursAt(content, Closing, k)
    requires var lines := Split(header, '\n');
             && i < |lines| && Names(ParseLine(lines[i]), key)
             && (forall j :: i < j < |lines| ==> !Names(ParseLine(lines[j]), key))
             && ParseLine(lines[i]).value.1 != Scalar("")
    ensures var p := BuildPost(Source(path, Opening + header + Closing + rest), today);
            var v := ParseLine(Split(header, '\n')[i]).value.1;
            && (key == "title" ==> p.title == v)
            && (key == "excerpt" ==> p.excerpt == v)
            && (key == "date" ==> p.date == v)
            && (key == "author" ==> p.author == v)
            && (key == "tags" ==> p.tags == v)
  {
    ParseWithHeader(header, rest);
    CollectLastWins(Split(header, '\n'), key, i);
  }

  /** A post whose header gives no title is titled by its slug. */
  lemma UntitledPostUsesSlug(src: Source, today: string)
    requires "title" !in Parse(src.raw).data
    ensures BuildPost(src, today).title == Scalar(Slug(src.path))
  {
  }

  /** A defaulted excerpt is at most 153 characters: a prefix of the body and `...`. */
  lemma DefaultExcerptBound(src: Source, today: string)
    requires !Truthy(Parse(src.raw).data, "excerpt")
    ensures var p := BuildPost(src, today);
            && p.excerpt.Scalar? && |p.excerpt.text| <= 153
            && p.excerpt.text[|p.excerpt.text| - 3..] == "..."
            && p.excerpt.text[..|p.excerpt.text| - 3] == p.content[..|p.excerpt.text| - 3]
  {
  }

  /** Newest first: no post is dated after the one before it. */
  predicate Descending(posts: seq<Post>, stamp: Value -> int) {
    forall i, j :: 0 <= i < j < |posts| ==> stamp(posts[i].date) >= stamp(posts[j].date)
  }

  /** The posts whose date has timestamp `k`, in their order. */
  function DatedAt(posts: seq<Post>, stamp: Value -> int, k: int): seq<Post> {
    if posts == [] then []
    else (if stamp(posts[0].date) == k then [posts[0]] else []) + DatedAt(posts[1..], stamp, k)
  }

  /** Insert `p` before the first post not dated after it. */
  function InsertByDate(p: Post, sorted: seq<Post>, stamp: Value -> int): (r: seq<Post>)
    ensures multiset(r) == multiset(sorted) + multiset{p}
  {
    if sorted == [] || stamp(p.date) >= stamp(sorted[0].date) then [p] + sorted
    else
      assert sorted == [sorted[0]] + sorted[1..];
      [sorted[0]] + InsertByDate(p, sorted[1..], stamp)
  }

  /**
   * `posts.sort((a, b) => date(b) - date(a))`: the engine's sort is stable,
   * so this is the stable sort by descending timestamp (insertion sort).
   */
  function SortByDate(posts: seq<Post>, stamp: Value -> int): (r: seq<Post>)
    ensures multiset(r) == multiset(posts)
    ensures |r| == |posts|
  {
    if posts == [] then []
    else
      assert posts == [posts[0]] + posts[1..];
      var r := InsertByDate(posts[0], SortByDate(posts[1..], stamp), stamp);
      assert |r| == |multiset(r)|;
      r
  }

  lemma DescendingTail(posts: seq<Post>, stamp: Value -> int)
    requires posts != [] && Descending(posts, stamp)
    ensures Descending(posts[1..], stamp)
  {
    forall i, j | 0 <= i < j < |posts| - 1 ensures stamp(posts[1..][i].date) >= stamp(posts[1..][j].date) {
      assert posts[1..][i] == posts[i + 1] && posts[1..][j] == posts[j + 1];
    }
  }

  /** A post dated no earlier than every post of a newest-first list can lead it. */
  lemma DescendingCons(x: Post, posts: seq<Post>, stamp: Value -> int)
    requires Descending(posts, stamp)
    requires forall y :: y in posts ==> stamp(y.date) <= stamp(x.date)
    ensures Descending([x] + posts, stamp)
  {
    var r := [x] + posts;
    forall i, j | 0 <= i < j < |r| ensures stamp(r[i].date) >= stamp(r[j].date) {
      assert r[j] == posts[j - 1];
      if i > 0 { assert r[i] == posts[i - 1]; }
    }
  }

  lemma DescendingHead(posts: seq<Post>, stamp: Value -> int, x: Post)
    requires Descending(posts, stamp) && x in posts
    ensures stamp(x.date) <= stamp(posts[0].date)
  {
    var j :| 0 <= j < |posts| && posts[j] == x;
    if j > 0 { assert stamp(posts[0].date) >= stamp(posts[j].date); }
  }

  /** Inserting into a newest-first list keeps it newest first. */
  lemma {:induction false} InsertByDateSorted(p: Post, sorted: seq<Post>, stamp: Value -> int)
    requires Descending(sorted, stamp)
    ensures Descending(InsertByDate(p, sorted, stamp), stamp)
  {
    if sorted == [] || stamp(p.date) >= stamp(sorted[0].date) {
      forall y | y in sorted ensures stamp(y.date) <= stamp(p.date) {
        DescendingHead(sorted, stamp, y);
      }
      DescendingCons(p, sorted, stamp);
    } else {
      var tail := sorted[1..];
      DescendingTail(sorted, stamp);
      InsertByDateSorted(p, tail, stamp);
      var rest := InsertByDate(p, tail, stamp);
      forall y | y in rest ensures stamp(y.date) <= stamp(sorted[0].date) {
        assert y in multiset(rest);
        if y != p {
          assert y in multiset(tail);
          assert y in sorted;
          DescendingHead(sorted, stamp, y);
        }
      }
      DescendingCons(sorted[0], rest, stamp);
    }
  }

  /** Inserting `p` puts it ahead of the posts of its own date and leaves the other dates alone. */
  lemma {:induction false} InsertByDateDatedAt(p: Post, sorted: seq<Post>, stamp: Value -> int, k: int)
    ensures DatedAt(InsertByDate(p, sorted, stamp), stamp, k)
         == (if stamp(p.date) == k then [p] else []) + DatedAt(sorted, stamp, k)
  {
    if sorted == [] || stamp(p.date) >= stamp(sorted[0].date) {
      assert ([p] + sorted)[1..] == sorted;
    } else {
      var s0 := sorted[0];
      var tail := sorted[1..];
      InsertByDateDatedAt(p, tail, stamp, k);
      var rest := InsertByDate(p, tail, stamp);
      assert ([s0] + rest)[1..] == rest;
      var head := if stamp(s0.date) == k then [s0] else [];
      var mine := if stamp(p.date) == k then [p] else [];
      calc {
        DatedAt(InsertByDate(p, sorted, stamp), stamp, k);
        head + DatedAt(rest, stamp, k);
        head + (mine + DatedAt(tail, stamp, k));
        { assert head == [] || mine == []; }
        mine + (head + DatedAt(tail, stamp, k));
        mine + DatedAt(sorted, stamp, k);
      }
    }
  }

  lemma {:induction false} SortByDateSorted(posts: seq<Post>, stamp: Value -> int)
    ensures Descending(SortByDate(posts, stamp), stamp)
  {
    if posts != [] {
      SortByDateSorted(posts[1..], stamp);
      InsertByDateSorted(posts[0], SortByDate(posts[1..], stamp), stamp);
    }
  }

  /** The sort keeps the discovery order of the posts of each date. */
  lemma {:induction false} SortByDateStable(posts: seq<Post>, stamp: Value -> int, k: int)
    ensures DatedAt(SortByDate(posts, stamp), stamp, k) == DatedAt(posts, stamp, k)
  {
    if posts != [] {
      SortByDateStable(posts[1..], stamp, k);
      InsertByDateDatedAt(posts[0], SortByDate(posts[1..], stamp), stamp, k);
    }
  }

  lemma {:induction false} DatedAtMember(posts: seq<Post>, stamp: Value -> int, k: int, x: Post)
    requires x in DatedAt(posts, stamp, k)
    ensures x in posts && stamp(x.date) == k
  {
    if posts != [] {
      if x != posts[0] || stamp(posts[0].date) != k {
        DatedAtMember(posts[1..], stamp, k, x);
        assert x in posts[1..];
      }
    }
  }

  /** Two lists with the same posts of each date start with the same post once both are newest first. */
  lemma SameFirstPost(a: seq<Post>, b: seq<Post>, stamp: Value -> int)
    requires a != [] && Descending(a, stamp) && Descending(b, stamp)
    requires forall k :: DatedAt(a, stamp, k) == DatedAt(b, stamp, k)
    ensures b != [] && a[0] == b[0]
  {
    var ka := stamp(a[0].date);
    assert DatedAt(a, stamp, ka) == [a[0]] + DatedAt(a[1..], stamp, ka);
    assert a[0] in DatedAt(b, stamp, ka);
    DatedAtMember(b, stamp, ka, a[0]);
    var kb := stamp(b[0].date);
    assert DatedAt(b, stamp, kb) == [b[0]] + DatedAt(b[1..], stamp, kb);
    assert b[0] in DatedAt(a, stamp, kb);
    DatedAtMember(a, stamp, kb, b[0]);
    DescendingHead(b, stamp, a[0]);
    DescendingHead(a, stamp, b[0]);
    assert DatedAt(a, stamp, ka)[0] == a[0];
    assert DatedAt(b, stamp, ka)[0] == b[0];
  }

  /**
   * There is only one newest-first order that keeps the relative order of
   * the posts of each date: two such orders of the same posts are equal.
   */
  lemma {:induction false} StableOrderUnique(a: seq<Post>, b: seq<Post>, stamp: Value -> int)
    requires Descending(a, stamp) && Descending(b, stamp)
    requires forall k :: DatedAt(a, stamp, k) == DatedAt(b, stamp, k)
    ensures a == b
  {
    if a == [] && b != [] {
      SameFirstPost(b, a, stamp);
    } else if a != [] {
      SameFirstPost(a, b, stamp);
      var x := a[0];
      forall k ensures DatedAt(a[1..], stamp, k) == DatedAt(b[1..], stamp, k) {
        var da := DatedAt(a[1..], stamp, k);
        var db := DatedAt(b[1..], stamp, k);
        assert DatedAt(a, stamp, k) == (if stamp(x.date) == k then [x] else []) + da;
        assert DatedAt(b, stamp, k) == (if stamp(x.date) == k then [x] else []) + db;
        if stamp(x.date) == k {
          assert ([x] + da)[1..] == da && ([x] + db)[1..] == db;
        } else {
          assert [] + da == da && [] + db == db;
        }
      }
      DescendingTail(a, stamp);
      DescendingTail(b, stamp);
      StableOrderUnique(a[1..], b[1..], stamp);
      assert a == [x] + a[1..] && b == [x] + b[1..];
    }
  }

  /** Any newest-first order that keeps each date's discovery order is the sort's result. */
  lemma SortByDateIsTheStableSort(posts: seq<Post>, r: seq<Post>, stamp: Value -> int)
    requires Descending(r, stamp)
    requires forall k :: DatedAt(r, stamp, k) == DatedAt(posts, stamp, k)
    ensures r == SortByDate(posts, stamp)
  {
    var s := SortByDate(posts, stamp);
    SortByDateSorted(posts, stamp);
    forall k ensures DatedAt(r, stamp, k) == DatedAt(s, stamp, k) {
      SortByDateStable(posts, stamp, k);
    }
    StableOrderUnique(r, s, stamp);
  }

  /** The body of the loop over the modules: parse one, then assemble its post. */
  method LoadPost(src: Source, today: string) returns (post: Post)
    ensures post == BuildPost(src, today)
  {
    var parsed := ParseFrontmatter(src.raw);
    var slug := Slug(src.path);
    post := Normalize(slug, parsed, today);
  }

  /**
   * `getAllPosts`: one post pushed per discovered module, in discovery
   * order, then the list sorted newest first. `stamp` is the timestamp the
   * comparator reads off a date.
   */
  method GetAllPosts(sources: seq<Source>, today: string, stamp: Value -> int) returns (posts: seq<Post>)
    ensures posts == SortByDate(BuildAll(sources, today), stamp)
    ensures |posts| == |sources|
    ensures multiset(posts) == multiset(BuildAll(sources, today))
    ensures Descending(posts, stamp)
    ensures forall k :: DatedAt(posts, stamp, k) == DatedAt(BuildAll(sources, today), stamp, k)
  {
    var built: seq<Post> := [];
    for i := 0 to |sources|
      invariant built == BuildAll(sources[..i], today)
    {
      var post := LoadPost(sources[i], today);
      assert sources[..i + 1][..i] == sources[..i];
      built := built + [post];
    }
    assert sources[..|sources|] == sources;
    posts := SortByDate(built, stamp);
    SortByDateSorted(built, stamp);
    forall k ensures DatedAt(posts, stamp, k) == DatedAt(built, stamp, k) {
      SortByDateStable(built, stamp, k);
    }
  }

  /** `posts[i]` is the first post with this slug. */
  predicate FirstWithSlug(posts: seq<Post>, slug: string, i: int) {
    0 <= i < |posts| && posts[i].slug == slug && forall j :: 0 <= j < i ==> posts[j].slug != slug
  }

  /** Some post of the list has this slug. */
  predicate HasSlug(posts: seq<Post>, slug: string) {
    exists p :: p in posts && p.slug == slug
  }

  /** `posts.find(post => post.slug === slug) || null`. */
  function FindBySlug(posts: seq<Post>, slug: string): (r: Option<Post>)
    ensures r.None? <==> !HasSlug(posts, slug)
    ensures r.Some? ==> exists i :: FirstWithSlug(posts, slug, i) && posts[i] == r.value
  {
    if posts == [] then None
    else if posts[0].slug == slug then
      assert FirstWithSlug(posts, slug, 0);
      Some(posts[0])
    else
      var r := FindBySlug(posts[1..], slug);
      assert posts == [posts[0]] + posts[1..];
      if r.Some? then
        var i :| FirstWithSlug(posts[1..], slug, i) && posts[1..][i] == r.value;
        assert FirstWithSlug(posts, slug, i + 1);
        r
      else
        r
  }

  /** Lists holding the same posts hold the same slugs. */
  lemma HasSlugOfSamePosts(a: seq<Post>, b: seq<Post>, slug: string)
    requires multiset(a) == multiset(b)
    ensures HasSlug(a, slug) <==> HasSlug(b, slug)
  {
    if HasSlug(a, slug) {
      var p :| p in a && p.slug == slug;
      assert p in multiset(a);
      assert p in b;
    }
    if HasSlug(b, slug) {
      var p :| p in b && p.slug == slug;
      assert p in multiset(b);
      assert p in a;
    }
  }

  /** Posts whose slugs are those of the sources, index by index, have the sources' slugs. */
  lemma HasSlugOfSlugs(posts: seq<Post>, sources: seq<Source>, slug: string)
    requires |posts| == |sources|
    requires forall i :: 0 <= i < |posts| ==> posts[i].slug == Slug(sources[i].path)
    ensures HasSlug(posts, slug) <==> exists i :: 0 <= i < |sources| && Slug(sources[i].path) == slug
  {
    if HasSlug(posts, slug) {
      var p :| p in posts && p.slug == slug;
      var i :| 0 <= i < |posts| && posts[i] == p;
      assert Slug(sources[i].path) == slug;
    }
    if exists i :: 0 <= i < |sources| && Slug(sources[i].path) == slug {
      var i :| 0 <= i < |sources| && Slug(sources[i].path) == slug;
      assert posts[i] in posts;
    }
  }

  /** Some built post has a slug exactly when some source's path gives it. */
  lemma HasSlugOfBuilt(sources: seq<Source>, today: string, slug: string)
    ensures HasSlug(BuildAll(sources, today), slug)
        <==> exists i :: 0 <= i < |sources| && Slug(sources[i].path) == slug
  {
    var built := BuildAll(sources, today);
    forall i | 0 <= i < |built| ensures built[i].slug == Slug(sources[i].path) {
      BuildAllAt(sources, today, i);
    }
    HasSlugOfSlugs(built, sources, slug);
  }

  /**
   * `getPostBySlug`: the first post, in the sorted listing, whose slug is
   * `slug`; `None` exactly when no discovered module has that slug.
   */
  method GetPostBySlug(sources: seq<Source>, today: string, stamp: Value -> int, slug: string)
    returns (r: Option<Post>)
    ensures r == FindBySlug(SortByDate(BuildAll(sources, today), stamp), slug)
    ensures r.None? <==> forall i :: 0 <= i < |sources| ==> Slug(sources[i].path) != slug
    ensures r.Some? ==> r.value.slug == slug && r.value in BuildAll(sources, today)
  {
    var posts := GetAllPosts(sources, today, stamp);
    r := FindBySlug(posts, slug);
    HasSlugOfSamePosts(posts, BuildAll(sources, today), slug);
    HasSlugOfBuilt(sources, today, slug);
    if r.Some? {
      ghost var i :| FirstWithSlug(posts, slug, i) && posts[i] == r.value;
      assert r.value in multiset(posts);
    }
  }
}
