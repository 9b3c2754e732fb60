/** The sitemap (web/src/app/sitemap.ts): locale home pages, blog listings
    and blog posts, each with its hreflang alternates, plus the privacy
    page.  The posts of each locale are a parameter (they come from
    `getAllBlogPosts`); the build time stamped on static entries is
    `BuildTime`. */
module Sitemap {
  import opened Wrappers
  import opened Seqs
  import opened JsObject
  import opened I18n
  import Blog

  const BaseUrl := "https://www.viziai.app"
  const XDefault := "x-default"

  datatype Modified = BuildTime | Published(date: string)

  datatype Entry = Entry(
    url: string, lastModified: Modified, changeFrequency: string, priority: real,
    alternates: Option<Obj<string>>)

  /** Distinct locales of the configuration. */
  predicate LocaleList(ls: seq<string>) {
    Distinct(ls) && forall i | 0 <= i < |ls| :: ls[i] in Locales
  }

  /** The table with one entry per locale: its tag and its URL. */
  function Tagged(ls: seq<string>, url: string -> string): (r: Obj<string>)
    ensures |r| == |ls| && forall i | 0 <= i < |ls| :: r[i] == (Bcp47(ls[i]), url(ls[i]))
  {
    seq(|ls|, i requires 0 <= i < |ls| => (Bcp47(ls[i]), url(ls[i])))
  }

  /** `languages[bcp47[l]] = url(l)` for each `l` of `ls` in turn. */
  function LanguagesOf(ls: seq<string>, url: string -> string): Obj<string>
    decreases |ls|
  {
    if |ls| == 0 then []
    else Set(LanguagesOf(ls[..|ls| - 1], url), Bcp47(ls[|ls| - 1]), url(ls[|ls| - 1]))
  }

  /** On distinct locales every assignment adds a new key, so the object
      is the table of tags and URLs in locale order. */
  lemma {:induction false} LanguagesOfTable(ls: seq<string>, url: string -> string)
    requires LocaleList(ls)
    ensures LanguagesOf(ls, url) == Tagged(ls, url)
    decreases |ls|
  {
    if |ls| > 0 {
      var prefix := ls[..|ls| - 1];
      var m := ls[|ls| - 1];
      PrefixNewTag(ls, url);
      LanguagesOfTable(prefix, url);
      SetNew(Tagged(prefix, url), Bcp47(m), url(m));
      TaggedSnoc(ls, url);
    }
  }

  /** The last locale's tag is not among the earlier ones. */
  lemma PrefixNewTag(ls: seq<string>, url: string -> string)
    requires LocaleList(ls) && |ls| > 0
    ensures LocaleList(ls[..|ls| - 1])
    ensures Bcp47(ls[|ls| - 1]) !in Keys(Tagged(ls[..|ls| - 1], url))
  {
    var prefix := ls[..|ls| - 1];
    var m := ls[|ls| - 1];
    assert forall i | 0 <= i < |prefix| :: prefix[i] == ls[i];
    var ks := Keys(Tagged(prefix, url));
    forall i | 0 <= i < |prefix| ensures ks[i] != Bcp47(m) {
      assert prefix[i] == ls[i] != m;
      Bcp47Injective(m, prefix[i]);
    }
  }

  lemma TaggedSnoc(ls: seq<string>, url: string -> string)
    requires |ls| > 0
    ensures Tagged(ls, url) == Tagged(ls[..|ls| - 1], url) + [(Bcp47(ls[|ls| - 1]), url(ls[|ls| - 1]))]
  {
    var t, r := Tagged(ls, url), Tagged(ls[..|ls| - 1], url) + [(Bcp47(ls[|ls| - 1]), url(ls[|ls| - 1]))];
    forall i | 0 <= i < |ls| ensures r[i] == t[i] {
      if i < |ls| - 1 {
        assert ls[..|ls| - 1][i] == ls[i];
      }
    }
  }

  /** Reading the table: each listed locale's tag gives its URL, other
      locales' tags and `x-default` are absent. */
  lemma TaggedGet(ls: seq<string>, url: string -> string, l: string)
    requires LocaleList(ls)
    ensures WellFormed(Tagged(ls, url))
    ensures l in Locales ==> Get(Tagged(ls, url), Bcp47(l)) == if l in ls then Some(url(l)) else None
    ensures Get(Tagged(ls, url), XDefault) == None
  {
    var t := Tagged(ls, url);
    forall i, j | 0 <= i < j < |t| ensures t[i].0 != t[j].0 {
      Bcp47Injective(ls[i], ls[j]);
    }
    forall i | 0 <= i < |t| ensures t[i].0 != XDefault {
      Bcp47Injective(ls[i], ls[i]);
    }
    if l in Locales {
      if l in ls {
        var i :| 0 <= i < |ls| && ls[i] == l;
        GetAt(t, i);
      } else {
        forall i | 0 <= i < |t| ensures t[i].0 != Bcp47(l) {
          Bcp47Injective(l, ls[i]);
        }
      }
    }
  }

  /** `localeAlternates`. */
  function LocaleAlternates(pathFn: string -> string): Obj<string> {
    Set(LanguagesOf(Locales, (l: string) => BaseUrl + pathFn(l)), XDefault, BaseUrl + pathFn("en"))
  }

  /** One tagged URL per locale, then `x-default` pointing at the English
      page. */
  lemma LocaleAlternatesGet(pathFn: string -> string)
    ensures WellFormed(LocaleAlternates(pathFn))
    ensures forall l | l in Locales :: Get(LocaleAlternates(pathFn), Bcp47(l)) == Some(BaseUrl + pathFn(l))
    ensures Get(LocaleAlternates(pathFn), XDefault) == Some(BaseUrl + pathFn("en"))
  {
    var url := (l: string) => BaseUrl + pathFn(l);
    assert LocaleList(Locales);
    LanguagesOfTable(Locales, url);
    var o := LanguagesOf(Locales, url);
    TaggedGet(Locales, url, "tr");
    forall l | l in Locales ensures Get(Set(o, XDefault, url("en")), Bcp47(l)) == Some(url(l)) {
      TaggedGet(Locales, url, l);
      GetSet(o, XDefault, url("en"), Bcp47(l));
      Bcp47Injective(l, l);
    }
    GetSet(o, XDefault, url("en"), XDefault);
  }

  /** The keys in order: the tags in locale order, then `x-default`. */
  lemma LocaleAlternatesKeys(pathFn: string -> string)
    ensures var keys := Keys(LocaleAlternates(pathFn));
      && |keys| == |Locales| + 1
      && (forall i | 0 <= i < |Locales| :: keys[i] == Bcp47(Locales[i]))
      && keys[|Locales|] == XDefault
  {
    var url := (l: string) => BaseUrl + pathFn(l);
    assert LocaleList(Locales);
    LanguagesOfTable(Locales, url);
    var o := LanguagesOf(Locales, url);
    TaggedGet(Locales, url, "tr");
    SetNew(o, XDefault, url("en"));
  }

  // ---------------------------------------------------------------- blog posts

  /** One post of one locale, as the grouping loop sees it. */
  datatype PostRow = PostRow(locale: string, slug: string, publishedAt: string)

  /** The posts of each locale of `ls`, locale by locale. */
  function Rows(postsOf: string -> seq<Blog.BlogPost>, ls: seq<string>): seq<PostRow>
    decreases |ls|
  {
    if |ls| == 0 then [] else LocaleRows(ls[0], postsOf(ls[0])) + Rows(postsOf, ls[1..])
  }

  /** The posts of one locale as rows. */
  function LocaleRows(locale: string, posts: seq<Blog.BlogPost>): seq<PostRow> {
    seq(|posts|, i requires 0 <= i < |posts| => PostRow(locale, posts[i].frontmatter.slug, posts[i].frontmatter.publishedAt))
  }

  predicate HasSlug(rows: seq<PostRow>, s: string) {
    exists i | 0 <= i < |rows| :: rows[i].slug == s
  }

  predicate HasRow(rows: seq<PostRow>, s: string, l: string) {
    exists i | 0 <= i < |rows| :: rows[i].slug == s && rows[i].locale == l
  }

  /** The date of the last row for slug `s` in locale `l`. */
  function LastDate(rows: seq<PostRow>, s: string, l: string): Option<string>
    decreases |rows|
  {
    if |rows| == 0 then None
    else if rows[|rows| - 1].slug == s && rows[|rows| - 1].locale == l then Some(rows[|rows| - 1].publishedAt)
    else LastDate(rows[..|rows| - 1], s, l)
  }

  /** `slugsByLocale`: slug to (locale to publication date), both in order
      of first appearance. */
  function Group(rows: seq<PostRow>): Obj<Obj<string>>
    decreases |rows|
  {
    if |rows| == 0 then []
    else
      var o := Group(rows[..|rows| - 1]);
      var p := rows[|rows| - 1];
      Set(o, p.slug, Set(Get(o, p.slug).GetOr([]), p.locale, p.publishedAt))
  }

  /** What the grouping holds for slug `s` and locale `l`: the slug is a key
      iff some post has it; then its locale map is well formed, has `l`
      iff a post of locale `l` has the slug, and holds the last such
      post's date. */
  lemma {:induction false} GroupAt(rows: seq<PostRow>, s: string, l: string)
    ensures WellFormed(Group(rows))
    ensures s in Keys(Group(rows)) <==> HasSlug(rows, s)
    ensures s in Keys(Group(rows)) ==> (
      var inner := Get(Group(rows), s).value;
      && WellFormed(inner)
      && (l in Keys(inner) <==> HasRow(rows, s, l))
      && Get(inner, l) == LastDate(rows, s, l))
    decreases |rows|
  {
    if |rows| > 0 {
      var prefix := rows[..|rows| - 1];
      var p := rows[|rows| - 1];
      GroupAt(prefix, s, l);
      GroupAt(prefix, p.slug, l);
      var o := Group(prefix);
      var old_ := Get(o, p.slug).GetOr([]);
      var inner := Set(old_, p.locale, p.publishedAt);
      assert WellFormed(old_);
      GetSet(o, p.slug, inner, s);
      GetSet(old_, p.locale, p.publishedAt, l);
      HasSnoc(rows, s, l);
      if s == p.slug && s !in Keys(o) {
        assert !HasSlug(prefix, s);
        NoRowNoDate(prefix, s, l);
      }
    }
  }

  /** The last row adds its own slug and (slug, locale) pair. */
  lemma HasSnoc(rows: seq<PostRow>, s: string, l: string)
    requires |rows| > 0
    ensures var prefix, p := rows[..|rows| - 1], rows[|rows| - 1];
      && (HasSlug(rows, s) <==> HasSlug(prefix, s) || p.slug == s)
      && (HasRow(rows, s, l) <==> HasRow(prefix, s, l) || (p.slug == s && p.locale == l))
  {
    var prefix := rows[..|rows| - 1];
    assert forall i | 0 <= i < |prefix| :: prefix[i] == rows[i];
  }

  lemma {:induction false} NoRowNoDate(rows: seq<PostRow>, s: string, l: string)
    requires !HasSlug(rows, s)
    ensures !HasRow(rows, s, l) && LastDate(rows, s, l) == None
    decreases |rows|
  {
    if |rows| > 0 {
      HasSnoc(rows, s, l);
      NoRowNoDate(rows[..|rows| - 1], s, l);
    }
  }

  function PostUrl(locale: string, slug: string): string {
    BaseUrl + "/" + locale + "/blog/" + slug
  }

  /** The hreflang map of one slug: every locale the slug exists in, and
      `x-default` to the English version when there is one. */
  function PostLanguages(slug: string, localeMap: Obj<string>): Obj<string> {
    var languages := LanguagesOf(Keys(localeMap), (l: string) => PostUrl(l, slug));
    if "en" in Keys(localeMap) then Set(languages, XDefault, PostUrl("en", slug)) else languages
  }

  /** Reading a slug's hreflang map. */
  lemma PostLanguagesGet(slug: string, localeMap: Obj<string>, l: string)
    requires LocaleList(Keys(localeMap))
    ensures l in Locales ==>
      Get(PostLanguages(slug, localeMap), Bcp47(l)) == if l in Keys(localeMap) then Some(PostUrl(l, slug)) else None
    ensures Get(PostLanguages(slug, localeMap), XDefault) ==
      if "en" in Keys(localeMap) then Some(PostUrl("en", slug)) else None
  {
    var url := (l: string) => PostUrl(l, slug);
    var ls := Keys(localeMap);
    LanguagesOfTable(ls, url);
    TaggedGet(ls, url, l);
    var o := LanguagesOf(ls, url);
    if "en" in ls {
      GetSet(o, XDefault, PostUrl("en", slug), XDefault);
      if l in Locales {
        GetSet(o, XDefault, PostUrl("en", slug), Bcp47(l));
        Bcp47Injective(l, l);
      }
    }
  }

  /** The entries of one slug, one per locale of its map. */
  function SlugEntries(slug: string, localeMap: Obj<string>): (r: seq<Entry>)
    ensures |r| == |localeMap|
  {
    var languages := PostLanguages(slug, localeMap);
    seq(|localeMap|, j requires 0 <= j < |localeMap| =>
      Entry(PostUrl(localeMap[j].0, slug), Published(localeMap[j].1), "monthly", 0.7, Some(languages)))
  }

  /** The post entries, slug by slug. */
  function PostEntries(g: Obj<Obj<string>>): seq<Entry>
    decreases |g|
  {
    if |g| == 0 then [] else SlugEntries(g[0].0, g[0].1) + PostEntries(g[1..])
  }

  /** The (slug, locale) pairs the post entries are emitted for, in order. */
  function PostKeys(g: Obj<Obj<string>>): seq<(string, string)>
    decreases |g|
  {
    if |g| == 0 then []
    else seq(|g[0].1|, j requires 0 <= j < |g[0].1| => (g[0].0, g[0].1[j].0)) + PostKeys(g[1..])
  }

  /** The position in `g` of the slug that pair `k` belongs to. */
  function GroupOf(g: Obj<Obj<string>>, k: nat): nat
    decreases |g|
  {
    if |g| == 0 || k < |g[0].1| then 0 else 1 + GroupOf(g[1..], k - |g[0].1|)
  }

  /** Post entry `k` belongs to the slug of pair `k` and carries that slug's
      hreflang map. */
  lemma {:induction false} PostEntriesFollowKeys(g: Obj<Obj<string>>)
    ensures |PostEntries(g)| == |PostKeys(g)|
    ensures forall k | 0 <= k < |PostKeys(g)| ::
      && GroupOf(g, k) < |g| && g[GroupOf(g, k)].0 == PostKeys(g)[k].0
      && PostEntries(g)[k].alternates == Some(PostLanguages(g[GroupOf(g, k)].0, g[GroupOf(g, k)].1))
    decreases |g|
  {
    PostEntriesUrls(g);
    if |g| > 0 {
      PostEntriesFollowKeys(g[1..]);
      var head := SlugEntries(g[0].0, g[0].1);
      var hk := seq(|g[0].1|, j requires 0 <= j < |g[0].1| => (g[0].0, g[0].1[j].0));
      var es := PostEntries(g);
      var ks := PostKeys(g);
      assert es == head + PostEntries(g[1..]);
      assert ks == hk + PostKeys(g[1..]);
      forall k | 0 <= k < |ks|
        ensures GroupOf(g, k) < |g| && g[GroupOf(g, k)].0 == ks[k].0
        ensures es[k].alternates == Some(PostLanguages(g[GroupOf(g, k)].0, g[GroupOf(g, k)].1))
      {
        if k >= |head| {
          var i := GroupOf(g[1..], k - |head|);
          assert g[i + 1] == g[1..][i];
        }
      }
    }
  }

  /** Post entry `k` is the page of pair `k`. */
  lemma {:induction false} PostEntriesUrls(g: Obj<Obj<string>>)
    ensures |PostEntries(g)| == |PostKeys(g)|
    ensures forall k | 0 <= k < |PostKeys(g)| :: PostEntries(g)[k].url == PostUrl(PostKeys(g)[k].1, PostKeys(g)[k].0)
    decreases |g|
  {
    if |g| > 0 {
      PostEntriesUrls(g[1..]);
      var head := SlugEntries(g[0].0, g[0].1);
      var hk := seq(|g[0].1|, j requires 0 <= j < |g[0].1| => (g[0].0, g[0].1[j].0));
      var es := PostEntries(g);
      var ks := PostKeys(g);
      assert es == head + PostEntries(g[1..]);
      assert ks == hk + PostKeys(g[1..]);
    }
  }

  /** Every grouped (slug, locale) pair gets exactly one entry. */
  lemma {:induction false} PostKeysExact(g: Obj<Obj<string>>, s: string, l: string)
    requires WellFormed(g)
    ensures (s, l) in PostKeys(g) <==> s in Keys(g) && l in Keys(Get(g, s).value)
    decreases |g|
  {
    if |g| > 0 {
      var tail := g[1..];
      assert WellFormed(tail) by {
        forall i, j | 0 <= i < j < |tail| ensures tail[i].0 != tail[j].0 {
          assert tail[i] == g[i + 1] && tail[j] == g[j + 1];
        }
      }
      PostKeysExact(tail, s, l);
      var hk := seq(|g[0].1|, j requires 0 <= j < |g[0].1| => (g[0].0, g[0].1[j].0));
      assert PostKeys(g) == hk + PostKeys(tail);
      assert Keys(g) == [g[0].0] + Keys(tail);
      if s == g[0].0 {
        assert Get(g, s) == Some(g[0].1);
        assert s !in Keys(tail) by {
          forall i | 0 <= i < |tail| ensures tail[i].0 != s {
            assert tail[i] == g[i + 1];
          }
        }
        assert (s, l) in hk <==> l in Keys(g[0].1) by {
          if l in Keys(g[0].1) {
            var j :| 0 <= j < |g[0].1| && g[0].1[j].0 == l;
            assert hk[j] == (s, l);
          }
        }
      } else {
        assert (s, l) !in hk;
        assert Get(g, s) == Get(tail, s);
      }
    }
  }

  /** Pairs are emitted once each when the maps are well formed. */
  lemma {:induction false} PostKeysDistinct(g: Obj<Obj<string>>)
    requires WellFormed(g)
    requires forall i | 0 <= i < |g| :: WellFormed(g[i].1)
    ensures Distinct(PostKeys(g))
    decreases |g|
  {
    if |g| > 0 {
      var tail := g[1..];
      assert WellFormed(tail) by {
        forall i, j | 0 <= i < j < |tail| ensures tail[i].0 != tail[j].0 {
          assert tail[i] == g[i + 1] && tail[j] == g[j + 1];
        }
      }
      PostKeysDistinct(tail);
      var hk := seq(|g[0].1|, j requires 0 <= j < |g[0].1| => (g[0].0, g[0].1[j].0));
      var rest := PostKeys(tail);
      assert PostKeys(g) == hk + rest;
      forall k | 0 <= k < |rest| ensures rest[k].0 != g[0].0 {
        PostKeysSlugs(tail, k);
        var i :| 0 <= i < |tail| && tail[i].0 == rest[k].0;
        assert tail[i] == g[i + 1];
      }
      var all := hk + rest;
      forall a, b | 0 <= a < b < |all| ensures all[a] != all[b] {
        if b < |hk| {
          assert all[a] == hk[a] && all[b] == hk[b];
        } else if a >= |hk| {
          assert all[a] == rest[a - |hk|] && all[b] == rest[b - |hk|];
        } else {
          assert all[b] == rest[b - |hk|];
        }
      }
    }
  }

  /** Every emitted pair's slug is a key of the grouping. */
  lemma {:induction false} PostKeysSlugs(g: Obj<Obj<string>>, k: nat)
    requires k < |PostKeys(g)|
    ensures exists i | 0 <= i < |g| :: g[i].0 == PostKeys(g)[k].0
    decreases |g|
  {
    var hk := seq(|g[0].1|, j requires 0 <= j < |g[0].1| => (g[0].0, g[0].1[j].0));
    assert PostKeys(g) == hk + PostKeys(g[1..]);
    if k >= |hk| {
      PostKeysSlugs(g[1..], k - |hk|);
      var i :| 0 <= i < |g[1..]| && g[1..][i].0 == PostKeys(g[1..])[k - |hk|].0;
      assert g[i + 1] == g[1..][i];
    }
  }

  predicate PostHasSlug(posts: seq<Blog.BlogPost>, s: string) {
    exists i | 0 <= i < |posts| :: posts[i].frontmatter.slug == s
  }

  /** The rows hold a (slug, locale) pair exactly when that locale is read
      and one of its posts has the slug. */
  lemma {:induction false} RowsHas(postsOf: string -> seq<Blog.BlogPost>, ls: seq<string>, s: string, l: string)
    ensures HasRow(Rows(postsOf, ls), s, l) <==> l in ls && PostHasSlug(postsOf(l), s)
    decreases |ls|
  {
    if |ls| > 0 {
      RowsHas(postsOf, ls[1..], s, l);
      HasRowAppend(LocaleRows(ls[0], postsOf(ls[0])), Rows(postsOf, ls[1..]), s, l);
      LocaleRowsHas(ls[0], postsOf(ls[0]), s, l);
      assert l in ls <==> l == ls[0] || l in ls[1..] by {
        assert ls == [ls[0]] + ls[1..];
      }
    }
  }

  /** A pair is among the rows of one locale exactly when it is that locale
      and one of its posts has the slug. */
  lemma LocaleRowsHas(locale: string, posts: seq<Blog.BlogPost>, s: string, l: string)
    ensures HasRow(LocaleRows(locale, posts), s, l) <==> l == locale && PostHasSlug(posts, s)
  {
    var rows := LocaleRows(locale, posts);
    if l == locale && PostHasSlug(posts, s) {
      var i :| 0 <= i < |posts| && posts[i].frontmatter.slug == s;
      assert rows[i].slug == s && rows[i].locale == l;
    }
  }

  lemma HasRowAppend(head: seq<PostRow>, tail: seq<PostRow>, s: string, l: string)
    ensures HasRow(head + tail, s, l) <==> HasRow(head, s, l) || HasRow(tail, s, l)
  {
    var rows := head + tail;
    if HasRow(rows, s, l) {
      var i :| 0 <= i < |rows| && rows[i].slug == s && rows[i].locale == l;
      if i >= |head| {
        assert tail[i - |head|] == rows[i];
      }
    }
    if HasRow(head, s, l) {
      var i :| 0 <= i < |head| && head[i].slug == s && head[i].locale == l;
      assert rows[i] == head[i];
    }
    if HasRow(tail, s, l) {
      var i :| 0 <= i < |tail| && tail[i].slug == s && tail[i].locale == l;
      assert rows[i + |head|] == tail[i];
    }
  }

  /** The grouping of all locales' posts. */
  function Grouped(postsOf: string -> seq<Blog.BlogPost>): Obj<Obj<string>> {
    Group(Rows(postsOf, Locales))
  }

  function HomeEntry(locale: string): Entry {
    Entry(BaseUrl + "/" + locale, BuildTime, "weekly", 1.0, Some(LocaleAlternates((l: string) => "/" + l)))
  }

  function ListingEntry(locale: string): Entry {
    Entry(BaseUrl + "/" + locale + "/blog", BuildTime, "weekly", 0.8, Some(LocaleAlternates((l: string) => "/" + l + "/blog")))
  }

  const PrivacyEntry := Entry(BaseUrl + "/privacy", BuildTime, "monthly", 0.3, None)

  /** `sitemap()`: the home pages, the blog listings, the posts, then the
      privacy page. */
  function Sitemap(postsOf: string -> seq<Blog.BlogPost>): seq<Entry> {
    SitemapOf(Grouped(postsOf))
  }

  /** The sitemap around the post entries of the grouping `g`. */
  function SitemapOf(g: Obj<Obj<string>>): seq<Entry> {
    HomeEntries() + ListingEntries() + PostEntries(g) + [PrivacyEntry]
  }

  /** The home page of each locale. */
  function HomeEntries(): (r: seq<Entry>)
    ensures |r| == |Locales|
  {
    seq(|Locales|, i requires 0 <= i < |Locales| => HomeEntry(Locales[i]))
  }

  /** The blog listing of each locale. */
  function ListingEntries(): (r: seq<Entry>)
    ensures |r| == |Locales|
  {
    seq(|Locales|, i requires 0 <= i < |Locales| => ListingEntry(Locales[i]))
  }

  /** The layout of the sitemap: a home page and a blog listing per locale
      first, then one entry per grouped (slug, locale) pair, the privacy
      page last. */
  lemma SitemapLayout(postsOf: string -> seq<Blog.BlogPost>)
    ensures var r := Sitemap(postsOf);
      && |r| == 2 * |Locales| + |PostKeys(Grouped(postsOf))| + 1
      && (forall i | 0 <= i < |Locales| :: r[i].url == BaseUrl + "/" + Locales[i] && r[i].priority == 1.0)
      && (forall i | 0 <= i < |Locales| :: r[|Locales| + i].url == BaseUrl + "/" + Locales[i] + "/blog")
      && r[|r| - 1] == PrivacyEntry
  {
    var homes := HomeEntries();
    var listings := ListingEntries();
    var r := Sitemap(postsOf);
    PostEntriesUrls(Grouped(postsOf));
    forall i | 0 <= i < |Locales| ensures r[i] == HomeEntry(Locales[i]) && r[|Locales| + i] == ListingEntry(Locales[i]) {
      assert r[i] == homes[i];
      assert r[|Locales| + i] == listings[i];
    }
  }

  /** Between the listings and the privacy page, entry `k` is the page of
      the `k`-th grouped (slug, locale) pair. */
  lemma SitemapPostUrls(postsOf: string -> seq<Blog.BlogPost>)
    ensures var r := Sitemap(postsOf); var ks := PostKeys(Grouped(postsOf));
      && 2 * |Locales| + |ks| < |r|
      && forall k | 0 <= k < |ks| :: r[2 * |Locales| + k].url == PostUrl(ks[k].1, ks[k].0)
  {
    SitemapOfPostUrls(Grouped(postsOf));
  }

  lemma SitemapOfPostUrls(g: Obj<Obj<string>>)
    ensures var r := SitemapOf(g); var ks := PostKeys(g);
      && 2 * |Locales| + |ks| < |r|
      && forall k | 0 <= k < |ks| :: r[2 * |Locales| + k].url == PostUrl(ks[k].1, ks[k].0)
  {
    var pages := HomeEntries() + ListingEntries();
    PostEntriesUrls(g);
    MiddleUrls(pages, PostEntries(g), [PrivacyEntry], PostKeys(g));
  }

  /** Post urls keep their positions behind any prefix. */
  lemma MiddleUrls(pages: seq<Entry>, posts: seq<Entry>, tail: seq<Entry>, ks: seq<(string, string)>)
    requires |posts| == |ks|
    requires forall k | 0 <= k < |ks| :: posts[k].url == PostUrl(ks[k].1, ks[k].0)
    ensures forall k | 0 <= k < |ks| :: (pages + posts + tail)[|pages| + k].url == PostUrl(ks[k].1, ks[k].0)
  {
    forall k | 0 <= k < |ks| ensures (pages + posts + tail)[|pages| + k].url == PostUrl(ks[k].1, ks[k].0) {
      MiddleIndex(pages, posts, tail, k);
    }
  }

  lemma MiddleIndex<T>(a: seq<T>, b: seq<T>, c: seq<T>, k: nat)
    requires k < |b|
    ensures |a| + k < |a + b + c| && (a + b + c)[|a| + k] == b[k]
  {
  }

  /** The post pages are exactly the (slug, locale) pairs for which that
      locale has a post with that slug, each listed once. */
  lemma SitemapPostsExact(postsOf: string -> seq<Blog.BlogPost>, s: string, l: string)
    ensures (s, l) in PostKeys(Grouped(postsOf)) <==> l in Locales && PostHasSlug(postsOf(l), s)
    ensures Distinct(PostKeys(Grouped(postsOf)))
  {
    var rows := Rows(postsOf, Locales);
    var g := Grouped(postsOf);
    GroupAt(rows, s, l);
    PostKeysExact(g, s, l);
    RowsHas(postsOf, Locales, s, l);
    if (s, l) in PostKeys(g) {
      assert HasRow(rows, s, l);
    }
    if l in Locales && PostHasSlug(postsOf(l), s) {
      assert HasRow(rows, s, l);
      var i :| 0 <= i < |rows| && rows[i].slug == s && rows[i].locale == l;
      assert HasSlug(rows, s);
    }
    forall i | 0 <= i < |g| ensures WellFormed(g[i].1) {
      GroupAt(rows, g[i].0, l);
      GetAt(g, i);
    }
    PostKeysDistinct(g);
  }
}
