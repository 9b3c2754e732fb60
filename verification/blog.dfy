/** The blog content library (web/src/lib/blog.ts): reading-time estimate,
    the path-traversal guard on locale directories, post lookup, listing
    order and the alternate-language lookup.  The content directory is an
    in-memory map from directory paths (as segment lists) to the files
    `readdir` lists, in that order; front matter arrives parsed. */
module Blog {
  import opened Wrappers
  import opened Text
  import opened Seqs
  import Sorting

  /** Words read per minute. */
  const WordsPerMinute := 200

  datatype Frontmatter = Frontmatter(
    title: string, description: string, locale: string, slug: string,
    publishedAt: string, tags: seq<string>, canonicalLocale: Option<string>)

  datatype File = File(name: string, frontmatter: Frontmatter, content: string)

  datatype BlogPost = BlogPost(frontmatter: Frontmatter, content: string, readingTime: nat)

  /** Directory path (segments) to its files; a missing key does not exist. */
  type Fs = map<seq<string>, seq<File>>

  // ---------------------------------------------------------------- reading time

  /** Number of whitespace runs in `t`, counted at their last character. */
  function Runs(t: string): nat
    decreases |t|
  {
    if |t| == 0 then 0
    else if IsJsSpace(t[0]) && (|t| == 1 || !IsJsSpace(t[1])) then 1 + Runs(t[1..])
    else Runs(t[1..])
  }

  /** `text.trim().split(/\s+/).length`: one more than the whitespace runs
      inside the trimmed text (so an empty text counts one word). */
  function WordCount(text: string): (n: nat)
    ensures n >= 1
  {
    1 + Runs(Trim(text))
  }

  /** `estimateReadingTime`: whole minutes, rounded up, at least one. */
  function EstimateReadingTime(text: string): (r: nat)
    ensures r >= 1
    ensures (r - 1) * WordsPerMinute < WordCount(text) <= r * WordsPerMinute
  {
    var words := WordCount(text);
    var r := Max(1, (words + WordsPerMinute - 1) / WordsPerMinute);
    r
  }

  /** `Math.max`. */
  function Max(a: int, b: int): (m: int)
    ensures m >= a && m >= b && (m == a || m == b)
  {
    if a >= b then a else b
  }

  predicate NoSpace(w: string) {
    forall i | 0 <= i < |w| :: !IsJsSpace(w[i])
  }

  lemma {:induction false} RunsAfterWord(a: string, b: string)
    requires NoSpace(a) && |a| > 0
    ensures Runs(a + b) == Runs(b)
    decreases |a|
  {
    assert (a + b)[1..] == a[1..] + b;
    if |a| > 1 {
      RunsAfterWord(a[1..], b);
    } else {
      assert a[1..] + b == b;
    }
  }

  /** Words separated by single spaces are counted one each. */
  lemma {:induction false} WordCountOfSentence(words: seq<string>)
    requires |words| >= 1
    requires forall k | 0 <= k < |words| :: |words[k]| > 0 && NoSpace(words[k])
    ensures WordCount(Join(words, ' ')) == |words|
  {
    JoinIsTrimmed(words);
    TrimmedFixpoint(Join(words, ' '));
    RunsOfSentence(words);
  }

  lemma {:induction false} JoinStarts(words: seq<string>)
    requires |words| >= 1 && |words[0]| > 0
    ensures |Join(words, ' ')| > 0 && Join(words, ' ')[0] == words[0][0]
  {
    if |words| > 1 {
      assert Join(words, ' ') == words[0] + [' '] + Join(words[1..], ' ');
    }
  }

  lemma {:induction false} JoinIsTrimmed(words: seq<string>)
    requires |words| >= 1
    requires forall k | 0 <= k < |words| :: |words[k]| > 0 && NoSpace(words[k])
    ensures IsTrimmed(Join(words, ' '))
    decreases |words|
  {
    var s := Join(words, ' ');
    JoinStarts(words);
    if |words| > 1 {
      var tail := Join(words[1..], ' ');
      assert s == words[0] + [' '] + tail;
      JoinIsTrimmed(words[1..]);
      JoinStarts(words[1..]);
      assert s[|s| - 1] == tail[|tail| - 1];
    }
  }

  lemma {:induction false} RunsOfSentence(words: seq<string>)
    requires |words| >= 1
    requires forall k | 0 <= k < |words| :: |words[k]| > 0 && NoSpace(words[k])
    ensures Runs(Join(words, ' ')) == |words| - 1
    decreases |words|
  {
    if |words| == 1 {
      RunsAfterWord(words[0], "");
      assert words[0] + "" == words[0];
    } else {
      var tail := Join(words[1..], ' ');
      assert Join(words, ' ') == words[0] + ([' '] + tail);
      RunsAfterWord(words[0], [' '] + tail);
      JoinStarts(words[1..]);
      assert ([' '] + tail)[1..] == tail;
      RunsOfSentence(words[1..]);
    }
  }

  // ---------------------------------------------------------------- locale directory

  /** `path.join` of a normalised directory with a relative path: `.` and
      empty segments vanish, `..` climbs (never above the root). */
  function Climb(dir: seq<string>, parts: seq<string>): (r: seq<string>)
    decreases |parts|
  {
    if |parts| == 0 then dir
    else if parts[0] == "" || parts[0] == "." then Climb(dir, parts[1..])
    else if parts[0] == ".." then Climb(if |dir| > 0 then dir[..|dir| - 1] else dir, parts[1..])
    else Climb(dir + [parts[0]], parts[1..])
  }

  function Resolve(contentDir: seq<string>, locale: string): seq<string> {
    Climb(contentDir, Split(locale, '/'))
  }

  predicate IsPrefix(a: seq<string>, b: seq<string>) {
    |a| <= |b| && b[..|a|] == a
  }

  /** `safeLocaleDir`: the resolved directory when it is the content
      directory or inside it; the string test `startsWith(dir + sep)` is
      the segment-prefix test on normalised paths. */
  function SafeLocaleDir(contentDir: seq<string>, locale: string): (r: Option<seq<string>>)
    ensures r.Some? ==> IsPrefix(contentDir, r.value)
    ensures r.Some? ==> r.value == Resolve(contentDir, locale)
    ensures r.None? ==> !IsPrefix(contentDir, Resolve(contentDir, locale))
  {
    var resolved := Resolve(contentDir, locale);
    if IsPrefix(contentDir, resolved) then Some(resolved) else None
  }

  /** A plain directory name is accepted as the directory below. */
  lemma PlainLocaleAccepted(contentDir: seq<string>, locale: string)
    requires locale != "" && locale != "." && locale != ".." && '/' !in locale
    ensures SafeLocaleDir(contentDir, locale) == Some(contentDir + [locale])
  {
    assert CharIndex(locale, '/') == |locale|;
    assert Split(locale, '/') == [locale];
    assert [locale][1..] == [];
    assert Climb(contentDir, [locale]) == Climb(contentDir + [locale], []);
    assert (contentDir + [locale])[..|contentDir|] == contentDir;
  }

  /** Climbing out of the content directory is refused. */
  lemma ParentRejected(contentDir: seq<string>, rest: string)
    requires |contentDir| > 0
    requires forall k | 0 <= k < |Split(rest, '/')| :: Split(rest, '/')[k] in {"", ".", ".."}
    ensures SafeLocaleDir(contentDir, "../" + rest) == None
  {
    var up := contentDir[..|contentDir| - 1];
    var s := "../" + rest;
    assert s[0] == '.' && s[1] == '.' && s[2] == '/';
    assert CharIndex(s, '/') == 2;
    assert s[..2] == ".." && s[3..] == rest;
    assert Split(s, '/') == [".."] + Split(rest, '/');
    assert ([".."] + Split(rest, '/'))[1..] == Split(rest, '/');
    ClimbNeverDescends(up, Split(rest, '/'));
  }

  /** Only `.`, `..` and empty segments: the result is an ancestor. */
  lemma {:induction false} ClimbNeverDescends(dir: seq<string>, parts: seq<string>)
    requires forall k | 0 <= k < |parts| :: parts[k] in {"", ".", ".."}
    ensures |Climb(dir, parts)| <= |dir|
    decreases |parts|
  {
    if |parts| > 0 {
      ClimbNeverDescends(if parts[0] == ".." && |dir| > 0 then dir[..|dir| - 1] else dir, parts[1..]);
    }
  }

  // ---------------------------------------------------------------- posts

  predicate IsMdx(f: File) {
    EndsWith(f.name, ".mdx")
  }

  function PostOf(f: File): BlogPost {
    BlogPost(f.frontmatter, f.content, EstimateReadingTime(f.content))
  }

  /** The `.mdx` files of a locale directory, or none when the locale is
      refused or the directory is missing. */
  function MdxFiles(fs: Fs, contentDir: seq<string>, locale: string): (r: seq<File>)
    ensures forall f | f in r :: IsMdx(f)
    ensures SafeLocaleDir(contentDir, locale).None? ==> r == []
  {
    var dir := SafeLocaleDir(contentDir, locale);
    if dir.None? || dir.value !in fs then [] else Filter(fs[dir.value], IsMdx)
  }

  /** `getBlogPost`: the first `.mdx` file of the locale whose slug
      matches. */
  function GetBlogPost(fs: Fs, contentDir: seq<string>, locale: string, slug: string): (r: Option<BlogPost>)
    ensures r.Some? ==> r.value.frontmatter.slug == slug && r.value.readingTime >= 1
    ensures r.None? <==> forall f | f in MdxFiles(fs, contentDir, locale) :: f.frontmatter.slug != slug
    ensures r.Some? ==> exists f | f in MdxFiles(fs, contentDir, locale) :: r.value == PostOf(f)
  {
    var files := MdxFiles(fs, contentDir, locale);
    var k := FindIndex(files, (f: File) => f.frontmatter.slug == slug);
    if k < |files| then Some(PostOf(files[k])) else None
  }

  /** The lookup returns the first match, not just some match. */
  lemma GetBlogPostFirst(fs: Fs, contentDir: seq<string>, locale: string, slug: string, i: nat)
    requires i < |MdxFiles(fs, contentDir, locale)|
    requires MdxFiles(fs, contentDir, locale)[i].frontmatter.slug == slug
    requires forall j | 0 <= j < i :: MdxFiles(fs, contentDir, locale)[j].frontmatter.slug != slug
    ensures GetBlogPost(fs, contentDir, locale, slug) == Some(PostOf(MdxFiles(fs, contentDir, locale)[i]))
  {
    var files := MdxFiles(fs, contentDir, locale);
    var k := FindIndex(files, (f: File) => f.frontmatter.slug == slug);
    assert k == i;
  }

  /** Newest first by the publication time `timeOf` gives each date. */
  function NewestFirst(timeOf: string -> int): (BlogPost, BlogPost) -> bool {
    (a: BlogPost, b: BlogPost) => timeOf(a.frontmatter.publishedAt) >= timeOf(b.frontmatter.publishedAt)
  }

  /** The post read from each file, in directory order. */
  function PostsOf(files: seq<File>): seq<BlogPost> {
    seq(|files|, i requires 0 <= i < |files| => PostOf(files[i]))
  }

  /** `getAllBlogPosts`: every `.mdx` post of the locale, newest first; the
      stable sort keeps directory order among equal dates. */
  function GetAllBlogPosts(fs: Fs, contentDir: seq<string>, locale: string, timeOf: string -> int): (r: seq<BlogPost>)
    ensures multiset(r) == multiset(PostsOf(MdxFiles(fs, contentDir, locale)))
    ensures forall i, j | 0 <= i < j < |r| ::
      timeOf(r[i].frontmatter.publishedAt) >= timeOf(r[j].frontmatter.publishedAt)
  {
    var posts := PostsOf(MdxFiles(fs, contentDir, locale));
    NewestFirstIsPreorder(timeOf);
    var r := Sorting.Sort(posts, NewestFirst(timeOf));
    SortedNewestFirst(r, timeOf);
    r
  }

  lemma NewestFirstIsPreorder(timeOf: string -> int)
    ensures Sorting.TotalPreorder(NewestFirst(timeOf))
  {
  }

  lemma SortedNewestFirst(r: seq<BlogPost>, timeOf: string -> int)
    requires Sorting.SortedBy(r, NewestFirst(timeOf))
    ensures forall i, j | 0 <= i < j < |r| :: timeOf(r[i].frontmatter.publishedAt) >= timeOf(r[j].frontmatter.publishedAt)
  {
    forall i, j | 0 <= i < j < |r| ensures timeOf(r[i].frontmatter.publishedAt) >= timeOf(r[j].frontmatter.publishedAt) {
      assert NewestFirst(timeOf)(r[i], r[j]);
    }
  }

  // ---------------------------------------------------------------- alternates

  datatype Alternate = Alternate(locale: string, slug: string)

  /** `canonicalLocale || locale`. */
  function Canonical(fm: Frontmatter): string {
    if fm.canonicalLocale.Some? && fm.canonicalLocale.value != "" then fm.canonicalLocale.value else fm.locale
  }

  /** Some file matches the post. */
  predicate HasMatch(files: seq<File>, fm: Frontmatter, matches: (Frontmatter, Frontmatter) -> bool) {
    exists f | f in files :: matches(fm, f.frontmatter)
  }

  /** Some file with slug `slug` matches the post. */
  predicate MatchWithSlug(files: seq<File>, fm: Frontmatter, matches: (Frontmatter, Frontmatter) -> bool, slug: string) {
    exists f | f in files :: matches(fm, f.frontmatter) && f.frontmatter.slug == slug
  }

  /** The alternate a locale contributes: the first `.mdx` file there that
      matches the post, unless it is the post's own locale. */
  function AlternateIn(fs: Fs, contentDir: seq<string>, post: BlogPost, loc: string,
                       matches: (Frontmatter, Frontmatter) -> bool): (r: Option<Alternate>)
    ensures r.Some? <==> loc != post.frontmatter.locale && HasMatch(MdxFiles(fs, contentDir, loc), post.frontmatter, matches)
    ensures r.Some? ==> r.value.locale == loc && MatchWithSlug(MdxFiles(fs, contentDir, loc), post.frontmatter, matches, r.value.slug)
  {
    var files := MdxFiles(fs, contentDir, loc);
    var k := FindIndex(files, (f: File) => matches(post.frontmatter, f.frontmatter));
    if loc == post.frontmatter.locale || k == |files| then None
    else
      assert files[k] in files;
      Some(Alternate(loc, files[k].frontmatter.slug))
  }

  /** The loop of `getAlternateLocales` with the file test `matches`: at
      most one alternate per locale, in the order of `locales`. */
  function AlternatesBy(fs: Fs, contentDir: seq<string>, post: BlogPost, locales: seq<string>,
                        matches: (Frontmatter, Frontmatter) -> bool): (r: seq<Alternate>)
    ensures |r| <= |locales|
    ensures forall a | a in r :: a.locale in locales && AlternateIn(fs, contentDir, post, a.locale, matches) == Some(a)
    ensures forall l | l in locales && AlternateIn(fs, contentDir, post, l, matches).Some? ::
      AlternateIn(fs, contentDir, post, l, matches).value in r
    decreases |locales|
  {
    if |locales| == 0 then []
    else
      var rest := AlternatesBy(fs, contentDir, post, locales[1..], matches);
      var here := AlternateIn(fs, contentDir, post, locales[0], matches);
      assert forall l | l in locales[1..] :: l in locales;
      assert forall l | l in locales :: l == locales[0] || l in locales[1..];
      if here.None? then rest else [here.value] + rest
  }

  /** The locales that contribute an alternate. */
  function HasAlternate(fs: Fs, contentDir: seq<string>, post: BlogPost, matches: (Frontmatter, Frontmatter) -> bool): string -> bool {
    (l: string) => AlternateIn(fs, contentDir, post, l, matches).Some?
  }

  /** The locales of a list of alternates. */
  function LocalesOf(r: seq<Alternate>): (ls: seq<string>)
    ensures |ls| == |r| && forall i | 0 <= i < |r| :: ls[i] == r[i].locale
  {
    seq(|r|, i requires 0 <= i < |r| => r[i].locale)
  }

  /** Each locale contributes at most its own one alternate, in order. */
  lemma {:induction false} AlternatesLocales(fs: Fs, contentDir: seq<string>, post: BlogPost, locales: seq<string>,
                                             matches: (Frontmatter, Frontmatter) -> bool)
    ensures LocalesOf(AlternatesBy(fs, contentDir, post, locales, matches))
         == Filter(locales, HasAlternate(fs, contentDir, post, matches))
    decreases |locales|
  {
    if |locales| > 0 {
      var h := HasAlternate(fs, contentDir, post, matches);
      var tail := locales[1..];
      AlternatesLocales(fs, contentDir, post, tail, matches);
      var rest := AlternatesBy(fs, contentDir, post, tail, matches);
      var here := AlternateIn(fs, contentDir, post, locales[0], matches);
      assert h(locales[0]) == here.Some?;
      assert Filter(locales, h) == if h(locales[0]) then [locales[0]] + Filter(tail, h) else Filter(tail, h);
      if here.Some? {
        var r := [here.value] + rest;
        assert AlternatesBy(fs, contentDir, post, locales, matches) == r;
        LocalesOfCons(here.value, rest);
      } else {
        assert AlternatesBy(fs, contentDir, post, locales, matches) == rest;
      }
    }
  }

  lemma LocalesOfCons(a: Alternate, rest: seq<Alternate>)
    ensures LocalesOf([a] + rest) == [a.locale] + LocalesOf(rest)
  {
  }

  /** Distinct locales give alternates in distinct locales. */
  lemma AlternatesOnePerLocale(fs: Fs, contentDir: seq<string>, post: BlogPost, locales: seq<string>,
                               matches: (Frontmatter, Frontmatter) -> bool)
    requires Distinct(locales)
    ensures Distinct(LocalesOf(AlternatesBy(fs, contentDir, post, locales, matches)))
  {
    AlternatesLocales(fs, contentDir, post, locales, matches);
    FilterDistinct(locales, HasAlternate(fs, contentDir, post, matches));
  }

  /** The test as written: same canonical locale. */
  function SameCanonical(): (Frontmatter, Frontmatter) -> bool {
    (a: Frontmatter, b: Frontmatter) => Canonical(a) == Canonical(b)
  }

  /** The test as intended: the same article, that is the same canonical
      locale and the same slug (the sitemap's notion of a translation). */
  function SameArticle(): (Frontmatter, Frontmatter) -> bool {
    (a: Frontmatter, b: Frontmatter) => Canonical(a) == Canonical(b) && a.slug == b.slug
  }

  /** `getAlternateLocales` as written: each alternate names a file of
      another locale that shares only the post's canonical locale. */
  function GetAlternateLocalesAsWritten(fs: Fs, contentDir: seq<string>, post: BlogPost, locales: seq<string>): (r: seq<Alternate>)
    ensures forall a | a in r ::
      && a.locale in locales && a.locale != post.frontmatter.locale
      && MatchWithSlug(MdxFiles(fs, contentDir, a.locale), post.frontmatter, SameCanonical(), a.slug)
    ensures forall l | l in locales && l != post.frontmatter.locale
                       && HasMatch(MdxFiles(fs, contentDir, l), post.frontmatter, SameCanonical()) ::
      exists a | a in r :: a.locale == l
  {
    var r := AlternatesBy(fs, contentDir, post, locales, SameCanonical());
    forall l | l in locales && l != post.frontmatter.locale
               && HasMatch(MdxFiles(fs, contentDir, l), post.frontmatter, SameCanonical())
      ensures exists a | a in r :: a.locale == l
    {
      var a := AlternateIn(fs, contentDir, post, l, SameCanonical()).value;
      assert a in r;
    }
    r
  }

  /** `getAlternateLocales` corrected: every alternate is the same article
      in another locale. */
  function GetAlternateLocales(fs: Fs, contentDir: seq<string>, post: BlogPost, locales: seq<string>): (r: seq<Alternate>)
    ensures forall a | a in r :: a.slug == post.frontmatter.slug && a.locale != post.frontmatter.locale
  {
    var r := AlternatesBy(fs, contentDir, post, locales, SameArticle());
    assert forall a | a in r :: a.slug == post.frontmatter.slug by {
      forall a | a in r ensures a.slug == post.frontmatter.slug {
        assert MatchWithSlug(MdxFiles(fs, contentDir, a.locale), post.frontmatter, SameArticle(), a.slug);
        var f :| f in MdxFiles(fs, contentDir, a.locale) && SameArticle()(post.frontmatter, f.frontmatter)
          && f.frontmatter.slug == a.slug;
      }
    }
    r
  }

  function SampleFm(locale: string, slug: string, canonical: Option<string>): Frontmatter {
    Frontmatter("", "", locale, slug, "", [], canonical)
  }

  /** Two English-first articles translated to Turkish: the page of the
      second links the Turkish version of the first. */
  lemma AsWrittenLinksWrongArticle()
    ensures var fs: Fs := map[["blog", "tr"] := [File("a.mdx", SampleFm("tr", "a", Some("en")), ""),
                                                  File("b.mdx", SampleFm("tr", "b", Some("en")), "")]];
            var post := BlogPost(SampleFm("en", "b", None), "", 1);
            && GetAlternateLocalesAsWritten(fs, ["blog"], post, ["tr"]) == [Alternate("tr", "a")]
            && GetAlternateLocales(fs, ["blog"], post, ["tr"]) == [Alternate("tr", "b")]
  {
    var fa := File("a.mdx", SampleFm("tr", "a", Some("en")), "");
    var fb := File("b.mdx", SampleFm("tr", "b", Some("en")), "");
    var fs: Fs := map[["blog", "tr"] := [fa, fb]];
    var post := BlogPost(SampleFm("en", "b", None), "", 1);
    SampleAlternates(fa, fb, post);
    AlternatesOfOneLocale(fs, ["blog"], post, "tr", SameCanonical());
    AlternatesOfOneLocale(fs, ["blog"], post, "tr", SameArticle());
  }

  /** With one locale, the loop yields that locale's alternate if any. */
  lemma AlternatesOfOneLocale(fs: Fs, contentDir: seq<string>, post: BlogPost, loc: string,
                              matches: (Frontmatter, Frontmatter) -> bool)
    ensures AlternateIn(fs, contentDir, post, loc, matches).Some? ==>
      AlternatesBy(fs, contentDir, post, [loc], matches) == [AlternateIn(fs, contentDir, post, loc, matches).value]
  {
    assert [loc][1..] == [];
  }

  /** In the sample, the first Turkish file shares the post's canonical
      locale, and only the second is the same article. */
  lemma SampleAlternates(fa: File, fb: File, post: BlogPost)
    requires fa == File("a.mdx", SampleFm("tr", "a", Some("en")), "")
    requires fb == File("b.mdx", SampleFm("tr", "b", Some("en")), "")
    requires post == BlogPost(SampleFm("en", "b", None), "", 1)
    ensures AlternateIn(map[["blog", "tr"] := [fa, fb]], ["blog"], post, "tr", SameCanonical()) == Some(Alternate("tr", "a"))
    ensures AlternateIn(map[["blog", "tr"] := [fa, fb]], ["blog"], post, "tr", SameArticle()) == Some(Alternate("tr", "b"))
  {
    SampleMdxFiles(fa, fb);
    var files := [fa, fb];
    assert files[1..] == [fb];
    assert Canonical(post.frontmatter) == "en";
    assert Canonical(fa.frontmatter) == "en" && Canonical(fb.frontmatter) == "en";
    assert fa.frontmatter.slug != post.frontmatter.slug;
  }

  lemma SampleMdxFiles(fa: File, fb: File)
    requires fa == File("a.mdx", SampleFm("tr", "a", Some("en")), "")
    requires fb == File("b.mdx", SampleFm("tr", "b", Some("en")), "")
    ensures MdxFiles(map[["blog", "tr"] := [fa, fb]], ["blog"], "tr") == [fa, fb]
  {
    PlainLocaleAccepted(["blog"], "tr");
    assert ["blog"] + ["tr"] == ["blog", "tr"];
    assert "a.mdx"[1..] == ".mdx" && "b.mdx"[1..] == ".mdx";
    assert IsMdx(fa) && IsMdx(fb);
    assert [fa, fb][1..] == [fb];
    assert [fb][1..] == [];
  }
}
