/** The attribute derivations of the `Image` component in
    `src/Image/Image.js`: the file-name helper `ext`, the `type` and filter of
    each `<source>`, and the three custom prop validators. */
module ImageComponent {
  import opened Wrappers
  import opened Strings
  import opened ImageData
  import opened Utils

  // ---------------------------------------------------------------------------
  // ext
  // ---------------------------------------------------------------------------

  /** The text after the last `/` of a URL (all of it when there is no `/`). */
  function FileName(url: string): (r: string)
    ensures '/' !in r
    ensures EndsWith(url, r)
    ensures '/' !in url ==> r == url
    ensures '/' in url ==> |r| < |url| && url[|url| - |r| - 1] == '/'
  {
    url[LastIndexOf(url, '/') + 1..]
  }

  /** `ext(url)`: drop everything up to the last `/` of the whole URL, then
      cut at the first `?`, then at the first `#`. When the query and fragment
      hold no `/`, the result is the whole file name (`foo-600.jpg`), not just
      its extension; a `/` in the query moves the cut past it. */
  function Ext(url: string): (r: string)
    ensures '/' !in r && '?' !in r && '#' !in r
    ensures r <= FileName(url)
    ensures |r| < |FileName(url)| ==> FileName(url)[|r|] == '?' || FileName(url)[|r|] == '#'
  {
    var name := url[1 + LastIndexOf(url, '/')..];
    SplitHead(name, '?');
    var beforeQuery := Split(name, '?')[0];
    SplitHead(beforeQuery, '#');
    Split(beforeQuery, '#')[0]
  }

  /** `ext` leaves a string without `/`, `?` and `#` unchanged. */
  lemma ExtIdentity(url: string)
    requires '/' !in url && '?' !in url && '#' !in url
    ensures Ext(url) == url
  {
    SplitHead(url, '?');
    SplitHead(url, '#');
  }

  /** `ext` is idempotent. */
  lemma ExtIdempotent(url: string)
    ensures Ext(Ext(url)) == Ext(url)
  {
    ExtIdentity(Ext(url));
  }

  /** For a URL `<dir>/<name>?<query>`, `ext` gives the whole `name`,
      extension included. */
  lemma ExtKeepsWholeFileName(dir: string, name: string, query: string)
    requires '/' !in name && '?' !in name && '#' !in name && '/' !in query
    ensures Ext(dir + "/" + name + "?" + query) == name
  {
    var url := dir + "/" + name + "?" + query;
    LastIndexOfBefore(dir, '/', name + "?" + query);
    assert url == dir + ['/'] + (name + "?" + query);
    assert url[|dir| + 1..] == name + "?" + query;
    SplitFirstPiece(name, '?', query);
    assert name + "?" + query == name + ['?'] + query;
    SplitHead(name, '#');
  }

  /** The cut is at the last `/` of the whole URL, even inside a query:
      whatever follows that `/` is the result when it holds no `?` or `#`
      (`d/a.jpg?u=/b` gives `b`). */
  lemma ExtAfterLastSlash(url: string, tail: string)
    requires '/' !in tail && '?' !in tail && '#' !in tail
    ensures Ext(url + "/" + tail) == tail
  {
    LastIndexOfBefore(url, '/', tail);
    assert url + "/" + tail == url + ['/'] + tail;
    assert FileName(url + "/" + tail) == tail;
    ExtIdentity(tail);
  }

  // ---------------------------------------------------------------------------
  // The two <source> elements
  // ---------------------------------------------------------------------------

  /** `s.replace(/pattern$/, replacement)` for a literal `pattern`. */
  function ReplaceTrailing(s: string, pattern: string, replacement: string): (r: string)
    ensures EndsWith(s, pattern) ==>
              EndsWith(r, replacement) && r[..|r| - |replacement|] == s[..|s| - |pattern|]
    ensures !EndsWith(s, pattern) ==> r == s
  {
    if EndsWith(s, pattern) then s[..|s| - |pattern|] + replacement else s
  }

  /** The `type` of the non-webp `<source>` for a file name `name`:
      `"image/" + name` with a trailing `jpg` rewritten to `jpeg`. */
  function SourceType(name: string): (r: string)
    ensures "image/" <= r
    ensures !EndsWith(r, "jpg")
    ensures EndsWith(name, "jpg") ==> r == "image/" + name[..|name| - 3] + "jpeg"
    ensures !EndsWith(name, "jpg") ==> r == "image/" + name
  {
    var t := "image/" + name;
    assert EndsWith(t, "jpg") <==> EndsWith(name, "jpg") by {
      if |name| >= 3 {
        assert t[|t| - 3..] == name[|name| - 3..];
      } else {
        assert t[5] == '/';
      }
    }
    var r := ReplaceTrailing(t, "jpg", "jpeg");
    assert EndsWith(t, "jpg") ==> r[|r| - 3] == 'p';
    r
  }

  /** What follows `image/` keeps the file name's freedom from `/`, `?` and `#`. */
  lemma SubtypeHasNoDelimiter(name: string)
    requires '/' !in name && '?' !in name && '#' !in name
    ensures var r := SourceType(name); '/' !in r[6..] && '?' !in r[6..] && '#' !in r[6..]
  {
    var r := SourceType(name);
    if EndsWith(name, "jpg") {
      var stem := name[..|name| - 3];
      assert r[6..] == stem + "jpeg";
      assert forall k :: 0 <= k < |stem| ==> stem[k] == name[k];
    } else {
      assert r[6..] == name;
    }
  }

  /** The `type` attribute of the non-webp `<source>` for the image `src`. */
  function NonWebpType(src: string): (r: string)
    ensures var e := Ext(src); !EndsWith(e, "jpg") ==> r == "image/" + e
    ensures var e := Ext(src); EndsWith(e, "jpg") ==> r == "image/" + e[..|e| - 3] + "jpeg"
    ensures "image/" <= r && !EndsWith(r, "jpg")
    ensures '/' !in r[6..] && '?' !in r[6..] && '#' !in r[6..]
  {
    SubtypeHasNoDelimiter(Ext(src));
    SourceType(Ext(src))
  }

  /** The `regexes` table of the component, keyed by the result of `ext`. */
  const Regexes: map<string, Filter> :=
    map["jpg" := Filter(["jpg"]), "webp" := WebpFilter, "gif" := Filter(["gif"]), "png" := Filter(["png"])]

  /** `regexes[name]`; `None` is `undefined`. */
  function RegexFor(name: string): (r: Option<Filter>)
    ensures r.Some? <==> name == "jpg" || name == "webp" || name == "gif" || name == "png"
    ensures r.Some? ==> r.value == Filter([name])
  {
    if name in Regexes then Some(Regexes[name]) else None
  }

  /** The attributes the component renders. */
  datatype Source = Source(mimeType: string, srcSet: SrcSet)
  datatype Picture = Picture(webp: Source, other: Source, src: string, alt: string)

  /** The `srcset` both `<source>` elements get when there is no image:
      `fallbackSrcSet`, or `null`. */
  function FallbackSet(p: Props): SrcSet {
    if Truthy(p.fallbackSrcSet) then Text(p.fallbackSrcSet.value) else Null
  }

  /** Without an image, every `getSrcSet` call gives the fallback srcset and
      the alt text is `alt` or `''`. */
  lemma WithoutImage(p: Props, filter: Option<Filter>)
    ensures p.image.None? ==> GetSrcSet(Some(p), filter) == Returns(FallbackSet(p))
    ensures p.image.None? ==> GetAlt(p) == if Truthy(p.alt) then p.alt.value else ""
  {
  }

  /** The attribute values of the `Image` component's markup. Rendering fails
      exactly when `getSrc` throws or the guarded group lookup dereferences
      `null`, which does not depend on the filter. */
  function PictureAttributes(p: Props): (r: Outcome<Picture>)
    ensures r.Throws? <==> GetSrc(p).Throws? || GetSrcSet(Some(p), None).Throws?
    ensures MustProvideOne(p).Some? ==> r.Throws?
    ensures p.image.None? && Truthy(p.fallbackSrc) ==>
              r == Returns(Picture(Source("image/webp", FallbackSet(p)),
                                   Source(SourceType(Ext(p.fallbackSrc.value)), FallbackSet(p)),
                                   p.fallbackSrc.value,
                                   if Truthy(p.alt) then p.alt.value else ""))
    ensures r.Returns? ==> GetSrc(p) == Returns(r.value.src) && r.value.other.mimeType == SourceType(Ext(r.value.src))
    ensures r.Returns? ==>
              && GetSrcSet(Some(p), Some(WebpFilter)) == Returns(r.value.webp.srcSet)
              && GetSrcSet(Some(p), RegexFor(Ext(r.value.src))) == Returns(r.value.other.srcSet)
    ensures r.Returns? ==>
              && r.value.webp.mimeType == "image/webp"
              && "image/" <= r.value.other.mimeType && !EndsWith(r.value.other.mimeType, "jpg")
              && r.value.alt == Or(p.alt, Caption(p)).GetOr("")
    ensures r.Returns? && p.image.Some? && p.image.value.preferredAspectRatio.Some? && RegexFor(Ext(r.value.src)).None? ==>
              var insts := p.image.value.preferredAspectRatio.value.instances;
              && r.value.webp.srcSet == Text(GenerateSrcSet(insts, WebpFilter))
              && r.value.other.srcSet == Text(GenerateSrcSet(insts, JpegFilter))
    ensures r.Returns? && p.image.Some? && p.image.value.preferredAspectRatio.None? && NamedGroup(p).Use?
            && RegexFor(Ext(r.value.src)).None? ==>
              var insts := NamedGroup(p).group.instances;
              && r.value.webp.srcSet == Text(GenerateSrcSet(insts, WebpFilter))
              && r.value.other.srcSet == Text(GenerateSrcSet(insts, JpegFilter))
    ensures r.Returns? && p.image.Some? && p.image.value.preferredAspectRatio.None? && NamedGroup(p).Skip? ==>
              r.value.webp.srcSet == r.value.other.srcSet
  {
    var src :- GetSrc(p);
    var webpSet :- GetSrcSet(Some(p), Some(WebpFilter));
    GetSrcSetThrows(p, Some(WebpFilter));
    GetSrcSetThrows(p, RegexFor(Ext(src)));
    var otherSet := GetSrcSet(Some(p), RegexFor(Ext(src))).value;
    GetAltIsOrChain(p);
    WithoutImage(p, RegexFor(Ext(src)));
    Returns(Picture(Source("image/webp", webpSet), Source(NonWebpType(src), otherSet), src, GetAlt(p)))
  }

  /** With a preferred group, the webp `srcset` and the default `/jpe?g$/`
      one (which the non-webp `<source>` gets whenever the file name of `src`
      is not a key of the table, see `PictureAttributes`) are built from
      disjoint sets of that group's instances: no candidate is offered as both. */
  lemma PictureSourcesDisjoint(p: Props)
    requires p.image.Some? && p.image.value.preferredAspectRatio.Some?
    ensures var insts := p.image.value.preferredAspectRatio.value.instances;
            && GetSrcSet(Some(p), Some(WebpFilter)) == Returns(Text(Join(Entries(Matching(insts, WebpFilter)), ",")))
            && GetSrcSet(Some(p), None) == Returns(Text(Join(Entries(Matching(insts, JpegFilter)), ",")))
            && forall x :: x in Matching(insts, WebpFilter) ==> x !in Matching(insts, JpegFilter)
  {
    WebpAndJpegDisjoint(p.image.value.preferredAspectRatio.value.instances);
  }

  /** Unless the file name of `src` is exactly `jpg`, `webp`, `gif` or `png`,
      the non-webp `<source>` (whose filter is `regexes[ext(src)]`, see
      `PictureAttributes`) gets the same `srcset` as with the default `/jpe?g$/`. */
  lemma OtherSourceUsesDefaultFilter(p: Props, src: string)
    requires var e := Ext(src); e != "jpg" && e != "webp" && e != "gif" && e != "png"
    ensures GetSrcSet(Some(p), RegexFor(Ext(src))) == GetSrcSet(Some(p), Some(JpegFilter))
  {
    assert RegexFor(Ext(src)) == None;
    DefaultFilterIsJpeg(Some(p));
  }

  lemma FooJpg()
    ensures SourceType("foo.jpg") == "image/foo.jpeg"
    ensures RegexFor("foo.jpg") == None
  {
    var e := "foo.jpg";
    assert EndsWith(e, "jpg");
    assert e[..|e| - 3] == "foo.";
  }

  /** With an ordinary image URL `<dir>/foo.jpg?<query>`, the type is
      `image/foo.jpeg` and the non-webp filter is the default one. */
  lemma OrdinaryFileName(dir: string, query: string)
    requires '/' !in query
    ensures NonWebpType(dir + "/" + "foo.jpg" + "?" + query) == "image/foo.jpeg"
    ensures RegexFor(Ext(dir + "/" + "foo.jpg" + "?" + query)) == None
  {
    ExtKeepsWholeFileName(dir, "foo.jpg", query);
    FooJpg();
  }

  // ---------------------------------------------------------------------------
  // Custom prop validators
  // ---------------------------------------------------------------------------

  /** `mustProvideOne`: an image or a truthy `fallbackSrc` is needed; without
      both, `getSrc` has nothing to return. */
  function MustProvideOne(p: Props): (r: Option<string>)
    ensures r.Some? <==> p.image.None? && !Truthy(p.fallbackSrc)
    ensures r.Some? ==> GetSrc(p).Throws?
    ensures r.None? && p.image.None? ==> GetSrc(p) == Returns(p.fallbackSrc.value)
  {
    if p.image.None? && !Truthy(p.fallbackSrc) then
      Some("Please provide either a properly formatted image JSON object or an image src")
    else None
  }

  /** `mustProvideAlt`: without an image, `alt` must be given; the empty
      string counts as given, and is then the alt text. */
  function MustProvideAlt(p: Props): (r: Option<string>)
    ensures r.Some? <==> p.image.None? && p.alt.None?
    ensures r.None? && p.image.None? ==> GetAlt(p) == p.alt.value
  {
    if p.image.None? && !Truthy(p.alt) && p.alt != Some("") then
      Some("Please provide either a properly formatted image JSON object or an image alt")
    else None
  }

  /** `mustProvideSrcWithSrcset`: a `fallbackSrcSet` without an image needs a
      `fallbackSrc`; otherwise a `srcset` would be rendered with no `src`. */
  function MustProvideSrcWithSrcset(p: Props): (r: Option<string>)
    ensures r.Some? <==> p.image.None? && !Truthy(p.fallbackSrc) && Truthy(p.fallbackSrcSet)
    ensures r.Some? ==> GetSrc(p).Throws? && GetSrcSet(Some(p), None) == Returns(Text(p.fallbackSrcSet.value))
  {
    if p.image.None? && !Truthy(p.fallbackSrc) && Truthy(p.fallbackSrcSet) then
      Some("You cannot provide a fallbackSrcSet without providing a fallbackSrc")
    else None
  }

  /** Whenever `mustProvideSrcWithSrcset` fails, `mustProvideOne` fails too. */
  lemma SrcsetErrorImpliesMissingSource(p: Props)
    ensures MustProvideSrcWithSrcset(p).Some? ==> MustProvideOne(p).Some?
  {
  }
}
