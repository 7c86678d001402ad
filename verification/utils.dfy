/** The attribute helpers of `src/utils/utils.js`: which aspect-ratio group
    to use, the `srcset` string, the `src` and `alt` fallback chains. */
module Utils {
  import opened Wrappers
  import opened Strings
  import opened ImageData

  // ---------------------------------------------------------------------------
  // determineAspectRatio
  // ---------------------------------------------------------------------------

  /** What `determineAspectRatio` returns: an aspect-ratio key, or `false`. */
  datatype Choice = Key(name: string) | NoKey

  /** The returned choice, and whether `console.warn` was called on the way. */
  datatype Determination = Determination(choice: Choice, warned: bool)

  /** The property name a choice reads with `in` or `[]`: `false` is converted to `"false"`. */
  function ChoiceName(c: Choice): string {
    match c
    case Key(n) => n
    case NoKey => "false"
  }

  /** `determineAspectRatio(props)`. It reads `props.image.preferredAspectRatio`
      before testing `props.image`, so it throws when there is neither a truthy
      `aspectRatio` nor an image. */
  function DetermineAspectRatio(p: Props): (r: Outcome<Determination>)
    ensures r.Throws? <==> !Truthy(p.aspectRatio) && p.image.None?
    ensures Truthy(p.aspectRatio) ==> r == Returns(Determination(Key(p.aspectRatio.value), false))
    ensures r.Returns? && r.value.choice.Key? ==> r.value.choice.name != ""
    ensures r.Returns? && r.value.choice.NoKey? <==>
              !Truthy(p.aspectRatio) && p.image.Some? && p.image.value.preferredAspectRatio.Some?
    ensures r.Returns? && r.value.warned <==>
              && !Truthy(p.aspectRatio) && p.image.Some?
              && p.image.value.preferredAspectRatio.None? && !Truthy(p.image.value.preferredSlug)
    ensures r.Returns? && r.value.warned ==> r.value.choice == Key("uncropped")
  {
    if Truthy(p.aspectRatio) then Returns(Determination(Key(p.aspectRatio.value), false))
    else if p.image.None? then Throws
    else if p.image.value.preferredAspectRatio.Some? then Returns(Determination(NoKey, false))
    else if Truthy(p.image.value.preferredSlug) then Returns(Determination(Key(p.image.value.preferredSlug.value), false))
    else Returns(Determination(Key("uncropped"), true))
  }

  /** With a slug and nothing preferred, the slug is chosen; otherwise the
      warning leads to `'uncropped'`. */
  lemma DetermineWithoutAspectRatio(p: Props)
    requires !Truthy(p.aspectRatio) && p.image.Some? && p.image.value.preferredAspectRatio.None?
    ensures Truthy(p.image.value.preferredSlug) ==>
              DetermineAspectRatio(p) == Returns(Determination(Key(p.image.value.preferredSlug.value), false))
    ensures !Truthy(p.image.value.preferredSlug) ==>
              DetermineAspectRatio(p) == Returns(Determination(Key("uncropped"), true))
  {
  }

  // ---------------------------------------------------------------------------
  // generateSrcSet
  // ---------------------------------------------------------------------------

  /** A regular expression `/(s1|s2|...)$/`: a URL matches when it ends with one of the suffixes. */
  datatype Filter = Filter(suffixes: seq<string>)

  predicate Matches(f: Filter, url: string) {
    exists i :: 0 <= i < |f.suffixes| && EndsWith(url, f.suffixes[i])
  }

  /** `/jpe?g$/`, the default filter of `generateSrcSet` and `getSrcSet`. */
  const JpegFilter := Filter(["jpg", "jpeg"])

  /** `/webp$/` */
  const WebpFilter := Filter(["webp"])

  /** The instances whose URL matches, in their original order. */
  function Matching(insts: seq<Instance>, f: Filter): (r: seq<Instance>)
    ensures |r| <= |insts|
    ensures forall i :: 0 <= i < |r| ==> Matches(f, r[i].url) && r[i] in insts
    ensures forall i :: 0 <= i < |insts| && Matches(f, insts[i].url) ==> insts[i] in r
  {
    if |insts| == 0 then []
    else (if Matches(f, insts[0].url) then [insts[0]] else []) + Matching(insts[1..], f)
  }

  /** One candidate of a `srcset`: `"<url> <width>w"`. */
  function SrcSetEntry(inst: Instance): string {
    inst.url + " " + IntToString(inst.width) + "w"
  }

  function Entries(insts: seq<Instance>): seq<string> {
    seq(|insts|, i requires 0 <= i < |insts| => SrcSetEntry(insts[i]))
  }

  /** `generateSrcSet(instances, typeRegex)`: map to the instance or `null`,
      drop the `null`s, format, join with `","`. */
  function GenerateSrcSet(insts: seq<Instance>, f: Filter): (r: string)
    ensures r == "" <==> forall i :: 0 <= i < |insts| ==> !Matches(f, insts[i].url)
  {
    var m := Matching(insts, f);
    if |m| > 0 then
      JoinNonEmpty(Entries(m), ",");
      assert m[0] in insts;
      Join(Entries(m), ",")
    else
      Join(Entries(m), ",")
  }

  /** Filtering keeps the order: it distributes over concatenation. */
  lemma {:induction false} MatchingAppend(a: seq<Instance>, b: seq<Instance>, f: Filter)
    ensures Matching(a + b, f) == Matching(a, f) + Matching(b, f)
  {
    if |a| > 0 {
      assert (a + b)[0] == a[0];
      assert (a + b)[1..] == a[1..] + b;
      MatchingAppend(a[1..], b, f);
    } else {
      assert a + b == b;
    }
  }

  lemma {:induction false} JoinNonEmpty(parts: seq<string>, sep: string)
    requires |parts| >= 1 && parts[0] != ""
    ensures Join(parts, sep) != "" && Join(parts, sep)[0] == parts[0][0]
  {
  }

  /** A candidate holds no comma when its URL holds none. */
  lemma EntryHasNoComma(inst: Instance)
    requires ',' !in inst.url
    ensures ',' !in SrcSetEntry(inst)
  {
    var w := IntToString(inst.width);
    assert ',' !in w by {
      forall k | 0 <= k < |w| ensures w[k] != ',' {
      }
    }
    assert SrcSetEntry(inst) == inst.url + " " + w + "w";
  }

  /** Reading the `srcset` back: splitting it at `","` gives exactly the
      `"<url> <width>w"` candidates of the matching instances, in order,
      provided the URLs themselves hold no comma. */
  lemma GenerateSrcSetSplits(insts: seq<Instance>, f: Filter)
    requires forall i :: 0 <= i < |insts| ==> ',' !in insts[i].url
    ensures Matching(insts, f) == [] ==> Split(GenerateSrcSet(insts, f), ',') == [""]
    ensures Matching(insts, f) != [] ==> Split(GenerateSrcSet(insts, f), ',') == Entries(Matching(insts, f))
  {
    var m := Matching(insts, f);
    var es := Entries(m);
    if |m| > 0 {
      forall k | 0 <= k < |es| ensures ',' !in es[k] {
        assert m[k] in insts;
        EntryHasNoComma(m[k]);
      }
      SplitJoin(es, ',');
    }
  }

  /** The default filter accepts a URL ending in `jpg` or `jpeg`, and a query
      string after the file name (one not ending in `g`) excludes it. */
  lemma JpegFilterSuffixes(url: string, query: string)
    requires query != "" && query[|query| - 1] != 'g'
    ensures Matches(JpegFilter, url) <==> EndsWith(url, "jpg") || EndsWith(url, "jpeg")
    ensures !Matches(JpegFilter, url + "?" + query)
  {
    if EndsWith(url, "jpg") {
      assert EndsWith(url, JpegFilter.suffixes[0]);
    }
    if EndsWith(url, "jpeg") {
      assert EndsWith(url, JpegFilter.suffixes[1]);
    }
    var u := url + "?" + query;
    assert u[|u| - 1] == query[|query| - 1];
  }

  /** A URL ending in `webp` ends in `p`, one ending in `jpg` or `jpeg` in `g`. */
  lemma LastCharOfMatch(f: Filter, url: string, last: char)
    requires forall i :: 0 <= i < |f.suffixes| ==> |f.suffixes[i]| > 0 && f.suffixes[i][|f.suffixes[i]| - 1] == last
    requires Matches(f, url)
    ensures |url| > 0 && url[|url| - 1] == last
  {
    var i :| 0 <= i < |f.suffixes| && EndsWith(url, f.suffixes[i]);
    var suffix := f.suffixes[i];
    assert url[|url| - 1] == url[|url| - |suffix|..][|suffix| - 1];
  }

  lemma NotBothWebpAndJpeg(url: string)
    ensures !(Matches(WebpFilter, url) && Matches(JpegFilter, url))
  {
    if Matches(WebpFilter, url) {
      LastCharOfMatch(WebpFilter, url, 'p');
    }
    if Matches(JpegFilter, url) {
      LastCharOfMatch(JpegFilter, url, 'g');
    }
  }

  /** The webp filter and the default filter select disjoint instances, so the
      two `<source>` elements never offer the same candidate. */
  lemma WebpAndJpegDisjoint(insts: seq<Instance>)
    ensures forall x :: x in Matching(insts, WebpFilter) ==> x !in Matching(insts, JpegFilter)
  {
    var w := Matching(insts, WebpFilter);
    var j := Matching(insts, JpegFilter);
    forall x | x in w
      ensures x !in j
    {
      var a :| 0 <= a < |w| && w[a] == x;
      NotBothWebpAndJpeg(x.url);
    }
  }

  /** The example of a single uncropped instance. */
  lemma SingleInstanceSrcSet()
    ensures GenerateSrcSet([Instance("a.jpg", 400, 300)], JpegFilter) == "a.jpg 400w"
  {
    var inst := Instance("a.jpg", 400, 300);
    assert Matches(JpegFilter, inst.url) by {
      assert EndsWith(inst.url, JpegFilter.suffixes[0]);
    }
    assert Matching([inst], JpegFilter) == [inst];
    assert IntToString(400) == "400" by {
      assert NatToString(4) == "4";
      assert NatToString(40) == "40";
      assert NatToString(400) == "400";
    }
    assert Entries([inst]) == [SrcSetEntry(inst)];
  }

  // ---------------------------------------------------------------------------
  // hasWebp
  // ---------------------------------------------------------------------------

  function GroupUrls(g: Group): seq<string> {
    seq(|g.instances|, i requires 0 <= i < |g.instances| => g.instances[i].url)
  }

  /** The URLs `hasWebp` collects from `aspect_ratios`: every instance of every
      non-null group, in order, skipping the `__typename` property it deletes. */
  function ScannedUrls(ars: AspectRatios): (r: seq<string>)
    ensures (forall k :: 0 <= k < |ars| ==> ars[k].key == "__typename" || ars[k].group.None?) ==> r == []
    ensures |ars| > 0 && ars[0].key != "__typename" && ars[0].group.Some? ==> GroupUrls(ars[0].group.value) <= r
  {
    if |ars| == 0 then []
    else
      (if ars[0].key == "__typename" || ars[0].group.None? then [] else GroupUrls(ars[0].group.value))
      + ScannedUrls(ars[1..])
  }

  predicate AnyWebp(urls: seq<string>) {
    exists i :: 0 <= i < |urls| && Matches(WebpFilter, urls[i])
  }

  /** `hasWebp(props)`. It throws when there is an image with neither a
      preferred group nor `aspect_ratios` (`delete` on `undefined`). */
  function HasWebp(p: Props): (r: Outcome<bool>)
    ensures r.Throws? <==>
              p.image.Some? && p.image.value.preferredAspectRatio.None? && p.image.value.aspectRatios.None?
    ensures p.image.None? ==> r == Returns(false)
    ensures p.image.Some? && p.image.value.preferredAspectRatio.Some? ==>
              var g := p.image.value.preferredAspectRatio.value;
              r == Returns(exists j :: 0 <= j < |g.instances| && Matches(WebpFilter, g.instances[j].url))
  {
    if p.image.None? then Returns(false)
    else
      var img := p.image.value;
      if img.preferredAspectRatio.Some? then
        var urls := GroupUrls(img.preferredAspectRatio.value);
        assert forall j :: 0 <= j < |urls| ==> urls[j] == img.preferredAspectRatio.value.instances[j].url;
        Returns(AnyWebp(urls))
      else if img.aspectRatios.None? then Throws
      else Returns(AnyWebp(ScannedUrls(img.aspectRatios.value)))
  }

  /** An instance of a scanned group, named by property index and instance index. */
  predicate ScannedInstance(ars: AspectRatios, k: int, j: int) {
    && 0 <= k < |ars| && ars[k].key != "__typename" && ars[k].group.Some?
    && 0 <= j < |ars[k].group.value.instances|
  }

  /** The collected URLs are exactly the URLs of the scanned instances. */
  lemma {:induction false} ScannedUrlsMembers(ars: AspectRatios, url: string)
    ensures url in ScannedUrls(ars) <==>
              exists k, j :: ScannedInstance(ars, k, j) && ars[k].group.value.instances[j].url == url
  {
    if |ars| > 0 {
      var head := if ars[0].key == "__typename" || ars[0].group.None? then [] else GroupUrls(ars[0].group.value);
      ScannedUrlsMembers(ars[1..], url);
      assert ScannedUrls(ars) == head + ScannedUrls(ars[1..]);
      if url in head {
        var j :| 0 <= j < |head| && head[j] == url;
        assert ScannedInstance(ars, 0, j) && ars[0].group.value.instances[j].url == url;
      }
      if url in ScannedUrls(ars[1..]) {
        var k, j :| ScannedInstance(ars[1..], k, j) && ars[1..][k].group.value.instances[j].url == url;
        assert ScannedInstance(ars, k + 1, j) && ars[k + 1].group.value.instances[j].url == url;
      }
      if exists k, j :: ScannedInstance(ars, k, j) && ars[k].group.value.instances[j].url == url {
        var k, j :| ScannedInstance(ars, k, j) && ars[k].group.value.instances[j].url == url;
        if k == 0 {
          assert head[j] == url;
        } else {
          assert ScannedInstance(ars[1..], k - 1, j) && ars[1..][k - 1].group.value.instances[j].url == url;
        }
      }
    }
  }

  /** Without a preferred group, `hasWebp` is true exactly when some instance
      of a non-null group, other than under `__typename`, has a URL ending in `webp`. */
  lemma HasWebpScansAllGroups(p: Props)
    requires p.image.Some? && p.image.value.preferredAspectRatio.None? && p.image.value.aspectRatios.Some?
    ensures var ars := p.image.value.aspectRatios.value;
            HasWebp(p) == Returns(exists k, j :: ScannedInstance(ars, k, j)
                                    && Matches(WebpFilter, ars[k].group.value.instances[j].url))
  {
    var ars := p.image.value.aspectRatios.value;
    var urls := ScannedUrls(ars);
    if AnyWebp(urls) {
      var i :| 0 <= i < |urls| && Matches(WebpFilter, urls[i]);
      ScannedUrlsMembers(ars, urls[i]);
    }
    if exists k, j :: ScannedInstance(ars, k, j) && Matches(WebpFilter, ars[k].group.value.instances[j].url) {
      var k, j :| ScannedInstance(ars, k, j) && Matches(WebpFilter, ars[k].group.value.instances[j].url);
      var url := ars[k].group.value.instances[j].url;
      ScannedUrlsMembers(ars, url);
      var i :| 0 <= i < |urls| && urls[i] == url;
    }
  }

  // ---------------------------------------------------------------------------
  // The guarded named-group lookup shared by getSrcSet and getInstances
  // ---------------------------------------------------------------------------

  /** How the guarded lookup `aspect_ratios && determineAspectRatio(props) in
      aspect_ratios && aspect_ratios[aspectRatio] !== null` ends: the guard
      fails, or it holds and the determined property is a group, or it holds
      and the determined property is `null`, whose `.instances` throws. */
  datatype Named = Skip | Use(group: Group) | Deref

  /** The guard tests the determined key for presence but tests the raw
      `aspectRatio` prop for `null`; the two differ when `aspectRatio` is not truthy. */
  function NamedGroup(p: Props): (r: Named)
    requires p.image.Some?
    ensures r != Skip <==>
              && p.image.value.aspectRatios.Some?
              && HasKey(p.image.value.aspectRatios.value, ChoiceName(DetermineAspectRatio(p).value.choice))
              && Lookup(p.image.value.aspectRatios.value, IndexName(p.aspectRatio)) != NullGroup
    ensures r.Deref? ==>
              Lookup(p.image.value.aspectRatios.value, ChoiceName(DetermineAspectRatio(p).value.choice)) == NullGroup
    ensures r.Use? ==>
              Lookup(p.image.value.aspectRatios.value, ChoiceName(DetermineAspectRatio(p).value.choice)) == Holds(r.group)
    ensures Truthy(p.aspectRatio) ==> !r.Deref?
  {
    var img := p.image.value;
    if img.aspectRatios.None? then Skip
    else
      var ars := img.aspectRatios.value;
      var name := ChoiceName(DetermineAspectRatio(p).value.choice);
      if !HasKey(ars, name) || Lookup(ars, IndexName(p.aspectRatio)) == NullGroup then Skip
      else
        match Lookup(ars, name)
        case Holds(g) => Use(g)
        case _ => Deref
  }

  // ---------------------------------------------------------------------------
  // getSrcSet
  // ---------------------------------------------------------------------------

  /** The value `getSrcSet` returns: `null`, `undefined` or a string. */
  datatype SrcSet = Null | Undefined | Text(text: string)

  /** `getSrcSet(props, typeRegex)`; `filter` is `None` when the caller passes
      `undefined`, and the default `/jpe?g$/` applies. */
  function GetSrcSet(props: Option<Props>, filter: Option<Filter>): (r: Outcome<SrcSet>)
    ensures props.None? ==> r == Returns(Null)
    ensures props.Some? && props.value.image.None? ==>
              r == Returns(if Truthy(props.value.fallbackSrcSet) then Text(props.value.fallbackSrcSet.value) else Null)
    ensures props.Some? && props.value.image.Some? && props.value.image.value.preferredAspectRatio.Some? ==>
              r == Returns(Text(GenerateSrcSet(props.value.image.value.preferredAspectRatio.value.instances,
                                               filter.GetOr(JpegFilter))))
    ensures r.Throws? ==> props.Some? && props.value.image.Some? && !Truthy(props.value.aspectRatio)
    ensures r == Returns(Undefined) ==>
              props.Some? && props.value.image.Some? && !Truthy(props.value.image.value.srcset)
              && !Truthy(props.value.fallbackSrcSet)
    ensures props.Some? && props.value.image.Some? && props.value.image.value.preferredAspectRatio.None?
            && NamedGroup(props.value).Use? ==>
              r == Returns(Text(GenerateSrcSet(NamedGroup(props.value).group.instances, filter.GetOr(JpegFilter))))
  {
    if props.None? then Returns(Null)
    else
      var p := props.value;
      if p.image.None? then Returns(if Truthy(p.fallbackSrcSet) then Text(p.fallbackSrcSet.value) else Null)
      else
        var img := p.image.value;
        var f := filter.GetOr(JpegFilter);
        if img.preferredAspectRatio.Some? then Returns(Text(GenerateSrcSet(img.preferredAspectRatio.value.instances, f)))
        else
          match NamedGroup(p)
          case Use(g) => Returns(Text(GenerateSrcSet(g.instances, f)))
          case Deref => Throws
          case Skip =>
            if Truthy(img.srcset) then Returns(Text(img.srcset.value))
            else if Truthy(p.fallbackSrcSet) then Returns(Text(p.fallbackSrcSet.value))
            else Returns(Undefined)
  }

  /** Passing `undefined` as the filter is passing `/jpe?g$/`. */
  lemma DefaultFilterIsJpeg(props: Option<Props>)
    ensures GetSrcSet(props, None) == GetSrcSet(props, Some(JpegFilter))
  {
  }

  /** A preferred group decides the `srcset` whatever `aspectRatio`, the named
      groups, `image.srcset` and `fallbackSrcSet` say. */
  lemma GetSrcSetPreferredWins(p: Props, filter: Option<Filter>, aspectRatio: Option<string>,
                               ars: Option<AspectRatios>, srcset: Option<string>, fallbackSrcSet: Option<string>)
    requires p.image.Some? && p.image.value.preferredAspectRatio.Some?
    ensures var q := p.(aspectRatio := aspectRatio, fallbackSrcSet := fallbackSrcSet,
                        image := Some(p.image.value.(aspectRatios := ars, srcset := srcset)));
            GetSrcSet(Some(q), filter) == GetSrcSet(Some(p), filter)
  {
  }

  /** When the named group is absent, or `aspectRatio` names a `null` group,
      `getSrcSet` falls back to `image.srcset`, then `fallbackSrcSet`, then `undefined`. */
  lemma GetSrcSetFallsThrough(p: Props, filter: Option<Filter>)
    requires p.image.Some? && p.image.value.preferredAspectRatio.None?
    requires p.image.value.aspectRatios.Some? ==>
               var ars := p.image.value.aspectRatios.value;
               || !HasKey(ars, ChoiceName(DetermineAspectRatio(p).value.choice))
               || (Truthy(p.aspectRatio) && Lookup(ars, p.aspectRatio.value) == NullGroup)
    ensures GetSrcSet(Some(p), filter) ==
              Returns(if Truthy(p.image.value.srcset) then Text(p.image.value.srcset.value)
                      else if Truthy(p.fallbackSrcSet) then Text(p.fallbackSrcSet.value)
                      else Undefined)
  {
  }

  /** The error case: `getSrcSet` throws exactly when there is an image
      without a preferred group, the determined key holds `null`, and the raw
      `aspectRatio` does not name a `null` property. It cannot happen with a
      truthy `aspectRatio`. */
  lemma GetSrcSetThrows(p: Props, filter: Option<Filter>)
    ensures GetSrcSet(Some(p), filter).Throws? <==>
              && p.image.Some? && p.image.value.preferredAspectRatio.None?
              && p.image.value.aspectRatios.Some?
              && Lookup(p.image.value.aspectRatios.value, ChoiceName(DetermineAspectRatio(p).value.choice)) == NullGroup
              && Lookup(p.image.value.aspectRatios.value, IndexName(p.aspectRatio)) != NullGroup
  {
  }

  /** A concrete instance of the error case: no `aspectRatio`, no preferred
      group, no slug, and `uncropped` present but `null`. */
  lemma GetSrcSetThrowsOnNullUncropped()
    ensures var img := Image(None, Some([AspectEntry("uncropped", None)]), Some("a.jpg"), None, None, None);
            GetSrcSet(Some(Props(Some(img), None, None, None, None)), None).Throws?
  {
    var ars := [AspectEntry("uncropped", None)];
    assert ars[0].key == "uncropped";
    assert !HasKey(ars, "undefined");
  }

  // ---------------------------------------------------------------------------
  // getInstances
  // ---------------------------------------------------------------------------

  /** `getInstances(props)`: the guarded named group's instances, else the
      preferred group's, else `[]`. */
  function GetInstances(props: Option<Props>): (r: Outcome<seq<Instance>>)
    ensures props.None? || props.value.image.None? ==> r == Returns([])
    ensures r.Throws? ==> props.Some? && props.value.image.Some? && NamedGroup(props.value).Deref?
    ensures props.Some? && props.value.image.Some? && NamedGroup(props.value).Skip? ==>
              r == Returns(if props.value.image.value.preferredAspectRatio.Some?
                           then props.value.image.value.preferredAspectRatio.value.instances else [])
    ensures props.Some? && props.value.image.Some? && NamedGroup(props.value).Use? ==>
              r == Returns(NamedGroup(props.value).group.instances)
  {
    if props.None? then Returns([])
    else
      var p := props.value;
      if p.image.None? then Returns([])
      else
        match NamedGroup(p)
        case Use(g) => Returns(g.instances)
        case Deref => Throws
        case Skip =>
          if p.image.value.preferredAspectRatio.Some? then Returns(p.image.value.preferredAspectRatio.value.instances)
          else Returns([])
  }

  /** A truthy `aspectRatio` naming a group selects that group: `getInstances`
      returns its instances and, without a preferred group, `getSrcSet` builds
      the `srcset` from them. */
  lemma RequestedGroupWins(p: Props, g: Group, filter: Option<Filter>)
    requires p.image.Some? && p.image.value.aspectRatios.Some? && Truthy(p.aspectRatio)
    requires Lookup(p.image.value.aspectRatios.value, p.aspectRatio.value) == Holds(g)
    ensures GetInstances(Some(p)) == Returns(g.instances)
    ensures p.image.value.preferredAspectRatio.None? ==>
              GetSrcSet(Some(p), filter) == Returns(Text(GenerateSrcSet(g.instances, filter.GetOr(JpegFilter))))
  {
  }

  /** With no `aspectRatio`, no preferred group and no slug, both helpers use
      the `uncropped` group when it holds one (unless a property literally
      named `undefined` is `null`, which the guard reads for the missing prop). */
  lemma UncroppedByDefault(p: Props, g: Group, filter: Option<Filter>)
    requires p.image.Some? && p.image.value.aspectRatios.Some? && p.aspectRatio.None?
    requires p.image.value.preferredAspectRatio.None? && !Truthy(p.image.value.preferredSlug)
    requires Lookup(p.image.value.aspectRatios.value, "uncropped") == Holds(g)
    requires Lookup(p.image.value.aspectRatios.value, "undefined") != NullGroup
    ensures GetInstances(Some(p)) == Returns(g.instances)
    ensures GetSrcSet(Some(p), filter) == Returns(Text(GenerateSrcSet(g.instances, filter.GetOr(JpegFilter))))
  {
  }

  /** Without a preferred group, `getSrcSet` builds its string from exactly
      the instances `getInstances` returns, whenever there are any. */
  lemma SrcSetUsesInstances(p: Props, filter: Option<Filter>)
    requires p.image.Some? && p.image.value.preferredAspectRatio.None?
    requires GetInstances(Some(p)).Returns? && GetInstances(Some(p)).value != []
    ensures GetSrcSet(Some(p), filter) == Returns(Text(GenerateSrcSet(GetInstances(Some(p)).value, filter.GetOr(JpegFilter))))
  {
  }

  /** The two helpers disagree when both a preferred group and a named
      `aspectRatio` are given: `getInstances` takes the named group and
      `getSrcSet` the preferred one. */
  lemma InstancesAndSrcSetDiverge()
    ensures var named := Group([Instance("sq.jpg", 100, 100)]);
            var preferred := Group([Instance("wide.jpg", 200, 100)]);
            var img := Image(Some(preferred), Some([AspectEntry("square", Some(named))]), Some("a.jpg"), None, None, None);
            var p := Props(Some(img), Some("square"), None, None, None);
            && GetInstances(Some(p)) == Returns(named.instances)
            && GetSrcSet(Some(p), None) == Returns(Text(GenerateSrcSet(preferred.instances, JpegFilter)))
  {
    var named := Group([Instance("sq.jpg", 100, 100)]);
    var ars := [AspectEntry("square", Some(named))];
    assert ars[0].key == "square";
  }

  // ---------------------------------------------------------------------------
  // getSrc
  // ---------------------------------------------------------------------------

  /** `getSrc(props)`: a truthy `image.fallback`, else a truthy `fallbackSrc`,
      else the first instance URL of the first property of `aspect_ratios`. */
  function GetSrc(p: Props): (r: Outcome<string>)
    ensures r.Throws? <==>
              && !(p.image.Some? && Truthy(p.image.value.fallback)) && !Truthy(p.fallbackSrc)
              && (|| p.image.None? || p.image.value.aspectRatios.None?
                  || |p.image.value.aspectRatios.value| == 0
                  || p.image.value.aspectRatios.value[0].group.None?
                  || |p.image.value.aspectRatios.value[0].group.value.instances| == 0)
    ensures r.Returns? ==>
              || (p.image.Some? && p.image.value.fallback == Some(r.value))
              || p.fallbackSrc == Some(r.value)
              || (&& p.image.Some? && p.image.value.aspectRatios.Some?
                  && |p.image.value.aspectRatios.value| > 0
                  && p.image.value.aspectRatios.value[0].group.Some?
                  && |p.image.value.aspectRatios.value[0].group.value.instances| > 0
                  && p.image.value.aspectRatios.value[0].group.value.instances[0].url == r.value)
    ensures r.Returns? && r.value == "" ==> !Truthy(p.fallbackSrc)
    ensures p.image.Some? && Truthy(p.image.value.fallback) ==> r == Returns(p.image.value.fallback.value)
    ensures !(p.image.Some? && Truthy(p.image.value.fallback)) && Truthy(p.fallbackSrc) ==>
              r == Returns(p.fallbackSrc.value)
    ensures !(p.image.Some? && Truthy(p.image.value.fallback)) && !Truthy(p.fallbackSrc) && r.Returns? ==>
              r.value == p.image.value.aspectRatios.value[0].group.value.instances[0].url
  {
    if p.image.Some? && Truthy(p.image.value.fallback) then Returns(p.image.value.fallback.value)
    else if Truthy(p.fallbackSrc) then Returns(p.fallbackSrc.value)
    else if p.image.None? || p.image.value.aspectRatios.None? then Throws
    else
      var ars := p.image.value.aspectRatios.value;
      var first := if |ars| == 0 then "undefined" else ars[0].key;
      match Lookup(ars, first)
      case Holds(g) => if |g.instances| == 0 then Throws else Returns(g.instances[0].url)
      case _ => Throws
  }

  /** The primary source does not depend on the requested aspect ratio, and a
      truthy `image.fallback` wins over `fallbackSrc`. */
  lemma GetSrcIgnoresAspectRatio(p: Props, aspectRatio: Option<string>, fallbackSrc: Option<string>)
    requires p.image.Some? && Truthy(p.image.value.fallback)
    ensures GetSrc(p.(aspectRatio := aspectRatio, fallbackSrc := fallbackSrc)) == Returns(p.image.value.fallback.value)
  {
  }

  // ---------------------------------------------------------------------------
  // getAlt
  // ---------------------------------------------------------------------------

  /** The `short_caption` of the image, `None` without an image. */
  function Caption(p: Props): Option<string> {
    if p.image.Some? then p.image.value.shortCaption else None
  }

  /** `getAlt(props)`: `alt || image.short_caption || ''`. */
  function GetAlt(p: Props): (r: string)
    ensures r == "" <==> !Truthy(p.alt) && !Truthy(Caption(p))
    ensures r != "" ==> Some(r) == p.alt || Some(r) == Caption(p)
  {
    if Truthy(p.alt) then p.alt.value
    else if p.image.Some? && Truthy(p.image.value.shortCaption) then p.image.value.shortCaption.value
    else ""
  }

  /** `getAlt` is the `||` chain of `alt` and the caption, defaulting to `''`;
      in particular an empty `alt` does not override a caption. */
  lemma GetAltIsOrChain(p: Props)
    ensures GetAlt(p) == Or(p.alt, Caption(p)).GetOr("")
    ensures p.alt == Some("") && Truthy(Caption(p)) ==> GetAlt(p) == Caption(p).value
  {
  }
}
