# apm-image-react attribute resolution, modelled in Dafny

This project models the attribute-resolution logic behind the `Image`
React component of apm-image-react. It covers the helpers in
`src/utils/utils.js` and the derivations in `src/Image/Image.js`:

- which aspect-ratio group to use (`determineAspectRatio`);
- the `srcset` string (`generateSrcSet`, `getSrcSet`);
- the instances, primary `src` and `alt` fallback chains (`getInstances`, `getSrc`, `getAlt`);
- webp detection (`hasWebp`);
- the file-name helper `ext`;
- the `type` and filter of the two `<source>` elements;
- the three custom prop validators.

Files:

- `wrappers.dfy`: `Option`, and `Outcome`, the result of JavaScript code that either returns a value or throws a `TypeError`.
- `strings.dfy`: the JavaScript string operations used. These are `lastIndexOf`, `split` with one character, `join` and integer formatting, with round-trip lemmas for `split`/`join` and for the formatting.
- `image_data.dfy`: the image record and the props, both as records of optional fields. It also holds JavaScript truthiness, the `||` operator, and property lookup on `aspect_ratios`. That object is an ordered association list from key to an optional group, because key order and `null` values matter.
- `utils.dfy`: the helpers of `utils.js`.
- `image_component.dfy`: `ext`, the `<source>` attributes and the validators of `Image.js`.

JavaScript behaviour is modelled where the code depends on it:

- A string prop is truthy when it is present and non-empty.
- `false in obj` reads the property `"false"`, and `obj[undefined]` reads the property `"undefined"`.
- Dereferencing `undefined` or `null` becomes `Throws`.
- The regular expressions are end-anchored literal suffixes (`/jpe?g$/` ends in `jpg` or `jpeg`), modelled as suffix tests.

Behaviour of the code worth noting:

- `getSrcSet` and `getInstances` test the guard `aspect_ratios[aspectRatio] !== null` with the raw `aspectRatio` prop. When `aspectRatio` is unset and the key chosen by slug or `'uncropped'` holds `null`, the helpers throw (`Utils.GetSrcSetThrows`).
- `getSrcSet` prefers the preferred group. `getInstances` prefers the named group. The two disagree when both are given (`Utils.InstancesAndSrcSetDiverge`).
- An explicit empty `alt` does NOT override `short_caption` in `getAlt`. It is only accepted by `mustProvideAlt`.
- `ext` returns the whole file name, not the extension, when the query and fragment hold no `/`. So the non-webp `type` of `…/foo.jpg` is `image/foo.jpeg`, and `regexes[ext(src)]` is `undefined` for ordinary URLs. The non-webp `<source>` then falls back to the default `/jpe?g$/` filter (`ImageComponent.OrdinaryFileName`).
- `ext` cuts at the last `/` of the whole URL, so a `/` inside the query moves the cut: `d/a.jpg?u=/b` gives `b` (`ImageComponent.ExtAfterLastSlash`).
- `getSrc` does not validate its input. With no image and no `fallbackSrc` it throws only because the last-resort path dereferences the missing image. The check itself lives in the separate `mustProvideOne` validator (`ImageComponent.MustProvideOne`).

## Model

| member | source | states |
|---|---|---|
| Strings.LastIndexOf | src/Image/Image.js:9 | the last occurrence of `/`, or -1 exactly when there is none |
| Strings.SplitHead | src/Image/Image.js:12-15 | the first piece, which `split(c)[0]` takes, is the prefix that ends just before the first separator; without a separator the split is the whole string |
| Strings.Join | src/utils/utils.js:24 | an empty list joins to `""`, and a non-empty join starts with the first part |
| Strings.Split | src/Image/Image.js:12-15 | a split has at least one piece, and no piece holds the separator |
| Strings.JoinSplit | src/Image/Image.js:12-15 | joining the pieces of a split with the separator restores the string |
| Strings.SplitJoin | src/utils/utils.js:24 | splitting a `join(',')` of comma-free pieces gives the pieces back |
| Strings.NatToString | src/utils/utils.js:23 | the width is written as non-empty decimal digits without a leading zero |
| Strings.NatToStringRoundTrip | src/utils/utils.js:23 | reading the written width back gives the width |
| Strings.IntToString | src/utils/utils.js:23 | a non-negative width is written as digits whose value is the width; a negative one as `-` followed by digits whose value is its magnitude |
| ImageData.Or | src/utils/utils.js:116-121 | `a || b` is truthy iff either is, and picks the first truthy operand |
| ImageData.HasKey | src/utils/utils.js:59 | `key in ars` fails on an empty object, and otherwise holds iff the first property is named `key` or a later one is |
| ImageData.Lookup | src/utils/utils.js:59-63 | `obj[key]` is `undefined` iff the key is absent; it is the first property's value, a group or `null` stored under the key |
| Utils.DetermineAspectRatio | src/utils/utils.js:1-14 | throws iff neither a truthy `aspectRatio` nor an image; a truthy `aspectRatio` is returned unchanged; `false` iff a preferred group and no truthy `aspectRatio`; a returned key is never empty; the warning is given exactly in the last branch, which yields `'uncropped'` |
| Utils.DetermineWithoutAspectRatio | src/utils/utils.js:6-13 | without `aspectRatio` or a preferred group, a truthy slug is chosen, otherwise `'uncropped'` with the warning |
| Utils.Matching | src/utils/utils.js:17-22 | the kept instances all match the filter, come from the input, and every matching input instance is kept |
| Utils.MatchingAppend | src/utils/utils.js:17-22 | filtering keeps input order: it distributes over concatenation |
| Utils.GenerateSrcSet | src/utils/utils.js:16-25 | the `srcset` is `""` iff no instance URL matches the filter |
| Utils.GenerateSrcSetSplits | src/utils/utils.js:16-25 | when no instance URL contains a comma, splitting the `srcset` at `,` gives exactly the `"<url> <width>w"` entries of the matching instances in order, with no space after the comma |
| Utils.JpegFilterSuffixes | src/utils/utils.js:16 | the default filter accepts exactly URLs ending in `jpg` or `jpeg`, so a URL followed by `?` and a query string that does not end in `g` is excluded |
| Utils.WebpAndJpegDisjoint | src/utils/utils.js:16-18 | no instance is selected by both `/webp$/` and `/jpe?g$/` |
| Utils.SingleInstanceSrcSet | src/utils/utils.js:16-25 | one uncropped `a.jpg` instance of width 400 gives `"a.jpg 400w"` |
| Utils.ScannedUrls | src/utils/utils.js:36-41 | no URL is collected when every property is `__typename` or `null`; a leading scanned group's URLs come first, in order |
| Utils.HasWebp | src/utils/utils.js:27-44 | `false` without an image; with a preferred group only its URLs are tested; throws iff an image has neither a preferred group nor `aspect_ratios` |
| Utils.ScannedUrlsMembers | src/utils/utils.js:36-41 | the collected URLs are exactly those of instances in non-null groups under keys other than `__typename` |
| Utils.HasWebpScansAllGroups | src/utils/utils.js:27-44 | without a preferred group, true iff some instance of a non-null, non-`__typename` group has a URL ending in `webp` |
| Utils.NamedGroup | src/utils/utils.js:57-66 | the guard passes iff `aspect_ratios` exists, holds the determined key, and the raw `aspectRatio` does not name `null`; it then dereferences the group found, or `null`; never `null` for a truthy `aspectRatio` |
| Utils.GetSrcSet | src/utils/utils.js:46-73 | absent props give `null`; no image gives a truthy `fallbackSrcSet` or `null`; a preferred group gives its srcset; it throws only with an image and no truthy `aspectRatio`; `undefined` only when neither `image.srcset` nor `fallbackSrcSet` is truthy; without a preferred group, when the guard passes onto a group, the srcset of that group's instances |
| Utils.DefaultFilterIsJpeg | src/utils/utils.js:46 | passing `undefined` as the filter is the same as passing `/jpe?g$/` |
| Utils.GetSrcSetPreferredWins | src/utils/utils.js:53-55 | with a preferred group the result does not depend on `aspectRatio`, the named groups, `image.srcset` or `fallbackSrcSet` |
| Utils.GetSrcSetFallsThrough | src/utils/utils.js:57-72 | with the determined key absent, or `aspectRatio` naming a `null` group, the result is truthy `image.srcset`, then truthy `fallbackSrcSet`, then `undefined` |
| Utils.GetSrcSetThrows | src/utils/utils.js:57-66 | it throws iff there is an image without a preferred group, the determined key holds `null`, and the raw `aspectRatio` does not name a `null` property |
| Utils.RequestedGroupWins | src/utils/utils.js:57-65 | a truthy `aspectRatio` naming a group gives that group's instances from `getInstances`, and, without a preferred group, that group's srcset from `getSrcSet` |
| Utils.UncroppedByDefault | src/utils/utils.js:57-65 | with no `aspectRatio`, preferred group or slug, both helpers use the `uncropped` group when it holds one |
| Utils.GetSrcSetThrowsOnNullUncropped | src/utils/utils.js:57-66 | concrete case: no `aspectRatio`, and a `null` `uncropped` group, throws |
| Utils.GetInstances | src/utils/utils.js:75-92 | `[]` without props or image; when the guard passes onto a group, that group's instances; when the guard fails, the preferred group's instances, else `[]`; it throws only when the guard passes onto a `null` group |
| Utils.SrcSetUsesInstances | src/utils/utils.js:57-92 | without a preferred group, the `srcset` is built from exactly the non-empty instances `getInstances` returns |
| Utils.InstancesAndSrcSetDiverge | src/utils/utils.js:53-88 | with both a preferred group and a named `aspectRatio`, `getInstances` returns the named group but `getSrcSet` uses the preferred one |
| Utils.GetSrc | src/utils/utils.js:94-109 | throws iff no truthy `image.fallback` or `fallbackSrc` and the first property's first instance is missing; a truthy `image.fallback` is never passed over; otherwise a truthy `fallbackSrc` is returned; otherwise the first property's first instance URL; never `""` when `fallbackSrc` is truthy |
| Utils.GetSrcIgnoresAspectRatio | src/utils/utils.js:99-102 | a truthy `image.fallback` is returned whatever `aspectRatio` and `fallbackSrc` are |
| Utils.GetAlt | src/utils/utils.js:111-123 | `""` iff neither `alt` nor the caption is truthy; otherwise one of the two |
| Utils.GetAltIsOrChain | src/utils/utils.js:116-122 | `getAlt` is `alt || short_caption || ''`; an empty `alt` does not override a caption |
| ImageComponent.FileName | src/Image/Image.js:9 | the text after the last `/`: a slash-free suffix of the URL that, when the URL has a `/`, starts right after one |
| ImageComponent.Ext | src/Image/Image.js:7-19 | the result holds no `/`, `?` or `#`; it is the prefix of the text after the last `/` that stops at the first `?` or `#` |
| ImageComponent.ExtIdentity | src/Image/Image.js:7-19 | `ext` is the identity on strings without `/`, `?` and `#` |
| ImageComponent.ExtIdempotent | src/Image/Image.js:7-19 | `ext(ext(u)) == ext(u)` |
| ImageComponent.ExtKeepsWholeFileName | src/Image/Image.js:9-18 | for `<dir>/<name>?<query>` the result is the whole `name`, extension included |
| ImageComponent.ExtAfterLastSlash | src/Image/Image.js:9 | the cut is at the last `/` of the whole URL, query included: whatever follows it is the result when it holds no `?` or `#` |
| ImageComponent.ReplaceTrailing | src/Image/Image.js:38 | with the trailing pattern present, the result ends in the replacement and keeps everything before the pattern; otherwise the string is unchanged |
| ImageComponent.SourceType | src/Image/Image.js:38 | the type starts with `image/`, never ends in `jpg`, and differs from `image/<name>` only by a trailing `jpg` becoming `jpeg` |
| ImageComponent.NonWebpType | src/Image/Image.js:22-38 | the non-webp type is `image/` followed by `ext(src)`, with a trailing `jpg` rewritten to `jpeg`; it never ends in `jpg`, and its subtype holds no `/`, `?` or `#` |
| ImageComponent.RegexFor | src/Image/Image.js:24-29 | the lookup is defined iff the file name is exactly `jpg`, `webp`, `gif` or `png`, giving that suffix |
| ImageComponent.PictureAttributes | src/Image/Image.js:21-47 | the rendered `src` is what `getSrc` returns, the non-webp type is `SourceType(ext(src))`, the webp srcset is what `getSrcSet` gives with `/webp$/`, and the other srcset is what it gives with `regexes[ext(src)]`; rendering fails iff `getSrc` throws or the group lookup dereferences `null`, whatever the filter, so whenever `mustProvideOne` errors; with no image and a truthy `fallbackSrc`, that is the `src` and both sources carry `fallbackSrcSet` or `null`; the types are `image/webp` and an `image/` type never ending in `jpg`; the alt is `alt || short_caption || ''`; outside the table, the two sources filter the same group with `/webp$/` and `/jpe?g$/`; when no group is used both carry the same srcset |
| ImageComponent.PictureSourcesDisjoint | src/Image/Image.js:31-39 | with a preferred group, the webp srcset and the default `/jpe?g$/` srcset, which the non-webp source gets outside the table, are built from disjoint sets of that group's instances |
| ImageComponent.OtherSourceUsesDefaultFilter | src/Image/Image.js:39 | unless the file name of `src` is one of the four table keys, the non-webp `srcset` is the one the default `/jpe?g$/` gives |
| ImageComponent.OrdinaryFileName | src/Image/Image.js:23-39 | for `<dir>/foo.jpg?<query>` the type is `image/foo.jpeg` and the table lookup is undefined |
| ImageComponent.MustProvideOne | src/Image/Image.js:97-103 | errors iff no image and no truthy `fallbackSrc`; it errors exactly where `getSrc` has neither source, and without an image it passes only when `getSrc` returns `fallbackSrc` |
| ImageComponent.MustProvideAlt | src/Image/Image.js:104-110 | errors iff no image and no `alt` at all (an empty `alt` is accepted); when it passes without an image, `alt` is the alt text |
| ImageComponent.MustProvideSrcWithSrcset | src/Image/Image.js:111-117 | errors iff no image, no truthy `fallbackSrc` and a truthy `fallbackSrcSet`; then the `srcset` would be rendered while `getSrc` throws |
| ImageComponent.SrcsetErrorImpliesMissingSource | src/Image/Image.js:98-117 | whenever `mustProvideSrcWithSrcset` errors, `mustProvideOne` errors too |

## Left out

- React markup: the JSX in `src/Image/Image.js` is reduced to its attribute values. The `PropTypes` shape declarations and `defaultProps` are framework glue. `elementClass`, `sizes` and `loading` are passed through unchanged and are not modelled.
- `console.warn` is modelled as the `warned` flag of `DetermineAspectRatio`. `getSrcSet` and `getInstances` call it up to twice and do not surface the flag.
- The in-place `delete ars['__typename']` in `hasWebp` is modelled as skipping that key. The mutation of the caller's object, seen by later calls, is not modelled.
- Regular expressions in general: only the end-anchored literal suffixes the code uses are modelled.
- The `AmpImage` component is not part of this model. Neither are its tests: its default 400/225 dimensions and `max-width: 100%` style.
- HasWebp: `hasWebp(undefined)` throws while destructuring `props`. The model always takes props. No caller of `hasWebp` is part of this model, so whether one passes `undefined` is not shown.
- GetSrc: `getSrc` returns `[]` when `props` is absent. The model always takes props, because React always passes them.
- GetAlt: `getAlt` returns `[]` when `props` is absent. The model always takes props, for the same reason.
- NamedGroup: a `null` `aspectRatio` is modelled like an absent one, so the guard reads the property `"undefined"`. JavaScript reads the property `"null"` instead. The two differ only for an `aspect_ratios` object with a key literally named `null` or `undefined`; such keys are not image sizes. For example `{uncropped: null, undefined: null}` without a slug makes JavaScript throw, while the model falls through. The same applies to GetSrcSet and GetInstances.
- NamedGroup: a property of `aspect_ratios` present with the value `undefined` is treated like one holding `null`. The guard then fails and the helpers fall through, where JavaScript passes the guard and throws on `undefined.instances`. JSON data cannot produce such a property, so both are stored as an absent group.
- IntToString: widths of magnitude 10^21 or more are written in full decimal, while JavaScript writes them in exponent notation (`1e+21`). Widths beyond 2^53, which JavaScript rounds, are not modelled either.
- Number formatting: instance widths are integers. Non-integer JavaScript numbers are not modelled.
- Object key order: `aspect_ratios` is taken in its enumeration order as given. JavaScript would list integer-like keys first, and that reordering is not modelled.
- Duplicate keys: a JavaScript object has none. `Lookup` reads the first entry with a key.
- Property names inherited from `Object.prototype` (`constructor`, `toString`, `__proto__`, …) are treated as absent. This applies both to `in`/`[]` on `aspect_ratios` and to `regexes[ext(src)]`.
- Ill-typed props are not modelled: a group without `instances`, or a non-string URL. The shapes are assumed to match their `PropTypes` declarations.
