/** The image-metadata record and the component props the helpers read,
    with the JavaScript notions (truthiness, property lookup) they rely on. */
module ImageData {
  import opened Wrappers

  /** One rendered variant of an image. */
  datatype Instance = Instance(url: string, width: int, height: int)

  /** A group of instances sharing one crop (`{ instances: [...] }`). */
  datatype Group = Group(instances: seq<Instance>)

  /** One property of the `aspect_ratios` object; `group` is `None` for a `null` value. */
  datatype AspectEntry = AspectEntry(key: string, group: Option<Group>)

  /** The `aspect_ratios` object as its properties in enumeration order. */
  type AspectRatios = seq<AspectEntry>

  /** The `image` prop. Each field is `None` when the property is absent,
      `null` or `undefined`:
      `preferredAspectRatio`, `aspect_ratios`, `fallback`, `short_caption`,
      `preferred_aspect_ratio_slug` and `srcset`. */
  datatype Image = Image(
    preferredAspectRatio: Option<Group>,
    aspectRatios: Option<AspectRatios>,
    fallback: Option<string>,
    shortCaption: Option<string>,
    preferredSlug: Option<string>,
    srcset: Option<string>)

  /** The props of the `Image` component that the helpers read. */
  datatype Props = Props(
    image: Option<Image>,
    aspectRatio: Option<string>,
    fallbackSrc: Option<string>,
    fallbackSrcSet: Option<string>,
    alt: Option<string>)

  /** JavaScript truthiness of a string-valued property: present and non-empty.
      (An object-valued property is truthy exactly when it is present.) */
  predicate Truthy(s: Option<string>) {
    s.Some? && s.value != ""
  }

  /** The value `a || b` of two string-valued properties, `None` when both are falsy. */
  function Or(a: Option<string>, b: Option<string>): (r: Option<string>)
    ensures Truthy(r) <==> Truthy(a) || Truthy(b)
    ensures Truthy(a) ==> r == a
    ensures !Truthy(a) && Truthy(b) ==> r == b
  {
    if Truthy(a) then a else if Truthy(b) then b else None
  }

  /** What reading a property of the `aspect_ratios` object yields. */
  datatype Slot = Missing | NullGroup | Holds(group: Group)

  /** `key in ars`: some property is named `key`, which holds for a list
      exactly when its first name is `key` or the rest has one named `key`. */
  function HasKey(ars: AspectRatios, key: string): (r: bool)
    ensures |ars| == 0 ==> !r
    ensures |ars| > 0 ==> (r <==> ars[0].key == key || HasKey(ars[1..], key))
  {
    exists i :: 0 <= i < |ars| && ars[i].key == key
  }

  /** The value a property holding `g` yields when read. */
  function SlotOf(g: Option<Group>): Slot {
    match g
    case Some(x) => Holds(x)
    case None => NullGroup
  }

  /** `ars[key]`: the value of the first property named `key`, `Missing` (`undefined`) when there is none. */
  function Lookup(ars: AspectRatios, key: string): (r: Slot)
    ensures r.Missing? <==> !HasKey(ars, key)
    ensures |ars| > 0 && ars[0].key == key ==> r == SlotOf(ars[0].group)
    ensures r.Holds? ==> exists i :: 0 <= i < |ars| && ars[i].key == key && ars[i].group == Some(r.group)
    ensures r.NullGroup? ==> exists i :: 0 <= i < |ars| && ars[i].key == key && ars[i].group.None?
  {
    if |ars| == 0 then Missing
    else if ars[0].key == key then SlotOf(ars[0].group)
    else Lookup(ars[1..], key)
  }

  /** The property name JavaScript reads for `obj[x]` when `x` is an optional
      string: an `undefined` index is converted to the name `"undefined"`. */
  function IndexName(x: Option<string>): string {
    match x
    case Some(s) => s
    case None => "undefined"
  }
}
