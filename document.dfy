/** The YAML document as the translator sees it after `yaml.safe_load`: strings, other scalars,
    `None`, dictionaries with string keys in their order, and lists. */
module Document {

  /** One `key: value` pair of a dictionary. */
  datatype Field = Field(key: string, value: Node)

  datatype Node =
    | Str(s: string)
    /** A number or a boolean, kept opaque. */
    | Other(value: int)
    | Null
    | Map(fields: seq<Field>)
    | List(items: seq<Node>)

  /** `b` has the shape of `a`: a dictionary with the same keys in the same order, a list of the same
      length, recursively, a string where `a` has a string, and every other value exactly as in `a`.
      Only the strings may differ. */
  predicate SameShape(a: Node, b: Node)
    decreases a
  {
    match a
    case Str(_) => b.Str?
    case Other(_) => b == a
    case Null => b == a
    case Map(fs) =>
      b.Map? && |b.fields| == |fs| &&
      forall i :: 0 <= i < |fs| ==> b.fields[i].key == fs[i].key && SameShape(fs[i].value, b.fields[i].value)
    case List(xs) =>
      b.List? && |b.items| == |xs| && forall i :: 0 <= i < |xs| ==> SameShape(xs[i], b.items[i])
  }

  /** The number of strings in the document. */
  function StringCount(n: Node): nat
    decreases n
  {
    match n
    case Str(_) => 1
    case Map(fs) => FieldsStringCount(fs)
    case List(xs) => ItemsStringCount(xs)
    case _ => 0
  }

  function FieldsStringCount(fs: seq<Field>): nat
    decreases fs
  {
    if fs == [] then 0 else StringCount(fs[0].value) + FieldsStringCount(fs[1..])
  }

  function ItemsStringCount(xs: seq<Node>): nat
    decreases xs
  {
    if xs == [] then 0 else StringCount(xs[0]) + ItemsStringCount(xs[1..])
  }
}
