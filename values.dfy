/** The two trees the reducer works between: the parsed, tag-wrapped JSON
    input and the plain output value, plus the outcome of one reduction. */
module Values {
  import opened Text

  datatype Option<+T> = None | Some(value: T)

  /** One `"key": value` pair of a JSON object, in document order. */
  datatype Member = Member(key: string, value: Json)

  /** A JSON document as `json.load` hands it over. Numbers keep their
      literal text: the reducer only ever asks whether a payload is text. */
  datatype Json =
    | JStr(text: string)
    | JNum(literal: string)
    | JBool(b: bool)
    | JNull
    | JObj(members: seq<Member>)
    | JArr(items: seq<Json>)

  /** The exact value `mantissa / 10^scale` of the decimal text that
      `float(...)` reads, before it is rounded to a double. */
  datatype Decimal = Decimal(mantissa: int, scale: nat)

  /** One key and its reduced value in an output dict. */
  datatype Field = Field(key: string, value: Plain)

  /** A reduced Python value: `str`, `int`, `float`, `bool`, `None`, `dict`
      (fields in order) or `list`. */
  datatype Plain =
    | PStr(s: string)
    | PInt(i: int)
    | PFloat(d: Decimal)
    | PBool(b: bool)
    | PNull
    | PMap(fields: seq<Field>)
    | PList(elements: seq<Plain>)

  /** A value a reduced list may hold: not `None`, not a `list`, not a
      `dict`. */
  predicate IsScalar(p: Plain) {
    p.PStr? || p.PInt? || p.PFloat? || p.PBool?
  }

  /** What a call returns: a value, a `ValueError` (which the enclosing list
      or map loop absorbs), or the `AttributeError` that `.items()` raises on a
      JSON array (which no loop absorbs). */
  datatype Outcome = Ok(value: Plain) | Fail | Crash

  /** The keys of `fs` are pairwise different. */
  ghost predicate UniqueKeys(fs: seq<Field>) {
    forall i, j :: 0 <= i < j < |fs| ==> fs[i].key != fs[j].key
  }

  /** The keys of `fs` go up strictly in Python's string order. */
  ghost predicate Ascending(fs: seq<Field>) {
    forall i, j :: 0 <= i < j < |fs| ==> LexLess(fs[i].key, fs[j].key)
  }

  /** The shape every successful reduction has: lists are non-empty and hold
      only scalars, dicts are non-empty, their keys are non-empty, stripped and
      ascending, and their values have this shape too. */
  ghost predicate WellFormed(p: Plain)
    decreases p
  {
    match p
    case PList(xs) => |xs| > 0 && forall i :: 0 <= i < |xs| ==> IsScalar(xs[i])
    case PMap(fs) =>
      && |fs| > 0
      && Ascending(fs)
      && forall i :: 0 <= i < |fs| ==> fs[i].key != "" && Trim(fs[i].key) == fs[i].key && WellFormed(fs[i].value)
    case _ => true
  }
}
