/**
 * The loosely typed values a parsed feed hands the fetchers: strings, lists,
 * dictionaries, `None`, and anything else, together with the few Python
 * operations the fetchers apply to them (`str`, truthiness, `.get`, `or`).
 */
module RawValues {
  import opened Wrappers
  import opened Text

  /** A value inside a parsed feed entry. `Other` stands for every other
      object (numbers, booleans, objects without `get`), carrying what `str()`
      shows for it and whether it is truthy. */
  datatype Raw =
    | Text(s: string)
    | Items(items: seq<Raw>)
    | Record(fields: map<string, Raw>)
    | Null
    | Other(shown: string, truthy: bool)

  /** A feed entry: a dictionary keyed by field name. */
  type Entry = map<string, Raw>

  /** `str(v)`. The text of a list or dictionary is not modelled: both show as
      a fixed placeholder. */
  function Show(v: Raw): string {
    match v
    case Text(s) => s
    case Items(_) => "[...]"
    case Record(_) => "{...}"
    case Null => "None"
    case Other(shown, _) => shown
  }

  /** Python truthiness. */
  predicate Truthy(v: Raw) {
    match v
    case Text(s) => |s| > 0
    case Items(items) => |items| > 0
    case Record(fields) => |fields| > 0
    case Null => false
    case Other(_, truthy) => truthy
  }

  /** `entry.get(key, default)`. */
  function GetOr(entry: Entry, key: string, default: Raw): Raw {
    if key in entry then entry[key] else default
  }

  /** `entry.get(key)`. */
  function Get(entry: Entry, key: string): Raw {
    GetOr(entry, key, Null)
  }

  /** `str(x.get(key, "")).strip()`. */
  function TextField(x: Entry, key: string): (r: string)
    ensures Trimmed(r)
  {
    Strip(Show(GetOr(x, key, Text(""))))
  }

  /** `a or b or ... or z`: the first truthy operand, else the last one. */
  function FirstTruthy(operands: seq<Raw>): (r: Raw)
    requires |operands| > 0
    ensures r in operands
    ensures Truthy(r) || r == operands[|operands| - 1]
    ensures forall i :: 0 <= i < |operands| && Truthy(operands[i]) ==> Truthy(r)
    ensures Truthy(operands[0]) ==> r == operands[0]
  {
    if |operands| == 1 || Truthy(operands[0]) then operands[0]
    else FirstTruthy(operands[1..])
  }

  /** `_raw_get(raw, key)`: `None` when the handle is `None` or has no `get`,
      and when the stored value is `None` or the empty string. Only
      dictionaries have `get` here. */
  function RawGet(handle: Raw, key: string): (r: Option<Raw>)
    ensures r.Some? <==> handle.Record? && key in handle.fields
                         && handle.fields[key] != Null && handle.fields[key] != Text("")
    ensures r.Some? ==> r.value == handle.fields[key]
  {
    match handle
    case Record(fields) =>
      if key in fields && fields[key] != Null && fields[key] != Text("") then Some(fields[key]) else None
    case _ => None
  }
}
