/** The slice of the Python runtime the resolver's decisions depend on:
    values produced by `json.loads`, their truthiness, `len` and integer
    indexing, and the library calls the model leaves uninterpreted. */
module PyLib {
  import opened Wrappers

  /** A value `json.loads` can return. JSON `null` is Python's `None`;
      objects are dicts, whose keys are always strings. */
  datatype Json =
    | JNull
    | JBool(b: bool)
    | JInt(i: int)
    | JFloat(f: real)
    | JStr(s: string)
    | JArr(items: seq<Json>)
    | JObj(fields: map<string, Json>)

  /** Python's `bool(v)`. */
  predicate Truthy(v: Json) {
    match v
    case JNull => false
    case JBool(b) => b
    case JInt(i) => i != 0
    case JFloat(f) => f != 0.0
    case JStr(s) => |s| > 0
    case JArr(items) => |items| > 0
    case JObj(fields) => |fields| > 0
  }

  /** Python's `type(v).__name__`. */
  function TypeName(v: Json): string {
    match v
    case JNull => "NoneType"
    case JBool(_) => "bool"
    case JInt(_) => "int"
    case JFloat(_) => "float"
    case JStr(_) => "str"
    case JArr(_) => "list"
    case JObj(_) => "dict"
  }

  /** Python's `len(v)`; `None` where `len` raises `TypeError`. */
  function Len(v: Json): (r: Option<nat>)
    ensures r.Some? <==> (v.JStr? || v.JArr? || v.JObj?)
  {
    match v
    case JStr(s) => Some(|s|)
    case JArr(items) => Some(|items|)
    case JObj(fields) => Some(|fields|)
    case _ => None
  }

  /** Python's `v[k]` for a non-negative integer `k`; `None` where it raises
      (`IndexError` past the end, `KeyError` on a dict, whose keys are
      strings, `TypeError` on a scalar). Indexing a string gives the
      one-character string at that position. */
  function Index(v: Json, k: nat): (r: Option<Json>)
    ensures r.Some? <==> (v.JStr? || v.JArr?) && k < Len(v).value
    ensures v.JArr? && r.Some? ==> r.value == v.items[k]
    ensures v.JStr? && r.Some? ==> r.value == JStr([v.s[k]])
  {
    match v
    case JArr(items) => if k < |items| then Some(items[k]) else None
    case JStr(s) => if k < |s| then Some(JStr([s[k]])) else None
    case _ => None
  }

  /** Library code the model does not look inside, as given functions.
      A `None` result stands for the call raising an exception. */
  datatype Lib = Lib(
    /** `urllib.parse.urlparse(url).path` */
    urlPath: string -> Option<string>,
    /** `BeautifulSoup(html, "html.parser").select_one("c-wiz > div")`,
        giving the element's `data-n-a-sg` and `data-n-a-ts` attributes */
    selectDiv: string -> Option<DivAttrs>,
    /** `json.loads(text)` */
    jsonLoads: string -> Option<Json>,
    /** `json.dumps(text)` for a string argument */
    jsonDumpsStr: string -> string,
    /** `urllib.parse.quote(text)` */
    quote: string -> string)

  /** What `div.get("data-n-a-sg")` and `div.get("data-n-a-ts")` return:
      `None` for an absent attribute. */
  datatype DivAttrs = DivAttrs(signature: Option<string>, timestamp: Option<string>)

  /** The text an f-string substitutes for an optional string: Python
      renders `None` as `"None"`. */
  function FormatOpt(v: Option<string>): (r: string)
    ensures v.Some? ==> r == v.value
    ensures v.None? ==> r == "None"
  {
    match v
    case Some(s) => s
    case None => "None"
  }
}
