/**
 * The list endpoints' shared helpers (apps/api/src/routes/v1/pagination.ts):
 * the opaque cursor — base64url of the UTF-8 of a two-field JSON object —
 * its lenient decoder, `requireCursor`, and `parseLimit`.
 */
module Pagination {
  import opened Wrappers
  import Base64
  import Utf8
  import opened Json
  import JsNumber
  import opened Http
  import opened Ordering

  /** A decoded cursor: the creation time as text and the row id. */
  datatype Cursor = Cursor(createdAt: string, id: string)

  /** The JSON text of a flat string object as it travels in a cursor. */
  function FlatText(m: seq<(string, string)>): string {
    Base64.Encode(Utf8.Encode(StringifyFlat(m)))
  }

  function Fields(c: Cursor): seq<(string, string)> {
    [("created_at", c.createdAt), ("id", c.id)]
  }

  /** `encodeCursor` */
  function EncodeCursor(c: Cursor): (s: string)
    ensures |s| > 0
    ensures forall i :: 0 <= i < |s| ==> Base64.Value(s[i]).Some?
  {
    var b := Utf8.Encode(StringifyFlat(Fields(c)));
    assert |b| > 0;
    FlatText(Fields(c))
  }

  /**
   * `decodeCursor`: null for an absent or empty string, and for anything
   * whose decoded JSON is not an object with string `created_at` and `id`
   * (a parse error is caught; a non-object has neither property).
   */
  function DecodeCursor(raw: Option<string>): (r: Option<Cursor>)
    ensures raw.None? || raw == Some("") ==> r.None?
  {
    if raw.None? || raw.value == "" then None
    else CursorOfJson(Parse(Utf8.Decode(Base64.Decode(raw.value))))
  }

  /** The cursor a parse result stands for: an object with string `created_at` and `id`. */
  function CursorOfJson(v: Option<Json>): Option<Cursor> {
    match v
    case Some(JObj(m)) =>
      (match (Get(m, "created_at"), Get(m, "id"))
       case (Some(JStr(t)), Some(JStr(id))) => Some(Cursor(t, id))
       case _ => None)
    case _ => None
  }

  /**
   * Any flat object carried in a cursor decodes to its last `created_at` and
   * last `id`; other members are ignored.
   */
  lemma DecodeFlat(m: seq<(string, string)>, i: nat, j: nat)
    requires i < |m| && m[i].0 == "created_at" && forall k :: i < k < |m| ==> m[k].0 != "created_at"
    requires j < |m| && m[j].0 == "id" && forall k :: j < k < |m| ==> m[k].0 != "id"
    ensures DecodeCursor(Some(FlatText(m))) == Some(Cursor(m[i].1, m[j].1))
  {
    var raw := FlatText(m);
    FlatTextParses(m);
    assert DecodeCursor(Some(raw)) == CursorOfJson(Some(JObj(AsJson(m))));
    CursorOfMembers(m, i, j);
  }

  lemma CursorOfMembers(m: seq<(string, string)>, i: nat, j: nat)
    requires i < |m| && m[i].0 == "created_at" && forall k :: i < k < |m| ==> m[k].0 != "created_at"
    requires j < |m| && m[j].0 == "id" && forall k :: j < k < |m| ==> m[k].0 != "id"
    ensures CursorOfJson(Some(JObj(AsJson(m)))) == Some(Cursor(m[i].1, m[j].1))
  {
    var members := AsJson(m);
    GetIsLast(members, "created_at", i);
    GetIsLast(members, "id", j);
  }

  /** The text inside a cursor made from a flat object parses back to that object. */
  lemma FlatTextParses(m: seq<(string, string)>)
    ensures |FlatText(m)| > 0
    ensures Parse(Utf8.Decode(Base64.Decode(FlatText(m)))) == Some(JObj(AsJson(m)))
  {
    var text := StringifyFlat(m);
    Base64.DecodeEncode(Utf8.Encode(text));
    Utf8.DecodeEncode(text);
    ParseStringifyFlat(m);
  }

  /** A flat object without one of the two fields decodes to null. */
  lemma DecodeFlatMissing(m: seq<(string, string)>)
    requires (forall k :: 0 <= k < |m| ==> m[k].0 != "created_at") || (forall k :: 0 <= k < |m| ==> m[k].0 != "id")
    ensures DecodeCursor(Some(FlatText(m))) == None
  {
    FlatTextParses(m);
  }

  /** Decoding an encoded cursor gives it back. */
  lemma DecodeEncode(c: Cursor)
    ensures DecodeCursor(Some(EncodeCursor(c))) == Some(c)
  {
    DecodeFlat(Fields(c), 0, 1);
  }

  /** Distinct cursors have distinct encodings. */
  lemma EncodeInjective(c: Cursor, d: Cursor)
    ensures EncodeCursor(c) == EncodeCursor(d) <==> c == d
  {
    DecodeEncode(c);
    DecodeEncode(d);
  }

  const InvalidCursor: ApiError := Err(400, BadRequest, "Invalid cursor")

  /** `requireCursor`: the decoded cursor, or 400 exactly when decoding gives null. */
  function RequireCursor(raw: Option<string>): (r: Outcome<Cursor>)
    ensures r.Ok? <==> DecodeCursor(raw).Some?
    ensures r.Ok? ==> r.value == DecodeCursor(raw).value
    ensures r.Fail? ==> r.err == InvalidCursor
  {
    match DecodeCursor(raw)
    case Some(c) => Ok(c)
    case None => Fail(InvalidCursor)
  }

  /** What `parseLimit` may receive from a query string: a string, a number, or anything else (an array, an object, nothing). */
  datatype LimitInput = LStr(s: string) | LNum(n: JsNumber.Number) | LOther

  /** Bounds and fallback of one endpoint; the source's defaults are 1, 50 and 25. */
  datatype LimitOptions = LimitOptions(min: int, max: int, def: int)

  const DefaultLimits: LimitOptions := LimitOptions(1, 50, 25)

  /** `i` moved into [min, max], the lower bound checked first. */
  function Clamp(i: int, o: LimitOptions): int {
    if i < o.min then o.min else if i > o.max then o.max else i
  }

  /**
   * `parseLimit`: a finite number (or numeric string) is truncated toward
   * zero and clamped; a non-finite one yields the fallback unclamped; any
   * other input is the clamped fallback.
   */
  function ParseLimit(raw: LimitInput, o: LimitOptions): (r: int)
    ensures raw.LOther? ==> r == Clamp(o.def, o)
    ensures raw.LNum? && raw.n.IsFinite() ==> r == Clamp(JsNumber.Trunc(raw.n.value), o)
    ensures raw.LNum? && !raw.n.IsFinite() ==> r == o.def
    ensures raw.LStr? && JsNumber.ToNumber(raw.s).IsFinite() ==> r == Clamp(JsNumber.Trunc(JsNumber.ToNumber(raw.s).value), o)
    ensures raw.LStr? && !JsNumber.ToNumber(raw.s).IsFinite() ==> r == o.def
  {
    var n := match raw
      case LStr(s) => JsNumber.ToNumber(s)
      case LNum(x) => x
      case LOther => JsNumber.Finite(o.def as real);
    if !n.IsFinite() then o.def
    else
      var i := JsNumber.Trunc(n.value);
      if i < o.min then o.min else if i > o.max then o.max else i
  }

  /** With sane bounds every result lies in [min, max], except the unclamped fallback for a non-finite input. */
  lemma LimitInBounds(raw: LimitInput, o: LimitOptions)
    requires o.min <= o.max
    ensures var r := ParseLimit(raw, o);
      (o.min <= r <= o.max) || r == o.def
    ensures raw.LOther? ==> o.min <= ParseLimit(raw, o) <= o.max
  {
  }

  /** `Number.MAX_SAFE_INTEGER` */
  const MaxSafeInteger: int := 9007199254740991

  /** A limit the client writes in decimal within the bounds is the limit the server uses. */
  lemma LimitOfDecimal(n: nat, o: LimitOptions)
    requires o.min <= n <= o.max && n <= MaxSafeInteger
    ensures ParseLimit(LStr(JsNumber.NatToString(n)), o) == n
  {
    JsNumber.NumberOfNatString(n);
  }

  /** A blank or absent-looking string is Number("") = 0, so it is clamped up to the minimum. */
  lemma BlankLimitIsMinimum(o: LimitOptions)
    requires 0 < o.min <= o.max
    ensures ParseLimit(LStr(""), o) == o.min
  {
  }

  // ------------------------------------------------------------ keyset paging

  /**
   * How creation times travel in a cursor: `toISOString` on the way out and
   * the database's conversion of that text on the way back.
   */
  datatype TimeText = TimeText(format: int -> string, parse: string -> int)

  ghost predicate RoundTrips(tt: TimeText) {
    forall t :: tt.parse(tt.format(t)) == t
  }

  /** The listing key a decoded cursor stands for. */
  function CursorKey(c: Option<Cursor>, tt: TimeText): Option<Key> {
    match c
    case Some(x) => Some(Key(tt.parse(x.createdAt), x.id))
    case None => None
  }

  /** The `next_cursor` a handler writes for the key of its last returned row. */
  function NextCursor(next: Option<Key>, tt: TimeText): (r: Option<string>)
    ensures r.Some? <==> next.Some?
  {
    match next
    case Some(k) => Some(EncodeCursor(Cursor(tt.format(k.createdAt), k.id)))
    case None => None
  }

  /** The cursor a response hands out leads the next request to the same key. */
  lemma NextCursorRoundTrip(next: Option<Key>, tt: TimeText)
    ensures RoundTrips(tt) ==> CursorKey(DecodeCursor(NextCursor(next, tt)), tt) == next
  {
    if next.Some? {
      DecodeEncode(Cursor(tt.format(next.value.createdAt), next.value.id));
    }
  }
}
