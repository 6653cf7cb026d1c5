/**
 * The values the record actions exchange: JSON records as a collection file
 * holds them, the submitted form, and the result objects the actions return.
 */
module Records {
  import opened Base
  import opened Text

  /**
   * A JSON value a record field holds. `Num` is an integral number (ids, ages,
   * years of experience), `Real` a number produced by `parseFloat` (GPA, salary).
   */
  datatype Value = Null | Num(n: int) | Real(x: real) | Str(s: string) | List(items: seq<string>)

  /** A JSON object: field name to value. */
  type Record = map<string, Value>

  /** Submitted form data: `formData.get(k)` is `form[k]` when `k` is present and `null` otherwise. */
  type Form = map<string, string>

  /** `record.id` when `typeof record.id === "number"`; records with a missing or non-numeric id have none. */
  function Id(r: Record): (id: Option<int>)
    ensures id.Some? <==> "id" in r && r["id"].Num?
  {
    if "id" in r && r["id"].Num? then Some(r["id"].n) else None
  }

  /** `record.id` as JavaScript reads it: `None` stands for `undefined`, a record without an `id` field. */
  function IdField(r: Record): (v: Option<Value>)
    ensures v.None? <==> "id" !in r
    ensures v.Some? ==> v.value == r["id"]
  {
    if "id" in r then Some(r["id"]) else None
  }

  /**
   * JavaScript's `===` between two values read from a collection file or
   * handed to an action. Numbers compare by value whether `Num` or `Real`
   * holds them; two arrays are never the same object.
   */
  predicate SameValue(x: Value, y: Value) {
    match (x, y)
    case (Null, Null) => true
    case (Num(m), Num(n)) => m == n
    case (Num(m), Real(b)) => m as real == b
    case (Real(a), Num(n)) => a == n as real
    case (Real(a), Real(b)) => a == b
    case (Str(s), Str(t)) => s == t
    case _ => false
  }

  /** `===` on values that may be `undefined` (`None`): `undefined` equals only itself. */
  predicate StrictEquals(a: Option<Value>, b: Option<Value>) {
    match (a, b)
    case (None, None) => true
    case (Some(x), Some(y)) => SameValue(x, y)
    case _ => false
  }

  /** `record.id === id`, for an `id` that may be `undefined`. */
  predicate HasId(r: Record, id: Option<Value>) {
    StrictEquals(IdField(r), id)
  }

  /**
   * What `record.id === id` picks out: for a number, the records whose `id`
   * is that number; for a string, the records whose `id` is that string; for
   * `undefined`, the records with no `id` at all.
   */
  lemma HasIdCases(r: Record, id: Option<Value>)
    ensures id.Some? && id.value.Num? ==> (HasId(r, id) <==> Id(r) == Some(id.value.n) || ("id" in r && r["id"] == Real(id.value.n as real)))
    ensures id.Some? && id.value.Str? ==> (HasId(r, id) <==> "id" in r && r["id"] == id.value)
    ensures id.None? ==> (HasId(r, id) <==> "id" !in r)
    ensures id.Some? && id.value.List? ==> !HasId(r, id)
  {
  }

  /** `record.email` when it is a string; only strings can equal the email a create action compares. */
  function EmailOf(r: Record): (email: Option<string>)
    ensures email.Some? <==> "email" in r && r["email"].Str?
  {
    if "email" in r && r["email"].Str? then Some(r["email"].s) else None
  }

  /**
   * `formData.get(key)?.trim()`, with an absent field read as `""`: the two
   * are alike wherever the actions use the value (both are falsy, and a
   * record is only built from fields validation found present).
   */
  function Trimmed(form: Form, key: string): (t: string)
    ensures IsTrimmed(t)
    ensures key in form ==> t == Trim(form[key])
    ensures key !in form ==> t == ""
  {
    if key in form then Trim(form[key]) else ""
  }

  /** `!formData.get(key)?.trim()`: the field is absent or nothing but whitespace. */
  predicate Missing(form: Form, key: string) {
    key !in form || AllWhitespace(form[key])
  }

  /** A field is missing exactly when trimming leaves nothing of it. */
  lemma MissingTrimmed(form: Form, key: string)
    ensures Missing(form, key) <==> Trimmed(form, key) == ""
  {
    if key in form {
      TrimBlank(form[key]);
    }
  }

  /** `if (formData.get(key))`: the field is present and not the empty string. */
  predicate Given(form: Form, key: string) {
    key in form && form[key] != ""
  }

  /** `formData.get(key)` stored as it is: `null` when absent. */
  function Raw(form: Form, key: string): (v: Value)
    ensures v.Null? <==> key !in form
    ensures key in form ==> v == Str(form[key])
  {
    if key in form then Str(form[key]) else Null
  }

  /** `formData.get(key) || fallback`: an absent or empty field gives `fallback`. */
  function OrElse(form: Form, key: string, fallback: Value): (v: Value)
    ensures Given(form, key) ==> v == Str(form[key])
    ensures !Given(form, key) ==> v == fallback
  {
    if Given(form, key) then Str(form[key]) else fallback
  }

  /**
   * `formData.get(key) ? parseInt(formData.get(key)) : null`. A `NaN` from
   * `parseInt` is written to the file as `null`, so it is `Null` here too.
   */
  function IntOrNull(form: Form, key: string): (v: Value)
    ensures v.Num? <==> Given(form, key) && ParseInt(form[key]).Some?
    ensures v.Num? ==> v.n == ParseInt(form[key]).value
    ensures !v.Num? ==> v.Null?
  {
    if Given(form, key) then
      match ParseInt(form[key])
      case Some(n) => Num(n)
      case None => Null
    else Null
  }

  /** `formData.get(key) ? parseFloat(formData.get(key)) : null`, with `parseFloat` supplied by the caller. */
  function RealOrNull(form: Form, key: string, parseFloat: string -> Option<real>): (v: Value)
    ensures v.Real? <==> Given(form, key) && parseFloat(form[key]).Some?
    ensures v.Real? ==> v.x == parseFloat(form[key]).value
    ensures !v.Real? ==> v.Null?
  {
    if Given(form, key) then
      match parseFloat(form[key])
      case Some(x) => Real(x)
      case None => Null
    else Null
  }

  /** The comma-separated list input: parsed when given, `[]` otherwise. */
  function ListOrEmpty(form: Form, key: string): (v: Value)
    ensures v.List?
    ensures Given(form, key) ==> v.items == ParseList(form[key])
    ensures !Given(form, key) ==> v.items == []
  {
    if Given(form, key) then List(ParseList(form[key])) else List([])
  }

  /** `{ success, errors, message }`: what a create action hands back to its form. */
  datatype FormState = FormState(success: bool, errors: map<string, string>, message: string)

  /** `{ success: true, data }`, `{ success: true, message }` or `{ success: false, error }`. */
  datatype Reply = Data(records: seq<Record>) | Item(record: Record) | Done(message: string) | Error(error: string)
}
