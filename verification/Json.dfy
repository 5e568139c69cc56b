/** JSON values as the services hold them after parsing. The order of an object's
    keys is not observable here; StableStringify works on the ordered form. */
module Json {

  type JsonObject = map<string, Json>

  /** A number is kept as the text ECMAScript prints for it. */
  type NumberText = s: string | IsNumberText(s) witness "0"

  predicate IsNumberText(s: string) {
    s != "" && forall c | c in s :: IsNumberChar(c)
  }

  predicate IsNumberChar(c: char) {
    c in "0123456789+-.e"
  }

  datatype Json =
    | Null
    | Bool(b: bool)
    | Number(text: NumberText)
    | String(s: string)
    | Array(items: seq<Json>)
    | Object(fields: map<string, Json>)

  datatype Option<+T> = None | Some(value: T)
}
