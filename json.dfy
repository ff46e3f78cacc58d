/** JSON documents as the locale files and the translation service deliver them. */
module Json {

  /**
   * A decoded JSON value: what `json.loads` hands back. Numbers are kept as
   * integers; nothing in the locale sync looks inside a number.
   */
  datatype Value =
    | Null
    | Bool(b: bool)
    | Number(n: int)
    | String(str: string)
    | Array(items: seq<Value>)
    | Object(members: seq<(string, Value)>)
}
