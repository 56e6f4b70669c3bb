/**
 * The slice of org.json the hub uses. Decoding a text is an oracle; a decoded value is
 * an object or a leaf, a leaf standing for any non-object value together with the
 * text `getString` renders it as.
 */
module Json {

  import opened Faults

  datatype JsonValue = JObject(fields: map<string, JsonValue>) | JText(text: string)

  /** `new JSONObject(text)` before its check that the text is an object: None is a JSONException. */
  type JsonDecoder = string -> Option<JsonValue>

  /** `new JSONObject(text)`: the fields of the object the text holds. */
  function DecodeObject(decode: JsonDecoder, text: string): Option<map<string, JsonValue>> {
    match decode(text)
    case Some(JObject(fields)) => Some(fields)
    case _ => None
  }

  /** `o.getString(key)`: the text of a leaf under the key. */
  function GetString(fields: map<string, JsonValue>, key: string): Option<string> {
    if key in fields && fields[key].JText? then Some(fields[key].text) else None
  }

  /** `o.getJSONObject(key)`: the fields of an object under the key. */
  function GetObject(fields: map<string, JsonValue>, key: string): Option<map<string, JsonValue>> {
    if key in fields && fields[key].JObject? then Some(fields[key].fields) else None
  }
}
