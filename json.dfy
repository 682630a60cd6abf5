/** JSON documents and the library codecs (encoding/json, Python's json and base64),
    which the model keeps abstract: they are fields of `Codec`, supplied from outside. */
module Json {
  import opened Wire

  /** A JSON value as Python's `json.loads` returns it: an object becomes a dict. */
  datatype Json =
    | JObject(fields: map<string, Json>)
    | JString(text: string)
    | JNumber(n: int)
    | JNull
    | JOther                                  // arrays, booleans, fractions

  datatype Codec = Codec(
    render: Json -> Bytes,                    // the text json.Marshal writes for a JSON value
    parse: Bytes -> Option<Json>,             // Python: value.decode() then json.loads
    text: Bytes -> string,                    // how json.Marshal writes a Go string as JSON text
    b64encode: Bytes -> string,               // how json.Marshal writes a []byte (standard base64)
    b64decode: string -> Option<Bytes>)       // Python: base64.b64decode on a str

  /** The round trips the library codecs are relied on for: what Go writes, Python reads back. */
  ghost predicate RoundTrips(c: Codec) {
    && (forall j :: c.parse(c.render(j)) == Some(j))
    && (forall p :: c.b64decode(c.b64encode(p)) == Some(p))
  }
}
