/** Values shared by the whole model: the configuration struct as an explicit
    field-descriptor sequence (what `reflect` gives the Go code), the doozer
    store and its watch replies, and the JSON decoder as an abstract codec. */
module Doozer {

  newtype byte = x: int | 0 <= x < 256
  type Bytes = seq<byte>

  /** Go's `int64`, the type `setFieldWithData` decodes integers into. */
  newtype int64 = x: int | -0x8000_0000_0000_0000 <= x < 0x8000_0000_0000_0000

  datatype Option<+T> = None | Some(value: T)

  datatype Result<+T> = Ok(value: T) | Err(error: Error)

  /** A Go `reflect.Kind`, kept as its numeric code (Invalid = 0 … UnsafePointer = 26). */
  newtype Kind = k: int | 0 <= k <= 26

  const IntKind: Kind := 2
  const MapKind: Kind := 21
  const StringKind: Kind := 24

  /** The two kinds `setFieldWithData` knows how to fill. */
  predicate Supported(k: Kind) {
    k == IntKind || k == StringKind
  }

  /** One declared field of the configuration struct: its `doozer` tag
      ("" when the field has none) and its kind. */
  datatype FieldDecl = FieldDecl(tag: string, kind: Kind)

  /** The content of one struct field. A field of an unsupported kind holds
      something this model never looks at. */
  datatype Value = IntValue(n: int64) | StringValue(s: string) | OtherValue(id: int)

  /** The Go type system: a field always holds a value of its declared kind. */
  predicate HasKind(v: Value, k: Kind) {
    if k == IntKind then v.IntValue?
    else if k == StringKind then v.StringValue?
    else v.OtherValue?
  }

  predicate Typed(decls: seq<FieldDecl>, vals: seq<Value>) {
    |vals| == |decls| && forall j :: 0 <= j < |vals| ==> HasKind(vals[j], decls[j].kind)
  }

  datatype Error =
    | GetError(cause: string)          // returned by conn.Get
    | UnsupportedField(message: string) // returned by setFieldWithData
    | NotFound(path: string)            // the intended error for a missing key

  /** `json.Unmarshal` into an `int64` or a `string`: None when the payload
      does not decode to that type. */
  datatype Codec = Codec(decodeInt: Bytes -> Option<int64>, decodeString: Bytes -> Option<string>)

  /** The answer to `conn.Get(path, nil)`: the body and the revision of the
      file, or the error of the call. */
  datatype GetReply = Found(data: Bytes, rev: int) | GetFailed(cause: string)

  /** The revision doozer gives a file that does not exist. */
  const MissingRev: int := 0

  /** The store as seen by `Get`: a path with no entry is a missing file, which
      doozer answers with an empty body at the missing revision, not with an
      error. */
  type Store = map<string, GetReply>

  function Get(store: Store, path: string): (r: GetReply)
    ensures path !in store ==> r == Found([], MissingRev)
  {
    if path in store then store[path] else Found([], MissingRev)
  }

  /** A mutation reported by `conn.Wait`. */
  datatype Event = Event(path: string, rev: int, body: Bytes)

  /** The answer to one `conn.Wait(glob, rev)` call. */
  datatype WaitReply = Delivered(event: Event) | WaitFailed(cause: string)
}
