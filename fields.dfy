/** `setFieldWithData`: decode a payload into one struct field according to
    the field's kind. */
module Fields {
  import opened Doozer

  const UnsupportedPrefix: string := "doozerconfig: unsupported field "

  /** The names `reflect.Kind.String()` gives, indexed by kind code. */
  const KindNames: seq<string> := [
    "invalid", "bool", "int", "int8", "int16", "int32", "int64",
    "uint", "uint8", "uint16", "uint32", "uint64", "uintptr",
    "float32", "float64", "complex64", "complex128", "array", "chan",
    "func", "interface", "map", "ptr", "slice", "string", "struct",
    "unsafe.Pointer"]

  predicate Printable(s: string) {
    forall i :: 0 <= i < |s| ==> ' ' <= s[i] <= '~'
  }

  /** The error message as the code builds it: `string(field.Kind())`
      converts the kind's number to the one-rune string with that code point. */
  function UnsupportedMessageAsWritten(k: Kind): (m: string)
    ensures |m| == |UnsupportedPrefix| + 1 && m[..|UnsupportedPrefix|] == UnsupportedPrefix
  {
    UnsupportedPrefix + [(k as int) as char]
  }

  /** The message evidently meant: the prefix followed by the kind's name. */
  function UnsupportedMessage(k: Kind): (m: string)
    ensures |m| >= |UnsupportedPrefix| + 3 && m[..|UnsupportedPrefix|] == UnsupportedPrefix
    ensures Printable(m)
  {
    KindNamesPrintable();
    UnsupportedPrefix + KindNames[k]
  }

  lemma KindNamesPrintable()
    ensures forall k :: 0 <= k < |KindNames| ==> |KindNames[k]| >= 3 && Printable(KindNames[k])
  {
  }

  /** Every message the code can produce ends in a control character, so it
      never names the kind the way the intended message does. */
  lemma AsWrittenMessageUnreadable(k: Kind)
    ensures !Printable(UnsupportedMessageAsWritten(k))
    ensures UnsupportedMessageAsWritten(k) != UnsupportedMessage(k)
  {
    var m := UnsupportedMessageAsWritten(k);
    assert m[|m| - 1] == (k as int) as char;
    KindNamesPrintable();
    assert |UnsupportedMessage(k)| >= |UnsupportedPrefix| + 3;
  }

  /** The counterexample: a map field yields U+0015 where "map" was meant. */
  lemma MapFieldMessage()
    ensures UnsupportedMessageAsWritten(MapKind) == UnsupportedPrefix + [21 as char]
    ensures UnsupportedMessage(MapKind) == UnsupportedPrefix + "map"
  {
  }

  /** What `setFieldWithData` stores in a field of kind `k` given payload `data`:
      for Int and String the decoded value, or the zero value when decoding
      fails (the error of `json.Unmarshal` is discarded and `val` is freshly
      declared); for every other kind the unsupported-field error, with the
      message the code builds. */
  function FieldValue(k: Kind, data: Bytes, codec: Codec): (r: Result<Value>)
    ensures r.Ok? <==> Supported(k)
    ensures r.Ok? ==> HasKind(r.value, k)
    ensures r.Err? ==> r.error == UnsupportedField(UnsupportedMessageAsWritten(k))
    ensures k == IntKind && codec.decodeInt(data).Some? ==> r == Ok(IntValue(codec.decodeInt(data).value))
    ensures k == StringKind && codec.decodeString(data).Some? ==> r == Ok(StringValue(codec.decodeString(data).value))
    ensures k == IntKind && codec.decodeInt(data).None? ==> r == Ok(IntValue(0))
    ensures k == StringKind && codec.decodeString(data).None? ==> r == Ok(StringValue(""))
  {
    if k == IntKind then
      Ok(IntValue(match codec.decodeInt(data) case Some(n) => n case None => 0))
    else if k == StringKind then
      Ok(StringValue(match codec.decodeString(data) case Some(s) => s case None => ""))
    else
      Err(UnsupportedField(UnsupportedMessageAsWritten(k)))
  }

  /** `setFieldWithData(field, data)`, the field being element `j` of the
      struct's storage. */
  method SetFieldWithData(fieldsOf: array<Value>, j: nat, k: Kind, data: Bytes, codec: Codec)
    returns (err: Option<Error>)
    requires j < fieldsOf.Length
    modifies fieldsOf
    ensures FieldValue(k, data, codec).Ok? ==>
      err == None && fieldsOf[..] == old(fieldsOf[..])[j := FieldValue(k, data, codec).value]
    ensures FieldValue(k, data, codec).Err? ==>
      err == Some(FieldValue(k, data, codec).error) && fieldsOf[..] == old(fieldsOf[..])
  {
    if k == IntKind {
      var val: int64 := 0;
      match codec.decodeInt(data) {
        case Some(n) => val := n;
        case None =>
      }
      fieldsOf[j] := IntValue(val);
    } else if k == StringKind {
      var val: string := "";
      match codec.decodeString(data) {
        case Some(s) => val := s;
        case None =>
      }
      fieldsOf[j] := StringValue(val);
    } else {
      return Some(UnsupportedField(UnsupportedMessageAsWritten(k)));
    }
    return None;
  }
}
