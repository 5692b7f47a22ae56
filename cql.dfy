/** The part of the CQL serialization layer that the binders rely on. The
    codecs themselves live in another crate and are not part of this model:
    a value is known only through its ability to serialize itself. */
module Cql {
  import opened Wrappers

  /** A CQL column type, as reported in a prepared statement's metadata. */
  type ColumnType

  /** Why a value could not be serialized against a column type. */
  type SerializationError

  newtype byte = x: int | 0 <= x < 256

  type Bytes = seq<byte>

  /** A type-erased bound value: it either encodes itself for a given column
      type or reports a serialization error (for instance, a type mismatch). */
  datatype DynValue = DynValue(serialize: ColumnType -> Result<Bytes, SerializationError>)

  /** The wire representation of `v` for a column of type `typ`. */
  function Encode(v: DynValue, typ: ColumnType): Result<Bytes, SerializationError>
  {
    v.serialize(typ)
  }

  /** An already serialized row of values, one encoded element per bound value. */
  datatype SerializedValues = SerializedValues(elements: seq<Bytes>)
  {
    function ElementCount(): nat
    {
      |elements|
    }
  }

  const EmptyValues: SerializedValues := SerializedValues([])

  /** Appends the encoding of `v` for `typ`, or fails with the value's own error. */
  function AddValue(values: SerializedValues, v: DynValue, typ: ColumnType): (r: Result<SerializedValues, SerializationError>)
    ensures r.Ok? <==> Encode(v, typ).Ok?
    ensures r.Ok? ==> r.value.elements == values.elements + [Encode(v, typ).value]
    ensures r.Err? ==> r.error == Encode(v, typ).error
  {
    match Encode(v, typ)
    case Ok(bytes) => Ok(SerializedValues(values.elements + [bytes]))
    case Err(e) => Err(e)
  }
}
