/** The few facts about .NET types that the mapping layer relies on. */
module ClrTypes {

  /** A property or entity type: a reference type, a plain value type, or
      Nullable<T> over the value type named `underlying`. */
  datatype ClrType =
    | ReferenceType(name: string)
    | ValueType(name: string)
    | NullableType(underlying: string)
  {
    /** Type.IsValueType: Nullable<T> is itself a value type. */
    predicate IsValueType() {
      !ReferenceType?
    }

    /** The Nullable<> test of the type extensions. */
    predicate IsNullableType() {
      NullableType?
    }

    /** Type.Name, as table names in SQL text use it. */
    function Name(): string {
      match this
      case ReferenceType(n) => n
      case ValueType(n) => n
      case NullableType(_) => "Nullable`1"
    }

    /** The step `isNullableType ? Nullable.GetUnderlyingType(t) : t`: the
        underlying value type of a Nullable<T>, the type itself otherwise. */
    function Underlying(): (r: ClrType)
      ensures IsNullableType() ==> r == ValueType(underlying)
      ensures !IsNullableType() ==> r == this
      ensures !r.IsNullableType()
    {
      if NullableType? then ValueType(underlying) else this
    }
  }

  /** A value converter as the caller writes it: a lambda from the property
      type to object, kept as its source text. */
  datatype ValueConverter = ValueConverter(text: string)

  /** The same converter adapted to take `object`: a lambda that converts its
      argument to the property type and invokes the caller's lambda on it. */
  datatype ObjectConverter = ObjectConverter(inner: ValueConverter)

  /** A converter compiled to a delegate, as field definitions store it. */
  datatype CompiledConverter = CompiledConverter(source: ObjectConverter)
}
