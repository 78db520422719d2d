/** `Value` (asteria/src/value.hpp): the script value, a tagged union over nine
    alternatives whose `Type` numbering equals the alternative order. */
module Values {
  import opened Wrappers
  import Variant

  newtype Int64 = x: int | -0x8000_0000_0000_0000 <= x < 0x8000_0000_0000_0000

  /** The nine alternatives, in the order of `Value::Variant`. A double is kept as an
      opaque marker (`real`), not as an IEEE-754 number. Opaque and function values
      are handles to host objects. */
  datatype Value =
    | Null
    | Boolean(b: bool)
    | Integer(i: Int64)
    | Double(d: real)
    | String(s: string)
    | Opaque(opaqueHandle: nat)
    | Function(functionHandle: nat)
    | Array(elems: seq<Value>)
    | Object(members: map<string, Value>)

  /** `Value::Type`. */
  datatype Type =
    | TypeNull | TypeBoolean | TypeInteger | TypeDouble | TypeString
    | TypeOpaque | TypeFunction | TypeArray | TypeObject

  /** `Value::Compare`. */
  datatype Compare = CompareUnordered | CompareLess | CompareEqual | CompareGreater

  const AlternativeCount: nat := 9

  /** The numeric value of each `Type` enumerator. */
  function TypeCode(t: Type): (k: nat)
    ensures k < AlternativeCount
  {
    match t
    case TypeNull => 0
    case TypeBoolean => 1
    case TypeInteger => 2
    case TypeDouble => 3
    case TypeString => 4
    case TypeOpaque => 5
    case TypeFunction => 6
    case TypeArray => 7
    case TypeObject => 8
  }

  /** The numeric value of each `Compare` enumerator. */
  function CompareCode(c: Compare): nat
  {
    match c
    case CompareUnordered => 0
    case CompareLess => 1
    case CompareEqual => 2
    case CompareGreater => 3
  }

  /** The index of the active alternative of the underlying variant: the position of
      the value's constructor in `Value::Variant`. */
  function AlternativeIndex(v: Value): (r: nat)
    ensures r < AlternativeCount
  {
    match v
    case Null => 0
    case Boolean(_) => 1
    case Integer(_) => 2
    case Double(_) => 3
    case String(_) => 4
    case Opaque(_) => 5
    case Function(_) => 6
    case Array(_) => 7
    case Object(_) => 8
  }

  /** `static_cast<Type>(index)`, defined for the nine valid indices. */
  function TypeFromIndex(k: nat): (t: Type)
    requires k < AlternativeCount
    ensures TypeCode(t) == k
  {
    if k == 0 then TypeNull
    else if k == 1 then TypeBoolean
    else if k == 2 then TypeInteger
    else if k == 3 then TypeDouble
    else if k == 4 then TypeString
    else if k == 5 then TypeOpaque
    else if k == 6 then TypeFunction
    else if k == 7 then TypeArray
    else TypeObject
  }

  /** `Value()`: the default value holds null. */
  function DefaultValue(): (v: Value)
    ensures AlternativeIndex(v) == 0 && TypeOf(v) == TypeNull
  {
    Null
  }

  /** `Value::type()`: the active variant index read as a `Type`. */
  function TypeOf(v: Value): Type
  {
    TypeFromIndex(AlternativeIndex(v))
  }

  /** `Value::opt<AltT>()`: the value when its active alternative is `t`, null otherwise. */
  function Opt(v: Value, t: Type): (r: Option<Value>)
    ensures r.Some? <==> TypeOf(v) == t
    ensures r.Some? ==> r.value == v
  {
    if TypeOf(v) == t then Some(v) else None
  }

  /** The failure of `Value::check<AltT>()`: the variant's index-mismatch error,
      naming the expected and the actual alternative index. */
  datatype CheckError = IndexMismatch(expected: nat, got: nat)

  /** `Value::check<AltT>()`: the value when its active alternative is `t`; otherwise
      the index-mismatch error. */
  function Check(v: Value, t: Type): (r: Result<Value, CheckError>)
    ensures r.Success? <==> TypeOf(v) == t
    ensures r.Success? ==> r.value == v
    ensures r.Failure? ==> r.error == IndexMismatch(TypeCode(t), AlternativeIndex(v))
  {
    if TypeOf(v) == t then Success(v) else Failure(IndexMismatch(TypeCode(t), AlternativeIndex(v)))
  }

  /** `type()` equals the active variant index, and `Type` follows the alternative
      order: the two numberings agree on every value. */
  lemma TypeMatchesVariantIndex(v: Value)
    ensures TypeCode(TypeOf(v)) == AlternativeIndex(v)
    ensures TypeOf(v) == TypeNull <==> v.Null?
    ensures TypeOf(v) == TypeBoolean <==> v.Boolean?
    ensures TypeOf(v) == TypeInteger <==> v.Integer?
    ensures TypeOf(v) == TypeDouble <==> v.Double?
    ensures TypeOf(v) == TypeString <==> v.String?
    ensures TypeOf(v) == TypeOpaque <==> v.Opaque?
    ensures TypeOf(v) == TypeFunction <==> v.Function?
    ensures TypeOf(v) == TypeArray <==> v.Array?
    ensures TypeOf(v) == TypeObject <==> v.Object?
  {
  }

  /** The `Type` enumerators carry distinct codes, so `static_cast<Type>` loses nothing. */
  lemma TypeCodeInjective(s: Type, t: Type)
    ensures TypeCode(s) == TypeCode(t) ==> s == t
  {
  }

  /** `Value(AltT&&)` stores its argument in a `rocket::variant` over the nine
      alternatives, tagged by `AlternativeIndex`. Reading that variant back gives
      `type()`, `opt<T>()` and `check<T>()`: they are thin forwards to `index()`,
      `get<T>()` and `as<T>()`. */
  method MakeVariant(v: Value) returns (m: Variant.Variant<Value>)
    ensures m.Valid() && m.size == AlternativeCount && m.tag == AlternativeIndex
    ensures m.Index() == TypeCode(TypeOf(v))
    ensures forall t :: Opt(v, t) == m.Get(TypeCode(t))
    ensures forall t :: Check(v, t).Success? <==> m.As(TypeCode(t)).Success?
  {
    m := new Variant.Variant.Converting(AlternativeCount, AlternativeIndex, v);
    TypeMatchesVariantIndex(v);
    forall t ensures Opt(v, t) == m.Get(TypeCode(t)) {
      TypeCodeInjective(t, TypeOf(v));
    }
  }
}
