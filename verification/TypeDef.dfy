/** Contract type definitions and their printed form (internal/abi/printer.go). */
module TypeDefs {

  type U32 = n: nat | n < 0x1_0000_0000

  /** The parameterless type tags. */
  datatype Prim =
    | Val | Bool | Void | Error | U32Type | I32 | U64 | I64 | Timepoint | Duration
    | U128 | I128 | U256 | I256 | Bytes | String | Symbol | Address | MuxedAddress

  /** The tags whose payload is optional in XDR, so that malformed data can lack it. */
  datatype Payload = OptionBody | ResultBody | VecBody | MapBody | TupleBody | BytesNBody | UdtBody

  datatype TypeDef =
    | Primitive(prim: Prim)
    | OptionOf(value: TypeDef)
    | ResultOf(ok: TypeDef, err: TypeDef)
    | VecOf(element: TypeDef)
    | MapOf(key: TypeDef, val: TypeDef)
    | TupleOf(types: seq<TypeDef>)
    | BytesN(size: U32)
    | Udt(name: string)
    | NilPayload(body: Payload)
    | Unknown(tag: int)

  function PrimName(p: Prim): string {
    match p
    case Val => "Val"
    case Bool => "Bool"
    case Void => "Void"
    case Error => "Error"
    case U32Type => "U32"
    case I32 => "I32"
    case U64 => "U64"
    case I64 => "I64"
    case Timepoint => "Timepoint"
    case Duration => "Duration"
    case U128 => "U128"
    case I128 => "I128"
    case U256 => "U256"
    case I256 => "I256"
    case Bytes => "Bytes"
    case String => "String"
    case Symbol => "Symbol"
    case Address => "Address"
    case MuxedAddress => "MuxedAddress"
  }

  function NilName(b: Payload): string {
    match b
    case OptionBody => "Option<?>"
    case ResultBody => "Result<?, ?>"
    case VecBody => "Vec<?>"
    case MapBody => "Map<?, ?>"
    case TupleBody => "()"
    case BytesNBody => "BytesN(?)"
    case UdtBody => "UDT(?)"
  }

  function Digit(d: nat): char
    requires d < 10
  {
    ('0' as int + d) as char
  }

  /** `%d` of a non-negative integer. */
  function Decimal(n: nat): string {
    if n < 10 then [Digit(n)] else Decimal(n / 10) + [Digit(n % 10)]
  }

  /** `%d` of any integer. */
  function Signed(n: int): string {
    if n < 0 then "-" + Decimal(-n) else Decimal(n)
  }

  function Join(parts: seq<string>, sep: string): string {
    if parts == [] then ""
    else if |parts| == 1 then parts[0]
    else parts[0] + sep + Join(parts[1..], sep)
  }

  function FormatTypeDef(t: TypeDef): string {
    match t
    case Primitive(p) => PrimName(p)
    case OptionOf(v) => "Option<" + FormatTypeDef(v) + ">"
    case ResultOf(o, e) => "Result<" + (FormatTypeDef(o) + ", " + FormatTypeDef(e)) + ">"
    case VecOf(v) => "Vec<" + FormatTypeDef(v) + ">"
    case MapOf(k, v) => "Map<" + (FormatTypeDef(k) + ", " + FormatTypeDef(v)) + ">"
    case TupleOf(ts) => "(" + Join(FormatAll(ts), ", ") + ")"
    case BytesN(n) => "BytesN(" + Decimal(n) + ")"
    case Udt(name) => name
    case NilPayload(b) => NilName(b)
    case Unknown(tag) => "Unknown(" + Signed(tag) + ")"
  }

  function FormatAll(ts: seq<TypeDef>): (r: seq<string>)
    ensures |r| == |ts|
  {
    if ts == [] then [] else [FormatTypeDef(ts[0])] + FormatAll(ts[1..])
  }
}
