/** A decoded contract specification (internal/abi/spec.go). */
module ContractSpecs {
  import opened TypeDefs

  datatype Field = Field(name: string, ty: TypeDef)
  datatype Function = Function(name: string, doc: string, inputs: seq<Field>, outputs: seq<TypeDef>)
  datatype Struct = Struct(name: string, doc: string, fields: seq<Field>)
  datatype EnumCase = EnumCase(name: string, value: U32)
  datatype Enum = Enum(name: string, doc: string, cases: seq<EnumCase>)
  datatype UnionCase = VoidCase(name: string) | TupleCase(name: string, types: seq<TypeDef>)
  datatype Union = Union(name: string, doc: string, cases: seq<UnionCase>)
  datatype EventParam = EventParam(name: string, ty: TypeDef, topic: bool)
  datatype Event = Event(name: string, doc: string, params: seq<EventParam>)

  datatype ContractSpec = ContractSpec(
    functions: seq<Function>,
    structs: seq<Struct>,
    enums: seq<Enum>,
    unions: seq<Union>,
    errorEnums: seq<Enum>,
    events: seq<Event>)

  const EMPTY_SPEC := ContractSpec([], [], [], [], [], [])
}
