/**
 * Comparing two contract specifications (internal/abi/compat.go).
 * `fold` is the case folding behind strings.EqualFold: two type strings are equal when they fold alike.
 */
module Compat {
  import opened TypeDefs
  import opened ContractSpecs

  type Fold = string -> string

  predicate EqualFold(fold: Fold, a: string, b: string) {
    fold(a) == fold(b)
  }

  datatype Status = Compatible | Additive | Conditional | Breaking

  function Rank(s: Status): nat {
    match s
    case Compatible => 0
    case Additive => 1
    case Conditional => 2
    case Breaking => 3
  }

  /** One detected difference; its kind is the constructor and its place the arguments. */
  datatype Finding =
    | FunctionRemoved(f: string)
    | FunctionAdded(f: string)
    | ParamRemoved(f: string, p: string)
    | ParamAdded(f: string, p: string)
    | ParamType(f: string, p: string)
    | ParamReorder(f: string)
    | ReturnType(f: string)
    | StructRemoved(s: string)
    | StructAdded(s: string)
    | FieldRemoved(s: string, p: string)
    | FieldAdded(s: string, p: string)
    | FieldType(s: string, p: string)
    | EnumRemoved(e: string)
    | EnumAdded(e: string)
    | EnumCaseRemoved(e: string, c: string)
    | EnumCaseAdded(e: string, c: string)
    | EnumCaseValue(e: string, c: string)
    | UnionRemoved(u: string)
    | UnionAdded(u: string)
    | UnionCaseRemoved(u: string, c: string)
    | UnionCaseAdded(u: string, c: string)

  function KindName(x: Finding): string {
    match x
    case FunctionRemoved(_) => "function_removed"
    case FunctionAdded(_) => "function_added"
    case ParamRemoved(_, _) => "function_param_removed"
    case ParamAdded(_, _) => "function_param_added"
    case ParamType(_, _) => "function_param_type_changed"
    case ParamReorder(_) => "function_param_reordered"
    case ReturnType(_) => "function_return_type_changed"
    case StructRemoved(_) => "struct_removed"
    case StructAdded(_) => "struct_added"
    case FieldRemoved(_, _) => "struct_field_removed"
    case FieldAdded(_, _) => "struct_field_added"
    case FieldType(_, _) => "struct_field_type_changed"
    case EnumRemoved(_) => "enum_removed"
    case EnumAdded(_) => "enum_added"
    case EnumCaseRemoved(_, _) => "enum_case_removed"
    case EnumCaseAdded(_, _) => "enum_case_added"
    case EnumCaseValue(_, _) => "enum_case_value_changed"
    case UnionRemoved(_) => "union_removed"
    case UnionAdded(_) => "union_added"
    case UnionCaseRemoved(_, _) => "union_case_removed"
    case UnionCaseAdded(_, _) => "union_case_added"
  }

  /** The default status of each kind of change. */
  function StatusOf(x: Finding): (s: Status)
    ensures s != Compatible
  {
    match x
    case FunctionRemoved(_) => Breaking
    case FunctionAdded(_) => Additive
    case ParamRemoved(_, _) => Breaking
    case ParamAdded(_, _) => Conditional
    case ParamType(_, _) => Breaking
    case ParamReorder(_) => Breaking
    case ReturnType(_) => Conditional
    case StructRemoved(_) => Breaking
    case StructAdded(_) => Additive
    case FieldRemoved(_, _) => Breaking
    case FieldAdded(_, _) => Additive
    case FieldType(_, _) => Breaking
    case EnumRemoved(_) => Breaking
    case EnumAdded(_) => Additive
    case EnumCaseRemoved(_, _) => Breaking
    case EnumCaseAdded(_, _) => Additive
    case EnumCaseValue(_, _) => Breaking
    case UnionRemoved(_) => Breaking
    case UnionAdded(_) => Additive
    case UnionCaseRemoved(_, _) => Breaking
    case UnionCaseAdded(_, _) => Additive
  }

  function PathOf(x: Finding): string {
    match x
    case FunctionRemoved(f) => "functions." + f
    case FunctionAdded(f) => "functions." + f
    case ParamRemoved(f, p) => "functions." + f + ".params." + p
    case ParamAdded(f, p) => "functions." + f + ".params." + p
    case ParamType(f, p) => "functions." + f + ".params." + p
    case ParamReorder(f) => "functions." + f + ".params"
    case ReturnType(f) => "functions." + f + ".return_type"
    case StructRemoved(s) => "structs." + s
    case StructAdded(s) => "structs." + s
    case FieldRemoved(s, p) => "structs." + s + ".fields." + p
    case FieldAdded(s, p) => "structs." + s + ".fields." + p
    case FieldType(s, p) => "structs." + s + ".fields." + p
    case EnumRemoved(e) => "enums." + e
    case EnumAdded(e) => "enums." + e
    case EnumCaseRemoved(e, c) => "enums." + e + ".cases." + c
    case EnumCaseAdded(e, c) => "enums." + e + ".cases." + c
    case EnumCaseValue(e, c) => "enums." + e + ".cases." + c
    case UnionRemoved(u) => "unions." + u
    case UnionAdded(u) => "unions." + u
    case UnionCaseRemoved(u, c) => "unions." + u + ".cases." + c
    case UnionCaseAdded(u, c) => "unions." + u + ".cases." + c
  }

  /** A reported change; kind, status and path are functions of the finding. */
  datatype Change = Change(what: Finding, oldValue: string, newValue: string)

  datatype Report = Report(
    overall: Status,
    changes: seq<Change>,
    breaking: nat,
    conditional: nat,
    additive: nat)

  // ---- normalized intermediate types ----

  datatype NormParam = NormParam(name: string, ty: string)
  datatype NormFunction = NormFunction(name: string, params: seq<NormParam>, returnType: string)

  datatype Norm = Norm(
    functions: map<string, NormFunction>,
    structs: map<string, seq<NormParam>>,
    enums: map<string, seq<EnumCase>>,
    unions: map<string, seq<string>>)

  function NormParams(fields: seq<Field>): (r: seq<NormParam>)
    ensures |r| == |fields|
    ensures forall i | 0 <= i < |r| :: r[i] == NormParam(fields[i].name, FormatTypeDef(fields[i].ty))
  {
    seq(|fields|, i requires 0 <= i < |fields| => NormParam(fields[i].name, FormatTypeDef(fields[i].ty)))
  }

  function NormalizeFunction(f: Function): NormFunction {
    NormFunction(f.name, NormParams(f.inputs), if f.outputs == [] then "" else FormatTypeDef(f.outputs[0]))
  }

  /** The names of a union's cases; unnamed cases are dropped. */
  function CaseNames(cases: seq<UnionCase>): seq<string> {
    if cases == [] then []
    else CaseNames(cases[..|cases| - 1]) + (if cases[|cases| - 1].name == "" then [] else [cases[|cases| - 1].name])
  }

  /** A map filled in order, so that the last entry under a name wins. */
  function LastBy<T, V>(xs: seq<T>, key: T -> string, val: T -> V): map<string, V> {
    if xs == [] then map[]
    else LastBy(xs[..|xs| - 1], key, val)[key(xs[|xs| - 1]) := val(xs[|xs| - 1])]
  }

  function Functions(spec: ContractSpec): map<string, NormFunction> {
    LastBy(spec.functions, (f: Function) => f.name, NormalizeFunction)
  }

  function Structs(spec: ContractSpec): map<string, seq<NormParam>> {
    LastBy(spec.structs, (s: Struct) => s.name, (s: Struct) => NormParams(s.fields))
  }

  function Enums(spec: ContractSpec): map<string, seq<EnumCase>> {
    LastBy(spec.enums, (e: Enum) => e.name, (e: Enum) => e.cases)
  }

  function Unions(spec: ContractSpec): map<string, seq<string>> {
    LastBy(spec.unions, (u: Union) => u.name, (u: Union) => CaseNames(u.cases))
  }

  function Normalize(spec: ContractSpec): Norm {
    Norm(Functions(spec), Structs(spec), Enums(spec), Unions(spec))
  }

  function Index(params: seq<NormParam>): map<string, string> {
    LastBy(params, (p: NormParam) => p.name, (p: NormParam) => p.ty)
  }

  function IndexCases(cases: seq<EnumCase>): map<string, U32> {
    LastBy(cases, (c: EnumCase) => c.name, (c: EnumCase) => c.value)
  }

  predicate HaveSameParamNames(a: seq<NormParam>, b: seq<NormParam>) {
    |a| == |b| && forall p <- b :: p.name in Index(a)
  }

  predicate SameParamOrder(a: seq<NormParam>, b: seq<NormParam>) {
    |a| == |b| && forall i | 0 <= i < |a| :: a[i].name == b[i].name
  }

  // ---- what is a difference ----

  /** Finding x holds between the two normalized specifications. */
  predicate Detected(fold: Fold, x: Finding, a: Norm, b: Norm) {
    match x
    case FunctionRemoved(f) => f in a.functions && f !in b.functions
    case FunctionAdded(f) => f !in a.functions && f in b.functions
    case ParamRemoved(f, p) => f in a.functions && f in b.functions &&
      p in Index(a.functions[f].params) && p !in Index(b.functions[f].params)
    case ParamAdded(f, p) => f in a.functions && f in b.functions &&
      p !in Index(a.functions[f].params) && p in Index(b.functions[f].params)
    case ParamType(f, p) => f in a.functions && f in b.functions &&
      p in Index(b.functions[f].params) &&
      exists q <- a.functions[f].params :: q.name == p && !EqualFold(fold, q.ty, Index(b.functions[f].params)[p])
    case ParamReorder(f) => f in a.functions && f in b.functions &&
      HaveSameParamNames(a.functions[f].params, b.functions[f].params) &&
      !SameParamOrder(a.functions[f].params, b.functions[f].params)
    case ReturnType(f) => f in a.functions && f in b.functions &&
      !EqualFold(fold, a.functions[f].returnType, b.functions[f].returnType) &&
      !(a.functions[f].returnType == "" && b.functions[f].returnType == "")
    case StructRemoved(s) => s in a.structs && s !in b.structs
    case StructAdded(s) => s !in a.structs && s in b.structs
    case FieldRemoved(s, p) => s in a.structs && s in b.structs && p in Index(a.structs[s]) && p !in Index(b.structs[s])
    case FieldAdded(s, p) => s in a.structs && s in b.structs && p !in Index(a.structs[s]) && p in Index(b.structs[s])
    case FieldType(s, p) => s in a.structs && s in b.structs && p in Index(a.structs[s]) && p in Index(b.structs[s]) &&
      !EqualFold(fold, Index(a.structs[s])[p], Index(b.structs[s])[p])
    case EnumRemoved(e) => e in a.enums && e !in b.enums
    case EnumAdded(e) => e !in a.enums && e in b.enums
    case EnumCaseRemoved(e, c) => e in a.enums && e in b.enums && c in IndexCases(a.enums[e]) && c !in IndexCases(b.enums[e])
    case EnumCaseAdded(e, c) => e in a.enums && e in b.enums && c !in IndexCases(a.enums[e]) && c in IndexCases(b.enums[e])
    case EnumCaseValue(e, c) => e in a.enums && e in b.enums && c in IndexCases(a.enums[e]) && c in IndexCases(b.enums[e]) &&
      IndexCases(a.enums[e])[c] != IndexCases(b.enums[e])[c]
    case UnionRemoved(u) => u in a.unions && u !in b.unions
    case UnionAdded(u) => u !in a.unions && u in b.unions
    case UnionCaseRemoved(u, c) => u in a.unions && u in b.unions && c in a.unions[u] && c !in b.unions[u]
    case UnionCaseAdded(u, c) => u in a.unions && u in b.unions && c !in a.unions[u] && c in b.unions[u]
  }

  /** The worst status among the findings between a and b. */
  ghost function Worst(fold: Fold, a: Norm, b: Norm): Status {
    if exists x :: Detected(fold, x, a, b) && StatusOf(x) == Breaking then Breaking
    else if exists x :: Detected(fold, x, a, b) && StatusOf(x) == Conditional then Conditional
    else if exists x :: Detected(fold, x, a, b) then Additive
    else Compatible
  }
}
