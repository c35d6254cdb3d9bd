/** The JSON form of a specification (internal/abi/printer.go, internal/abi/importer.go) and the hash over it. */
module AbiJson {
  import opened Wrappers
  import opened Sorting
  import opened TypeDefs
  import opened TypeParser
  import opened TypeRoundTrip
  import opened ContractSpecs
  import opened Spaces

  datatype JsonField = JsonField(name: string, ty: string)
  datatype JsonFunction = JsonFunction(name: string, inputs: seq<JsonField>, outputs: seq<string>, doc: string)
  datatype JsonStruct = JsonStruct(name: string, fields: seq<JsonField>, doc: string)
  datatype JsonUnionCase = JsonUnionCase(name: string, types: seq<string>)
  datatype JsonUnion = JsonUnion(name: string, cases: seq<JsonUnionCase>, doc: string)
  datatype JsonEventParam = JsonEventParam(name: string, ty: string, location: string)
  datatype JsonEvent = JsonEvent(name: string, params: seq<JsonEventParam>, doc: string)

  datatype JsonSpec = JsonSpec(
    functions: seq<JsonFunction>,
    structs: seq<JsonStruct>,
    enums: seq<Enum>,
    unions: seq<JsonUnion>,
    errorEnums: seq<Enum>,
    events: seq<JsonEvent>)

  /** Which part of an entry does not parse, and why. */
  datatype PartError =
    | AtInput(name: string, cause: ParseError)
    | AtOutput(text: string, cause: ParseError)
    | AtField(name: string, cause: ParseError)
    | AtCaseType(caseName: string, index: nat, cause: ParseError)
    | AtParam(name: string, cause: ParseError)

  datatype ImportError = ImportError(entry: string, part: PartError)

  // ---- element by element ----

  function MapSeq<A, B>(f: A -> B, s: seq<A>): (r: seq<B>)
    ensures |r| == |s|
    ensures forall i | 0 <= i < |s| :: r[i] == f(s[i])
  {
    if s == [] then [] else [f(s[0])] + MapSeq(f, s[1..])
  }

  /** The first failure, or all results. */
  function Traverse<A, B, E>(f: A -> Result<B, E>, s: seq<A>): Result<seq<B>, E> {
    if s == [] then Ok([])
    else
      match f(s[0])
      case Err(e) => Err(e)
      case Ok(b) =>
        match Traverse(f, s[1..])
        case Err(e) => Err(e)
        case Ok(bs) => Ok([b] + bs)
  }

  /** Reading what was printed gives the intended elements exactly when it does so for each. */
  lemma {:induction false} TraverseExact<A, B, C, E>(f: B -> Result<C, E>, g: A -> B, h: A -> C, s: seq<A>)
    ensures Traverse(f, MapSeq(g, s)) == Ok(MapSeq(h, s)) <==> forall i | 0 <= i < |s| :: f(g(s[i])) == Ok(h(s[i]))
  {
    var gs, hs := MapSeq(g, s), MapSeq(h, s);
    if s != [] {
      TraverseExact(f, g, h, s[1..]);
      assert gs[1..] == MapSeq(g, s[1..]) && hs[1..] == MapSeq(h, s[1..]);
      assert hs == [h(s[0])] + hs[1..];
      if f(g(s[0])) == Ok(h(s[0])) && Traverse(f, gs[1..]).Ok? {
        assert Traverse(f, gs) == Ok([h(s[0])] + Traverse(f, gs[1..]).value);
        assert ([h(s[0])] + Traverse(f, gs[1..]).value)[1..] == Traverse(f, gs[1..]).value;
      }
      if Traverse(f, gs) == Ok(hs) {
        assert Traverse(f, gs).value[0] == hs[0];
      }
      assert (forall i | 0 <= i < |s| :: f(g(s[i])) == Ok(h(s[i])))
        <==> f(g(s[0])) == Ok(h(s[0])) && forall i | 0 <= i < |s[1..]| :: f(g(s[1..][i])) == Ok(h(s[1..][i])) by {
        forall i | 0 <= i < |s| ensures i > 0 ==> s[i] == s[1..][i - 1] {
        }
      }
    }
  }

  /** As TraverseExact, for elements that are to come back unchanged. */
  lemma TraverseBack<A, B, E>(f: B -> Result<A, E>, g: A -> B, s: seq<A>)
    ensures Traverse(f, MapSeq(g, s)) == Ok(s) <==> forall i | 0 <= i < |s| :: f(g(s[i])) == Ok(s[i])
  {
    var id := (x: A) => x;
    TraverseExact(f, g, id, s);
    assert MapSeq(id, s) == s;
  }

  function PrintField(f: Field): JsonField {
    JsonField(f.name, FormatTypeDef(f.ty))
  }

  function PrintFunction(fn: Function): JsonFunction {
    JsonFunction(fn.name, MapSeq(PrintField, fn.inputs), MapSeq(FormatTypeDef, fn.outputs), fn.doc)
  }

  function PrintStruct(s: Struct): JsonStruct {
    JsonStruct(s.name, MapSeq(PrintField, s.fields), s.doc)
  }

  function PrintCase(c: UnionCase): JsonUnionCase {
    match c
    case VoidCase(name) => JsonUnionCase(name, [])
    case TupleCase(name, types) => JsonUnionCase(name, MapSeq(FormatTypeDef, types))
  }

  function PrintUnion(u: Union): JsonUnion {
    JsonUnion(u.name, MapSeq(PrintCase, u.cases), u.doc)
  }

  function PrintParam(p: EventParam): JsonEventParam {
    JsonEventParam(p.name, FormatTypeDef(p.ty), if p.topic then "topic" else "data")
  }

  function PrintEvent(e: Event): JsonEvent {
    JsonEvent(e.name, MapSeq(PrintParam, e.params), e.doc)
  }

  function ImportInput(f: JsonField): Result<Field, PartError> {
    match ParseTypeDef(f.ty)
    case Err(e) => Err(AtInput(f.name, e))
    case Ok(t) => Ok(Field(f.name, t))
  }

  function ImportOutput(text: string): Result<TypeDef, PartError> {
    match ParseTypeDef(text)
    case Err(e) => Err(AtOutput(text, e))
    case Ok(t) => Ok(t)
  }

  function ImportField(f: JsonField): Result<Field, PartError> {
    match ParseTypeDef(f.ty)
    case Err(e) => Err(AtField(f.name, e))
    case Ok(t) => Ok(Field(f.name, t))
  }

  function ImportTypes(caseName: string, types: seq<string>, index: nat): Result<seq<TypeDef>, PartError> {
    if types == [] then Ok([])
    else
      match ParseTypeDef(types[0])
      case Err(e) => Err(AtCaseType(caseName, index, e))
      case Ok(t) =>
        match ImportTypes(caseName, types[1..], index + 1)
        case Err(e) => Err(e)
        case Ok(ts) => Ok([t] + ts)
  }

  /** A case without types is read as a void case. */
  function ImportCase(c: JsonUnionCase): Result<UnionCase, PartError> {
    if |c.types| == 0 then Ok(VoidCase(c.name))
    else
      match ImportTypes(c.name, c.types, 0)
      case Err(e) => Err(e)
      case Ok(ts) => Ok(TupleCase(c.name, ts))
  }

  function ImportParam(p: JsonEventParam): Result<EventParam, PartError> {
    match ParseTypeDef(p.ty)
    case Err(e) => Err(AtParam(p.name, e))
    case Ok(t) => Ok(EventParam(p.name, t, p.location == "topic"))
  }

  function ImportFunction(jf: JsonFunction): Result<Function, ImportError> {
    match Traverse(ImportInput, jf.inputs)
    case Err(e) => Err(ImportError(jf.name, e))
    case Ok(inputs) =>
      match Traverse(ImportOutput, jf.outputs)
      case Err(e) => Err(ImportError(jf.name, e))
      case Ok(outputs) => Ok(Function(jf.name, jf.doc, inputs, outputs))
  }

  function ImportStruct(js: JsonStruct): Result<Struct, ImportError> {
    match Traverse(ImportField, js.fields)
    case Err(e) => Err(ImportError(js.name, e))
    case Ok(fields) => Ok(Struct(js.name, js.doc, fields))
  }

  function ImportUnion(ju: JsonUnion): Result<Union, ImportError> {
    match Traverse(ImportCase, ju.cases)
    case Err(e) => Err(ImportError(ju.name, e))
    case Ok(cases) => Ok(Union(ju.name, ju.doc, cases))
  }

  function ImportEvent(je: JsonEvent): Result<Event, ImportError> {
    match Traverse(ImportParam, je.params)
    case Err(e) => Err(ImportError(je.name, e))
    case Ok(params) => Ok(Event(je.name, je.doc, params))
  }

  // ---- what one entry needs to come back ----

  predicate StableFields(fs: seq<Field>) {
    forall i | 0 <= i < |fs| :: Stable(fs[i].ty)
  }

  predicate StableTypes(ts: seq<TypeDef>) {
    forall i | 0 <= i < |ts| :: Stable(ts[i])
  }

  predicate StableCase(c: UnionCase) {
    c.TupleCase? ==> StableTypes(c.types)
  }

  predicate StableFunction(fn: Function) {
    StableFields(fn.inputs) && StableTypes(fn.outputs)
  }

  predicate StableStruct(s: Struct) {
    StableFields(s.fields)
  }

  predicate StableUnion(u: Union) {
    forall i | 0 <= i < |u.cases| :: StableCase(u.cases[i])
  }

  predicate StableEvent(e: Event) {
    forall i | 0 <= i < |e.params| :: Stable(e.params[i].ty)
  }

  /** A tuple case without types becomes void; nothing else changes. */
  function CanonicalCase(c: UnionCase): UnionCase {
    if c.TupleCase? && c.types == [] then VoidCase(c.name) else c
  }

  function CanonicalUnion(u: Union): Union {
    u.(cases := MapSeq(CanonicalCase, u.cases))
  }

  lemma FieldBack(f: Field)
    ensures ImportInput(PrintField(f)) == Ok(f) <==> Stable(f.ty)
    ensures ImportField(PrintField(f)) == Ok(f) <==> Stable(f.ty)
  {
    hide ParseTypeDef, FormatTypeDef, Stable;
    RoundTripExact(f.ty);
  }

  lemma OutputBack(t: TypeDef)
    ensures ImportOutput(FormatTypeDef(t)) == Ok(t) <==> Stable(t)
  {
    hide ParseTypeDef, FormatTypeDef, Stable;
    RoundTripExact(t);
  }

  lemma FunctionBack(fn: Function)
    ensures ImportFunction(PrintFunction(fn)) == Ok(fn) <==> StableFunction(fn)
  {
    hide ImportInput, ImportOutput, PrintField, FormatTypeDef, Stable, MapSeq, Traverse;
    TraverseBack(ImportInput, PrintField, fn.inputs);
    TraverseBack(ImportOutput, FormatTypeDef, fn.outputs);
    forall i | 0 <= i < |fn.inputs| ensures ImportInput(PrintField(fn.inputs[i])) == Ok(fn.inputs[i]) <==> Stable(fn.inputs[i].ty) {
      FieldBack(fn.inputs[i]);
    }
    forall i | 0 <= i < |fn.outputs| ensures ImportOutput(FormatTypeDef(fn.outputs[i])) == Ok(fn.outputs[i]) <==> Stable(fn.outputs[i]) {
      OutputBack(fn.outputs[i]);
    }
  }

  lemma StructBack(s: Struct)
    ensures ImportStruct(PrintStruct(s)) == Ok(s) <==> StableFields(s.fields)
  {
    hide ImportField, PrintField, Stable, MapSeq, Traverse;
    TraverseBack(ImportField, PrintField, s.fields);
    forall i | 0 <= i < |s.fields| ensures ImportField(PrintField(s.fields[i])) == Ok(s.fields[i]) <==> Stable(s.fields[i].ty) {
      FieldBack(s.fields[i]);
    }
  }

  lemma {:induction false} TypesBack(caseName: string, ts: seq<TypeDef>, index: nat)
    ensures ImportTypes(caseName, MapSeq(FormatTypeDef, ts), index) == Ok(ts) <==> StableTypes(ts)
  {
    hide ParseTypeDef, FormatTypeDef, Stable;
    if ts != [] {
      var texts := MapSeq(FormatTypeDef, ts);
      RoundTripExact(ts[0]);
      TypesBack(caseName, ts[1..], index + 1);
      assert texts[1..] == MapSeq(FormatTypeDef, ts[1..]);
      assert ts == [ts[0]] + ts[1..];
      assert StableTypes(ts) <==> Stable(ts[0]) && StableTypes(ts[1..]);
      var rest := ImportTypes(caseName, texts[1..], index + 1);
      if ImportTypes(caseName, texts, index).Ok? {
        assert ([ParseTypeDef(texts[0]).value] + rest.value)[1..] == rest.value;
      }
    }
  }

  lemma CaseBack(c: UnionCase)
    ensures ImportCase(PrintCase(c)) == Ok(CanonicalCase(c)) <==> StableCase(c)
  {
    hide ImportTypes, FormatTypeDef, Stable;
    if c.TupleCase? {
      TypesBack(c.name, c.types, 0);
    }
  }

  lemma UnionBack(u: Union)
    ensures ImportUnion(PrintUnion(u)) == Ok(CanonicalUnion(u)) <==> StableUnion(u)
  {
    hide ImportCase, PrintCase, CanonicalCase, StableCase, MapSeq, Traverse;
    TraverseExact(ImportCase, PrintCase, CanonicalCase, u.cases);
    forall i | 0 <= i < |u.cases| ensures ImportCase(PrintCase(u.cases[i])) == Ok(CanonicalCase(u.cases[i])) <==> StableCase(u.cases[i]) {
      CaseBack(u.cases[i]);
    }
  }

  lemma ParamBack(p: EventParam)
    ensures ImportParam(PrintParam(p)) == Ok(p) <==> Stable(p.ty)
  {
    hide ParseTypeDef, FormatTypeDef, Stable;
    RoundTripExact(p.ty);
  }

  lemma EventBack(e: Event)
    ensures ImportEvent(PrintEvent(e)) == Ok(e) <==> StableEvent(e)
  {
    hide ImportParam, PrintParam, Stable, MapSeq, Traverse;
    TraverseBack(ImportParam, PrintParam, e.params);
    forall i | 0 <= i < |e.params| ensures ImportParam(PrintParam(e.params[i])) == Ok(e.params[i]) <==> Stable(e.params[i].ty) {
      ParamBack(e.params[i]);
    }
  }

  // ---- whole specifications ----

  predicate FunctionLe(a: Function, b: Function) { StringLe(a.name, b.name) }
  predicate StructLe(a: Struct, b: Struct) { StringLe(a.name, b.name) }
  predicate EnumLe(a: Enum, b: Enum) { StringLe(a.name, b.name) }
  predicate UnionLe(a: Union, b: Union) { StringLe(a.name, b.name) }
  predicate EventLe(a: Event, b: Event) { StringLe(a.name, b.name) }

  /** FormatJSON, up to the value that is marshalled: every section sorted by name. */
  function PrintSpec(spec: ContractSpec): JsonSpec {
    JsonSpec(
      MapSeq(PrintFunction, Sort(FunctionLe, spec.functions)),
      MapSeq(PrintStruct, Sort(StructLe, spec.structs)),
      Sort(EnumLe, spec.enums),
      MapSeq(PrintUnion, Sort(UnionLe, spec.unions)),
      Sort(EnumLe, spec.errorEnums),
      MapSeq(PrintEvent, Sort(EventLe, spec.events)))
  }

  function ImportSpec(js: JsonSpec): Result<ContractSpec, ImportError> {
    match Traverse(ImportFunction, js.functions)
    case Err(e) => Err(e)
    case Ok(functions) =>
      match Traverse(ImportStruct, js.structs)
      case Err(e) => Err(e)
      case Ok(structs) =>
        match Traverse(ImportUnion, js.unions)
        case Err(e) => Err(e)
        case Ok(unions) =>
          match Traverse(ImportEvent, js.events)
          case Err(e) => Err(e)
          case Ok(events) => Ok(ContractSpec(functions, structs, js.enums, unions, js.errorEnums, events))
  }

  /** Sections in order of name, empty tuple cases void. */
  function Canonical(spec: ContractSpec): ContractSpec {
    ContractSpec(
      Sort(FunctionLe, spec.functions),
      Sort(StructLe, spec.structs),
      Sort(EnumLe, spec.enums),
      MapSeq(CanonicalUnion, Sort(UnionLe, spec.unions)),
      Sort(EnumLe, spec.errorEnums),
      Sort(EventLe, spec.events))
  }

  /** Every type in the specification survives printing and reading. */
  predicate StableSpec(spec: ContractSpec) {
    && (forall i | 0 <= i < |spec.functions| :: StableFunction(spec.functions[i]))
    && (forall i | 0 <= i < |spec.structs| :: StableStruct(spec.structs[i]))
    && (forall i | 0 <= i < |spec.unions| :: StableUnion(spec.unions[i]))
    && (forall i | 0 <= i < |spec.events| :: StableEvent(spec.events[i]))
  }

  lemma SortedAlso<T(!new)>(le: (T, T) -> bool, s: seq<T>, p: T -> bool)
    ensures (forall i | 0 <= i < |s| :: p(s[i])) <==> forall i | 0 <= i < |Sort(le, s)| :: p(Sort(le, s)[i])
  {
    SortPermutes(le, s);
    PermutationMembers(Sort(le, s), s);
    assert (forall i | 0 <= i < |s| :: p(s[i])) <==> forall x | x in s :: p(x);
    assert (forall i | 0 <= i < |Sort(le, s)| :: p(Sort(le, s)[i])) <==> forall x | x in Sort(le, s) :: p(x);
  }

  lemma FunctionsBack(fs: seq<Function>)
    ensures Traverse(ImportFunction, MapSeq(PrintFunction, Sort(FunctionLe, fs))) == Ok(Sort(FunctionLe, fs))
      <==> forall i | 0 <= i < |fs| :: StableFunction(fs[i])
  {
    hide ImportFunction, PrintFunction, StableFunction, FunctionLe, Sort, MapSeq, Traverse;
    var sorted := Sort(FunctionLe, fs);
    TraverseBack(ImportFunction, PrintFunction, sorted);
    SortedAlso(FunctionLe, fs, StableFunction);
    forall i | 0 <= i < |sorted| ensures ImportFunction(PrintFunction(sorted[i])) == Ok(sorted[i]) <==> StableFunction(sorted[i]) {
      FunctionBack(sorted[i]);
    }
  }

  lemma StructsBack(ss: seq<Struct>)
    ensures Traverse(ImportStruct, MapSeq(PrintStruct, Sort(StructLe, ss))) == Ok(Sort(StructLe, ss))
      <==> forall i | 0 <= i < |ss| :: StableStruct(ss[i])
  {
    hide ImportStruct, PrintStruct, StableFields, StructLe, Sort, MapSeq, Traverse;
    var sorted := Sort(StructLe, ss);
    TraverseBack(ImportStruct, PrintStruct, sorted);
    SortedAlso(StructLe, ss, StableStruct);
    forall i | 0 <= i < |sorted| ensures ImportStruct(PrintStruct(sorted[i])) == Ok(sorted[i]) <==> StableStruct(sorted[i]) {
      StructBack(sorted[i]);
    }
  }

  lemma UnionsBack(us: seq<Union>)
    ensures Traverse(ImportUnion, MapSeq(PrintUnion, Sort(UnionLe, us))) == Ok(MapSeq(CanonicalUnion, Sort(UnionLe, us)))
      <==> forall i | 0 <= i < |us| :: StableUnion(us[i])
  {
    hide ImportUnion, PrintUnion, CanonicalUnion, StableUnion, UnionLe, Sort, MapSeq, Traverse;
    var sorted := Sort(UnionLe, us);
    TraverseExact(ImportUnion, PrintUnion, CanonicalUnion, sorted);
    SortedAlso(UnionLe, us, StableUnion);
    forall i | 0 <= i < |sorted| ensures ImportUnion(PrintUnion(sorted[i])) == Ok(CanonicalUnion(sorted[i])) <==> StableUnion(sorted[i]) {
      UnionBack(sorted[i]);
    }
  }

  lemma EventsBack(es: seq<Event>)
    ensures Traverse(ImportEvent, MapSeq(PrintEvent, Sort(EventLe, es))) == Ok(Sort(EventLe, es))
      <==> forall i | 0 <= i < |es| :: StableEvent(es[i])
  {
    hide ImportEvent, PrintEvent, StableEvent, EventLe, Sort, MapSeq, Traverse;
    var sorted := Sort(EventLe, es);
    TraverseBack(ImportEvent, PrintEvent, sorted);
    SortedAlso(EventLe, es, StableEvent);
    forall i | 0 <= i < |sorted| ensures ImportEvent(PrintEvent(sorted[i])) == Ok(sorted[i]) <==> StableEvent(sorted[i]) {
      EventBack(sorted[i]);
    }
  }

  /** Importing what was printed gives the canonical specification exactly when every type is stable. */
  lemma SpecRoundTripExact(spec: ContractSpec)
    ensures ImportSpec(PrintSpec(spec)) == Ok(Canonical(spec)) <==> StableSpec(spec)
  {
    hide ImportFunction, ImportStruct, ImportUnion, ImportEvent, PrintFunction, PrintStruct, PrintUnion, PrintEvent;
    hide StableFunction, StableUnion, StableEvent, CanonicalUnion, Sort, MapSeq, Traverse, StableFields;
    FunctionsBack(spec.functions);
    StructsBack(spec.structs);
    UnionsBack(spec.unions);
    EventsBack(spec.events);
  }

  // ---- formatting again ----

  /** le orders by name. */
  ghost predicate OrdersBy<T(!new)>(le: (T, T) -> bool, name: T -> string) {
    forall x, y :: le(x, y) <==> StringLe(name(x), name(y))
  }

  lemma OrdersPreorder<T(!new)>(le: (T, T) -> bool, name: T -> string)
    requires OrdersBy(le, name)
    ensures TotalPreorder(le)
  {
    hide StringLe;
    forall x, y ensures le(x, y) || le(y, x) {
      StringLeTotal(name(x), name(y));
    }
    forall x, y, z | le(x, y) && le(y, z) ensures le(x, z) {
      StringLeTransitive(name(x), name(y), name(z));
    }
  }

  lemma SortTwice<T(!new)>(le: (T, T) -> bool, name: T -> string, s: seq<T>)
    requires OrdersBy(le, name)
    ensures SortedBy(le, Sort(le, s)) && Sort(le, Sort(le, s)) == Sort(le, s)
  {
    OrdersPreorder(le, name);
    SortSorts(le, s);
    SortIdle(le, Sort(le, s));
  }

  lemma NamesOrder()
    ensures OrdersBy(FunctionLe, (f: Function) => f.name)
    ensures OrdersBy(StructLe, (s: Struct) => s.name)
    ensures OrdersBy(EnumLe, (e: Enum) => e.name)
    ensures OrdersBy(UnionLe, (u: Union) => u.name)
    ensures OrdersBy(EventLe, (e: Event) => e.name)
  {
  }

  lemma CanonicalPrints(u: Union)
    ensures PrintUnion(CanonicalUnion(u)) == PrintUnion(u)
    ensures CanonicalUnion(CanonicalUnion(u)) == CanonicalUnion(u)
  {
    hide FormatTypeDef;
    forall i | 0 <= i < |u.cases|
      ensures PrintCase(CanonicalCase(u.cases[i])) == PrintCase(u.cases[i])
      ensures CanonicalCase(CanonicalCase(u.cases[i])) == CanonicalCase(u.cases[i])
    {
    }
    hide CanonicalCase, PrintCase;
    assert PrintUnion(CanonicalUnion(u)).cases == PrintUnion(u).cases;
    assert CanonicalUnion(CanonicalUnion(u)).cases == CanonicalUnion(u).cases;
  }

  lemma CanonicalUnions(us: seq<Union>)
    requires SortedBy(UnionLe, us)
    ensures var cs := MapSeq(CanonicalUnion, us);
      Sort(UnionLe, cs) == cs && MapSeq(PrintUnion, cs) == MapSeq(PrintUnion, us) && MapSeq(CanonicalUnion, cs) == cs
  {
    hide PrintUnion, MapSeq;
    var cs := MapSeq(CanonicalUnion, us);
    forall i, j | 0 <= i < j < |cs| ensures UnionLe(cs[i], cs[j]) {
      assert UnionLe(us[i], us[j]);
    }
    SortIdle(UnionLe, cs);
    forall i | 0 <= i < |us| ensures PrintUnion(cs[i]) == PrintUnion(us[i]) && CanonicalUnion(cs[i]) == cs[i] {
      CanonicalPrints(us[i]);
    }
    hide CanonicalUnion, UnionLe;
    assert MapSeq(PrintUnion, cs) == MapSeq(PrintUnion, us);
    assert MapSeq(CanonicalUnion, cs) == cs;
  }

  /** The canonical specification prints like the original, and is its own canonical form. */
  lemma CanonicalIsNormal(spec: ContractSpec)
    ensures PrintSpec(Canonical(spec)) == PrintSpec(spec)
    ensures Canonical(Canonical(spec)) == Canonical(spec)
  {
    hide PrintFunction, PrintStruct, PrintUnion, PrintEvent, CanonicalUnion, Sort, MapSeq, SortedBy, OrdersBy;
    NamesOrder();
    SortTwice(FunctionLe, (f: Function) => f.name, spec.functions);
    SortTwice(StructLe, (s: Struct) => s.name, spec.structs);
    SortTwice(EnumLe, (e: Enum) => e.name, spec.enums);
    SortTwice(EnumLe, (e: Enum) => e.name, spec.errorEnums);
    SortTwice(EventLe, (e: Event) => e.name, spec.events);
    SortTwice(UnionLe, (u: Union) => u.name, spec.unions);
    CanonicalUnions(Sort(UnionLe, spec.unions));
  }

  /** Two stable specifications print alike exactly when their canonical forms agree. */
  lemma PrintExact(a: ContractSpec, b: ContractSpec)
    requires StableSpec(a) && StableSpec(b)
    ensures PrintSpec(a) == PrintSpec(b) <==> Canonical(a) == Canonical(b)
  {
    hide PrintSpec, Canonical, StableSpec, ImportSpec;
    SpecRoundTripExact(a);
    SpecRoundTripExact(b);
    CanonicalIsNormal(a);
    CanonicalIsNormal(b);
  }

  // ---- what was imported is stable ----

  lemma ParsedStable(text: string)
    ensures ParseTypeDef(text).Ok? ==> Stable(ParseTypeDef(text).value)
  {
    hide ParseTypeDef, FormatTypeDef, Stable;
    if ParseTypeDef(text).Ok? {
      NormalForm(text);
      RoundTripExact(ParseTypeDef(text).value);
    }
  }

  lemma {:induction false} TraverseAll<A, B, E>(f: A -> Result<B, E>, s: seq<A>, p: B -> bool)
    requires forall x | x in s :: f(x).Ok? ==> p(f(x).value)
    ensures Traverse(f, s).Ok? ==> forall i | 0 <= i < |Traverse(f, s).value| :: p(Traverse(f, s).value[i])
  {
    if s != [] {
      TraverseAll(f, s[1..], p);
      assert s[0] in s;
    }
  }

  lemma {:induction false} ImportedTypesStable(caseName: string, types: seq<string>, index: nat)
    ensures ImportTypes(caseName, types, index).Ok? ==> StableTypes(ImportTypes(caseName, types, index).value)
  {
    hide ParseTypeDef, Stable;
    if types != [] {
      ParsedStable(types[0]);
      ImportedTypesStable(caseName, types[1..], index + 1);
    }
  }

  lemma ImportedFunctionStable(jf: JsonFunction)
    ensures ImportFunction(jf).Ok? ==> StableFunction(ImportFunction(jf).value)
  {
    hide ParseTypeDef, Stable, Traverse;
    forall x | x in jf.inputs ensures ImportInput(x).Ok? ==> Stable(ImportInput(x).value.ty) {
      ParsedStable(x.ty);
    }
    TraverseAll(ImportInput, jf.inputs, (f: Field) => Stable(f.ty));
    forall x | x in jf.outputs ensures ImportOutput(x).Ok? ==> Stable(ImportOutput(x).value) {
      ParsedStable(x);
    }
    TraverseAll(ImportOutput, jf.outputs, Stable);
  }

  lemma ImportedStructStable(js: JsonStruct)
    ensures ImportStruct(js).Ok? ==> StableStruct(ImportStruct(js).value)
  {
    hide ParseTypeDef, Stable, Traverse;
    forall x | x in js.fields ensures ImportField(x).Ok? ==> Stable(ImportField(x).value.ty) {
      ParsedStable(x.ty);
    }
    TraverseAll(ImportField, js.fields, (f: Field) => Stable(f.ty));
  }

  lemma ImportedUnionStable(ju: JsonUnion)
    ensures ImportUnion(ju).Ok? ==> StableUnion(ImportUnion(ju).value)
  {
    hide ParseTypeDef, Stable, Traverse, ImportTypes;
    forall x | x in ju.cases ensures ImportCase(x).Ok? ==> StableCase(ImportCase(x).value) {
      ImportedTypesStable(x.name, x.types, 0);
    }
    TraverseAll(ImportCase, ju.cases, StableCase);
  }

  lemma ImportedEventStable(je: JsonEvent)
    ensures ImportEvent(je).Ok? ==> StableEvent(ImportEvent(je).value)
  {
    hide ParseTypeDef, Stable, Traverse;
    forall x | x in je.params ensures ImportParam(x).Ok? ==> Stable(ImportParam(x).value.ty) {
      ParsedStable(x.ty);
    }
    TraverseAll(ImportParam, je.params, (p: EventParam) => Stable(p.ty));
  }

  /** Whatever JSON is accepted, the specification read from it is stable. */
  lemma ImportedStable(js: JsonSpec)
    ensures ImportSpec(js).Ok? ==> StableSpec(ImportSpec(js).value)
  {
    hide Traverse, ImportFunction, ImportStruct, ImportUnion, ImportEvent, StableFunction, StableStruct, StableUnion, StableEvent;
    forall x | x in js.functions ensures ImportFunction(x).Ok? ==> StableFunction(ImportFunction(x).value) {
      ImportedFunctionStable(x);
    }
    TraverseAll(ImportFunction, js.functions, StableFunction);
    forall x | x in js.structs ensures ImportStruct(x).Ok? ==> StableStruct(ImportStruct(x).value) {
      ImportedStructStable(x);
    }
    TraverseAll(ImportStruct, js.structs, StableStruct);
    forall x | x in js.unions ensures ImportUnion(x).Ok? ==> StableUnion(ImportUnion(x).value) {
      ImportedUnionStable(x);
    }
    TraverseAll(ImportUnion, js.unions, StableUnion);
    forall x | x in js.events ensures ImportEvent(x).Ok? ==> StableEvent(ImportEvent(x).value) {
      ImportedEventStable(x);
    }
    TraverseAll(ImportEvent, js.events, StableEvent);
  }

  /** Any accepted JSON, formatted, reads back to the canonical specification and formats to the same JSON again. */
  lemma ImportFormatsOnce(js: JsonSpec)
    requires ImportSpec(js).Ok?
    ensures var printed := PrintSpec(ImportSpec(js).value);
      ImportSpec(printed) == Ok(Canonical(ImportSpec(js).value)) && PrintSpec(ImportSpec(printed).value) == printed
  {
    hide ImportSpec, PrintSpec, Canonical, StableSpec;
    ImportedStable(js);
    SpecRoundTripExact(ImportSpec(js).value);
    CanonicalIsNormal(ImportSpec(js).value);
  }

  // ---- order of entries ----

  ghost predicate Distinct<T(!new)>(name: T -> string, s: seq<T>) {
    forall i, j | 0 <= i < j < |s| :: name(s[i]) != name(s[j])
  }

  /** With distinct names every sorted copy is the same, whichever order the entries came in. */
  lemma AnySortAgrees<T(!new)>(le: (T, T) -> bool, name: T -> string, s: seq<T>, t: seq<T>)
    requires OrdersBy(le, name) && Distinct(name, s)
    requires multiset(s) == multiset(t) && SortedBy(le, t)
    ensures t == Sort(le, s)
  {
    hide StringLe, SortedBy;
    OrdersPreorder(le, name);
    SortSorts(le, s);
    SortPermutes(le, s);
    DistinctUntied(le, name, s);
    PermutationMembers(s, t);
    PermutationMembers(s, Sort(le, s));
    SortedUnique(le, t, Sort(le, s));
  }

  lemma DistinctUntied<T(!new)>(le: (T, T) -> bool, name: T -> string, s: seq<T>)
    requires OrdersBy(le, name) && Distinct(name, s)
    ensures NoTies(le, s)
  {
    hide StringLe;
    forall x, y | x in s && y in s && le(x, y) && le(y, x) ensures x == y {
      StringLeTotal(name(x), name(y));
      var i :| 0 <= i < |s| && s[i] == x;
      var j :| 0 <= j < |s| && s[j] == y;
    }
  }

  lemma SortForgetsOrder<T(!new)>(le: (T, T) -> bool, name: T -> string, s: seq<T>, t: seq<T>)
    requires OrdersBy(le, name) && Distinct(name, s) && multiset(s) == multiset(t)
    ensures Sort(le, s) == Sort(le, t)
  {
    OrdersPreorder(le, name);
    SortSorts(le, t);
    SortPermutes(le, t);
    AnySortAgrees(le, name, s, Sort(le, t));
  }

  ghost predicate DistinctNames(spec: ContractSpec) {
    && Distinct((f: Function) => f.name, spec.functions)
    && Distinct((s: Struct) => s.name, spec.structs)
    && Distinct((e: Enum) => e.name, spec.enums)
    && Distinct((u: Union) => u.name, spec.unions)
    && Distinct((e: Enum) => e.name, spec.errorEnums)
    && Distinct((e: Event) => e.name, spec.events)
  }

  ghost predicate SameEntries(a: ContractSpec, b: ContractSpec) {
    && multiset(a.functions) == multiset(b.functions)
    && multiset(a.structs) == multiset(b.structs)
    && multiset(a.enums) == multiset(b.enums)
    && multiset(a.unions) == multiset(b.unions)
    && multiset(a.errorEnums) == multiset(b.errorEnums)
    && multiset(a.events) == multiset(b.events)
  }

  /** Permuting the entries of a specification changes neither its JSON nor its canonical form. */
  lemma OrderIrrelevant(a: ContractSpec, b: ContractSpec)
    requires DistinctNames(a) && SameEntries(a, b)
    ensures PrintSpec(a) == PrintSpec(b) && Canonical(a) == Canonical(b)
  {
    hide OrdersBy, Distinct, Sort, MapSeq, PrintFunction, PrintStruct, PrintUnion, PrintEvent, CanonicalUnion;
    NamesOrder();
    SortForgetsOrder(FunctionLe, (f: Function) => f.name, a.functions, b.functions);
    SortForgetsOrder(StructLe, (s: Struct) => s.name, a.structs, b.structs);
    SortForgetsOrder(EnumLe, (e: Enum) => e.name, a.enums, b.enums);
    SortForgetsOrder(UnionLe, (u: Union) => u.name, a.unions, b.unions);
    SortForgetsOrder(EnumLe, (e: Enum) => e.name, a.errorEnums, b.errorEnums);
    SortForgetsOrder(EventLe, (e: Event) => e.name, a.events, b.events);
  }

  // ---- the loops ----

  /** What has been read so far, followed by the rest. */
  function After<B, E>(done: seq<B>, rest: Result<seq<B>, E>): Result<seq<B>, E> {
    match rest
    case Err(e) => Err(e)
    case Ok(bs) => Ok(done + bs)
  }

  lemma AfterStart<A, B, E>(f: A -> Result<B, E>, xs: seq<A>)
    ensures Traverse(f, xs) == After([], Traverse(f, xs[0..]))
  {
    assert xs[0..] == xs;
    assert Traverse(f, xs).Ok? ==> [] + Traverse(f, xs).value == Traverse(f, xs).value;
  }

  lemma AfterStep<A, B, E>(f: A -> Result<B, E>, xs: seq<A>, done: seq<B>, i: nat)
    requires i < |xs|
    ensures After(done, Traverse(f, xs[i..])) ==
      match f(xs[i]) case Err(e) => Err(e) case Ok(b) => After(done + [b], Traverse(f, xs[i + 1..]))
  {
    assert xs[i..][1..] == xs[i + 1..];
    var rest := Traverse(f, xs[i + 1..]);
    if f(xs[i]).Ok? && rest.Ok? {
      assert done + ([f(xs[i]).value] + rest.value) == done + [f(xs[i]).value] + rest.value;
    }
  }

  lemma AfterEnd<A, B, E>(f: A -> Result<B, E>, xs: seq<A>, done: seq<B>)
    ensures After(done, Traverse(f, xs[|xs|..])) == Ok(done)
  {
    assert done + [] == done;
  }

  method FormatFields(xs: seq<Field>) returns (out: seq<JsonField>)
    ensures out == MapSeq(PrintField, xs)
  {
    out := [];
    for i := 0 to |xs|
      invariant |out| == i && forall k | 0 <= k < i :: out[k] == PrintField(xs[k])
    {
      out := out + [JsonField(xs[i].name, FormatTypeDef(xs[i].ty))];
    }
  }

  method FormatTypes(xs: seq<TypeDef>) returns (out: seq<string>)
    ensures out == MapSeq(FormatTypeDef, xs)
  {
    out := [];
    for i := 0 to |xs|
      invariant |out| == i && forall k | 0 <= k < i :: out[k] == FormatTypeDef(xs[k])
    {
      out := out + [FormatTypeDef(xs[i])];
    }
  }

  method FormatFunctions(xs: seq<Function>) returns (out: seq<JsonFunction>)
    ensures out == MapSeq(PrintFunction, xs)
  {
    out := [];
    for i := 0 to |xs|
      invariant |out| == i && forall k | 0 <= k < i :: out[k] == PrintFunction(xs[k])
    {
      var inputs := FormatFields(xs[i].inputs);
      var outputs := FormatTypes(xs[i].outputs);
      out := out + [JsonFunction(xs[i].name, inputs, outputs, xs[i].doc)];
    }
  }

  method FormatStructs(xs: seq<Struct>) returns (out: seq<JsonStruct>)
    ensures out == MapSeq(PrintStruct, xs)
  {
    out := [];
    for i := 0 to |xs|
      invariant |out| == i && forall k | 0 <= k < i :: out[k] == PrintStruct(xs[k])
    {
      var fields := FormatFields(xs[i].fields);
      out := out + [JsonStruct(xs[i].name, fields, xs[i].doc)];
    }
  }

  method FormatCases(xs: seq<UnionCase>) returns (out: seq<JsonUnionCase>)
    ensures out == MapSeq(PrintCase, xs)
  {
    out := [];
    for i := 0 to |xs|
      invariant |out| == i && forall k | 0 <= k < i :: out[k] == PrintCase(xs[k])
    {
      match xs[i]
      case VoidCase(name) => out := out + [JsonUnionCase(name, [])];
      case TupleCase(name, types) =>
        var texts := FormatTypes(types);
        out := out + [JsonUnionCase(name, texts)];
    }
  }

  method FormatUnions(xs: seq<Union>) returns (out: seq<JsonUnion>)
    ensures out == MapSeq(PrintUnion, xs)
  {
    out := [];
    for i := 0 to |xs|
      invariant |out| == i && forall k | 0 <= k < i :: out[k] == PrintUnion(xs[k])
    {
      var cases := FormatCases(xs[i].cases);
      out := out + [JsonUnion(xs[i].name, cases, xs[i].doc)];
    }
  }

  method FormatEvents(xs: seq<Event>) returns (out: seq<JsonEvent>)
    ensures out == MapSeq(PrintEvent, xs)
  {
    out := [];
    for i := 0 to |xs|
      invariant |out| == i && forall k | 0 <= k < i :: out[k] == PrintEvent(xs[k])
    {
      var params := FormatParams(xs[i].params);
      out := out + [JsonEvent(xs[i].name, params, xs[i].doc)];
    }
  }

  method FormatParams(xs: seq<EventParam>) returns (out: seq<JsonEventParam>)
    ensures out == MapSeq(PrintParam, xs)
  {
    out := [];
    for i := 0 to |xs|
      invariant |out| == i && forall k | 0 <= k < i :: out[k] == PrintParam(xs[k])
    {
      var location := "data";
      if xs[i].topic {
        location := "topic";
      }
      out := out + [JsonEventParam(xs[i].name, FormatTypeDef(xs[i].ty), location)];
    }
  }

  method FormatJson(spec: ContractSpec) returns (js: JsonSpec)
    ensures js == PrintSpec(spec)
  {
    hide Sort, MapSeq;
    var functions := FormatFunctions(Sort(FunctionLe, spec.functions));
    var structs := FormatStructs(Sort(StructLe, spec.structs));
    var unions := FormatUnions(Sort(UnionLe, spec.unions));
    var events := FormatEvents(Sort(EventLe, spec.events));
    js := JsonSpec(functions, structs, Sort(EnumLe, spec.enums), unions, Sort(EnumLe, spec.errorEnums), events);
  }

  method ImportInputs(xs: seq<JsonField>) returns (r: Result<seq<Field>, PartError>)
    ensures r == Traverse(ImportInput, xs)
  {
    hide Traverse, After, ParseTypeDef;
    var out: seq<Field> := [];
    AfterStart(ImportInput, xs);
    for i := 0 to |xs|
      invariant Traverse(ImportInput, xs) == After(out, Traverse(ImportInput, xs[i..]))
    {
      AfterStep(ImportInput, xs, out, i);
      match ParseTypeDef(xs[i].ty)
      case Err(e) => return Err(AtInput(xs[i].name, e));
      case Ok(t) => out := out + [Field(xs[i].name, t)];
    }
    AfterEnd(ImportInput, xs, out);
    r := Ok(out);
  }

  method ImportOutputs(xs: seq<string>) returns (r: Result<seq<TypeDef>, PartError>)
    ensures r == Traverse(ImportOutput, xs)
  {
    hide Traverse, After, ParseTypeDef;
    var out: seq<TypeDef> := [];
    AfterStart(ImportOutput, xs);
    for i := 0 to |xs|
      invariant Traverse(ImportOutput, xs) == After(out, Traverse(ImportOutput, xs[i..]))
    {
      AfterStep(ImportOutput, xs, out, i);
      match ParseTypeDef(xs[i])
      case Err(e) => return Err(AtOutput(xs[i], e));
      case Ok(t) => out := out + [t];
    }
    AfterEnd(ImportOutput, xs, out);
    r := Ok(out);
  }

  method ImportFunctions(xs: seq<JsonFunction>) returns (r: Result<seq<Function>, ImportError>)
    ensures r == Traverse(ImportFunction, xs)
  {
    hide Traverse, After, ImportInput, ImportOutput;
    var out: seq<Function> := [];
    AfterStart(ImportFunction, xs);
    for i := 0 to |xs|
      invariant Traverse(ImportFunction, xs) == After(out, Traverse(ImportFunction, xs[i..]))
    {
      AfterStep(ImportFunction, xs, out, i);
      var name := xs[i].name;
      var inputs := ImportInputs(xs[i].inputs);
      if inputs.Err? {
        return Err(ImportError(name, inputs.error));
      }
      var outputs := ImportOutputs(xs[i].outputs);
      if outputs.Err? {
        return Err(ImportError(name, outputs.error));
      }
      out := out + [Function(name, xs[i].doc, inputs.value, outputs.value)];
    }
    AfterEnd(ImportFunction, xs, out);
    r := Ok(out);
  }

  method ImportFields(xs: seq<JsonField>) returns (r: Result<seq<Field>, PartError>)
    ensures r == Traverse(ImportField, xs)
  {
    hide Traverse, After, ParseTypeDef;
    var out: seq<Field> := [];
    AfterStart(ImportField, xs);
    for i := 0 to |xs|
      invariant Traverse(ImportField, xs) == After(out, Traverse(ImportField, xs[i..]))
    {
      AfterStep(ImportField, xs, out, i);
      match ParseTypeDef(xs[i].ty)
      case Err(e) => return Err(AtField(xs[i].name, e));
      case Ok(t) => out := out + [Field(xs[i].name, t)];
    }
    AfterEnd(ImportField, xs, out);
    r := Ok(out);
  }

  method ImportStructs(xs: seq<JsonStruct>) returns (r: Result<seq<Struct>, ImportError>)
    ensures r == Traverse(ImportStruct, xs)
  {
    hide Traverse, After, ImportField;
    var out: seq<Struct> := [];
    AfterStart(ImportStruct, xs);
    for i := 0 to |xs|
      invariant Traverse(ImportStruct, xs) == After(out, Traverse(ImportStruct, xs[i..]))
    {
      AfterStep(ImportStruct, xs, out, i);
      var fields := ImportFields(xs[i].fields);
      if fields.Err? {
        return Err(ImportError(xs[i].name, fields.error));
      }
      out := out + [Struct(xs[i].name, xs[i].doc, fields.value)];
    }
    AfterEnd(ImportStruct, xs, out);
    r := Ok(out);
  }

  method ImportCaseTypes(caseName: string, types: seq<string>) returns (r: Result<seq<TypeDef>, PartError>)
    ensures r == ImportTypes(caseName, types, 0)
  {
    hide ParseTypeDef;
    var out: seq<TypeDef> := [];
    assert types[0..] == types;
    ghost var all := ImportTypes(caseName, types, 0);
    assert all.Ok? ==> [] + all.value == all.value;
    for i := 0 to |types|
      invariant ImportTypes(caseName, types, 0) == After(out, ImportTypes(caseName, types[i..], i))
    {
      assert types[i..][1..] == types[i + 1..];
      ghost var rest := ImportTypes(caseName, types[i + 1..], i + 1);
      assert forall t: TypeDef :: rest.Ok? ==> out + ([t] + rest.value) == out + [t] + rest.value;
      match ParseTypeDef(types[i])
      case Err(e) => return Err(AtCaseType(caseName, i, e));
      case Ok(t) => out := out + [t];
    }
    assert types[|types|..] == [] && out + [] == out;
    r := Ok(out);
  }

  method ImportCases(xs: seq<JsonUnionCase>) returns (r: Result<seq<UnionCase>, PartError>)
    ensures r == Traverse(ImportCase, xs)
  {
    hide Traverse, After, ImportTypes;
    var out: seq<UnionCase> := [];
    AfterStart(ImportCase, xs);
    for i := 0 to |xs|
      invariant Traverse(ImportCase, xs) == After(out, Traverse(ImportCase, xs[i..]))
    {
      AfterStep(ImportCase, xs, out, i);
      if |xs[i].types| == 0 {
        out := out + [VoidCase(xs[i].name)];
      } else {
        var types := ImportCaseTypes(xs[i].name, xs[i].types);
        if types.Err? {
          return Err(types.error);
        }
        out := out + [TupleCase(xs[i].name, types.value)];
      }
    }
    AfterEnd(ImportCase, xs, out);
    r := Ok(out);
  }

  method ImportUnions(xs: seq<JsonUnion>) returns (r: Result<seq<Union>, ImportError>)
    ensures r == Traverse(ImportUnion, xs)
  {
    hide Traverse, After, ImportCase;
    var out: seq<Union> := [];
    AfterStart(ImportUnion, xs);
    for i := 0 to |xs|
      invariant Traverse(ImportUnion, xs) == After(out, Traverse(ImportUnion, xs[i..]))
    {
      AfterStep(ImportUnion, xs, out, i);
      var cases := ImportCases(xs[i].cases);
      if cases.Err? {
        return Err(ImportError(xs[i].name, cases.error));
      }
      out := out + [Union(xs[i].name, xs[i].doc, cases.value)];
    }
    AfterEnd(ImportUnion, xs, out);
    r := Ok(out);
  }

  method ImportParams(xs: seq<JsonEventParam>) returns (r: Result<seq<EventParam>, PartError>)
    ensures r == Traverse(ImportParam, xs)
  {
    hide Traverse, After, ParseTypeDef;
    var out: seq<EventParam> := [];
    AfterStart(ImportParam, xs);
    for i := 0 to |xs|
      invariant Traverse(ImportParam, xs) == After(out, Traverse(ImportParam, xs[i..]))
    {
      AfterStep(ImportParam, xs, out, i);
      match ParseTypeDef(xs[i].ty)
      case Err(e) => return Err(AtParam(xs[i].name, e));
      case Ok(t) => out := out + [EventParam(xs[i].name, t, xs[i].location == "topic")];
    }
    AfterEnd(ImportParam, xs, out);
    r := Ok(out);
  }

  method ImportEvents(xs: seq<JsonEvent>) returns (r: Result<seq<Event>, ImportError>)
    ensures r == Traverse(ImportEvent, xs)
  {
    hide Traverse, After, ImportParam;
    var out: seq<Event> := [];
    AfterStart(ImportEvent, xs);
    for i := 0 to |xs|
      invariant Traverse(ImportEvent, xs) == After(out, Traverse(ImportEvent, xs[i..]))
    {
      AfterStep(ImportEvent, xs, out, i);
      var params := ImportParams(xs[i].params);
      if params.Err? {
        return Err(ImportError(xs[i].name, params.error));
      }
      out := out + [Event(xs[i].name, xs[i].doc, params.value)];
    }
    AfterEnd(ImportEvent, xs, out);
    r := Ok(out);
  }

  method JsonSpecToContractSpec(js: JsonSpec) returns (r: Result<ContractSpec, ImportError>)
    ensures r == ImportSpec(js)
  {
    hide Traverse;
    var functions := ImportFunctions(js.functions);
    if functions.Err? {
      return Err(functions.error);
    }
    var structs := ImportStructs(js.structs);
    if structs.Err? {
      return Err(structs.error);
    }
    var unions := ImportUnions(js.unions);
    if unions.Err? {
      return Err(unions.error);
    }
    var events := ImportEvents(js.events);
    if events.Err? {
      return Err(events.error);
    }
    r := Ok(ContractSpec(functions.value, structs.value, js.enums, unions.value, js.errorEnums, events.value));
  }

  // ---- the hash ----

  /** Marshalling, unmarshalling, XDR decoding and the digest. */
  datatype Lib = Lib(
    render: JsonSpec -> string,
    parse: string -> Option<JsonSpec>,
    decodeXdr: string -> Option<ContractSpec>,
    sha: string -> string)
  {
    ghost predicate Sound() {
      forall js :: parse(render(js)) == Some(js) && render(js) != "" && render(js)[0] == '{'
    }
  }

  datatype ImportFormat = JsonFormat | XdrFormat | OtherFormat

  datatype HashError = BadJson | BadSpec(error: ImportError) | BadXdr

  function DetectFormat(data: string): ImportFormat {
    if data == "" then XdrFormat
    else if IsSpace(data[0]) then DetectFormat(data[1..])
    else if data[0] == '{' then JsonFormat else XdrFormat
  }

  function HashAbi(lib: Lib, spec: ContractSpec): string {
    lib.sha(lib.render(PrintSpec(spec)))
  }

  function HashAbiBytes(lib: Lib, data: string, format: ImportFormat): Result<string, HashError> {
    var actual := if format.OtherFormat? then DetectFormat(data) else format;
    if actual.JsonFormat? then
      match lib.parse(data)
      case None => Err(BadJson)
      case Some(js) =>
        match ImportSpec(js)
        case Err(e) => Err(BadSpec(e))
        case Ok(spec) => Ok(HashAbi(lib, spec))
    else
      match lib.decodeXdr(data)
      case None => Err(BadXdr)
      case Some(spec) => Ok(HashAbi(lib, spec))
  }

  /** Hashing accepted JSON, or the JSON of what it holds, gives one hash. */
  lemma HashNormalForm(lib: Lib, js: JsonSpec)
    requires lib.Sound() && ImportSpec(js).Ok?
    ensures HashAbiBytes(lib, lib.render(PrintSpec(ImportSpec(js).value)), JsonFormat)
      == HashAbiBytes(lib, lib.render(js), JsonFormat) == Ok(HashAbi(lib, ImportSpec(js).value))
  {
    hide PrintSpec, ImportSpec;
    ImportFormatsOnce(js);
    assert lib.parse(lib.render(js)) == Some(js);
    var printed := PrintSpec(ImportSpec(js).value);
    assert lib.parse(lib.render(printed)) == Some(printed);
  }

  /** Hashes of stable specifications agree exactly when the canonical forms do, if the digest separates the two texts. */
  lemma HashExact(lib: Lib, a: ContractSpec, b: ContractSpec)
    requires lib.Sound() && StableSpec(a) && StableSpec(b)
    requires var x, y := lib.render(PrintSpec(a)), lib.render(PrintSpec(b)); lib.sha(x) == lib.sha(y) ==> x == y
    ensures HashAbi(lib, a) == HashAbi(lib, b) <==> Canonical(a) == Canonical(b)
  {
    hide PrintSpec, Canonical, StableSpec;
    PrintExact(a, b);
    assert lib.parse(lib.render(PrintSpec(a))) == Some(PrintSpec(a));
    assert lib.parse(lib.render(PrintSpec(b))) == Some(PrintSpec(b));
  }

  /** Without stability the hash can miss a change: a name spelt like a type hashes like that type. */
  lemma HashMissesUnstableName(lib: Lib)
    ensures var a := EMPTY_SPEC.(structs := [Struct("S", "", [Field("f", Udt("Vec<U32>"))])]);
      var b := EMPTY_SPEC.(structs := [Struct("S", "", [Field("f", VecOf(Primitive(U32Type)))])]);
      HashAbi(lib, a) == HashAbi(lib, b) && Canonical(a) != Canonical(b) && !StableSpec(a)
  {
    hide FormatTypeDef, Stable;
    UnstableNameCollides();
    var f, g := Field("f", Udt("Vec<U32>")), Field("f", VecOf(Primitive(U32Type)));
    var s, t := Struct("S", "", [f]), Struct("S", "", [g]);
    assert PrintField(f) == PrintField(g);
    assert MapSeq(PrintField, [f]) == MapSeq(PrintField, [g]);
    assert Sort(StructLe, [s]) == [s] && Sort(StructLe, [t]) == [t];
    assert MapSeq(PrintStruct, [s]) == MapSeq(PrintStruct, [t]);
    assert !StableStruct(s);
  }
}
