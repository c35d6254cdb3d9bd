/**
 * The loops of internal/abi/compat.go, proved to report exactly the findings between the two
 * specifications. Maps are walked in an arbitrary order, as the language does.
 */
module CompatReport {
  import opened Wrappers
  import opened TypeDefs
  import opened ContractSpecs
  import opened Sorting
  import opened Compat
  import opened CompatLaws

  // ---- normalization ----

  method NormFunctions(spec: ContractSpec) returns (m: map<string, NormFunction>)
    ensures m == Functions(spec)
  {
    m := map[];
    for i := 0 to |spec.functions|
      invariant m == LastBy(spec.functions[..i], (f: Function) => f.name, NormalizeFunction)
    {
      var f := spec.functions[i];
      assert spec.functions[..i + 1][..i] == spec.functions[..i];
      var params := NormInputs(f.inputs);
      var ret := "";
      if |f.outputs| > 0 {
        ret := FormatTypeDef(f.outputs[0]);
      }
      m := m[f.name := NormFunction(f.name, params, ret)];
    }
    assert spec.functions[..|spec.functions|] == spec.functions;
  }

  method NormInputs(fields: seq<Field>) returns (params: seq<NormParam>)
    ensures params == NormParams(fields)
  {
    params := [];
    for i := 0 to |fields|
      invariant params == NormParams(fields)[..i]
    {
      params := params + [NormParam(fields[i].name, FormatTypeDef(fields[i].ty))];
    }
  }

  method NormStructMap(spec: ContractSpec) returns (m: map<string, seq<NormParam>>)
    ensures m == Structs(spec)
  {
    m := map[];
    for i := 0 to |spec.structs|
      invariant m == LastBy(spec.structs[..i], (s: Struct) => s.name, (s: Struct) => NormParams(s.fields))
    {
      assert spec.structs[..i + 1][..i] == spec.structs[..i];
      var fields := NormInputs(spec.structs[i].fields);
      m := m[spec.structs[i].name := fields];
    }
    assert spec.structs[..|spec.structs|] == spec.structs;
  }

  method NormEnumMap(spec: ContractSpec) returns (m: map<string, seq<EnumCase>>)
    ensures m == Enums(spec)
  {
    m := map[];
    for i := 0 to |spec.enums|
      invariant m == LastBy(spec.enums[..i], (e: Enum) => e.name, (e: Enum) => e.cases)
    {
      assert spec.enums[..i + 1][..i] == spec.enums[..i];
      m := m[spec.enums[i].name := spec.enums[i].cases];
    }
    assert spec.enums[..|spec.enums|] == spec.enums;
  }

  method NormUnionMap(spec: ContractSpec) returns (m: map<string, seq<string>>)
    ensures m == Unions(spec)
  {
    m := map[];
    for i := 0 to |spec.unions|
      invariant m == LastBy(spec.unions[..i], (u: Union) => u.name, (u: Union) => CaseNames(u.cases))
    {
      assert spec.unions[..i + 1][..i] == spec.unions[..i];
      var names := NormCases(spec.unions[i].cases);
      m := m[spec.unions[i].name := names];
    }
    assert spec.unions[..|spec.unions|] == spec.unions;
  }

  method NormCases(cases: seq<UnionCase>) returns (names: seq<string>)
    ensures names == CaseNames(cases)
  {
    names := [];
    for i := 0 to |cases|
      invariant names == CaseNames(cases[..i])
    {
      assert cases[..i + 1][..i] == cases[..i];
      if cases[i].name != "" {
        names := names + [cases[i].name];
      }
    }
    assert cases[..|cases|] == cases;
  }

  // ---- helpers on parameter lists ----

  method IndexByName(params: seq<NormParam>) returns (m: map<string, string>)
    ensures m == Index(params)
  {
    m := map[];
    for i := 0 to |params|
      invariant m == Index(params[..i])
    {
      assert params[..i + 1] == params[..i] + [params[i]];
      IndexAppend(params[..i], params[i]);
      m := m[params[i].name := params[i].ty];
    }
    assert params[..|params|] == params;
  }

  method IndexCaseValues(cases: seq<EnumCase>) returns (m: map<string, U32>)
    ensures m == IndexCases(cases)
  {
    m := map[];
    for i := 0 to |cases|
      invariant m == IndexCases(cases[..i])
    {
      assert cases[..i + 1][..i] == cases[..i];
      m := m[cases[i].name := cases[i].value];
    }
    assert cases[..|cases|] == cases;
  }

  method CheckSameNames(a: seq<NormParam>, b: seq<NormParam>) returns (same: bool)
    ensures same == HaveSameParamNames(a, b)
  {
    if |a| != |b| {
      return false;
    }
    var am := IndexByName(a);
    for i := 0 to |b|
      invariant forall j | 0 <= j < i :: b[j].name in am
    {
      if b[i].name !in am {
        assert b[i] in b;
        return false;
      }
    }
    return true;
  }

  method CheckSameOrder(a: seq<NormParam>, b: seq<NormParam>) returns (same: bool)
    ensures same == SameParamOrder(a, b)
  {
    if |a| != |b| {
      return false;
    }
    for i := 0 to |a|
      invariant forall j | 0 <= j < i :: a[j].name == b[j].name
    {
      if a[i].name != b[i].name {
        return false;
      }
    }
    return true;
  }

  function ParamNames(params: seq<NormParam>): seq<string> {
    seq(|params|, i requires 0 <= i < |params| => params[i].name)
  }

  function ParamTexts(params: seq<NormParam>): seq<string> {
    seq(|params|, i requires 0 <= i < |params| => params[i].name + ":" + params[i].ty)
  }

  function JoinNames(params: seq<NormParam>): string {
    Join(ParamNames(params), ", ")
  }

  function Signature(f: NormFunction): string {
    f.name + "(" + Join(ParamTexts(f.params), ", ") + ") -> " + (if f.returnType == "" then "void" else f.returnType)
  }

  // ---- what a list of changes says ----

  function Kinds(changes: seq<Change>): seq<Finding> {
    seq(|changes|, i requires 0 <= i < |changes| => changes[i].what)
  }

  /** The findings a list reports, each as often as it is listed. */
  function Whats(changes: seq<Change>): multiset<Finding> {
    multiset(Kinds(changes))
  }

  lemma WhatsAppend(changes: seq<Change>, more: seq<Change>)
    ensures Whats(changes + more) == Whats(changes) + Whats(more)
  {
    assert Kinds(changes + more) == Kinds(changes) + Kinds(more);
  }

  lemma WhatsOne(c: Change)
    ensures Whats([c]) == multiset{c.what}
  {
    assert Kinds([c]) == [c.what];
  }

  /** How many parameters have the name. */
  function CountName(params: seq<NormParam>, p: string): nat {
    if params == [] then 0
    else CountName(params[..|params| - 1], p) + (if params[|params| - 1].name == p then 1 else 0)
  }

  /** How many parameters of the name have a type that does not fold like ty. */
  function CountUnlike(fold: Fold, params: seq<NormParam>, p: string, ty: string): nat {
    if params == [] then 0
    else
      var last := params[|params| - 1];
      CountUnlike(fold, params[..|params| - 1], p, ty) + (if last.name == p && !EqualFold(fold, last.ty, ty) then 1 else 0)
  }

  /** How often a finding is reported: once for every list entry that shows it. */
  function Times(fold: Fold, x: Finding, a: Norm, b: Norm): nat {
    if !Detected(fold, x, a, b) then 0
    else
      match x
      case ParamRemoved(f, p) => CountName(a.functions[f].params, p)
      case ParamAdded(f, p) => CountName(b.functions[f].params, p)
      case ParamType(f, p) => CountUnlike(fold, a.functions[f].params, p, Index(b.functions[f].params)[p])
      case UnionCaseRemoved(u, c) => multiset(a.unions[u])[c]
      case UnionCaseAdded(u, c) => multiset(b.unions[u])[c]
      case _ => 1
  }

  lemma {:induction false} CountNamePositive(params: seq<NormParam>, p: string)
    ensures CountName(params, p) > 0 <==> p in Index(params)
    ensures CountName(params, p) > 0 <==> exists q <- params :: q.name == p
  {
    IndexKeys(params, p);
    hide Index;
    if params != [] {
      var front, last := params[..|params| - 1], params[|params| - 1];
      CountNamePositive(front, p);
      assert params == front + [last];
      if q :| q in front && q.name == p {
        assert q in params;
      }
    }
  }

  lemma {:induction false} CountUnlikePositive(fold: Fold, params: seq<NormParam>, p: string, ty: string)
    ensures CountUnlike(fold, params, p, ty) > 0 <==> exists q <- params :: q.name == p && !EqualFold(fold, q.ty, ty)
    ensures CountUnlike(fold, params, p, ty) <= CountName(params, p)
  {
    hide EqualFold;
    if params != [] {
      var front, last := params[..|params| - 1], params[|params| - 1];
      CountUnlikePositive(fold, front, p, ty);
      assert params == front + [last];
      if q :| q in front && q.name == p && !EqualFold(fold, q.ty, ty) {
        assert q in params;
      }
    }
  }

  /** Findings that a list entry shows; all others are reported once. */
  predicate Listed(x: Finding) {
    x.ParamRemoved? || x.ParamAdded? || x.ParamType? || x.UnionCaseRemoved? || x.UnionCaseAdded?
  }

  lemma PlainTimes(fold: Fold, x: Finding, a: Norm, b: Norm)
    requires !Listed(x)
    ensures Times(fold, x, a, b) == if Detected(fold, x, a, b) then 1 else 0
  {
    hide Detected;
  }

  lemma ParamTimesPositive(fold: Fold, f: string, p: string, a: Norm, b: Norm)
    ensures Times(fold, ParamRemoved(f, p), a, b) > 0 <==> Detected(fold, ParamRemoved(f, p), a, b)
    ensures Times(fold, ParamAdded(f, p), a, b) > 0 <==> Detected(fold, ParamAdded(f, p), a, b)
    ensures Times(fold, ParamType(f, p), a, b) > 0 <==> Detected(fold, ParamType(f, p), a, b)
  {
    if f in a.functions && f in b.functions {
      var pa, pb := a.functions[f].params, b.functions[f].params;
      CountNamePositive(pa, p);
      CountNamePositive(pb, p);
      if p in Index(pb) {
        CountUnlikePositive(fold, pa, p, Index(pb)[p]);
      }
      hide Index, CountName, CountUnlike, EqualFold;
    }
  }

  lemma CaseTimesPositive(fold: Fold, u: string, c: string, a: Norm, b: Norm)
    ensures Times(fold, UnionCaseRemoved(u, c), a, b) > 0 <==> Detected(fold, UnionCaseRemoved(u, c), a, b)
    ensures Times(fold, UnionCaseAdded(u, c), a, b) > 0 <==> Detected(fold, UnionCaseAdded(u, c), a, b)
  {
  }

  /** What is detected is reported. */
  lemma TimesPositive(fold: Fold, x: Finding, a: Norm, b: Norm)
    ensures Times(fold, x, a, b) > 0 <==> Detected(fold, x, a, b)
  {
    hide Times, Detected;
    match x
    case ParamRemoved(f, p) => ParamTimesPositive(fold, f, p, a, b);
    case ParamAdded(f, p) => ParamTimesPositive(fold, f, p, a, b);
    case ParamType(f, p) => ParamTimesPositive(fold, f, p, a, b);
    case UnionCaseRemoved(u, c) => CaseTimesPositive(fold, u, c, a, b);
    case UnionCaseAdded(u, c) => CaseTimesPositive(fold, u, c, a, b);
    case _ => PlainTimes(fold, x, a, b);
  }

  /** No union names a case twice. */
  ghost predicate DistinctCases(a: Norm) {
    forall u | u in a.unions :: forall i, j | 0 <= i < j < |a.unions[u]| :: a.unions[u][i] != a.unions[u][j]
  }

  lemma {:induction false} CountOnce(params: seq<NormParam>, p: string)
    requires DistinctNames(params)
    ensures CountName(params, p) <= 1
  {
    if params != [] {
      var front := params[..|params| - 1];
      CountOnce(front, p);
      CountNamePositive(front, p);
    }
  }

  lemma ParamsOnce(fold: Fold, f: string, p: string, a: Norm, b: Norm)
    requires DistinctParams(a) && DistinctParams(b)
    ensures Times(fold, ParamRemoved(f, p), a, b) <= 1
    ensures Times(fold, ParamAdded(f, p), a, b) <= 1
    ensures Times(fold, ParamType(f, p), a, b) <= 1
  {
    hide Index, CountName, CountUnlike;
    if f in a.functions && f in b.functions {
      var pa, pb := a.functions[f].params, b.functions[f].params;
      CountOnce(pa, p);
      CountOnce(pb, p);
      if p in Index(pb) {
        CountUnlikePositive(fold, pa, p, Index(pb)[p]);
      }
    }
  }

  lemma CasesOnce(fold: Fold, u: string, c: string, a: Norm, b: Norm)
    requires DistinctCases(a) && DistinctCases(b)
    ensures Times(fold, UnionCaseRemoved(u, c), a, b) <= 1
    ensures Times(fold, UnionCaseAdded(u, c), a, b) <= 1
  {
    if u in a.unions && u in b.unions {
      OnceEach(a.unions[u], c);
      OnceEach(b.unions[u], c);
    }
  }

  /** Without repeated parameter or case names no finding is reported twice. */
  lemma ReportedOnce(fold: Fold, x: Finding, a: Norm, b: Norm)
    requires DistinctParams(a) && DistinctParams(b) && DistinctCases(a) && DistinctCases(b)
    ensures Times(fold, x, a, b) <= 1
  {
    hide Times, Detected, DistinctParams, DistinctCases;
    match x
    case ParamRemoved(f, p) => ParamsOnce(fold, f, p, a, b);
    case ParamAdded(f, p) => ParamsOnce(fold, f, p, a, b);
    case ParamType(f, p) => ParamsOnce(fold, f, p, a, b);
    case UnionCaseRemoved(u, c) => CasesOnce(fold, u, c, a, b);
    case UnionCaseAdded(u, c) => CasesOnce(fold, u, c, a, b);
    case _ => PlainTimes(fold, x, a, b);
  }

  /** The old and new values a change carries are those of the element it names. */
  ghost predicate Shows(c: Change, a: Norm, b: Norm) {
    match c.what
    case FunctionRemoved(f) => f in a.functions && c.oldValue == Signature(a.functions[f]) && c.newValue == ""
    case FunctionAdded(f) => f in b.functions && c.oldValue == "" && c.newValue == Signature(b.functions[f])
    case ParamRemoved(f, p) => f in a.functions && NormParam(p, c.oldValue) in a.functions[f].params && c.newValue == ""
    case ParamAdded(f, p) => f in b.functions && c.oldValue == "" && NormParam(p, c.newValue) in b.functions[f].params
    case ParamType(f, p) => f in a.functions && f in b.functions && p in Index(b.functions[f].params)
      && NormParam(p, c.oldValue) in a.functions[f].params && c.newValue == Index(b.functions[f].params)[p]
    case ParamReorder(f) => f in a.functions && f in b.functions
      && c.oldValue == JoinNames(a.functions[f].params) && c.newValue == JoinNames(b.functions[f].params)
    case ReturnType(f) => f in a.functions && f in b.functions
      && c.oldValue == a.functions[f].returnType && c.newValue == b.functions[f].returnType
    case StructRemoved(s) => c.oldValue == s && c.newValue == ""
    case StructAdded(s) => c.oldValue == "" && c.newValue == s
    case FieldRemoved(s, p) => s in a.structs && p in Index(a.structs[s])
      && c.oldValue == Index(a.structs[s])[p] && c.newValue == ""
    case FieldAdded(s, p) => s in b.structs && p in Index(b.structs[s])
      && c.oldValue == "" && c.newValue == Index(b.structs[s])[p]
    case FieldType(s, p) => s in a.structs && s in b.structs && p in Index(a.structs[s]) && p in Index(b.structs[s])
      && c.oldValue == Index(a.structs[s])[p] && c.newValue == Index(b.structs[s])[p]
    case EnumRemoved(e) => c.oldValue == e && c.newValue == ""
    case EnumAdded(e) => c.oldValue == "" && c.newValue == e
    case EnumCaseRemoved(e, k) => e in a.enums && k in IndexCases(a.enums[e])
      && c.oldValue == Decimal(IndexCases(a.enums[e])[k]) && c.newValue == ""
    case EnumCaseAdded(e, k) => c.oldValue == "" && c.newValue == k
    case EnumCaseValue(e, k) => e in a.enums && e in b.enums && k in IndexCases(a.enums[e]) && k in IndexCases(b.enums[e])
      && c.oldValue == Decimal(IndexCases(a.enums[e])[k]) && c.newValue == Decimal(IndexCases(b.enums[e])[k])
    case UnionRemoved(u) => c.oldValue == u && c.newValue == ""
    case UnionAdded(u) => c.oldValue == "" && c.newValue == u
    case UnionCaseRemoved(u, k) => c.oldValue == k && c.newValue == ""
    case UnionCaseAdded(u, k) => c.oldValue == "" && c.newValue == k
  }

  ghost predicate AllShow(changes: seq<Change>, a: Norm, b: Norm) {
    forall c <- changes :: Shows(c, a, b)
  }

  // ---- the loops, each over one set of keys ----

  /** One loop of the comparison: which findings it can report, and the key that tells its steps apart. */
  datatype Part =
    | OldFunctions | NewFunctions
    | OldStructs | NewStructs | OldFields(s: string) | NewFields(s: string)
    | OldEnums | NewEnums | OldCases(e: string) | NewCases(e: string)
    | OldUnions | NewUnions

  predicate Belongs(part: Part, x: Finding) {
    match part
    case OldFunctions => x.FunctionRemoved? || x.ParamRemoved? || x.ParamAdded? || x.ParamType? || x.ParamReorder? || x.ReturnType?
    case NewFunctions => x.FunctionAdded?
    case OldStructs => x.StructRemoved? || x.FieldRemoved? || x.FieldAdded? || x.FieldType?
    case NewStructs => x.StructAdded?
    case OldFields(s) => (x.FieldRemoved? || x.FieldType?) && x.s == s
    case NewFields(s) => x.FieldAdded? && x.s == s
    case OldEnums => x.EnumRemoved? || x.EnumCaseRemoved? || x.EnumCaseAdded? || x.EnumCaseValue?
    case NewEnums => x.EnumAdded?
    case OldCases(e) => (x.EnumCaseRemoved? || x.EnumCaseValue?) && x.e == e
    case NewCases(e) => x.EnumCaseAdded? && x.e == e
    case OldUnions => x.UnionRemoved? || x.UnionCaseRemoved? || x.UnionCaseAdded?
    case NewUnions => x.UnionAdded?
  }

  function Key(part: Part, x: Finding): string
    requires Belongs(part, x)
  {
    match part
    case OldFunctions => x.f
    case NewFunctions => x.f
    case OldStructs => x.s
    case NewStructs => x.s
    case OldFields(_) => x.p
    case NewFields(_) => x.p
    case OldEnums => x.e
    case NewEnums => x.e
    case OldCases(_) => x.c
    case NewCases(_) => x.c
    case OldUnions => x.u
    case NewUnions => x.u
  }

  predicate InPart(part: Part, done: set<string>, x: Finding) {
    Belongs(part, x) && Key(part, x) in done
  }

  /** changes lists exactly the findings of one loop whose keys are done, each as often as it shows, with its values. */
  ghost predicate Lists(changes: seq<Change>, part: Part, done: set<string>, fold: Fold, a: Norm, b: Norm) {
    && (forall x :: Whats(changes)[x] == if InPart(part, done, x) then Times(fold, x, a, b) else 0)
    && AllShow(changes, a, b)
  }

  lemma ListsNone(part: Part, fold: Fold, a: Norm, b: Norm)
    ensures Lists([], part, {}, fold, a, b)
  {
  }

  lemma ListsStep(changes: seq<Change>, more: seq<Change>, part: Part, done: set<string>, key: string, fold: Fold, a: Norm, b: Norm)
    requires Lists(changes, part, done, fold, a, b) && key !in done
    requires Lists(more, part, {key}, fold, a, b)
    ensures Lists(changes + more, part, done + {key}, fold, a, b)
  {
    hide Detected, Shows, Belongs, Whats, Times;
    WhatsAppend(changes, more);
  }

  lemma ListsQuiet(part: Part, key: string, fold: Fold, a: Norm, b: Norm)
    requires forall x :: Belongs(part, x) && Key(part, x) == key ==> !Detected(fold, x, a, b)
    ensures Lists([], part, {key}, fold, a, b)
  {
    hide Detected, Belongs;
  }

  lemma ListsOne(c: Change, part: Part, key: string, fold: Fold, a: Norm, b: Norm)
    requires Belongs(part, c.what) && Key(part, c.what) == key && Shows(c, a, b)
    requires Detected(fold, c.what, a, b) && Times(fold, c.what, a, b) == 1
    requires forall x :: Belongs(part, x) && Key(part, x) == key && Detected(fold, x, a, b) ==> x == c.what
    ensures Lists([c], part, {key}, fold, a, b)
  {
    hide Detected, Shows, Whats, Belongs, Key;
    WhatsOne(c);
  }

  /** The findings of a whole section of the report. */
  ghost predicate ListsAll(changes: seq<Change>, section: Finding -> bool, fold: Fold, a: Norm, b: Norm) {
    && (forall x :: Whats(changes)[x] == if section(x) then Times(fold, x, a, b) else 0)
    && AllShow(changes, a, b)
  }

  /** The section is split between the two lists, as far as anything is found. */
  ghost predicate Split(section: Finding -> bool, p: Finding -> bool, q: Finding -> bool, fold: Fold, a: Norm, b: Norm) {
    forall x | Detected(fold, x, a, b) :: section(x) == (p(x) || q(x)) && !(p(x) && q(x))
  }

  lemma ListsBoth(first: seq<Change>, second: seq<Change>, section: Finding -> bool, p: Finding -> bool, q: Finding -> bool, fold: Fold, a: Norm, b: Norm)
    requires ListsAll(first, p, fold, a, b) && ListsAll(second, q, fold, a, b) && Split(section, p, q, fold, a, b)
    ensures ListsAll(first + second, section, fold, a, b)
  {
    hide Detected, Shows, Whats;
    WhatsAppend(first, second);
  }

  /** A loop over one set of keys is a section. */
  lemma PartIsSection(changes: seq<Change>, part: Part, done: set<string>, fold: Fold, a: Norm, b: Norm)
    ensures Lists(changes, part, done, fold, a, b) <==> ListsAll(changes, x => InPart(part, done, x), fold, a, b)
  {
    hide Detected, Shows, Whats, Times, InPart;
  }

  // ---- structs ----

  method CompareStructFields(fold: Fold, name: string, ghost a: Norm, ghost b: Norm, prior: seq<NormParam>, latest: seq<NormParam>)
    returns (changes: seq<Change>)
    requires name in a.structs && a.structs[name] == prior
    requires name in b.structs && b.structs[name] == latest
    ensures Lists(changes, OldStructs, {name}, fold, a, b)
  {
    var oldFields := IndexByName(prior);
    var newFields := IndexByName(latest);
    var removed := OldFieldChanges(fold, name, a, b, oldFields, newFields);
    var added := NewFieldChanges(fold, name, a, b, oldFields, newFields);
    changes := removed + added;
    StructsOfFields(name, fold, removed, added, a, b);
  }

  lemma StructsOfFields(name: string, fold: Fold, removed: seq<Change>, added: seq<Change>, a: Norm, b: Norm)
    requires name in a.structs && name in b.structs
    requires Lists(removed, OldFields(name), Index(a.structs[name]).Keys, fold, a, b)
    requires Lists(added, NewFields(name), Index(b.structs[name]).Keys, fold, a, b)
    ensures Lists(removed + added, OldStructs, {name}, fold, a, b)
  {
    WhatsAppend(removed, added);
    hide Whats, Shows, InPart, Times, Index;
    forall x ensures Whats(removed + added)[x] == if InPart(OldStructs, {name}, x) then Times(fold, x, a, b) else 0 {
      FieldsSplitHolds(fold, x, name, a, b);
    }
  }

  /** A finding about the fields of one struct is of just one of the two walks. */
  ghost predicate FieldsSplit(fold: Fold, x: Finding, name: string, a: Norm, b: Norm)
    requires name in a.structs && name in b.structs
  {
    var p, q := InPart(OldFields(name), Index(a.structs[name]).Keys, x), InPart(NewFields(name), Index(b.structs[name]).Keys, x);
    Times(fold, x, a, b) == 0 || (!(p && q) && InPart(OldStructs, {name}, x) == (p || q))
  }

  lemma FieldsSplitHolds(fold: Fold, x: Finding, name: string, a: Norm, b: Norm)
    requires name in a.structs && name in b.structs
    ensures FieldsSplit(fold, x, name, a, b)
  {
    TimesPositive(fold, x, a, b);
    hide Index, IndexCases, Times, Detected;
    if Detected(fold, x, a, b) {
      FieldsIndexed(fold, x, name, a, b);
      hide InPart;
      FieldsParts(x, name, Index(a.structs[name]).Keys, Index(b.structs[name]).Keys);
    }
  }

  lemma FieldsParts(x: Finding, name: string, da: set<string>, db: set<string>)
    requires x.StructRemoved? ==> x.s != name
    requires (x.FieldRemoved? || x.FieldType?) && x.s == name ==> x.p in da
    requires x.FieldAdded? && x.s == name ==> x.p in db
    ensures var p, q := InPart(OldFields(name), da, x), InPart(NewFields(name), db, x);
      !(p && q) && InPart(OldStructs, {name}, x) == (p || q)
  {
  }

  lemma FieldsIndexed(fold: Fold, x: Finding, name: string, a: Norm, b: Norm)
    requires name in a.structs && name in b.structs && Detected(fold, x, a, b)
    ensures x.StructRemoved? ==> x.s != name
    ensures (x.FieldRemoved? || x.FieldType?) && x.s == name ==> x.p in Index(a.structs[name])
    ensures x.FieldAdded? && x.s == name ==> x.p in Index(b.structs[name])
  {
    hide Index, IndexCases, HaveSameParamNames, SameParamOrder, EqualFold;
  }

  method OldFieldChanges(fold: Fold, name: string, ghost a: Norm, ghost b: Norm, oldFields: map<string, string>, newFields: map<string, string>)
    returns (changes: seq<Change>)
    requires name in a.structs && Index(a.structs[name]) == oldFields
    requires name in b.structs && Index(b.structs[name]) == newFields
    ensures Lists(changes, OldFields(name), oldFields.Keys, fold, a, b)
  {
    hide Lists, Index, IndexCases, HaveSameParamNames, SameParamOrder, Decimal;
    changes := [];
    ListsNone(OldFields(name), fold, a, b);
    var todo := oldFields.Keys;
    assert oldFields.Keys - todo == {};
    while todo != {}
      invariant todo <= oldFields.Keys
      invariant Lists(changes, OldFields(name), oldFields.Keys - todo, fold, a, b)
    {
      var k :| k in todo;
      ghost var done := oldFields.Keys - todo;
      todo := todo - {k};
      assert oldFields.Keys - todo == done + {k};
      var more: seq<Change> := [];
      if k !in newFields {
        more := [Change(FieldRemoved(name, k), oldFields[k], "")];
        ListsOne(more[0], OldFields(name), k, fold, a, b);
      } else if !EqualFold(fold, oldFields[k], newFields[k]) {
        more := [Change(FieldType(name, k), oldFields[k], newFields[k])];
        ListsOne(more[0], OldFields(name), k, fold, a, b);
      } else {
        ListsQuiet(OldFields(name), k, fold, a, b);
      }
      ListsStep(changes, more, OldFields(name), done, k, fold, a, b);
      changes := changes + more;
    }
    assert oldFields.Keys - todo == oldFields.Keys;
  }

  method NewFieldChanges(fold: Fold, name: string, ghost a: Norm, ghost b: Norm, oldFields: map<string, string>, newFields: map<string, string>)
    returns (changes: seq<Change>)
    requires name in a.structs && Index(a.structs[name]) == oldFields
    requires name in b.structs && Index(b.structs[name]) == newFields
    ensures Lists(changes, NewFields(name), newFields.Keys, fold, a, b)
  {
    hide Lists, Index;
    changes := [];
    ListsNone(NewFields(name), fold, a, b);
    var todo := newFields.Keys;
    assert newFields.Keys - todo == {};
    while todo != {}
      invariant todo <= newFields.Keys
      invariant Lists(changes, NewFields(name), newFields.Keys - todo, fold, a, b)
    {
      var k :| k in todo;
      ghost var done := newFields.Keys - todo;
      todo := todo - {k};
      assert newFields.Keys - todo == done + {k};
      var more: seq<Change> := [];
      if k !in oldFields {
        more := [Change(FieldAdded(name, k), "", newFields[k])];
        ListsOne(more[0], NewFields(name), k, fold, a, b);
      } else {
        ListsQuiet(NewFields(name), k, fold, a, b);
      }
      ListsStep(changes, more, NewFields(name), done, k, fold, a, b);
      changes := changes + more;
    }
    assert newFields.Keys - todo == newFields.Keys;
  }

  predicate IsFunctions(x: Finding) { Belongs(OldFunctions, x) || x.FunctionAdded? }
  predicate IsStructs(x: Finding) { Belongs(OldStructs, x) || x.StructAdded? }
  predicate IsEnums(x: Finding) { Belongs(OldEnums, x) || x.EnumAdded? }
  predicate IsUnions(x: Finding) { Belongs(OldUnions, x) || x.UnionAdded? }

  method CompareStructs(fold: Fold, ghost a: Norm, ghost b: Norm, oldStructs: map<string, seq<NormParam>>, newStructs: map<string, seq<NormParam>>)
    returns (changes: seq<Change>)
    requires oldStructs == a.structs && newStructs == b.structs
    ensures ListsAll(changes, IsStructs, fold, a, b)
  {
    var kept := OldStructsChanges(fold, a, b, oldStructs, newStructs);
    var added := NewStructsChanges(fold, a, b, oldStructs, newStructs);
    changes := kept + added;
    AllStructs(fold, kept, added, a, b);
  }

  lemma AllStructs(fold: Fold, kept: seq<Change>, added: seq<Change>, a: Norm, b: Norm)
    requires Lists(kept, OldStructs, a.structs.Keys, fold, a, b)
    requires Lists(added, NewStructs, b.structs.Keys, fold, a, b)
    ensures ListsAll(kept + added, IsStructs, fold, a, b)
  {
    var da, db := a.structs.Keys, b.structs.Keys;
    PartIsSection(kept, OldStructs, da, fold, a, b);
    PartIsSection(added, NewStructs, db, fold, a, b);
    hide Index, IndexCases, Lists, ListsAll, HaveSameParamNames, SameParamOrder, EqualFold;
    ListsBoth(kept, added, IsStructs, x => InPart(OldStructs, da, x), x => InPart(NewStructs, db, x), fold, a, b);
  }

  method OldStructsChanges(fold: Fold, ghost a: Norm, ghost b: Norm, oldStructs: map<string, seq<NormParam>>, newStructs: map<string, seq<NormParam>>)
    returns (changes: seq<Change>)
    requires oldStructs == a.structs && newStructs == b.structs
    ensures Lists(changes, OldStructs, oldStructs.Keys, fold, a, b)
  {
    hide Lists, Index, IndexCases, HaveSameParamNames, SameParamOrder, Decimal;
    changes := [];
    ListsNone(OldStructs, fold, a, b);
    var todo := oldStructs.Keys;
    assert oldStructs.Keys - todo == {};
    while todo != {}
      invariant todo <= oldStructs.Keys
      invariant Lists(changes, OldStructs, oldStructs.Keys - todo, fold, a, b)
    {
      var name :| name in todo;
      ghost var done := oldStructs.Keys - todo;
      todo := todo - {name};
      assert oldStructs.Keys - todo == done + {name};
      var more: seq<Change>;
      if name !in newStructs {
        more := [Change(StructRemoved(name), name, "")];
        ListsOne(more[0], OldStructs, name, fold, a, b);
      } else {
        more := CompareStructFields(fold, name, a, b, oldStructs[name], newStructs[name]);
      }
      ListsStep(changes, more, OldStructs, done, name, fold, a, b);
      changes := changes + more;
    }
    assert oldStructs.Keys - todo == oldStructs.Keys;
  }

  method NewStructsChanges(fold: Fold, ghost a: Norm, ghost b: Norm, oldStructs: map<string, seq<NormParam>>, newStructs: map<string, seq<NormParam>>)
    returns (changes: seq<Change>)
    requires oldStructs == a.structs && newStructs == b.structs
    ensures Lists(changes, NewStructs, newStructs.Keys, fold, a, b)
  {
    hide Lists, Index, IndexCases;
    changes := [];
    ListsNone(NewStructs, fold, a, b);
    var todo := newStructs.Keys;
    assert newStructs.Keys - todo == {};
    while todo != {}
      invariant todo <= newStructs.Keys
      invariant Lists(changes, NewStructs, newStructs.Keys - todo, fold, a, b)
    {
      var name :| name in todo;
      ghost var done := newStructs.Keys - todo;
      todo := todo - {name};
      assert newStructs.Keys - todo == done + {name};
      var more: seq<Change> := [];
      if name !in oldStructs {
        more := [Change(StructAdded(name), "", name)];
        ListsOne(more[0], NewStructs, name, fold, a, b);
      } else {
        ListsQuiet(NewStructs, name, fold, a, b);
      }
      ListsStep(changes, more, NewStructs, done, name, fold, a, b);
      changes := changes + more;
    }
    assert newStructs.Keys - todo == newStructs.Keys;
  }

  // ---- enums ----

  method CompareEnumCases(fold: Fold, name: string, ghost a: Norm, ghost b: Norm, prior: seq<EnumCase>, latest: seq<EnumCase>)
    returns (changes: seq<Change>)
    requires name in a.enums && a.enums[name] == prior
    requires name in b.enums && b.enums[name] == latest
    ensures Lists(changes, OldEnums, {name}, fold, a, b)
  {
    var oldCases := IndexCaseValues(prior);
    var newCases := IndexCaseValues(latest);
    var removed := OldCaseChanges(fold, name, a, b, oldCases, newCases);
    var added := NewCaseChanges(fold, name, a, b, oldCases, newCases);
    changes := removed + added;
    EnumsOfCases(name, fold, removed, added, a, b);
  }

  lemma EnumsOfCases(name: string, fold: Fold, removed: seq<Change>, added: seq<Change>, a: Norm, b: Norm)
    requires name in a.enums && name in b.enums
    requires Lists(removed, OldCases(name), IndexCases(a.enums[name]).Keys, fold, a, b)
    requires Lists(added, NewCases(name), IndexCases(b.enums[name]).Keys, fold, a, b)
    ensures Lists(removed + added, OldEnums, {name}, fold, a, b)
  {
    WhatsAppend(removed, added);
    hide Whats, Shows, InPart, Times, IndexCases;
    forall x ensures Whats(removed + added)[x] == if InPart(OldEnums, {name}, x) then Times(fold, x, a, b) else 0 {
      CasesSplitHolds(fold, x, name, a, b);
    }
  }

  /** A finding about the cases of one enum is of just one of the two walks. */
  ghost predicate CasesSplit(fold: Fold, x: Finding, name: string, a: Norm, b: Norm)
    requires name in a.enums && name in b.enums
  {
    var p, q := InPart(OldCases(name), IndexCases(a.enums[name]).Keys, x), InPart(NewCases(name), IndexCases(b.enums[name]).Keys, x);
    Times(fold, x, a, b) == 0 || (!(p && q) && InPart(OldEnums, {name}, x) == (p || q))
  }

  lemma CasesSplitHolds(fold: Fold, x: Finding, name: string, a: Norm, b: Norm)
    requires name in a.enums && name in b.enums
    ensures CasesSplit(fold, x, name, a, b)
  {
    TimesPositive(fold, x, a, b);
    hide Index, IndexCases, Times, Detected;
    if Detected(fold, x, a, b) {
      CasesIndexed(fold, x, name, a, b);
      hide InPart;
      CasesParts(x, name, IndexCases(a.enums[name]).Keys, IndexCases(b.enums[name]).Keys);
    }
  }

  lemma CasesParts(x: Finding, name: string, da: set<string>, db: set<string>)
    requires x.EnumRemoved? ==> x.e != name
    requires (x.EnumCaseRemoved? || x.EnumCaseValue?) && x.e == name ==> x.c in da
    requires x.EnumCaseAdded? && x.e == name ==> x.c in db
    ensures var p, q := InPart(OldCases(name), da, x), InPart(NewCases(name), db, x);
      !(p && q) && InPart(OldEnums, {name}, x) == (p || q)
  {
  }

  lemma CasesIndexed(fold: Fold, x: Finding, name: string, a: Norm, b: Norm)
    requires name in a.enums && name in b.enums && Detected(fold, x, a, b)
    ensures x.EnumRemoved? ==> x.e != name
    ensures (x.EnumCaseRemoved? || x.EnumCaseValue?) && x.e == name ==> x.c in IndexCases(a.enums[name])
    ensures x.EnumCaseAdded? && x.e == name ==> x.c in IndexCases(b.enums[name])
  {
    hide Index, IndexCases, HaveSameParamNames, SameParamOrder, EqualFold;
  }

  method OldCaseChange(fold: Fold, name: string, ghost a: Norm, ghost b: Norm, oldCases: map<string, U32>, newCases: map<string, U32>, k: string)
    returns (more: seq<Change>)
    requires name in a.enums && IndexCases(a.enums[name]) == oldCases && k in oldCases
    requires name in b.enums && IndexCases(b.enums[name]) == newCases
    ensures Lists(more, OldCases(name), {k}, fold, a, b)
  {
    hide Lists, Index, IndexCases, HaveSameParamNames, SameParamOrder, Decimal;
    more := [];
    if k !in newCases {
      more := [Change(EnumCaseRemoved(name, k), Decimal(oldCases[k]), "")];
      ListsOne(more[0], OldCases(name), k, fold, a, b);
    } else if oldCases[k] != newCases[k] {
      more := [Change(EnumCaseValue(name, k), Decimal(oldCases[k]), Decimal(newCases[k]))];
      ListsOne(more[0], OldCases(name), k, fold, a, b);
    } else {
      ListsQuiet(OldCases(name), k, fold, a, b);
    }
  }

  method OldCaseChanges(fold: Fold, name: string, ghost a: Norm, ghost b: Norm, oldCases: map<string, U32>, newCases: map<string, U32>)
    returns (changes: seq<Change>)
    requires name in a.enums && IndexCases(a.enums[name]) == oldCases
    requires name in b.enums && IndexCases(b.enums[name]) == newCases
    ensures Lists(changes, OldCases(name), oldCases.Keys, fold, a, b)
  {
    hide Lists, IndexCases, Detected;
    changes := [];
    ListsNone(OldCases(name), fold, a, b);
    var todo := oldCases.Keys;
    assert oldCases.Keys - todo == {};
    while todo != {}
      invariant todo <= oldCases.Keys
      invariant Lists(changes, OldCases(name), oldCases.Keys - todo, fold, a, b)
    {
      var k :| k in todo;
      ghost var done := oldCases.Keys - todo;
      todo := todo - {k};
      assert oldCases.Keys - todo == done + {k};
      var more := OldCaseChange(fold, name, a, b, oldCases, newCases, k);
      ListsStep(changes, more, OldCases(name), done, k, fold, a, b);
      changes := changes + more;
    }
    assert oldCases.Keys - todo == oldCases.Keys;
  }

  method NewCaseChanges(fold: Fold, name: string, ghost a: Norm, ghost b: Norm, oldCases: map<string, U32>, newCases: map<string, U32>)
    returns (changes: seq<Change>)
    requires name in a.enums && IndexCases(a.enums[name]) == oldCases
    requires name in b.enums && IndexCases(b.enums[name]) == newCases
    ensures Lists(changes, NewCases(name), newCases.Keys, fold, a, b)
  {
    hide Lists, Index, IndexCases, HaveSameParamNames, SameParamOrder, Decimal;
    changes := [];
    ListsNone(NewCases(name), fold, a, b);
    var todo := newCases.Keys;
    assert newCases.Keys - todo == {};
    while todo != {}
      invariant todo <= newCases.Keys
      invariant Lists(changes, NewCases(name), newCases.Keys - todo, fold, a, b)
    {
      var k :| k in todo;
      ghost var done := newCases.Keys - todo;
      todo := todo - {k};
      assert newCases.Keys - todo == done + {k};
      var more: seq<Change> := [];
      if k !in oldCases {
        more := [Change(EnumCaseAdded(name, k), "", k)];
        ListsOne(more[0], NewCases(name), k, fold, a, b);
      } else {
        ListsQuiet(NewCases(name), k, fold, a, b);
      }
      ListsStep(changes, more, NewCases(name), done, k, fold, a, b);
      changes := changes + more;
    }
    assert newCases.Keys - todo == newCases.Keys;
  }

  method CompareEnums(fold: Fold, ghost a: Norm, ghost b: Norm, oldEnums: map<string, seq<EnumCase>>, newEnums: map<string, seq<EnumCase>>)
    returns (changes: seq<Change>)
    requires oldEnums == a.enums && newEnums == b.enums
    ensures ListsAll(changes, IsEnums, fold, a, b)
  {
    var kept := OldEnumsChanges(fold, a, b, oldEnums, newEnums);
    var added := NewEnumsChanges(fold, a, b, oldEnums, newEnums);
    changes := kept + added;
    AllEnums(fold, kept, added, a, b);
  }

  lemma AllEnums(fold: Fold, kept: seq<Change>, added: seq<Change>, a: Norm, b: Norm)
    requires Lists(kept, OldEnums, a.enums.Keys, fold, a, b)
    requires Lists(added, NewEnums, b.enums.Keys, fold, a, b)
    ensures ListsAll(kept + added, IsEnums, fold, a, b)
  {
    var da, db := a.enums.Keys, b.enums.Keys;
    PartIsSection(kept, OldEnums, da, fold, a, b);
    PartIsSection(added, NewEnums, db, fold, a, b);
    hide Index, IndexCases, Lists, ListsAll, HaveSameParamNames, SameParamOrder, EqualFold;
    ListsBoth(kept, added, IsEnums, x => InPart(OldEnums, da, x), x => InPart(NewEnums, db, x), fold, a, b);
  }

  method OldEnumsChanges(fold: Fold, ghost a: Norm, ghost b: Norm, oldEnums: map<string, seq<EnumCase>>, newEnums: map<string, seq<EnumCase>>)
    returns (changes: seq<Change>)
    requires oldEnums == a.enums && newEnums == b.enums
    ensures Lists(changes, OldEnums, oldEnums.Keys, fold, a, b)
  {
    hide Lists, Index, IndexCases, HaveSameParamNames, SameParamOrder, Decimal;
    changes := [];
    ListsNone(OldEnums, fold, a, b);
    var todo := oldEnums.Keys;
    assert oldEnums.Keys - todo == {};
    while todo != {}
      invariant todo <= oldEnums.Keys
      invariant Lists(changes, OldEnums, oldEnums.Keys - todo, fold, a, b)
    {
      var name :| name in todo;
      ghost var done := oldEnums.Keys - todo;
      todo := todo - {name};
      assert oldEnums.Keys - todo == done + {name};
      var more: seq<Change>;
      if name !in newEnums {
        more := [Change(EnumRemoved(name), name, "")];
        ListsOne(more[0], OldEnums, name, fold, a, b);
      } else {
        more := CompareEnumCases(fold, name, a, b, oldEnums[name], newEnums[name]);
      }
      ListsStep(changes, more, OldEnums, done, name, fold, a, b);
      changes := changes + more;
    }
    assert oldEnums.Keys - todo == oldEnums.Keys;
  }

  method NewEnumsChanges(fold: Fold, ghost a: Norm, ghost b: Norm, oldEnums: map<string, seq<EnumCase>>, newEnums: map<string, seq<EnumCase>>)
    returns (changes: seq<Change>)
    requires oldEnums == a.enums && newEnums == b.enums
    ensures Lists(changes, NewEnums, newEnums.Keys, fold, a, b)
  {
    hide Lists, Index, IndexCases;
    changes := [];
    ListsNone(NewEnums, fold, a, b);
    var todo := newEnums.Keys;
    assert newEnums.Keys - todo == {};
    while todo != {}
      invariant todo <= newEnums.Keys
      invariant Lists(changes, NewEnums, newEnums.Keys - todo, fold, a, b)
    {
      var name :| name in todo;
      ghost var done := newEnums.Keys - todo;
      todo := todo - {name};
      assert newEnums.Keys - todo == done + {name};
      var more: seq<Change> := [];
      if name !in oldEnums {
        more := [Change(EnumAdded(name), "", name)];
        ListsOne(more[0], NewEnums, name, fold, a, b);
      } else {
        ListsQuiet(NewEnums, name, fold, a, b);
      }
      ListsStep(changes, more, NewEnums, done, name, fold, a, b);
      changes := changes + more;
    }
    assert newEnums.Keys - todo == newEnums.Keys;
  }

  // ---- unions ----

  method CompareUnionCases(fold: Fold, name: string, ghost a: Norm, ghost b: Norm, prior: seq<string>, latest: seq<string>)
    returns (changes: seq<Change>)
    requires name in a.unions && a.unions[name] == prior
    requires name in b.unions && b.unions[name] == latest
    ensures Lists(changes, OldUnions, {name}, fold, a, b)
  {
    var added := NewUnionCaseChanges(name, a, b, prior, latest);
    var removed := OldUnionCaseChanges(name, a, b, prior, latest);
    changes := added + removed;
    UnionsOfCases(name, fold, removed, added, a, b);
  }

  predicate IsCase(added: bool, u: string, x: Finding) {
    if added then x.UnionCaseAdded? && x.u == u else x.UnionCaseRemoved? && x.u == u
  }

  /** Every name walked that the other list lacks, as often as it was walked. */
  ghost function CaseTimes(x: Finding, added: bool, u: string, walked: seq<string>, other: seq<string>): nat {
    if IsCase(added, u, x) && x.c !in other then multiset(walked)[x.c] else 0
  }

  ghost predicate ListsCases(changes: seq<Change>, added: bool, u: string, walked: seq<string>, other: seq<string>, a: Norm, b: Norm) {
    (forall x :: Whats(changes)[x] == CaseTimes(x, added, u, walked, other)) && AllShow(changes, a, b)
  }

  lemma CasesStep(changes: seq<Change>, more: seq<Change>, added: bool, u: string, walked: seq<string>, k: string, other: seq<string>, a: Norm, b: Norm)
    requires ListsCases(changes, added, u, walked, other, a, b) && AllShow(more, a, b)
    requires Whats(more) ==
      if k in other then multiset{} else multiset{if added then UnionCaseAdded(u, k) else UnionCaseRemoved(u, k)}
    ensures ListsCases(changes + more, added, u, walked + [k], other, a, b)
  {
    hide Whats, Shows;
    WhatsAppend(changes, more);
  }

  lemma UnionsOfCases(name: string, fold: Fold, removed: seq<Change>, added: seq<Change>, a: Norm, b: Norm)
    requires name in a.unions && name in b.unions
    requires ListsCases(removed, false, name, a.unions[name], b.unions[name], a, b)
    requires ListsCases(added, true, name, b.unions[name], a.unions[name], a, b)
    ensures Lists(added + removed, OldUnions, {name}, fold, a, b)
  {
    WhatsAppend(added, removed);
    hide Whats, Shows;
    forall x ensures
      CaseTimes(x, false, name, a.unions[name], b.unions[name]) + CaseTimes(x, true, name, b.unions[name], a.unions[name])
        == if InPart(OldUnions, {name}, x) then Times(fold, x, a, b) else 0
    {
      UnionTimes(fold, x, name, a, b);
    }
  }

  lemma UnionTimes(fold: Fold, x: Finding, name: string, a: Norm, b: Norm)
    requires name in a.unions && name in b.unions
    ensures
      CaseTimes(x, false, name, a.unions[name], b.unions[name]) + CaseTimes(x, true, name, b.unions[name], a.unions[name])
        == if InPart(OldUnions, {name}, x) then Times(fold, x, a, b) else 0
  {
    hide Index, IndexCases, EqualFold, HaveSameParamNames, SameParamOrder;
  }

  method NewUnionCaseChanges(name: string, ghost a: Norm, ghost b: Norm, prior: seq<string>, latest: seq<string>)
    returns (changes: seq<Change>)
    requires name in a.unions && a.unions[name] == prior
    requires name in b.unions && b.unions[name] == latest
    ensures ListsCases(changes, true, name, latest, prior, a, b)
  {
    changes := [];
    for i := 0 to |latest|
      invariant ListsCases(changes, true, name, latest[..i], prior, a, b)
    {
      hide ListsCases;
      var k := latest[i];
      assert latest[..i + 1] == latest[..i] + [k];
      var more: seq<Change> := [];
      if k !in prior {
        more := [Change(UnionCaseAdded(name, k), "", k)];
        WhatsOne(more[0]);
      }
      CasesStep(changes, more, true, name, latest[..i], k, prior, a, b);
      changes := changes + more;
    }
    assert latest[..|latest|] == latest;
  }

  method OldUnionCaseChanges(name: string, ghost a: Norm, ghost b: Norm, prior: seq<string>, latest: seq<string>)
    returns (changes: seq<Change>)
    requires name in a.unions && a.unions[name] == prior
    requires name in b.unions && b.unions[name] == latest
    ensures ListsCases(changes, false, name, prior, latest, a, b)
  {
    changes := [];
    for i := 0 to |prior|
      invariant ListsCases(changes, false, name, prior[..i], latest, a, b)
    {
      hide ListsCases;
      var k := prior[i];
      assert prior[..i + 1] == prior[..i] + [k];
      var more: seq<Change> := [];
      if k !in latest {
        more := [Change(UnionCaseRemoved(name, k), k, "")];
        WhatsOne(more[0]);
      }
      CasesStep(changes, more, false, name, prior[..i], k, latest, a, b);
      changes := changes + more;
    }
    assert prior[..|prior|] == prior;
  }

  method CompareUnions(fold: Fold, ghost a: Norm, ghost b: Norm, oldUnions: map<string, seq<string>>, newUnions: map<string, seq<string>>)
    returns (changes: seq<Change>)
    requires oldUnions == a.unions && newUnions == b.unions
    ensures ListsAll(changes, IsUnions, fold, a, b)
  {
    var kept := OldUnionsChanges(fold, a, b, oldUnions, newUnions);
    var added := NewUnionsChanges(fold, a, b, oldUnions, newUnions);
    changes := kept + added;
    AllUnions(fold, kept, added, a, b);
  }

  lemma AllUnions(fold: Fold, kept: seq<Change>, added: seq<Change>, a: Norm, b: Norm)
    requires Lists(kept, OldUnions, a.unions.Keys, fold, a, b)
    requires Lists(added, NewUnions, b.unions.Keys, fold, a, b)
    ensures ListsAll(kept + added, IsUnions, fold, a, b)
  {
    var da, db := a.unions.Keys, b.unions.Keys;
    PartIsSection(kept, OldUnions, da, fold, a, b);
    PartIsSection(added, NewUnions, db, fold, a, b);
    hide Index, IndexCases, Lists, ListsAll, HaveSameParamNames, SameParamOrder, EqualFold;
    ListsBoth(kept, added, IsUnions, x => InPart(OldUnions, da, x), x => InPart(NewUnions, db, x), fold, a, b);
  }

  lemma UnionGone(name: string, fold: Fold, a: Norm, b: Norm)
    requires name in a.unions && name !in b.unions
    ensures Lists([Change(UnionRemoved(name), name, "")], OldUnions, {name}, fold, a, b)
  {
    hide Lists, Index, IndexCases, HaveSameParamNames, SameParamOrder;
    ListsOne(Change(UnionRemoved(name), name, ""), OldUnions, name, fold, a, b);
  }

  method OldUnionsChanges(fold: Fold, ghost a: Norm, ghost b: Norm, oldUnions: map<string, seq<string>>, newUnions: map<string, seq<string>>)
    returns (changes: seq<Change>)
    requires oldUnions == a.unions && newUnions == b.unions
    ensures Lists(changes, OldUnions, oldUnions.Keys, fold, a, b)
  {
    hide Lists, Index, IndexCases, HaveSameParamNames, SameParamOrder, Decimal, Detected;
    changes := [];
    ListsNone(OldUnions, fold, a, b);
    var todo := oldUnions.Keys;
    assert oldUnions.Keys - todo == {};
    while todo != {}
      invariant todo <= oldUnions.Keys
      invariant Lists(changes, OldUnions, oldUnions.Keys - todo, fold, a, b)
    {
      var name :| name in todo;
      ghost var done := oldUnions.Keys - todo;
      todo := todo - {name};
      assert oldUnions.Keys - todo == done + {name};
      var more: seq<Change>;
      if name !in newUnions {
        more := [Change(UnionRemoved(name), name, "")];
        UnionGone(name, fold, a, b);
      } else {
        more := CompareUnionCases(fold, name, a, b, oldUnions[name], newUnions[name]);
      }
      ListsStep(changes, more, OldUnions, done, name, fold, a, b);
      changes := changes + more;
    }
    assert oldUnions.Keys - todo == oldUnions.Keys;
  }

  method NewUnionsChanges(fold: Fold, ghost a: Norm, ghost b: Norm, oldUnions: map<string, seq<string>>, newUnions: map<string, seq<string>>)
    returns (changes: seq<Change>)
    requires oldUnions == a.unions && newUnions == b.unions
    ensures Lists(changes, NewUnions, newUnions.Keys, fold, a, b)
  {
    hide Lists, Index, IndexCases, HaveSameParamNames, SameParamOrder, Decimal;
    changes := [];
    ListsNone(NewUnions, fold, a, b);
    var todo := newUnions.Keys;
    assert newUnions.Keys - todo == {};
    while todo != {}
      invariant todo <= newUnions.Keys
      invariant Lists(changes, NewUnions, newUnions.Keys - todo, fold, a, b)
    {
      var name :| name in todo;
      ghost var done := newUnions.Keys - todo;
      todo := todo - {name};
      assert newUnions.Keys - todo == done + {name};
      var more: seq<Change> := [];
      if name !in oldUnions {
        more := [Change(UnionAdded(name), "", name)];
        ListsOne(more[0], NewUnions, name, fold, a, b);
      } else {
        ListsQuiet(NewUnions, name, fold, a, b);
      }
      ListsStep(changes, more, NewUnions, done, name, fold, a, b);
      changes := changes + more;
    }
    assert newUnions.Keys - todo == newUnions.Keys;
  }

  // ---- functions ----

  /** How often a finding of the walk over the old parameters shows in a list of them. */
  ghost function OldTimes(fold: Fold, x: Finding, f: string, params: seq<NormParam>, newParams: map<string, string>): nat {
    match x
    case ParamRemoved(g, p) => if g == f && p !in newParams then CountName(params, p) else 0
    case ParamType(g, p) => if g == f && p in newParams then CountUnlike(fold, params, p, newParams[p]) else 0
    case _ => 0
  }

  ghost function NewTimes(x: Finding, f: string, params: seq<NormParam>, oldParams: map<string, string>): nat {
    if x.ParamAdded? && x.f == f && x.p !in oldParams then CountName(params, x.p) else 0
  }

  ghost predicate ListsOldParams(
    changes: seq<Change>, f: string, params: seq<NormParam>, newParams: map<string, string>, fold: Fold, a: Norm, b: Norm)
  {
    (forall x :: Whats(changes)[x] == OldTimes(fold, x, f, params, newParams)) && AllShow(changes, a, b)
  }

  ghost predicate ListsNewParams(
    changes: seq<Change>, f: string, params: seq<NormParam>, oldParams: map<string, string>, a: Norm, b: Norm)
  {
    (forall x :: Whats(changes)[x] == NewTimes(x, f, params, oldParams)) && AllShow(changes, a, b)
  }

  lemma CountStep(fold: Fold, params: seq<NormParam>, p: NormParam, n: string, ty: string)
    ensures CountName(params + [p], n) == CountName(params, n) + (if p.name == n then 1 else 0)
    ensures CountUnlike(fold, params + [p], n, ty)
      == CountUnlike(fold, params, n, ty) + (if p.name == n && !EqualFold(fold, p.ty, ty) then 1 else 0)
  {
    assert (params + [p])[..|params|] == params;
  }

  lemma OldParamsStep(
    changes: seq<Change>, more: seq<Change>, f: string, params: seq<NormParam>, p: NormParam, newParams: map<string, string>,
    fold: Fold, a: Norm, b: Norm)
    requires ListsOldParams(changes, f, params, newParams, fold, a, b) && AllShow(more, a, b)
    requires Whats(more) ==
      if p.name !in newParams then multiset{ParamRemoved(f, p.name)}
      else if !EqualFold(fold, p.ty, newParams[p.name]) then multiset{ParamType(f, p.name)} else multiset{}
    ensures ListsOldParams(changes + more, f, params + [p], newParams, fold, a, b)
  {
    hide Shows, Whats, CountName, CountUnlike, EqualFold;
    WhatsAppend(changes, more);
    forall x ensures OldTimes(fold, x, f, params + [p], newParams) == OldTimes(fold, x, f, params, newParams) + Whats(more)[x] {
      match x
      case ParamRemoved(_, n) => CountStep(fold, params, p, n, "");
      case ParamType(_, n) => CountStep(fold, params, p, n, if n in newParams then newParams[n] else "");
      case _ =>
    }
  }

  method OldParamChanges(fold: Fold, name: string, ghost a: Norm, ghost b: Norm, params: seq<NormParam>, newParams: map<string, string>)
    returns (changes: seq<Change>)
    requires name in a.functions && a.functions[name].params == params
    requires name in b.functions && newParams == Index(b.functions[name].params)
    ensures ListsOldParams(changes, name, params, newParams, fold, a, b)
  {
    hide Index;
    changes := [];
    for i := 0 to |params|
      invariant ListsOldParams(changes, name, params[..i], newParams, fold, a, b)
    {
      hide ListsOldParams;
      var p := params[i];
      assert params[..i + 1] == params[..i] + [p];
      var more: seq<Change> := [];
      if p.name !in newParams {
        more := [Change(ParamRemoved(name, p.name), p.ty, "")];
        WhatsOne(more[0]);
      } else if !EqualFold(fold, p.ty, newParams[p.name]) {
        more := [Change(ParamType(name, p.name), p.ty, newParams[p.name])];
        WhatsOne(more[0]);
      }
      OldParamsStep(changes, more, name, params[..i], p, newParams, fold, a, b);
      changes := changes + more;
    }
    assert params[..|params|] == params;
  }

  lemma NewParamsStep(
    changes: seq<Change>, more: seq<Change>, f: string, params: seq<NormParam>, p: NormParam, oldParams: map<string, string>, a: Norm, b: Norm)
    requires ListsNewParams(changes, f, params, oldParams, a, b) && AllShow(more, a, b)
    requires Whats(more) == if p.name !in oldParams then multiset{ParamAdded(f, p.name)} else multiset{}
    ensures ListsNewParams(changes + more, f, params + [p], oldParams, a, b)
  {
    hide Shows, Whats, CountName;
    WhatsAppend(changes, more);
    forall x: Finding | x.ParamAdded?
      ensures NewTimes(x, f, params + [p], oldParams) == NewTimes(x, f, params, oldParams) + Whats(more)[x]
    {
      assert (params + [p])[..|params|] == params;
      CountStep(y => "", params, p, x.p, "");
    }
  }

  method NewParamChanges(name: string, ghost a: Norm, ghost b: Norm, oldParams: map<string, string>, params: seq<NormParam>)
    returns (changes: seq<Change>)
    requires name in a.functions && oldParams == Index(a.functions[name].params)
    requires name in b.functions && b.functions[name].params == params
    ensures ListsNewParams(changes, name, params, oldParams, a, b)
  {
    hide Index;
    changes := [];
    for i := 0 to |params|
      invariant ListsNewParams(changes, name, params[..i], oldParams, a, b)
    {
      hide ListsNewParams;
      var p := params[i];
      assert params[..i + 1] == params[..i] + [p];
      var more: seq<Change> := [];
      if p.name !in oldParams {
        more := [Change(ParamAdded(name, p.name), "", p.ty)];
        WhatsOne(more[0]);
      }
      NewParamsStep(changes, more, name, params[..i], p, oldParams, a, b);
      changes := changes + more;
    }
    assert params[..|params|] == params;
  }

  /** Every finding about the parameters of f. */
  predicate AboutParams(x: Finding, f: string) {
    (x.ParamRemoved? || x.ParamAdded? || x.ParamType? || x.ParamReorder?) && x.f == f
  }

  method CompareFunctionParams(fold: Fold, name: string, ghost a: Norm, ghost b: Norm, prior: NormFunction, latest: NormFunction)
    returns (changes: seq<Change>)
    requires name in a.functions && a.functions[name] == prior
    requires name in b.functions && b.functions[name] == latest
    ensures ListsAll(changes, x => AboutParams(x, name), fold, a, b)
  {
    var reorder: seq<Change> := [];
    var sameNames := CheckSameNames(prior.params, latest.params);
    var sameOrder := CheckSameOrder(prior.params, latest.params);
    if sameNames && !sameOrder {
      reorder := [Change(ParamReorder(name), JoinNames(prior.params), JoinNames(latest.params))];
      WhatsOne(reorder[0]);
    }
    var oldParams := IndexByName(prior.params);
    var newParams := IndexByName(latest.params);
    var kept := OldParamChanges(fold, name, a, b, prior.params, newParams);
    var added := NewParamChanges(name, a, b, oldParams, latest.params);
    changes := reorder + kept + added;
    ParamsAll(name, fold, reorder, kept, added, a, b);
  }

  lemma ParamsAll(f: string, fold: Fold, reorder: seq<Change>, kept: seq<Change>, added: seq<Change>, a: Norm, b: Norm)
    requires f in a.functions && f in b.functions
    requires Whats(reorder) == if Detected(fold, ParamReorder(f), a, b) then multiset{ParamReorder(f)} else multiset{}
    requires AllShow(reorder, a, b)
    requires ListsOldParams(kept, f, a.functions[f].params, Index(b.functions[f].params), fold, a, b)
    requires ListsNewParams(added, f, b.functions[f].params, Index(a.functions[f].params), a, b)
    ensures ListsAll(reorder + kept + added, x => AboutParams(x, f), fold, a, b)
  {
    var all := reorder + kept + added;
    WhatsAppend(reorder, kept);
    WhatsAppend(reorder + kept, added);
    hide Shows, Whats, Detected, Index, OldTimes, NewTimes, Times, AboutParams;
    forall x ensures Whats(all)[x] == if AboutParams(x, f) then Times(fold, x, a, b) else 0 {
      ParamTimes(fold, x, f, reorder, a, b);
    }
  }

  lemma ParamTimes(fold: Fold, x: Finding, f: string, reorder: seq<Change>, a: Norm, b: Norm)
    requires f in a.functions && f in b.functions
    requires Whats(reorder) == if Detected(fold, ParamReorder(f), a, b) then multiset{ParamReorder(f)} else multiset{}
    ensures var pa, pb := a.functions[f].params, b.functions[f].params;
      OldTimes(fold, x, f, pa, Index(pb)) + NewTimes(x, f, pb, Index(pa)) + Whats(reorder)[x]
        == if AboutParams(x, f) then Times(fold, x, a, b) else 0
  {
    var pa, pb := a.functions[f].params, b.functions[f].params;
    match x
    case ParamRemoved(_, p) => CountNamePositive(pa, p);
    case ParamAdded(_, p) => CountNamePositive(pb, p);
    case ParamType(_, p) =>
      if p in Index(pb) {
        CountUnlikePositive(fold, pa, p, Index(pb)[p]);
      }
    case _ =>
  }

  method CompareFunctionReturns(fold: Fold, name: string, ghost a: Norm, ghost b: Norm, prior: NormFunction, latest: NormFunction)
    returns (changes: seq<Change>)
    requires name in a.functions && a.functions[name] == prior
    requires name in b.functions && b.functions[name] == latest
    ensures ListsAll(changes, x => x == ReturnType(name), fold, a, b)
  {
    changes := [];
    if !EqualFold(fold, prior.returnType, latest.returnType) && !(prior.returnType == "" && latest.returnType == "") {
      changes := [Change(ReturnType(name), prior.returnType, latest.returnType)];
      WhatsOne(changes[0]);
    }
  }

  method CompareFunction(fold: Fold, name: string, ghost a: Norm, ghost b: Norm, prior: NormFunction, latest: NormFunction)
    returns (changes: seq<Change>)
    requires name in a.functions && a.functions[name] == prior
    requires name in b.functions && b.functions[name] == latest
    ensures Lists(changes, OldFunctions, {name}, fold, a, b)
  {
    var params := CompareFunctionParams(fold, name, a, b, prior, latest);
    var returns_ := CompareFunctionReturns(fold, name, a, b, prior, latest);
    changes := params + returns_;
    FunctionsOfParts(name, fold, params, returns_, a, b);
  }

  lemma FunctionsOfParts(name: string, fold: Fold, params: seq<Change>, returns_: seq<Change>, a: Norm, b: Norm)
    requires name in a.functions && name in b.functions
    requires ListsAll(params, x => AboutParams(x, name), fold, a, b)
    requires ListsAll(returns_, x => x == ReturnType(name), fold, a, b)
    ensures Lists(params + returns_, OldFunctions, {name}, fold, a, b)
  {
    var p, q := (x: Finding) => AboutParams(x, name), (x: Finding) => x == ReturnType(name);
    PartIsSection(params + returns_, OldFunctions, {name}, fold, a, b);
    hide Index, IndexCases, Lists, ListsAll, HaveSameParamNames, SameParamOrder, EqualFold;
    ListsBoth(params, returns_, x => InPart(OldFunctions, {name}, x), p, q, fold, a, b);
  }

  method CompareFunctions(fold: Fold, ghost a: Norm, ghost b: Norm, oldFuncs: map<string, NormFunction>, newFuncs: map<string, NormFunction>)
    returns (changes: seq<Change>)
    requires oldFuncs == a.functions && newFuncs == b.functions
    ensures ListsAll(changes, IsFunctions, fold, a, b)
  {
    var kept := OldFunctionsChanges(fold, a, b, oldFuncs, newFuncs);
    var added := NewFunctionsChanges(fold, a, b, oldFuncs, newFuncs);
    changes := kept + added;
    AllFunctions(fold, kept, added, a, b);
  }

  lemma AllFunctions(fold: Fold, kept: seq<Change>, added: seq<Change>, a: Norm, b: Norm)
    requires Lists(kept, OldFunctions, a.functions.Keys, fold, a, b)
    requires Lists(added, NewFunctions, b.functions.Keys, fold, a, b)
    ensures ListsAll(kept + added, IsFunctions, fold, a, b)
  {
    var da, db := a.functions.Keys, b.functions.Keys;
    PartIsSection(kept, OldFunctions, da, fold, a, b);
    PartIsSection(added, NewFunctions, db, fold, a, b);
    hide Index, IndexCases, Lists, ListsAll, HaveSameParamNames, SameParamOrder, EqualFold;
    ListsBoth(kept, added, IsFunctions, x => InPart(OldFunctions, da, x), x => InPart(NewFunctions, db, x), fold, a, b);
  }

  method OldFunctionsChanges(fold: Fold, ghost a: Norm, ghost b: Norm, oldFuncs: map<string, NormFunction>, newFuncs: map<string, NormFunction>)
    returns (changes: seq<Change>)
    requires oldFuncs == a.functions && newFuncs == b.functions
    ensures Lists(changes, OldFunctions, oldFuncs.Keys, fold, a, b)
  {
    hide Lists, Index, IndexCases;
    changes := [];
    ListsNone(OldFunctions, fold, a, b);
    var todo := oldFuncs.Keys;
    assert oldFuncs.Keys - todo == {};
    while todo != {}
      invariant todo <= oldFuncs.Keys
      invariant Lists(changes, OldFunctions, oldFuncs.Keys - todo, fold, a, b)
    {
      var name :| name in todo;
      ghost var done := oldFuncs.Keys - todo;
      todo := todo - {name};
      assert oldFuncs.Keys - todo == done + {name};
      var more: seq<Change>;
      if name !in newFuncs {
        more := [Change(FunctionRemoved(name), Signature(oldFuncs[name]), "")];
        ListsOne(more[0], OldFunctions, name, fold, a, b);
      } else {
        more := CompareFunction(fold, name, a, b, oldFuncs[name], newFuncs[name]);
      }
      ListsStep(changes, more, OldFunctions, done, name, fold, a, b);
      changes := changes + more;
    }
    assert oldFuncs.Keys - todo == oldFuncs.Keys;
  }

  method NewFunctionsChanges(fold: Fold, ghost a: Norm, ghost b: Norm, oldFuncs: map<string, NormFunction>, newFuncs: map<string, NormFunction>)
    returns (changes: seq<Change>)
    requires oldFuncs == a.functions && newFuncs == b.functions
    ensures Lists(changes, NewFunctions, newFuncs.Keys, fold, a, b)
  {
    hide Lists, Index, IndexCases;
    changes := [];
    ListsNone(NewFunctions, fold, a, b);
    var todo := newFuncs.Keys;
    assert newFuncs.Keys - todo == {};
    while todo != {}
      invariant todo <= newFuncs.Keys
      invariant Lists(changes, NewFunctions, newFuncs.Keys - todo, fold, a, b)
    {
      var name :| name in todo;
      ghost var done := newFuncs.Keys - todo;
      todo := todo - {name};
      assert newFuncs.Keys - todo == done + {name};
      var more: seq<Change> := [];
      if name !in oldFuncs {
        more := [Change(FunctionAdded(name), "", Signature(newFuncs[name]))];
        ListsOne(more[0], NewFunctions, name, fold, a, b);
      } else {
        ListsQuiet(NewFunctions, name, fold, a, b);
      }
      ListsStep(changes, more, NewFunctions, done, name, fold, a, b);
      changes := changes + more;
    }
    assert newFuncs.Keys - todo == newFuncs.Keys;
  }

  // ---- the report ----

  /** By path, then by kind. */
  predicate ChangeLe(c: Change, d: Change) {
    if PathOf(c.what) != PathOf(d.what) then StringLe(PathOf(c.what), PathOf(d.what))
    else StringLe(KindName(c.what), KindName(d.what))
  }

  lemma ChangeLePreorder()
    ensures TotalPreorder(ChangeLe)
  {
    hide PathOf, KindName, StringLe;
    forall c, d ensures ChangeLe(c, d) || ChangeLe(d, c) {
      StringLeTotal(PathOf(c.what), PathOf(d.what));
      StringLeTotal(KindName(c.what), KindName(d.what));
    }
    forall c, d, e | ChangeLe(c, d) && ChangeLe(d, e) ensures ChangeLe(c, e) {
      ChangeLeTransitive(c, d, e);
    }
  }

  lemma ChangeLeTransitive(c: Change, d: Change, e: Change)
    requires ChangeLe(c, d) && ChangeLe(d, e)
    ensures ChangeLe(c, e)
  {
    hide PathOf, KindName, StringLe;
    var p, q, r := PathOf(c.what), PathOf(d.what), PathOf(e.what);
    if p == q && q == r {
      StringLeTransitive(KindName(c.what), KindName(d.what), KindName(e.what));
    } else if p != q && q != r {
      StringLeTransitive(p, q, r);
      StringLeTotal(p, q);
    }
  }

  function CountStatus(changes: seq<Change>, s: Status): nat {
    if changes == [] then 0
    else CountStatus(changes[..|changes| - 1], s) + (if StatusOf(changes[|changes| - 1].what) == s then 1 else 0)
  }

  lemma {:induction false} CountPositive(changes: seq<Change>, s: Status)
    ensures CountStatus(changes, s) > 0 <==> exists x :: x in Whats(changes) && StatusOf(x) == s
  {
    if changes != [] {
      var front, last := changes[..|changes| - 1], changes[|changes| - 1];
      CountPositive(front, s);
      assert changes == front + [last];
      WhatsAppend(front, [last]);
      WhatsOne(last);
    }
  }

  method CompareSpecs(fold: Fold, prior: Option<ContractSpec>, latest: Option<ContractSpec>) returns (report: Report)
    ensures var a, b := Normalize(OrEmpty(prior)), Normalize(OrEmpty(latest));
      && report.overall == Worst(fold, a, b)
      && (forall x :: Whats(report.changes)[x] == Times(fold, x, a, b))
      && (forall x :: x in Whats(report.changes) <==> Detected(fold, x, a, b))
      && AllShow(report.changes, a, b)
    ensures SortedBy(ChangeLe, report.changes)
    ensures report.breaking == CountStatus(report.changes, Breaking)
    ensures report.conditional == CountStatus(report.changes, Conditional)
    ensures report.additive == CountStatus(report.changes, Additive)
  {
    if prior == None && latest == None {
      report := Report(Compatible, [], 0, 0, 0);
      NothingToCompare(fold);
      return;
    }
    var changes := AllChanges(fold, OrEmpty(prior), OrEmpty(latest));
    ghost var a, b := Normalize(OrEmpty(prior)), Normalize(OrEmpty(latest));
    var sorted := Sort(ChangeLe, changes);
    ChangeLePreorder();
    SortSorts(ChangeLe, changes);
    SortPermutes(ChangeLe, changes);
    SortWhats(changes);
    PermutationMembers(changes, sorted);
    forall x ensures Times(fold, x, a, b) > 0 <==> Detected(fold, x, a, b) {
      TimesPositive(fold, x, a, b);
    }
    report := Aggregate(sorted);
    OverallIsWorst(fold, sorted, report.overall, a, b);
  }

  function OrEmpty(spec: Option<ContractSpec>): ContractSpec {
    match spec
    case None => EMPTY_SPEC
    case Some(s) => s
  }

  lemma NothingToCompare(fold: Fold)
    ensures var e := Normalize(EMPTY_SPEC); forall x :: !Detected(fold, x, e, e)
  {
  }

  lemma {:induction false} InsertWhats(c: Change, s: seq<Change>)
    ensures Whats(Insert(ChangeLe, c, s)) == Whats([c]) + Whats(s)
  {
    hide ChangeLe, Whats;
    WhatsAppend([c], s);
    if s != [] && !ChangeLe(c, s[0]) {
      InsertWhats(c, s[1..]);
      WhatsAppend([s[0]], Insert(ChangeLe, c, s[1..]));
      WhatsAppend([s[0]], s[1..]);
      assert s == [s[0]] + s[1..];
      BagsSwap(Whats([s[0]]), Whats([c]), Whats(s[1..]));
    }
  }

  lemma BagsSwap(a: multiset<Finding>, b: multiset<Finding>, c: multiset<Finding>)
    ensures a + (b + c) == b + (a + c)
  {
  }

  /** Sorting the changes keeps every finding as often as it was. */
  lemma {:induction false} SortWhats(s: seq<Change>)
    ensures Whats(Sort(ChangeLe, s)) == Whats(s)
  {
    hide ChangeLe, Whats, Insert;
    if s != [] {
      SortWhats(s[1..]);
      InsertWhats(s[0], Sort(ChangeLe, s[1..]));
      assert s == [s[0]] + s[1..];
      WhatsAppend([s[0]], s[1..]);
    }
  }

  method AllChanges(fold: Fold, prior: ContractSpec, latest: ContractSpec) returns (changes: seq<Change>)
    ensures ListsAll(changes, x => true, fold, Normalize(prior), Normalize(latest))
  {
    ghost var a, b := Normalize(prior), Normalize(latest);
    var oldFuncs := NormFunctions(prior);
    var newFuncs := NormFunctions(latest);
    var functions := CompareFunctions(fold, a, b, oldFuncs, newFuncs);
    var oldStructs := NormStructMap(prior);
    var newStructs := NormStructMap(latest);
    var structs := CompareStructs(fold, a, b, oldStructs, newStructs);
    var oldEnums := NormEnumMap(prior);
    var newEnums := NormEnumMap(latest);
    var enums := CompareEnums(fold, a, b, oldEnums, newEnums);
    var oldUnions := NormUnionMap(prior);
    var newUnions := NormUnionMap(latest);
    var unions := CompareUnions(fold, a, b, oldUnions, newUnions);
    changes := functions + structs + enums + unions;
    SectionsTogether(fold, functions, structs, enums, unions, a, b);
  }

  lemma SectionsTogether(fold: Fold, functions: seq<Change>, structs: seq<Change>, enums: seq<Change>, unions: seq<Change>, a: Norm, b: Norm)
    requires ListsAll(functions, IsFunctions, fold, a, b) && ListsAll(structs, IsStructs, fold, a, b)
    requires ListsAll(enums, IsEnums, fold, a, b) && ListsAll(unions, IsUnions, fold, a, b)
    ensures ListsAll(functions + structs + enums + unions, x => true, fold, a, b)
  {
    hide Detected, Shows, Belongs, IsFunctions, IsStructs, IsEnums, IsUnions, Whats, Times;
    WhatsAppend(functions, structs);
    WhatsAppend(functions + structs, enums);
    WhatsAppend(functions + structs + enums, unions);
    var all := functions + structs + enums + unions;
    ShowTogether(functions, structs, a, b);
    ShowTogether(functions + structs, enums, a, b);
    ShowTogether(functions + structs + enums, unions, a, b);
    hide ListsAll, AllShow;
    forall x ensures Whats(all)[x] == Times(fold, x, a, b) {
      EverySection(x);
      ListsAt(functions, IsFunctions, fold, x, a, b);
      ListsAt(structs, IsStructs, fold, x, a, b);
      ListsAt(enums, IsEnums, fold, x, a, b);
      ListsAt(unions, IsUnions, fold, x, a, b);
    }
    ListsEvery(all, fold, a, b);
  }

  lemma ShowTogether(first: seq<Change>, second: seq<Change>, a: Norm, b: Norm)
    requires AllShow(first, a, b) && AllShow(second, a, b)
    ensures AllShow(first + second, a, b)
  {
    hide Shows;
  }

  lemma ListsAt(changes: seq<Change>, section: Finding -> bool, fold: Fold, x: Finding, a: Norm, b: Norm)
    requires ListsAll(changes, section, fold, a, b)
    ensures Whats(changes)[x] == if section(x) then Times(fold, x, a, b) else 0
  {
  }

  lemma ListsEvery(changes: seq<Change>, fold: Fold, a: Norm, b: Norm)
    requires (forall x :: Whats(changes)[x] == Times(fold, x, a, b)) && AllShow(changes, a, b)
    ensures ListsAll(changes, x => true, fold, a, b)
  {
    hide Times, Whats, AllShow;
  }

  predicate OneSection(x: Finding) {
    (if IsFunctions(x) then 1 else 0) + (if IsStructs(x) then 1 else 0) + (if IsEnums(x) then 1 else 0) + (if IsUnions(x) then 1 else 0) == 1
  }

  lemma EverySection(x: Finding)
    ensures OneSection(x)
  {
  }

  /** The counting loop over the sorted changes. */
  method Aggregate(changes: seq<Change>) returns (report: Report)
    ensures report.changes == changes
    ensures report.breaking == CountStatus(changes, Breaking)
    ensures report.conditional == CountStatus(changes, Conditional)
    ensures report.additive == CountStatus(changes, Additive)
    ensures report.overall ==
      if report.breaking > 0 then Breaking
      else if report.conditional > 0 then Conditional
      else if changes != [] then Additive else Compatible
  {
    var breaking, conditional, additive := 0, 0, 0;
    var overall := if |changes| > 0 then Additive else Compatible;
    for i := 0 to |changes|
      invariant breaking == CountStatus(changes[..i], Breaking)
      invariant conditional == CountStatus(changes[..i], Conditional)
      invariant additive == CountStatus(changes[..i], Additive)
      invariant overall ==
        if breaking > 0 then Breaking
        else if conditional > 0 then Conditional
        else if changes != [] then Additive else Compatible
    {
      assert changes[..i + 1][..i] == changes[..i];
      match StatusOf(changes[i].what) {
        case Breaking =>
          breaking := breaking + 1;
          overall := Breaking;
        case Conditional =>
          conditional := conditional + 1;
          if overall != Breaking {
            overall := Conditional;
          }
        case Additive =>
          additive := additive + 1;
        case Compatible =>
      }
    }
    assert changes[..|changes|] == changes;
    report := Report(overall, changes, breaking, conditional, additive);
  }

  lemma OverallIsWorst(fold: Fold, changes: seq<Change>, overall: Status, a: Norm, b: Norm)
    requires forall x :: x in Whats(changes) <==> Detected(fold, x, a, b)
    requires overall ==
      if CountStatus(changes, Breaking) > 0 then Breaking
      else if CountStatus(changes, Conditional) > 0 then Conditional
      else if changes != [] then Additive else Compatible
    ensures overall == Worst(fold, a, b)
  {
    hide Detected;
    CountPositive(changes, Breaking);
    CountPositive(changes, Conditional);
    if changes != [] {
      assert Kinds(changes)[0] == changes[0].what;
      assert changes[0].what in Whats(changes);
    }
  }

  // ---- how the report reads ----

  /** Changes come by path, and at one path by the name of their kind. */
  lemma ReportOrdered(changes: seq<Change>, i: nat, j: nat)
    requires SortedBy(ChangeLe, changes) && i < j < |changes|
    ensures var p, q := PathOf(changes[i].what), PathOf(changes[j].what);
      Below(p, q) && (p == q ==> Below(KindName(changes[i].what), KindName(changes[j].what)))
  {
    hide PathOf, KindName, StringLe, Below;
    var x, y := changes[i].what, changes[j].what;
    assert ChangeLe(changes[i], changes[j]);
    StringLeExact(PathOf(x), PathOf(y));
    StringLeExact(KindName(x), KindName(y));
    StringLeTotal(PathOf(x), PathOf(y));
  }

  /** The places of the changes of one status among the first n. */
  function StatusPlaces(changes: seq<Change>, s: Status, n: nat): set<nat>
    requires n <= |changes|
  {
    set i: nat | i < n && StatusOf(changes[i].what) == s
  }

  lemma {:induction false} StatusFrom(changes: seq<Change>, s: Status, n: nat)
    requires n <= |changes|
    ensures CountStatus(changes[..n], s) == |StatusPlaces(changes, s, n)|
  {
    hide StatusOf;
    if n > 0 {
      StatusFrom(changes, s, n - 1);
      assert changes[..n][..n - 1] == changes[..n - 1];
      var before := StatusPlaces(changes, s, n - 1);
      assert StatusPlaces(changes, s, n) == if StatusOf(changes[n - 1].what) == s then before + {n - 1} else before;
    }
  }

  /** Each count is the number of changes of its status, and together they are all changes. */
  lemma {:induction false} StatusCounts(changes: seq<Change>)
    ensures forall s :: CountStatus(changes, s) == |set i: nat | i < |changes| && StatusOf(changes[i].what) == s|
    ensures CountStatus(changes, Breaking) + CountStatus(changes, Conditional) + CountStatus(changes, Additive) == |changes|
  {
    hide StatusOf;
    forall s ensures CountStatus(changes, s) == |set i: nat | i < |changes| && StatusOf(changes[i].what) == s| {
      StatusFrom(changes, s, |changes|);
      assert changes[..|changes|] == changes;
      assert StatusPlaces(changes, s, |changes|) == set i: nat | i < |changes| && StatusOf(changes[i].what) == s;
    }
    if changes != [] {
      StatusCounts(changes[..|changes| - 1]);
      assert StatusOf(changes[|changes| - 1].what) != Compatible;
    }
  }

  lemma JoinTwo(x: string, y: string)
    ensures Join([x, y], ", ") == x + ", " + y
  {
    assert [x, y][1..] == [y];
  }

  /** How a function and the order of its parameters are shown. */
  lemma ShownAs(f: string, a: NormParam, b: NormParam, ret: string)
    ensures Signature(NormFunction(f, [a, b], ret))
      == f + "(" + (a.name + ":" + a.ty + ", " + (b.name + ":" + b.ty)) + ") -> " + (if ret != "" then ret else "void")
    ensures JoinNames([a, b]) == a.name + ", " + b.name
  {
    assert ParamTexts([a, b]) == [a.name + ":" + a.ty, b.name + ":" + b.ty];
    assert ParamNames([a, b]) == [a.name, b.name];
    JoinTwo(a.name + ":" + a.ty, b.name + ":" + b.ty);
    JoinTwo(a.name, b.name);
  }
}
