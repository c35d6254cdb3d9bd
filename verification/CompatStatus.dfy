/** What the overall status means for someone who relies on the old interface. */
module CompatStatus {
  import opened TypeDefs
  import opened ContractSpecs
  import opened Compat
  import opened CompatLaws

  // ---- the old interface is still there ----

  /** Entry i is the last of its name: the one that counts. */
  predicate IsLast(q: seq<NormParam>, i: int) {
    0 <= i < |q| && forall j | i < j < |q| :: q[j].name != q[i].name
  }

  /** The list ends up giving the name a type that folds like this one. */
  ghost predicate Gives(fold: Fold, q: seq<NormParam>, name: string, ty: string) {
    exists i :: IsLast(q, i) && q[i].name == name && fold(q[i].ty) == fold(ty)
  }

  predicate Mentions(q: seq<NormParam>, name: string) {
    exists e <- q :: e.name == name
  }

  /** Every old parameter keeps its name and its type. */
  ghost predicate KeepsTypes(fold: Fold, p: seq<NormParam>, q: seq<NormParam>) {
    forall e <- p :: Gives(fold, q, e.name, e.ty)
  }

  /** Lists of equal length in which the new one has no other names have them in the same order. */
  ghost predicate KeepsOrder(p: seq<NormParam>, q: seq<NormParam>) {
    |p| == |q| && (forall e <- q :: Mentions(p, e.name)) ==> forall i | 0 <= i < |p| :: p[i].name == q[i].name
  }

  ghost predicate KeepsParams(fold: Fold, p: seq<NormParam>, q: seq<NormParam>) {
    KeepsTypes(fold, p, q) && KeepsOrder(p, q)
  }

  /** Every field of the old struct keeps its name and its type. */
  ghost predicate KeepsFields(fold: Fold, p: seq<NormParam>, q: seq<NormParam>) {
    forall i | IsLast(p, i) :: Gives(fold, q, p[i].name, p[i].ty)
  }

  predicate IsLastCase(q: seq<EnumCase>, i: int) {
    0 <= i < |q| && forall j | i < j < |q| :: q[j].name != q[i].name
  }

  ghost predicate GivesCase(q: seq<EnumCase>, name: string, value: U32) {
    exists i :: IsLastCase(q, i) && q[i].name == name && q[i].value == value
  }

  /** Every case of the old enum keeps its name and its value. */
  ghost predicate KeepsCases(p: seq<EnumCase>, q: seq<EnumCase>) {
    forall i | IsLastCase(p, i) :: GivesCase(q, p[i].name, p[i].value)
  }

  ghost predicate KeepsFunctions(fold: Fold, a: Norm, b: Norm) {
    forall f | f in a.functions :: f in b.functions && KeepsParams(fold, a.functions[f].params, b.functions[f].params)
  }

  ghost predicate KeepsStructs(fold: Fold, a: Norm, b: Norm) {
    forall s | s in a.structs :: s in b.structs && KeepsFields(fold, a.structs[s], b.structs[s])
  }

  ghost predicate KeepsEnums(a: Norm, b: Norm) {
    forall e | e in a.enums :: e in b.enums && KeepsCases(a.enums[e], b.enums[e])
  }

  ghost predicate KeepsUnions(a: Norm, b: Norm) {
    forall u | u in a.unions :: u in b.unions && forall c <- a.unions[u] :: c in b.unions[u]
  }

  ghost predicate KeepsOld(fold: Fold, a: Norm, b: Norm) {
    KeepsFunctions(fold, a, b) && KeepsStructs(fold, a, b) && KeepsEnums(a, b) && KeepsUnions(a, b)
  }

  /** No function of both asks for more, or returns something else. */
  ghost predicate AsksNoMore(fold: Fold, a: Norm, b: Norm) {
    forall f | f in a.functions && f in b.functions ::
      && (forall e <- b.functions[f].params :: Mentions(a.functions[f].params, e.name))
      && fold(a.functions[f].returnType) == fold(b.functions[f].returnType)
  }

  // ---- what the last entry of a name is ----

  lemma {:induction false} LastEntry(q: seq<NormParam>, name: string)
    ensures name in Index(q) <==> exists i :: IsLast(q, i) && q[i].name == name
    ensures forall i | IsLast(q, i) && q[i].name == name :: name in Index(q) && Index(q)[name] == q[i].ty
  {
    if q != [] {
      var front, n := q[..|q| - 1], |q| - 1;
      LastEntry(front, name);
      assert IsLast(q, n);
      if q[n].name != name {
        forall i ensures (IsLast(q, i) && q[i].name == name) == (IsLast(front, i) && front[i].name == name) {
        }
        if i :| IsLast(front, i) && front[i].name == name {
          assert IsLast(q, i) && q[i].name == name;
        }
      }
    }
  }

  lemma {:induction false} LastCaseEntry(q: seq<EnumCase>, name: string)
    ensures name in IndexCases(q) <==> exists i :: IsLastCase(q, i) && q[i].name == name
    ensures forall i | IsLastCase(q, i) && q[i].name == name :: name in IndexCases(q) && IndexCases(q)[name] == q[i].value
  {
    if q != [] {
      var front, n := q[..|q| - 1], |q| - 1;
      LastCaseEntry(front, name);
      assert IsLastCase(q, n);
      if q[n].name != name {
        forall i ensures (IsLastCase(q, i) && q[i].name == name) == (IsLastCase(front, i) && front[i].name == name) {
        }
        if i :| IsLastCase(front, i) && front[i].name == name {
          assert IsLastCase(q, i) && q[i].name == name;
        }
      }
    }
  }

  lemma GivesExact(fold: Fold, q: seq<NormParam>, name: string, ty: string)
    ensures Gives(fold, q, name, ty) <==> name in Index(q) && EqualFold(fold, ty, Index(q)[name])
  {
    LastEntry(q, name);
    hide Index;
  }

  lemma GivesCaseExact(q: seq<EnumCase>, name: string, value: U32)
    ensures GivesCase(q, name, value) <==> name in IndexCases(q) && IndexCases(q)[name] == value
  {
    LastCaseEntry(q, name);
    hide IndexCases;
  }

  /** Of several entries under one name the last counts. */
  lemma {:induction false} LastWins<T, V>(xs: seq<T>, key: T -> string, val: T -> V, i: nat)
    requires i < |xs| && forall j | i < j < |xs| :: key(xs[j]) != key(xs[i])
    ensures key(xs[i]) in LastBy(xs, key, val) && LastBy(xs, key, val)[key(xs[i])] == val(xs[i])
  {
    if i < |xs| - 1 {
      LastWins(xs[..|xs| - 1], key, val, i);
    }
  }

  // ---- from findings to the interface ----

  ghost predicate Quiet(fold: Fold, a: Norm, b: Norm) {
    forall x | Detected(fold, x, a, b) :: StatusOf(x) != Breaking
  }

  lemma QuietExact(fold: Fold, a: Norm, b: Norm)
    ensures Quiet(fold, a, b) <==> Worst(fold, a, b) != Breaking
  {
    hide Detected;
  }

  lemma TypeKeptExact(fold: Fold, f: string, a: Norm, b: Norm, e: NormParam)
    requires f in a.functions && f in b.functions && e in a.functions[f].params
    ensures !Detected(fold, ParamRemoved(f, e.name), a, b) && !Detected(fold, ParamType(f, e.name), a, b)
      ==> Gives(fold, b.functions[f].params, e.name, e.ty)
  {
    GivesExact(fold, b.functions[f].params, e.name, e.ty);
    IndexKeys(a.functions[f].params, e.name);
    hide Index;
  }

  lemma TypeKept(fold: Fold, f: string, a: Norm, b: Norm, p: string)
    requires f in a.functions && f in b.functions
    requires KeepsTypes(fold, a.functions[f].params, b.functions[f].params)
    ensures !Detected(fold, ParamRemoved(f, p), a, b) && !Detected(fold, ParamType(f, p), a, b)
  {
    var pa, pb := a.functions[f].params, b.functions[f].params;
    IndexKeys(pa, p);
    forall e | e in pa && e.name == p ensures p in Index(pb) && EqualFold(fold, e.ty, Index(pb)[p]) {
      GivesExact(fold, pb, p, e.ty);
    }
    hide Index, Gives;
  }

  lemma OrderKeptExact(fold: Fold, f: string, a: Norm, b: Norm)
    requires f in a.functions && f in b.functions
    ensures !Detected(fold, ParamReorder(f), a, b) <==> KeepsOrder(a.functions[f].params, b.functions[f].params)
  {
    var p, q := a.functions[f].params, b.functions[f].params;
    forall e | e in q ensures e.name in Index(p) <==> Mentions(p, e.name) {
      IndexKeys(p, e.name);
    }
    hide Index, Mentions;
  }

  /** No parameter of f is found removed or retyped. */
  ghost predicate NoTypeFound(fold: Fold, f: string, a: Norm, b: Norm) {
    forall p :: !Detected(fold, ParamRemoved(f, p), a, b) && !Detected(fold, ParamType(f, p), a, b)
  }

  lemma TypesKeptExact(fold: Fold, f: string, a: Norm, b: Norm)
    requires f in a.functions && f in b.functions
    ensures NoTypeFound(fold, f, a, b) <==> KeepsTypes(fold, a.functions[f].params, b.functions[f].params)
  {
    hide Detected, Gives;
    var pa, pb := a.functions[f].params, b.functions[f].params;
    if NoTypeFound(fold, f, a, b) {
      forall e | e in pa ensures Gives(fold, pb, e.name, e.ty) {
        TypeKeptExact(fold, f, a, b, e);
      }
    }
    if KeepsTypes(fold, pa, pb) {
      forall p ensures !Detected(fold, ParamRemoved(f, p), a, b) && !Detected(fold, ParamType(f, p), a, b) {
        TypeKept(fold, f, a, b, p);
      }
    }
  }

  lemma ParamsKeptExact(fold: Fold, f: string, a: Norm, b: Norm)
    requires f in a.functions && f in b.functions
    ensures KeepsParams(fold, a.functions[f].params, b.functions[f].params)
      <==> NoTypeFound(fold, f, a, b) && !Detected(fold, ParamReorder(f), a, b)
  {
    hide Detected, KeepsTypes, KeepsOrder, NoTypeFound;
    OrderKeptExact(fold, f, a, b);
    TypesKeptExact(fold, f, a, b);
  }

  lemma QuietKeepsFunctions(fold: Fold, a: Norm, b: Norm)
    requires Quiet(fold, a, b)
    ensures KeepsFunctions(fold, a, b)
  {
    forall f | f in a.functions
      ensures f in b.functions && KeepsParams(fold, a.functions[f].params, b.functions[f].params)
    {
      assert !Detected(fold, FunctionRemoved(f), a, b);
      ParamsKeptExact(fold, f, a, b);
      hide Detected, KeepsParams;
      assert !Detected(fold, ParamReorder(f), a, b);
      forall p ensures !Detected(fold, ParamRemoved(f, p), a, b) && !Detected(fold, ParamType(f, p), a, b) {
      }
    }
  }

  lemma QuietKeepsFields(fold: Fold, a: Norm, b: Norm, s: string)
    requires Quiet(fold, a, b) && s in a.structs
    ensures s in b.structs && KeepsFields(fold, a.structs[s], b.structs[s])
  {
    hide Index;
    assert !Detected(fold, StructRemoved(s), a, b);
    var p, q := a.structs[s], b.structs[s];
    forall i | IsLast(p, i) ensures Gives(fold, q, p[i].name, p[i].ty) {
      LastEntry(p, p[i].name);
      GivesExact(fold, q, p[i].name, p[i].ty);
      assert !Detected(fold, FieldRemoved(s, p[i].name), a, b) && !Detected(fold, FieldType(s, p[i].name), a, b);
    }
  }

  lemma QuietKeepsStructs(fold: Fold, a: Norm, b: Norm)
    requires Quiet(fold, a, b)
    ensures KeepsStructs(fold, a, b)
  {
    hide Quiet, KeepsFields;
    forall s | s in a.structs ensures s in b.structs && KeepsFields(fold, a.structs[s], b.structs[s]) {
      QuietKeepsFields(fold, a, b, s);
    }
  }

  lemma CaseQuiet(fold: Fold, a: Norm, b: Norm, e: string, i: int)
    requires Quiet(fold, a, b) && e in a.enums && e in b.enums && IsLastCase(a.enums[e], i)
    ensures GivesCase(b.enums[e], a.enums[e][i].name, a.enums[e][i].value)
  {
    hide IndexCases, GivesCase;
    var p, q := a.enums[e], b.enums[e];
    LastCaseEntry(p, p[i].name);
    GivesCaseExact(q, p[i].name, p[i].value);
    assert !Detected(fold, EnumCaseRemoved(e, p[i].name), a, b) && !Detected(fold, EnumCaseValue(e, p[i].name), a, b);
  }

  lemma QuietKeepsEnums(fold: Fold, a: Norm, b: Norm)
    requires Quiet(fold, a, b)
    ensures KeepsEnums(a, b)
  {
    forall e | e in a.enums ensures e in b.enums {
      assert !Detected(fold, EnumRemoved(e), a, b);
    }
    hide Quiet, IsLastCase, GivesCase;
    forall e, i | e in a.enums && IsLastCase(a.enums[e], i)
      ensures GivesCase(b.enums[e], a.enums[e][i].name, a.enums[e][i].value)
    {
      CaseQuiet(fold, a, b, e, i);
    }
  }

  lemma QuietKeepsUnions(fold: Fold, a: Norm, b: Norm)
    requires Quiet(fold, a, b)
    ensures KeepsUnions(a, b)
  {
    forall u | u in a.unions ensures u in b.unions && forall c <- a.unions[u] :: c in b.unions[u] {
      assert !Detected(fold, UnionRemoved(u), a, b);
      forall c | c in a.unions[u] ensures c in b.unions[u] {
        assert !Detected(fold, UnionCaseRemoved(u, c), a, b);
      }
    }
  }

  // ---- from the interface to findings ----

  lemma KeptFunctionsQuiet(fold: Fold, a: Norm, b: Norm, x: Finding)
    requires KeepsFunctions(fold, a, b) && Detected(fold, x, a, b)
    requires x.FunctionRemoved? || x.FunctionAdded? || x.ParamRemoved? || x.ParamAdded? || x.ParamType? || x.ParamReorder? || x.ReturnType?
    ensures x.FunctionAdded? || x.ParamAdded? || x.ReturnType?
  {
    hide Index, HaveSameParamNames, SameParamOrder, EqualFold, IndexCases;
    if !x.FunctionAdded? && x.f in b.functions {
      ParamsKeptExact(fold, x.f, a, b);
    }
  }

  lemma KeptStructsQuiet(fold: Fold, a: Norm, b: Norm, x: Finding)
    requires KeepsStructs(fold, a, b) && Detected(fold, x, a, b)
    requires x.StructRemoved? || x.StructAdded? || x.FieldRemoved? || x.FieldAdded? || x.FieldType?
    ensures x.StructAdded? || x.FieldAdded?
  {
    hide Index;
    if x.FieldRemoved? || x.FieldType? {
      var p, q := a.structs[x.s], b.structs[x.s];
      LastEntry(p, x.p);
      var i :| IsLast(p, i) && p[i].name == x.p;
      GivesExact(fold, q, x.p, p[i].ty);
    }
  }

  lemma KeptCasesQuiet(fold: Fold, a: Norm, b: Norm, x: Finding)
    requires KeepsEnums(a, b) && KeepsUnions(a, b) && Detected(fold, x, a, b)
    requires x.EnumRemoved? || x.EnumAdded? || x.EnumCaseRemoved? || x.EnumCaseAdded? || x.EnumCaseValue?
      || x.UnionRemoved? || x.UnionAdded? || x.UnionCaseRemoved? || x.UnionCaseAdded?
    ensures x.EnumAdded? || x.EnumCaseAdded? || x.UnionAdded? || x.UnionCaseAdded?
  {
    hide IndexCases, Index;
    if x.EnumCaseRemoved? || x.EnumCaseValue? {
      var p, q := a.enums[x.e], b.enums[x.e];
      LastCaseEntry(p, x.c);
      var i :| IsLastCase(p, i) && p[i].name == x.c;
      GivesCaseExact(q, x.c, p[i].value);
    }
  }

  /** When the old interface is kept, what is found is an addition or another return type. */
  lemma KeptFindings(fold: Fold, a: Norm, b: Norm, x: Finding)
    requires KeepsOld(fold, a, b) && Detected(fold, x, a, b)
    ensures StatusOf(x) != Breaking
    ensures StatusOf(x) == Conditional <==> x.ParamAdded? || x.ReturnType?
  {
    hide Detected, KeepsFunctions, KeepsStructs, KeepsEnums, KeepsUnions;
    if x.FunctionRemoved? || x.FunctionAdded? || x.ParamRemoved? || x.ParamAdded? || x.ParamType? || x.ParamReorder? || x.ReturnType? {
      KeptFunctionsQuiet(fold, a, b, x);
    } else if x.StructRemoved? || x.StructAdded? || x.FieldRemoved? || x.FieldAdded? || x.FieldType? {
      KeptStructsQuiet(fold, a, b, x);
    } else {
      KeptCasesQuiet(fold, a, b, x);
    }
  }

  /**
   * A change is not breaking exactly when everything of the old interface is still there: functions and
   * their parameters with their types and order, struct fields with their types, enum cases with their
   * values, and union cases.
   */
  lemma NonBreakingExact(fold: Fold, a: Norm, b: Norm)
    ensures Worst(fold, a, b) != Breaking <==> KeepsOld(fold, a, b)
  {
    QuietExact(fold, a, b);
    hide Worst, Detected, KeepsFunctions, KeepsStructs, KeepsEnums, KeepsUnions;
    if Quiet(fold, a, b) {
      hide Quiet;
      QuietKeepsFunctions(fold, a, b);
      QuietKeepsStructs(fold, a, b);
      QuietKeepsEnums(fold, a, b);
      QuietKeepsUnions(fold, a, b);
    } else if KeepsOld(fold, a, b) {
      forall x | Detected(fold, x, a, b) ensures StatusOf(x) != Breaking {
        KeptFindings(fold, a, b, x);
      }
    }
  }

  lemma AsksMore(fold: Fold, a: Norm, b: Norm)
    ensures AsksNoMore(fold, a, b) <==> forall x | Detected(fold, x, a, b) :: !x.ParamAdded? && !x.ReturnType?
  {
    forall q: seq<NormParam>, n ensures n in Index(q) <==> Mentions(q, n) {
      IndexKeys(q, n);
    }
    hide Index, HaveSameParamNames, SameParamOrder, IndexCases;
    if forall x | Detected(fold, x, a, b) :: !x.ParamAdded? && !x.ReturnType? {
      forall f, e | f in a.functions && f in b.functions && e in b.functions[f].params
        ensures Mentions(a.functions[f].params, e.name)
      {
        assert !Detected(fold, ParamAdded(f, e.name), a, b);
      }
      forall f | f in a.functions && f in b.functions ensures fold(a.functions[f].returnType) == fold(b.functions[f].returnType) {
        assert !Detected(fold, ReturnType(f), a, b);
      }
    }
  }

  lemma NoConditional(fold: Fold, a: Norm, b: Norm)
    requires Worst(fold, a, b) != Breaking
    ensures Worst(fold, a, b) != Conditional <==> forall x | Detected(fold, x, a, b) :: StatusOf(x) != Conditional
  {
    hide Detected;
  }

  /**
   * A change is at most additive exactly when, besides, no function of both versions has a new parameter
   * or a return type that folds differently.
   */
  lemma AdditiveExact(fold: Fold, a: Norm, b: Norm)
    ensures (Worst(fold, a, b) == Compatible || Worst(fold, a, b) == Additive)
      <==> KeepsOld(fold, a, b) && AsksNoMore(fold, a, b)
  {
    NonBreakingExact(fold, a, b);
    if KeepsOld(fold, a, b) {
      AsksMore(fold, a, b);
      NoConditional(fold, a, b);
      hide Worst, Detected, KeepsOld, AsksNoMore;
      forall x | Detected(fold, x, a, b) ensures StatusOf(x) == Conditional <==> x.ParamAdded? || x.ReturnType? {
        KeptFindings(fold, a, b, x);
      }
    }
  }

  // ---- what normalisation drops ----

  /** Only the first output of a function is compared. */
  lemma FirstOutputOnly(f: Function, g: Function)
    requires f.name == g.name && f.inputs == g.inputs && f.outputs != [] && g.outputs != []
    ensures NormalizeFunction(f) == NormalizeFunction(g) <==> FormatTypeDef(f.outputs[0]) == FormatTypeDef(g.outputs[0])
  {
    hide FormatTypeDef, NormParams;
  }

  /** The cases of a union are compared by name, and those without one not at all. */
  lemma {:induction false} NamedCasesOnly(cases: seq<UnionCase>, name: string)
    ensures name in CaseNames(cases) <==> name != "" && exists c <- cases :: c.name == name
  {
    if cases != [] {
      var front, last := cases[..|cases| - 1], cases[|cases| - 1];
      NamedCasesOnly(front, name);
      assert cases == front + [last];
      if c :| c in front && c.name == name {
        assert c in cases;
      }
    }
  }
}
