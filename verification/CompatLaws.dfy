/** The compatibility status behaves like a distance, and the differences like a symmetric one. */
module CompatLaws {
  import opened TypeDefs
  import opened ContractSpecs
  import opened Compat

  // ---- maps in which the last entry wins ----

  lemma {:induction false} LastByKeys<T, V>(xs: seq<T>, key: T -> string, val: T -> V, k: string)
    ensures k in LastBy(xs, key, val) <==> exists i :: 0 <= i < |xs| && key(xs[i]) == k
  {
    if xs != [] {
      var front := xs[..|xs| - 1];
      LastByKeys(front, key, val, k);
      if k in LastBy(front, key, val) {
        var i :| 0 <= i < |front| && key(front[i]) == k;
        assert key(xs[i]) == k;
      }
    }
  }

  ghost predicate Distinct<T>(xs: seq<T>, key: T -> string) {
    forall i, j | 0 <= i < j < |xs| :: key(xs[i]) != key(xs[j])
  }

  lemma {:induction false} LastByDistinct<T, V>(xs: seq<T>, key: T -> string, val: T -> V)
    requires Distinct(xs, key)
    ensures forall i | 0 <= i < |xs| :: key(xs[i]) in LastBy(xs, key, val) && LastBy(xs, key, val)[key(xs[i])] == val(xs[i])
    ensures |LastBy(xs, key, val).Keys| == |xs|
  {
    if xs != [] {
      var front, last := xs[..|xs| - 1], xs[|xs| - 1];
      LastByDistinct(front, key, val);
      LastByKeys(front, key, val, key(last));
      assert LastBy(xs, key, val).Keys == LastBy(front, key, val).Keys + {key(last)};
      assert forall i | 0 <= i < |front| :: xs[i] == front[i];
    }
  }

  ghost predicate DistinctNames(params: seq<NormParam>) {
    forall i, j | 0 <= i < j < |params| :: params[i].name != params[j].name
  }

  lemma IndexKeys(params: seq<NormParam>, p: string)
    ensures p in Index(params) <==> exists q <- params :: q.name == p
  {
    LastByKeys(params, (q: NormParam) => q.name, (q: NormParam) => q.ty, p);
    if i :| 0 <= i < |params| && params[i].name == p {
      assert params[i] in params;
    }
  }

  lemma IndexDistinct(params: seq<NormParam>)
    requires DistinctNames(params)
    ensures forall q <- params :: q.name in Index(params) && Index(params)[q.name] == q.ty
    ensures |Index(params).Keys| == |params|
  {
    LastByDistinct(params, (q: NormParam) => q.name, (q: NormParam) => q.ty);
  }

  /** Parameter names are distinct within every function. */
  ghost predicate DistinctParams(a: Norm) {
    forall f | f in a.functions :: DistinctNames(a.functions[f].params)
  }

  // ---- the triangle law ----

  function Max(a: nat, b: nat): nat { if a < b then b else a }

  /**
   * The three versions of f use the same set of parameter names, the outer two list them in
   * different orders at the same length, and the middle one repeats names to a different length.
   */
  ghost predicate Skewed(f: string, a: Norm, b: Norm, c: Norm) {
    && f in a.functions && f in b.functions && f in c.functions
    && var pa, pb, pc := a.functions[f].params, b.functions[f].params, c.functions[f].params;
      && Index(pa).Keys == Index(pb).Keys == Index(pc).Keys
      && |pa| == |pc| != |pb|
      && !SameParamOrder(pa, pc)
  }

  /** A finding that is at least as bad as x in one of the two legs. */
  ghost predicate Explained(fold: Fold, x: Finding, a: Norm, b: Norm, c: Norm) {
    exists y :: Rank(StatusOf(y)) >= Rank(StatusOf(x)) && (Detected(fold, y, a, b) || Detected(fold, y, b, c))
  }

  lemma Explains(fold: Fold, y: Finding, x: Finding, a: Norm, b: Norm, c: Norm)
    requires Rank(StatusOf(y)) >= Rank(StatusOf(x))
    requires Detected(fold, y, a, b) || Detected(fold, y, b, c)
    ensures Explained(fold, x, a, b, c)
  {
  }

  lemma FunctionExplained(fold: Fold, x: Finding, a: Norm, b: Norm, c: Norm)
    requires x.FunctionRemoved? || x.FunctionAdded? || x.ParamRemoved? || x.ParamAdded? || x.ReturnType?
    requires Detected(fold, x, a, c)
    ensures Explained(fold, x, a, b, c)
  {
    hide Explained, HaveSameParamNames, SameParamOrder, Index, IndexCases;
    var f := x.f;
    if f in a.functions && f !in b.functions {
      Explains(fold, FunctionRemoved(f), x, a, b, c);
    } else if f in b.functions && f !in c.functions {
      Explains(fold, FunctionRemoved(f), x, a, b, c);
    } else if x.FunctionAdded? {
      if f in b.functions {
        Explains(fold, FunctionAdded(f), x, a, b, c);
      } else {
        Explains(fold, FunctionAdded(f), x, a, b, c);
      }
    } else {
      Explains(fold, x, x, a, b, c);
    }
  }

  lemma ParamTypeExplained(fold: Fold, x: Finding, a: Norm, b: Norm, c: Norm)
    requires x.ParamType? && Detected(fold, x, a, c)
    ensures Explained(fold, x, a, b, c)
  {
    var f, p := x.f, x.p;
    if f !in b.functions {
      Explains(fold, FunctionRemoved(f), x, a, b, c);
    } else {
      var pa, pb, pc := a.functions[f].params, b.functions[f].params, c.functions[f].params;
      var q :| q in pa && q.name == p && !EqualFold(fold, q.ty, Index(pc)[p]);
      IndexKeys(pa, p);
      if p !in Index(pb) {
        Explains(fold, ParamRemoved(f, p), x, a, b, c);
      } else if !EqualFold(fold, q.ty, Index(pb)[p]) {
        Explains(fold, x, x, a, b, c);
      } else {
        var last := IndexLast(pb, p);
        assert Detected(fold, x, b, c);
        Explains(fold, x, x, a, b, c);
      }
    }
  }

  /** The entry a name is indexed to is one of the listed parameters. */
  lemma {:induction false} IndexLast(params: seq<NormParam>, p: string) returns (q: NormParam)
    requires p in Index(params)
    ensures q in params && q.name == p && q.ty == Index(params)[p]
  {
    var last := params[|params| - 1];
    if last.name == p {
      q := last;
    } else {
      q := IndexLast(params[..|params| - 1], p);
    }
  }

  lemma ReorderExplained(fold: Fold, f: string, a: Norm, b: Norm, c: Norm)
    requires Detected(fold, ParamReorder(f), a, c) && !Skewed(f, a, b, c)
    ensures Explained(fold, ParamReorder(f), a, b, c)
  {
    var x := ParamReorder(f);
    if f !in b.functions {
      Explains(fold, FunctionRemoved(f), x, a, b, c);
    } else {
      var pa, pb, pc := a.functions[f].params, b.functions[f].params, c.functions[f].params;
      if p :| p in Index(pa) && p !in Index(pb) {
        Explains(fold, ParamRemoved(f, p), x, a, b, c);
      } else if p :| p in Index(pb) && p !in Index(pc) {
        Explains(fold, ParamRemoved(f, p), x, a, b, c);
      } else {
        forall p | p in Index(pc) ensures p in Index(pa) {
          IndexKeys(pc, p);
        }
        assert Index(pa).Keys == Index(pb).Keys == Index(pc).Keys;
        assert |pb| == |pa|;
        NamesIndexed(pb);
        NamesIndexed(pc);
        if !SameParamOrder(pa, pb) {
          Explains(fold, x, x, a, b, c);
        } else {
          assert !SameParamOrder(pb, pc);
          Explains(fold, x, x, a, b, c);
        }
      }
    }
  }

  lemma NamesIndexed(params: seq<NormParam>)
    ensures forall q <- params :: q.name in Index(params)
  {
    forall q | q in params ensures q.name in Index(params) {
      IndexKeys(params, q.name);
    }
  }

  lemma StructExplained(fold: Fold, x: Finding, a: Norm, b: Norm, c: Norm)
    requires x.StructRemoved? || x.StructAdded? || x.FieldRemoved? || x.FieldAdded? || x.FieldType?
    requires Detected(fold, x, a, c)
    ensures Explained(fold, x, a, b, c)
  {
    hide Explained, HaveSameParamNames, SameParamOrder, Index, IndexCases;
    var s := x.s;
    if s in a.structs && s !in b.structs {
      Explains(fold, StructRemoved(s), x, a, b, c);
    } else if s in b.structs && s !in c.structs {
      Explains(fold, StructRemoved(s), x, a, b, c);
    } else if x.FieldType? && x.p !in Index(b.structs[s]) {
      Explains(fold, FieldRemoved(s, x.p), x, a, b, c);
    } else {
      Explains(fold, x, x, a, b, c);
    }
  }

  lemma EnumExplained(fold: Fold, x: Finding, a: Norm, b: Norm, c: Norm)
    requires x.EnumRemoved? || x.EnumAdded? || x.EnumCaseRemoved? || x.EnumCaseAdded? || x.EnumCaseValue?
    requires Detected(fold, x, a, c)
    ensures Explained(fold, x, a, b, c)
  {
    hide Explained, HaveSameParamNames, SameParamOrder, EqualFold, Index, IndexCases;
    var e := x.e;
    if e in a.enums && e !in b.enums {
      Explains(fold, EnumRemoved(e), x, a, b, c);
    } else if e in b.enums && e !in c.enums {
      Explains(fold, EnumRemoved(e), x, a, b, c);
    } else if x.EnumCaseValue? && x.c !in IndexCases(b.enums[e]) {
      Explains(fold, EnumCaseRemoved(e, x.c), x, a, b, c);
    } else {
      Explains(fold, x, x, a, b, c);
    }
  }

  lemma UnionExplained(fold: Fold, x: Finding, a: Norm, b: Norm, c: Norm)
    requires x.UnionRemoved? || x.UnionAdded? || x.UnionCaseRemoved? || x.UnionCaseAdded?
    requires Detected(fold, x, a, c)
    ensures Explained(fold, x, a, b, c)
  {
    hide Explained, HaveSameParamNames, SameParamOrder, EqualFold, Index, IndexCases;
    var u := x.u;
    if u in a.unions && u !in b.unions {
      Explains(fold, UnionRemoved(u), x, a, b, c);
    } else if u in b.unions && u !in c.unions {
      Explains(fold, UnionRemoved(u), x, a, b, c);
    } else {
      Explains(fold, x, x, a, b, c);
    }
  }

  /** Every difference between the ends, unless it is a skewed reorder, is due to a difference in one leg. */
  lemma DifferenceExplained(fold: Fold, x: Finding, a: Norm, b: Norm, c: Norm)
    requires Detected(fold, x, a, c)
    requires x.ParamReorder? ==> !Skewed(x.f, a, b, c)
    ensures Explained(fold, x, a, b, c)
  {
    if x.ParamReorder? {
      ReorderExplained(fold, x.f, a, b, c);
    } else if x.ParamType? {
      ParamTypeExplained(fold, x, a, b, c);
    } else if x.FunctionRemoved? || x.FunctionAdded? || x.ParamRemoved? || x.ParamAdded? || x.ReturnType? {
      FunctionExplained(fold, x, a, b, c);
    } else if x.StructRemoved? || x.StructAdded? || x.FieldRemoved? || x.FieldAdded? || x.FieldType? {
      StructExplained(fold, x, a, b, c);
    } else if x.EnumRemoved? || x.EnumAdded? || x.EnumCaseRemoved? || x.EnumCaseAdded? || x.EnumCaseValue? {
      EnumExplained(fold, x, a, b, c);
    } else {
      UnionExplained(fold, x, a, b, c);
    }
  }

  lemma WorstBounds(fold: Fold, x: Finding, a: Norm, b: Norm)
    requires Detected(fold, x, a, b)
    ensures Rank(StatusOf(x)) <= Rank(Worst(fold, a, b))
  {
  }

  /** The worst status is that of some finding, unless there is none. */
  lemma WorstWitness(fold: Fold, a: Norm, b: Norm) returns (x: Finding)
    requires Worst(fold, a, b) != Compatible
    ensures Detected(fold, x, a, b) && StatusOf(x) == Worst(fold, a, b)
  {
    if y :| Detected(fold, y, a, b) && StatusOf(y) == Breaking {
      x := y;
    } else if y :| Detected(fold, y, a, b) && StatusOf(y) == Conditional {
      x := y;
    } else {
      x :| Detected(fold, x, a, b);
    }
  }

  /** The triangle law holds exactly when a leg already breaks or no function is skewed. */
  lemma TriangleExact(fold: Fold, a: Norm, b: Norm, c: Norm)
    ensures var legs := Max(Rank(Worst(fold, a, b)), Rank(Worst(fold, b, c)));
      Rank(Worst(fold, a, c)) <= legs <==> legs == Rank(Breaking) || forall f :: !Skewed(f, a, b, c)
  {
    hide Detected, Skewed, Worst;
    var legs := Max(Rank(Worst(fold, a, b)), Rank(Worst(fold, b, c)));
    if f :| Skewed(f, a, b, c) {
      SkewBreaks(fold, f, a, b, c);
      WorstBounds(fold, ParamReorder(f), a, c);
    } else if Worst(fold, a, c) != Compatible {
      var x := WorstWitness(fold, a, c);
      DifferenceExplained(fold, x, a, b, c);
      var y :| Rank(StatusOf(y)) >= Rank(StatusOf(x)) && (Detected(fold, y, a, b) || Detected(fold, y, b, c));
      if Detected(fold, y, a, b) {
        WorstBounds(fold, y, a, b);
      } else {
        WorstBounds(fold, y, b, c);
      }
    }
  }

  lemma SkewBreaks(fold: Fold, f: string, a: Norm, b: Norm, c: Norm)
    requires Skewed(f, a, b, c)
    ensures Detected(fold, ParamReorder(f), a, c)
  {
    NamesIndexed(c.functions[f].params);
  }

  /** With distinct parameter names the status of a change never exceeds the worse of its two steps. */
  lemma TriangleLaw(fold: Fold, a: Norm, b: Norm, c: Norm)
    requires DistinctParams(a) && DistinctParams(b)
    ensures Rank(Worst(fold, a, c)) <= Max(Rank(Worst(fold, a, b)), Rank(Worst(fold, b, c)))
  {
    forall f ensures !Skewed(f, a, b, c) {
      if f in a.functions && f in b.functions {
        IndexDistinct(a.functions[f].params);
        IndexDistinct(b.functions[f].params);
      }
    }
    TriangleExact(fold, a, b, c);
  }

  /** Distinct input names per function, as a caller can check on the specification itself. */
  ghost predicate DistinctInputs(spec: ContractSpec) {
    forall f <- spec.functions :: forall i, j | 0 <= i < j < |f.inputs| :: f.inputs[i].name != f.inputs[j].name
  }

  /** Every entry of a last-wins map comes from some element of the list. */
  lemma {:induction false} LastByFrom<T, V>(xs: seq<T>, key: T -> string, val: T -> V, k: string) returns (x: T)
    requires k in LastBy(xs, key, val)
    ensures x in xs && key(x) == k && LastBy(xs, key, val)[k] == val(x)
  {
    x := xs[|xs| - 1];
    if key(x) != k {
      x := LastByFrom(xs[..|xs| - 1], key, val, k);
    }
  }

  lemma DistinctInputsNormalize(spec: ContractSpec)
    requires DistinctInputs(spec)
    ensures DistinctParams(Normalize(spec))
  {
    forall f | f in Functions(spec) ensures DistinctNames(Functions(spec)[f].params) {
      var src := LastByFrom(spec.functions, (g: Function) => g.name, NormalizeFunction, f);
    }
  }

  /** Two steps that break nobody make a step that breaks nobody. */
  lemma NonBreakingTransitive(fold: Fold, a: ContractSpec, b: ContractSpec, c: ContractSpec)
    requires DistinctInputs(a) && DistinctInputs(b)
    requires Worst(fold, Normalize(a), Normalize(b)) != Breaking
    requires Worst(fold, Normalize(b), Normalize(c)) != Breaking
    ensures Worst(fold, Normalize(a), Normalize(c)) != Breaking
  {
    hide Worst, Normalize;
    DistinctInputsNormalize(a);
    DistinctInputsNormalize(b);
    TriangleLaw(fold, Normalize(a), Normalize(b), Normalize(c));
  }

  function OneFunction(params: seq<NormParam>): Norm {
    Norm(map["f" := NormFunction("f", params, "")], map[], map[], map[])
  }

  const X := NormParam("x", "U32")
  const Y := NormParam("y", "U32")

  /** A specification with one function, of these parameters. */
  function SpecOf(inputs: seq<Field>): ContractSpec {
    EMPTY_SPEC.(functions := [Function("f", "", inputs, [])])
  }

  function Named(name: string, prim: Prim): Field {
    Field(name, Primitive(prim))
  }

  lemma NormalizeOne(inputs: seq<Field>)
    ensures Normalize(SpecOf(inputs)) == OneFunction(NormParams(inputs))
  {
    var f := Function("f", "", inputs, []);
    LastByOne(f, (g: Function) => g.name, NormalizeFunction);
    assert Functions(SpecOf(inputs)) == map["f" := NormalizeFunction(f)];
  }

  lemma LastByOne<T, V>(x: T, key: T -> string, val: T -> V)
    ensures LastBy([x], key, val) == map[key(x) := val(x)]
  {
    assert [x][..0] == [];
  }

  lemma ExampleIndexes()
    ensures Index([X, Y]) == Index([X, Y, Y]) == Index([Y, X]) == map["x" := "U32", "y" := "U32"]
  {
    hide Index;
    IndexAppend([], X);
    IndexAppend([X], Y);
    IndexAppend([X, Y], Y);
    IndexAppend([], Y);
    IndexAppend([Y], X);
    assert [] + [X] == [X] && [] + [Y] == [Y];
    assert [X] + [Y] == [X, Y] && [X, Y] + [Y] == [X, Y, Y] && [Y] + [X] == [Y, X];
  }

  /** A repeated name in the middle version hides a reorder: two empty diffs, and a breaking one between the ends. */
  lemma TriangleNeedsDistinctNames(fold: Fold)
    ensures var x, y := Named("x", U32Type), Named("y", U32Type);
      var a, b, c := Normalize(SpecOf([x, y])), Normalize(SpecOf([x, y, y])), Normalize(SpecOf([y, x]));
      Worst(fold, a, b) == Compatible && Worst(fold, b, c) == Compatible && Worst(fold, a, c) == Breaking
  {
    hide Worst, Index, Normalize;
    var x, y := Named("x", U32Type), Named("y", U32Type);
    NormalizeOne([x, y]);
    NormalizeOne([x, y, y]);
    NormalizeOne([y, x]);
    assert NormParams([x, y]) == [X, Y] && NormParams([x, y, y]) == [X, Y, Y] && NormParams([y, x]) == [Y, X];
    ExampleIndexes();
    NothingBetween(fold, [X, Y], [X, Y, Y]);
    NothingBetween(fold, [X, Y, Y], [Y, X]);
    assert HaveSameParamNames([X, Y], [Y, X]) && !SameParamOrder([X, Y], [Y, X]);
    WorstBounds(fold, ParamReorder("f"), OneFunction([X, Y]), OneFunction([Y, X]));
  }

  lemma IndexAppend(params: seq<NormParam>, p: NormParam)
    ensures Index(params + [p]) == Index(params)[p.name := p.ty]
    ensures Index([]) == map[]
  {
    assert (params + [p])[..|params|] == params;
  }

  /** Lists of different lengths with the same index and the same types show no difference. */
  lemma NothingBetween(fold: Fold, p: seq<NormParam>, q: seq<NormParam>)
    requires |p| != |q| && Index(p) == Index(q)
    requires forall i | 0 <= i < |p| :: p[i].name in Index(q) && p[i].ty == Index(q)[p[i].name]
    ensures Worst(fold, OneFunction(p), OneFunction(q)) == Compatible
  {
    forall x ensures !Detected(fold, x, OneFunction(p), OneFunction(q)) {
    }
  }

  // ---- duality ----

  /** The same difference seen from the other side. */
  function Dual(x: Finding): Finding {
    match x
    case FunctionRemoved(f) => FunctionAdded(f)
    case FunctionAdded(f) => FunctionRemoved(f)
    case ParamRemoved(f, p) => ParamAdded(f, p)
    case ParamAdded(f, p) => ParamRemoved(f, p)
    case StructRemoved(s) => StructAdded(s)
    case StructAdded(s) => StructRemoved(s)
    case FieldRemoved(s, p) => FieldAdded(s, p)
    case FieldAdded(s, p) => FieldRemoved(s, p)
    case EnumRemoved(e) => EnumAdded(e)
    case EnumAdded(e) => EnumRemoved(e)
    case EnumCaseRemoved(e, c) => EnumCaseAdded(e, c)
    case EnumCaseAdded(e, c) => EnumCaseRemoved(e, c)
    case UnionRemoved(u) => UnionAdded(u)
    case UnionAdded(u) => UnionRemoved(u)
    case UnionCaseRemoved(u, c) => UnionCaseAdded(u, c)
    case UnionCaseAdded(u, c) => UnionCaseRemoved(u, c)
    case _ => x
  }

  /** A finding and its dual are at the same path, and are each other's dual. */
  lemma DualTwice(x: Finding)
    ensures Dual(Dual(x)) == x && PathOf(Dual(x)) == PathOf(x)
  {
    match x
    case FunctionRemoved(f) => assert PathOf(FunctionAdded(f)) == PathOf(x);
    case FunctionAdded(f) => assert PathOf(FunctionRemoved(f)) == PathOf(x);
    case ParamRemoved(f, p) => assert PathOf(ParamAdded(f, p)) == PathOf(x);
    case ParamAdded(f, p) => assert PathOf(ParamRemoved(f, p)) == PathOf(x);
    case _ =>
  }

  /** Some entry under p has a type that does not fold like the last one under p. */
  ghost predicate Uneven(fold: Fold, params: seq<NormParam>, p: string) {
    p in Index(params) && exists q <- params :: q.name == p && !EqualFold(fold, q.ty, Index(params)[p])
  }

  /** The last types under p agree, and just one version has another type there. */
  ghost predicate LopsidedType(fold: Fold, f: string, p: string, a: Norm, b: Norm) {
    && f in a.functions && f in b.functions
    && var pa, pb := a.functions[f].params, b.functions[f].params;
      && p in Index(pa) && p in Index(pb) && EqualFold(fold, Index(pa)[p], Index(pb)[p])
      && Uneven(fold, pa, p) != Uneven(fold, pb, p)
  }

  /** Lists of one length, the names of one strictly among the names of the other. */
  ghost predicate LopsidedNames(f: string, a: Norm, b: Norm) {
    && f in a.functions && f in b.functions
    && var pa, pb := a.functions[f].params, b.functions[f].params;
      |pa| == |pb| && (Index(pa).Keys < Index(pb).Keys || Index(pb).Keys < Index(pa).Keys)
  }

  /** Repeated parameter names let the finding be seen from one side only. */
  ghost predicate Lopsided(fold: Fold, x: Finding, a: Norm, b: Norm) {
    match x
    case ParamType(f, p) => LopsidedType(fold, f, p, a, b)
    case ParamReorder(f) => LopsidedNames(f, a, b)
    case _ => false
  }

  /** Swapping the versions swaps a finding for its dual at the same path exactly unless it is lopsided. */
  lemma SwapDualityExact(fold: Fold, x: Finding, a: Norm, b: Norm)
    ensures (Detected(fold, x, a, b) <==> Detected(fold, Dual(x), b, a)) <==> !Lopsided(fold, x, a, b)
    ensures Dual(Dual(x)) == x && PathOf(Dual(x)) == PathOf(x)
  {
    DualTwice(x);
    hide Detected, LopsidedType, LopsidedNames, PathOf;
    if x.ParamType? {
      TypeSwapExact(fold, x.f, x.p, a, b);
    } else if x.ParamReorder? {
      ReorderSwapExact(fold, x.f, a, b);
    } else {
      PlainSwap(fold, x, a, b);
    }
  }

  lemma PlainSwap(fold: Fold, x: Finding, a: Norm, b: Norm)
    requires !x.ParamType? && !x.ParamReorder?
    ensures Detected(fold, x, a, b) <==> Detected(fold, Dual(x), b, a)
  {
    if x.FunctionRemoved? || x.FunctionAdded? || x.ParamRemoved? || x.ParamAdded? || x.ReturnType? {
      FunctionSwap(fold, x, a, b);
    } else if x.StructRemoved? || x.StructAdded? || x.FieldRemoved? || x.FieldAdded? || x.FieldType? {
      StructSwap(fold, x, a, b);
    } else {
      CaseSwap(fold, x, a, b);
    }
  }

  lemma FunctionSwap(fold: Fold, x: Finding, a: Norm, b: Norm)
    requires x.FunctionRemoved? || x.FunctionAdded? || x.ParamRemoved? || x.ParamAdded? || x.ReturnType?
    ensures Detected(fold, x, a, b) <==> Detected(fold, Dual(x), b, a)
  {
    hide Index, IndexCases, HaveSameParamNames, SameParamOrder;
  }

  lemma StructSwap(fold: Fold, x: Finding, a: Norm, b: Norm)
    requires x.StructRemoved? || x.StructAdded? || x.FieldRemoved? || x.FieldAdded? || x.FieldType?
    ensures Detected(fold, x, a, b) <==> Detected(fold, Dual(x), b, a)
  {
    hide Index, IndexCases, HaveSameParamNames, SameParamOrder;
  }

  lemma CaseSwap(fold: Fold, x: Finding, a: Norm, b: Norm)
    requires x.EnumRemoved? || x.EnumAdded? || x.EnumCaseRemoved? || x.EnumCaseAdded? || x.EnumCaseValue?
      || x.UnionRemoved? || x.UnionAdded? || x.UnionCaseRemoved? || x.UnionCaseAdded?
    ensures Detected(fold, x, a, b) <==> Detected(fold, Dual(x), b, a)
  {
    hide Index, IndexCases, HaveSameParamNames, SameParamOrder;
  }

  lemma TypeSwapExact(fold: Fold, f: string, p: string, a: Norm, b: Norm)
    ensures (Detected(fold, ParamType(f, p), a, b) <==> Detected(fold, ParamType(f, p), b, a)) <==> !LopsidedType(fold, f, p, a, b)
  {
    if f in a.functions && f in b.functions {
      var pa, pb := a.functions[f].params, b.functions[f].params;
      IndexKeys(pa, p);
      IndexKeys(pb, p);
      if p in Index(pa) && p in Index(pb) {
        var qa := IndexLast(pa, p);
        var qb := IndexLast(pb, p);
        hide Index;
      }
    }
  }

  lemma ReorderSwapExact(fold: Fold, f: string, a: Norm, b: Norm)
    ensures (Detected(fold, ParamReorder(f), a, b) <==> Detected(fold, ParamReorder(f), b, a)) <==> !LopsidedNames(f, a, b)
  {
    if f in a.functions && f in b.functions {
      var pa, pb := a.functions[f].params, b.functions[f].params;
      NamesWithin(pa, pb);
      NamesWithin(pb, pa);
      SameOrderSameNames(pa, pb);
      hide Index;
    }
  }

  /** All names of q are names of p. */
  lemma NamesWithin(p: seq<NormParam>, q: seq<NormParam>)
    ensures (forall e <- q :: e.name in Index(p)) <==> Index(q).Keys <= Index(p).Keys
  {
    NamesIndexed(q);
    forall n | n in Index(q).Keys ensures exists e <- q :: e.name == n {
      IndexKeys(q, n);
    }
  }

  lemma SameOrderSameNames(p: seq<NormParam>, q: seq<NormParam>)
    ensures SameParamOrder(p, q) ==> Index(p).Keys == Index(q).Keys
  {
    if SameParamOrder(p, q) {
      forall n ensures n in Index(p).Keys <==> n in Index(q).Keys {
        SameNamesIndexed(p, q, n);
      }
    }
  }

  lemma SameNamesIndexed(p: seq<NormParam>, q: seq<NormParam>, n: string)
    requires SameParamOrder(p, q)
    ensures n in Index(p) <==> n in Index(q)
  {
    IndexKeys(p, n);
    IndexKeys(q, n);
    if i :| 0 <= i < |p| && p[i].name == n {
      assert p[i] in p && q[i] in q;
    }
    if i :| 0 <= i < |q| && q[i].name == n {
      assert p[i] in p && q[i] in q;
    }
  }

  /** With distinct parameter names swapping the versions swaps every finding for its dual. */
  lemma SwapDuality(fold: Fold, x: Finding, a: Norm, b: Norm)
    requires DistinctParams(a) && DistinctParams(b)
    ensures Detected(fold, x, a, b) <==> Detected(fold, Dual(x), b, a)
  {
    hide Detected, DistinctParams;
    if x.ParamType? && LopsidedType(fold, x.f, x.p, a, b) {
      DistinctEven(fold, a, x.f, x.p);
      DistinctEven(fold, b, x.f, x.p);
    } else if x.ParamReorder? && LopsidedNames(x.f, a, b) {
      DistinctSizes(a, x.f);
      DistinctSizes(b, x.f);
      StrictIsSmaller(Index(a.functions[x.f].params).Keys, Index(b.functions[x.f].params).Keys);
    }
    SwapDualityExact(fold, x, a, b);
  }

  lemma DistinctEven(fold: Fold, a: Norm, f: string, p: string)
    requires DistinctParams(a) && f in a.functions
    ensures !Uneven(fold, a.functions[f].params, p)
  {
    IndexDistinct(a.functions[f].params);
    hide Index;
  }

  lemma DistinctSizes(a: Norm, f: string)
    requires DistinctParams(a) && f in a.functions
    ensures |Index(a.functions[f].params).Keys| == |a.functions[f].params|
  {
    IndexDistinct(a.functions[f].params);
  }

  lemma StrictIsSmaller(s: set<string>, t: set<string>)
    ensures s < t ==> |s| < |t|
    ensures t < s ==> |t| < |s|
  {
    if s < t {
      assert t == s + (t - s) && t - s != {};
    } else if t < s {
      assert s == t + (s - t) && s - t != {};
    }
  }

  /** A type that changed under a repeated name is seen from one side only. */
  lemma RepeatedNameHidesType(fold: Fold)
    requires !EqualFold(fold, "U32", "Bool")
    ensures var x, y := Named("x", U32Type), Named("x", Bool);
      var a, b := Normalize(SpecOf([x, y])), Normalize(SpecOf([y]));
      Detected(fold, ParamType("f", "x"), a, b) && forall z :: !Detected(fold, z, b, a)
  {
    hide Index, Normalize;
    var x, y := Named("x", U32Type), Named("x", Bool);
    NormalizeOne([x, y]);
    NormalizeOne([y]);
    var z := NormParam("x", "Bool");
    assert NormParams([x, y]) == [X, z] && NormParams([y]) == [z];
    IndexAppend([], X);
    IndexAppend([X], z);
    IndexAppend([], z);
    assert [] + [X] == [X] && [X] + [z] == [X, z] && [] + [z] == [z];
    assert Index([X, z]) == map["x" := "Bool"] && Index([z]) == map["x" := "Bool"];
    assert X in [X, z];
    NothingBetween(fold, [z], [X, z]);
    forall w ensures !Detected(fold, w, OneFunction([z]), OneFunction([X, z])) {
      NothingDetected(fold, w, OneFunction([z]), OneFunction([X, z]));
    }
  }

  lemma NothingDetected(fold: Fold, x: Finding, a: Norm, b: Norm)
    requires Worst(fold, a, b) == Compatible
    ensures !Detected(fold, x, a, b)
  {
  }

  /** A list that repeats a name is a reorder of one that does not, but not the other way round. */
  lemma RepeatedNameHidesReorder(fold: Fold)
    ensures var x, y := Named("x", U32Type), Named("y", U32Type);
      var a, b := Normalize(SpecOf([x, y])), Normalize(SpecOf([x, x]));
      Detected(fold, ParamReorder("f"), a, b) && !Detected(fold, ParamReorder("f"), b, a)
  {
    hide Index, Normalize;
    var x, y := Named("x", U32Type), Named("y", U32Type);
    NormalizeOne([x, y]);
    NormalizeOne([x, x]);
    assert NormParams([x, y]) == [X, Y] && NormParams([x, x]) == [X, X];
    ExampleIndexes();
    IndexAppend([], X);
    IndexAppend([X], X);
    assert [] + [X] == [X] && [X] + [X] == [X, X];
    assert Index([X, X]) == map["x" := "U32"];
    assert [X, Y][1].name != [X, X][1].name && Y in [X, Y];
  }

  // ---- completeness ----

  /** The same parameters in the same order. */
  ghost predicate SameParams(fold: Fold, p: seq<NormParam>, q: seq<NormParam>) {
    |p| == |q| && forall i | 0 <= i < |p| :: p[i].name == q[i].name && EqualFold(fold, p[i].ty, q[i].ty)
  }

  /**
   * The same names, every old entry of the type the new list gives last under its name, and the same
   * order if the lists are of one length: lists of different lengths are never compared for order.
   */
  ghost predicate ParamsAgree(fold: Fold, p: seq<NormParam>, q: seq<NormParam>) {
    && Index(p).Keys == Index(q).Keys
    && (forall e <- p :: e.name in Index(q) ==> EqualFold(fold, e.ty, Index(q)[e.name]))
    && (|p| == |q| ==> SameParamOrder(p, q))
  }

  ghost predicate SameFields(fold: Fold, p: map<string, string>, q: map<string, string>) {
    p.Keys == q.Keys && forall n | n in p :: EqualFold(fold, p[n], q[n])
  }

  ghost predicate SameFunctions(fold: Fold, a: Norm, b: Norm) {
    && a.functions.Keys == b.functions.Keys
    && forall f | f in a.functions ::
      ParamsAgree(fold, a.functions[f].params, b.functions[f].params) &&
      EqualFold(fold, a.functions[f].returnType, b.functions[f].returnType)
  }

  ghost predicate SameStructs(fold: Fold, a: Norm, b: Norm) {
    && a.structs.Keys == b.structs.Keys
    && forall s | s in a.structs :: SameFields(fold, Index(a.structs[s]), Index(b.structs[s]))
  }

  ghost predicate SameEnums(a: Norm, b: Norm) {
    && a.enums.Keys == b.enums.Keys
    && forall e | e in a.enums :: IndexCases(a.enums[e]) == IndexCases(b.enums[e])
  }

  ghost predicate SameUnions(a: Norm, b: Norm) {
    && a.unions.Keys == b.unions.Keys
    && forall u | u in a.unions :: forall c :: c in a.unions[u] <==> c in b.unions[u]
  }

  /** Equal up to the case of type strings: parameters as lists that agree, fields and cases as maps and sets. */
  ghost predicate SameInterface(fold: Fold, a: Norm, b: Norm) {
    SameFunctions(fold, a, b) && SameStructs(fold, a, b) && SameEnums(a, b) && SameUnions(a, b)
  }

  /** The report is empty exactly when the two interfaces agree. */
  lemma EmptyDiffExact(fold: Fold, a: Norm, b: Norm)
    ensures Worst(fold, a, b) == Compatible <==> SameInterface(fold, a, b)
  {
    if Worst(fold, a, b) == Compatible {
      NoFindingSame(fold, a, b);
    } else if SameInterface(fold, a, b) {
      var x := WorstWitness(fold, a, b);
      SameNoFinding(fold, a, b, x);
    }
  }

  /** With distinct names lists that agree are the same list. */
  lemma AgreeDistinct(fold: Fold, p: seq<NormParam>, q: seq<NormParam>)
    requires DistinctNames(p) && DistinctNames(q)
    ensures ParamsAgree(fold, p, q) <==> SameParams(fold, p, q)
  {
    IndexDistinct(p);
    IndexDistinct(q);
    SameOrderSameNames(p, q);
    hide Index;
    if ParamsAgree(fold, p, q) {
      forall i | 0 <= i < |p| ensures EqualFold(fold, p[i].ty, q[i].ty) {
        assert p[i] in p && q[i] in q;
      }
    } else if SameParams(fold, p, q) {
      forall e | e in p ensures EqualFold(fold, e.ty, Index(q)[e.name]) {
        var i :| 0 <= i < |p| && p[i] == e;
        assert q[i] in q;
      }
    }
  }

  /** With distinct parameter names an empty report means the same parameters in the same order everywhere. */
  lemma EmptyDiffDistinct(fold: Fold, a: Norm, b: Norm)
    requires DistinctParams(a) && DistinctParams(b)
    ensures Worst(fold, a, b) == Compatible <==>
      SameInterface(fold, a, b)
      && forall f | f in a.functions && f in b.functions :: SameParams(fold, a.functions[f].params, b.functions[f].params)
  {
    EmptyDiffExact(fold, a, b);
    hide Worst, SameStructs, SameEnums, SameUnions, ParamsAgree, SameParams, DistinctNames;
    forall f | f in a.functions && f in b.functions
      ensures ParamsAgree(fold, a.functions[f].params, b.functions[f].params)
        <==> SameParams(fold, a.functions[f].params, b.functions[f].params)
    {
      AgreeDistinct(fold, a.functions[f].params, b.functions[f].params);
    }
  }

  /** A repeated parameter is a change the report does not show. */
  lemma RepeatedNameHidden(fold: Fold)
    ensures var x, y := Named("x", U32Type), Named("y", U32Type);
      var a, b := Normalize(SpecOf([x, y])), Normalize(SpecOf([x, y, y]));
      Worst(fold, a, b) == Compatible && a.functions["f"].params != b.functions["f"].params
  {
    hide Worst, Normalize;
    var x, y := Named("x", U32Type), Named("y", U32Type);
    TriangleNeedsDistinctNames(fold);
    NormalizeOne([x, y]);
    NormalizeOne([x, y, y]);
  }

  lemma NoFindingSame(fold: Fold, a: Norm, b: Norm)
    requires forall x :: !Detected(fold, x, a, b)
    ensures SameInterface(fold, a, b)
  {
    forall f ensures f in a.functions <==> f in b.functions {
      assert !Detected(fold, FunctionRemoved(f), a, b) && !Detected(fold, FunctionAdded(f), a, b);
    }
    forall f | f in a.functions
      ensures ParamsAgree(fold, a.functions[f].params, b.functions[f].params)
      ensures EqualFold(fold, a.functions[f].returnType, b.functions[f].returnType)
    {
      assert !Detected(fold, ReturnType(f), a, b);
      NoFindingSameParams(fold, f, a, b);
    }
    NoFindingSameStructs(fold, a, b);
    NoFindingSameEnums(fold, a, b);
    NoFindingSameUnions(fold, a, b);
  }

  lemma NoFindingSameStructs(fold: Fold, a: Norm, b: Norm)
    requires forall x :: !Detected(fold, x, a, b)
    ensures SameStructs(fold, a, b)
  {
    hide Index, IndexCases, HaveSameParamNames, SameParamOrder;
    forall s ensures s in a.structs <==> s in b.structs {
      assert !Detected(fold, StructRemoved(s), a, b) && !Detected(fold, StructAdded(s), a, b);
    }
    forall s | s in a.structs ensures SameFields(fold, Index(a.structs[s]), Index(b.structs[s])) {
      forall p ensures p in Index(a.structs[s]) <==> p in Index(b.structs[s]) {
        assert !Detected(fold, FieldRemoved(s, p), a, b) && !Detected(fold, FieldAdded(s, p), a, b);
      }
      forall p | p in Index(a.structs[s]) ensures EqualFold(fold, Index(a.structs[s])[p], Index(b.structs[s])[p]) {
        assert !Detected(fold, FieldType(s, p), a, b);
      }
    }
  }

  lemma NoFindingSameEnums(fold: Fold, a: Norm, b: Norm)
    requires forall x :: !Detected(fold, x, a, b)
    ensures SameEnums(a, b)
  {
    hide Index, IndexCases, HaveSameParamNames, SameParamOrder;
    forall e ensures e in a.enums <==> e in b.enums {
      assert !Detected(fold, EnumRemoved(e), a, b) && !Detected(fold, EnumAdded(e), a, b);
    }
    forall e | e in a.enums ensures IndexCases(a.enums[e]) == IndexCases(b.enums[e]) {
      forall c ensures c in IndexCases(a.enums[e]) <==> c in IndexCases(b.enums[e]) {
        assert !Detected(fold, EnumCaseRemoved(e, c), a, b) && !Detected(fold, EnumCaseAdded(e, c), a, b);
      }
      forall c | c in IndexCases(a.enums[e]) ensures IndexCases(a.enums[e])[c] == IndexCases(b.enums[e])[c] {
        assert !Detected(fold, EnumCaseValue(e, c), a, b);
      }
    }
  }

  lemma NoFindingSameUnions(fold: Fold, a: Norm, b: Norm)
    requires forall x :: !Detected(fold, x, a, b)
    ensures SameUnions(a, b)
  {
    hide Index, IndexCases, HaveSameParamNames, SameParamOrder;
    forall u ensures u in a.unions <==> u in b.unions {
      assert !Detected(fold, UnionRemoved(u), a, b) && !Detected(fold, UnionAdded(u), a, b);
    }
    forall u, c | u in a.unions ensures c in a.unions[u] <==> c in b.unions[u] {
      assert !Detected(fold, UnionCaseRemoved(u, c), a, b) && !Detected(fold, UnionCaseAdded(u, c), a, b);
    }
  }

  lemma NoFindingSameParams(fold: Fold, f: string, a: Norm, b: Norm)
    requires forall x :: !Detected(fold, x, a, b)
    requires f in a.functions && f in b.functions
    ensures ParamsAgree(fold, a.functions[f].params, b.functions[f].params)
  {
    hide Index;
    var pa, pb := a.functions[f].params, b.functions[f].params;
    forall p ensures p in Index(pa) <==> p in Index(pb) {
      assert !Detected(fold, ParamRemoved(f, p), a, b) && !Detected(fold, ParamAdded(f, p), a, b);
    }
    NamesWithin(pa, pb);
    assert !Detected(fold, ParamReorder(f), a, b);
    forall e | e in pa && e.name in Index(pb) ensures EqualFold(fold, e.ty, Index(pb)[e.name]) {
      assert !Detected(fold, ParamType(f, e.name), a, b);
    }
  }

  lemma SameNoFinding(fold: Fold, a: Norm, b: Norm, x: Finding)
    requires SameInterface(fold, a, b)
    ensures !Detected(fold, x, a, b)
  {
    hide Detected, SameFunctions, SameStructs, SameEnums, SameUnions;
    if x.ParamRemoved? || x.ParamAdded? || x.ParamType? || x.ParamReorder?
      || x.FunctionRemoved? || x.FunctionAdded? || x.ReturnType?
    {
      SameFunctionsNoFinding(fold, a, b, x);
    } else if x.StructRemoved? || x.StructAdded? || x.FieldRemoved? || x.FieldAdded? || x.FieldType? {
      SameStructsNoFinding(fold, a, b, x);
    } else {
      SameCasesNoFinding(fold, a, b, x);
    }
  }

  lemma SameFunctionsNoFinding(fold: Fold, a: Norm, b: Norm, x: Finding)
    requires SameFunctions(fold, a, b)
    requires x.ParamRemoved? || x.ParamAdded? || x.ParamType? || x.ParamReorder?
      || x.FunctionRemoved? || x.FunctionAdded? || x.ReturnType?
    ensures !Detected(fold, x, a, b)
  {
    hide Index;
    assert x.f in a.functions ==> ParamsAgree(fold, a.functions[x.f].params, b.functions[x.f].params);
  }

  lemma SameStructsNoFinding(fold: Fold, a: Norm, b: Norm, x: Finding)
    requires SameStructs(fold, a, b)
    requires x.StructRemoved? || x.StructAdded? || x.FieldRemoved? || x.FieldAdded? || x.FieldType?
    ensures !Detected(fold, x, a, b)
  {
    hide Index;
    assert x.s in a.structs ==> SameFields(fold, Index(a.structs[x.s]), Index(b.structs[x.s]));
  }

  lemma SameCasesNoFinding(fold: Fold, a: Norm, b: Norm, x: Finding)
    requires SameEnums(a, b) && SameUnions(a, b)
    requires x.EnumRemoved? || x.EnumAdded? || x.EnumCaseRemoved? || x.EnumCaseAdded? || x.EnumCaseValue?
      || x.UnionRemoved? || x.UnionAdded? || x.UnionCaseRemoved? || x.UnionCaseAdded?
    ensures !Detected(fold, x, a, b)
  {
    hide IndexCases;
  }
}
