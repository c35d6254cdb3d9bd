/** What the ABI hash says about the compatibility report, and what it does not. */
module AbiCompat {
  import opened Wrappers
  import opened Sorting
  import opened TypeDefs
  import opened ContractSpecs
  import opened AbiJson
  import opened Compat
  import opened CompatLaws

  // ---- maps in which the last entry wins, and sorting ----

  lemma {:induction false} LastByCons<T, V>(x: T, rest: seq<T>, key: T -> string, val: T -> V)
    ensures LastBy([x] + rest, key, val) == map[key(x) := val(x)] + LastBy(rest, key, val)
  {
    if rest == [] {
      assert [x] + rest == [x];
      LastByOne(x, key, val);
    } else {
      var n := |rest| - 1;
      LastByCons(x, rest[..n], key, val);
      assert ([x] + rest)[..|rest|] == [x] + rest[..n];
    }
  }

  lemma {:induction false} LastByInsert<T(!new), V>(le: (T, T) -> bool, x: T, s: seq<T>, key: T -> string, val: T -> V)
    requires OrdersBy(le, key)
    ensures LastBy(Insert(le, x, s), key, val) == map[key(x) := val(x)] + LastBy(s, key, val)
  {
    hide LastBy, StringLe;
    if s == [] || le(x, s[0]) {
      LastByCons(x, s, key, val);
    } else {
      StringLeTotal(key(x), key(x));
      LastByInsert(le, x, s[1..], key, val);
      LastByCons(s[0], Insert(le, x, s[1..]), key, val);
      LastByCons(s[0], s[1..], key, val);
      assert s == [s[0]] + s[1..];
    }
  }

  /** Sorting by the key, ties in order, does not change which entry wins. */
  lemma {:induction false} LastBySort<T(!new), V>(le: (T, T) -> bool, s: seq<T>, key: T -> string, val: T -> V)
    requires OrdersBy(le, key)
    ensures LastBy(Sort(le, s), key, val) == LastBy(s, key, val)
  {
    hide LastBy, Insert, OrdersBy;
    if s != [] {
      LastBySort(le, s[1..], key, val);
      LastByInsert(le, s[0], Sort(le, s[1..]), key, val);
      LastByCons(s[0], s[1..], key, val);
      assert s == [s[0]] + s[1..];
    }
  }

  lemma {:induction false} LastByAlike<T, V>(s: seq<T>, t: seq<T>, key: T -> string, val: T -> V)
    requires |s| == |t| && forall i | 0 <= i < |s| :: key(s[i]) == key(t[i]) && val(s[i]) == val(t[i])
    ensures LastBy(s, key, val) == LastBy(t, key, val)
  {
    if s != [] {
      LastByAlike(s[..|s| - 1], t[..|t| - 1], key, val);
    }
  }

  /** Sections that are printed alike give the same map. */
  lemma SectionsAlike<T(!new), J, V>(le: (T, T) -> bool, show: T -> J, s: seq<T>, t: seq<T>, key: T -> string, val: T -> V)
    requires OrdersBy(le, key) && MapSeq(show, Sort(le, s)) == MapSeq(show, Sort(le, t))
    requires forall x, y :: show(x) == show(y) ==> key(x) == key(y) && val(x) == val(y)
    ensures LastBy(s, key, val) == LastBy(t, key, val)
  {
    hide LastBy, Sort, OrdersBy;
    var a, b := Sort(le, s), Sort(le, t);
    assert |a| == |MapSeq(show, a)| == |b|;
    forall i | 0 <= i < |a| ensures key(a[i]) == key(b[i]) && val(a[i]) == val(b[i]) {
      assert show(a[i]) == MapSeq(show, a)[i] == show(b[i]);
    }
    LastByAlike(a, b, key, val);
    LastBySort(le, s, key, val);
    LastBySort(le, t, key, val);
  }

  // ---- the JSON decides everything the comparison looks at ----

  lemma FieldsAlike(s: seq<Field>, t: seq<Field>)
    requires MapSeq(PrintField, s) == MapSeq(PrintField, t)
    ensures NormParams(s) == NormParams(t)
  {
    hide FormatTypeDef;
    assert |s| == |MapSeq(PrintField, s)| == |t|;
    forall i | 0 <= i < |s| ensures NormParams(s)[i] == NormParams(t)[i] {
      assert PrintField(s[i]) == MapSeq(PrintField, s)[i] == PrintField(t[i]);
    }
  }

  lemma FunctionsAlike(x: Function, y: Function)
    requires PrintFunction(x) == PrintFunction(y)
    ensures x.name == y.name && NormalizeFunction(x) == NormalizeFunction(y)
  {
    hide FormatTypeDef, NormParams;
    FieldsAlike(x.inputs, y.inputs);
    assert |x.outputs| == |MapSeq(FormatTypeDef, x.outputs)| == |y.outputs|;
    if x.outputs != [] {
      assert FormatTypeDef(x.outputs[0]) == MapSeq(FormatTypeDef, x.outputs)[0] == FormatTypeDef(y.outputs[0]);
    }
  }

  lemma {:induction false} CasesAlike(s: seq<UnionCase>, t: seq<UnionCase>)
    requires |s| == |t| && forall i | 0 <= i < |s| :: s[i].name == t[i].name
    ensures CaseNames(s) == CaseNames(t)
  {
    if s != [] {
      CasesAlike(s[..|s| - 1], t[..|t| - 1]);
    }
  }

  lemma UnionsAlike(x: Union, y: Union)
    requires PrintUnion(x) == PrintUnion(y)
    ensures x.name == y.name && CaseNames(x.cases) == CaseNames(y.cases)
  {
    hide FormatTypeDef;
    assert |x.cases| == |MapSeq(PrintCase, x.cases)| == |y.cases|;
    forall i | 0 <= i < |x.cases| ensures x.cases[i].name == y.cases[i].name {
      assert PrintCase(x.cases[i]) == MapSeq(PrintCase, x.cases)[i] == PrintCase(y.cases[i]);
      assert PrintCase(x.cases[i]).name == x.cases[i].name && PrintCase(y.cases[i]).name == y.cases[i].name;
    }
    CasesAlike(x.cases, y.cases);
  }

  /** Specifications with the same JSON are the same to the comparison. */
  lemma EqualJsonNormalize(a: ContractSpec, b: ContractSpec)
    requires PrintSpec(a) == PrintSpec(b)
    ensures Normalize(a) == Normalize(b)
  {
    hide MapSeq, Sort, LastBy, OrdersBy, PrintFunction, PrintStruct, PrintUnion, NormalizeFunction, NormParams, CaseNames;
    NamesOrder();
    forall x, y ensures PrintFunction(x) == PrintFunction(y) ==> x.name == y.name && NormalizeFunction(x) == NormalizeFunction(y) {
      if PrintFunction(x) == PrintFunction(y) {
        FunctionsAlike(x, y);
      }
    }
    SectionsAlike(FunctionLe, PrintFunction, a.functions, b.functions, (f: Function) => f.name, NormalizeFunction);
    forall x, y ensures PrintStruct(x) == PrintStruct(y) ==> x.name == y.name && NormParams(x.fields) == NormParams(y.fields) {
      StructsAlike(x, y);
    }
    SectionsAlike(StructLe, PrintStruct, a.structs, b.structs, (s: Struct) => s.name, (s: Struct) => NormParams(s.fields));
    forall x, y ensures PrintUnion(x) == PrintUnion(y) ==> x.name == y.name && CaseNames(x.cases) == CaseNames(y.cases) {
      if PrintUnion(x) == PrintUnion(y) {
        UnionsAlike(x, y);
      }
    }
    SectionsAlike(UnionLe, PrintUnion, a.unions, b.unions, (u: Union) => u.name, (u: Union) => CaseNames(u.cases));
    LastBySort(EnumLe, a.enums, (e: Enum) => e.name, (e: Enum) => e.cases);
    LastBySort(EnumLe, b.enums, (e: Enum) => e.name, (e: Enum) => e.cases);
  }

  lemma StructsAlike(x: Struct, y: Struct)
    ensures PrintStruct(x) == PrintStruct(y) ==> x.name == y.name && NormParams(x.fields) == NormParams(y.fields)
  {
    hide MapSeq, NormParams;
    if PrintStruct(x) == PrintStruct(y) {
      FieldsAlike(x.fields, y.fields);
    }
  }

  // ---- the report on specifications with one JSON ----

  /** No function lists a parameter name with types that fold apart. */
  ghost predicate EvenParams(fold: Fold, n: Norm) {
    forall f, p | f in n.functions :: !Uneven(fold, n.functions[f].params, p)
  }

  /** A specification shows no difference to itself exactly when no function has such a parameter. */
  lemma SelfDiffExact(fold: Fold, n: Norm)
    ensures Worst(fold, n, n) == Compatible <==> EvenParams(fold, n)
  {
    EmptyDiffExact(fold, n, n);
    hide Worst, Index, IndexCases;
    forall f | f in n.functions
      ensures ParamsAgree(fold, n.functions[f].params, n.functions[f].params)
        <==> forall p :: !Uneven(fold, n.functions[f].params, p)
    {
      ParamsAgreeSelf(fold, n.functions[f].params);
    }
    hide ParamsAgree, Uneven;
    SameRest(fold, n);
  }

  lemma SameRest(fold: Fold, n: Norm)
    ensures SameStructs(fold, n, n) && SameEnums(n, n) && SameUnions(n, n)
  {
    hide Index, IndexCases;
  }

  lemma ParamsAgreeSelf(fold: Fold, params: seq<NormParam>)
    ensures ParamsAgree(fold, params, params) <==> forall p :: !Uneven(fold, params, p)
  {
    NamesIndexed(params);
    hide Index;
    if ParamsAgree(fold, params, params) {
      forall p ensures !Uneven(fold, params, p) {
      }
    } else {
      var e :| e in params && !EqualFold(fold, e.ty, Index(params)[e.name]);
      assert Uneven(fold, params, e.name);
    }
  }

  /**
   * Specifications with the same JSON, stable or not, show no difference exactly when no function lists
   * a parameter name with types that fold apart; with distinct parameter names they never do.
   */
  lemma EqualJsonDiffExact(fold: Fold, a: ContractSpec, b: ContractSpec)
    requires PrintSpec(a) == PrintSpec(b)
    ensures Worst(fold, Normalize(a), Normalize(b)) == Compatible <==> EvenParams(fold, Normalize(a))
    ensures DistinctInputs(a) ==> Worst(fold, Normalize(a), Normalize(b)) == Compatible
  {
    hide Worst, Normalize, PrintSpec, Uneven;
    EqualJsonNormalize(a, b);
    SelfDiffExact(fold, Normalize(a));
    if DistinctInputs(a) {
      DistinctInputsNormalize(a);
      forall f, p | f in Normalize(a).functions ensures !Uneven(fold, Normalize(a).functions[f].params, p) {
        DistinctEven(fold, Normalize(a), f, p);
      }
    }
  }

  /** Equal hashes mean the same, if the digest separates the two texts. */
  lemma EqualHashDiffExact(lib: Lib, fold: Fold, a: ContractSpec, b: ContractSpec)
    requires lib.Sound() && HashAbi(lib, a) == HashAbi(lib, b)
    requires var x, y := lib.render(PrintSpec(a)), lib.render(PrintSpec(b)); lib.sha(x) == lib.sha(y) ==> x == y
    ensures Worst(fold, Normalize(a), Normalize(b)) == Compatible <==> EvenParams(fold, Normalize(a))
  {
    hide Worst, Normalize, PrintSpec, EvenParams;
    assert lib.parse(lib.render(PrintSpec(a))) == Some(PrintSpec(a));
    assert lib.parse(lib.render(PrintSpec(b))) == Some(PrintSpec(b));
    EqualJsonDiffExact(fold, a, b);
  }

  // ---- inputs ----

  function OneUnion(payload: Prim): ContractSpec {
    EMPTY_SPEC.(unions := [Union("U", "", [TupleCase("A", [Primitive(payload)])])])
  }

  /** A union case with another payload type changes the JSON, and the report shows nothing. */
  lemma PayloadUnseen(fold: Fold)
    ensures var a, b := OneUnion(U32Type), OneUnion(Bool);
      && StableSpec(a) && StableSpec(b)
      && PrintSpec(a) != PrintSpec(b) && Worst(fold, Normalize(a), Normalize(b)) == Compatible
  {
    var a, b := OneUnion(U32Type), OneUnion(Bool);
    hide Worst;
    OneUnionJson(U32Type);
    OneUnionJson(Bool);
    OneUnionNorm(U32Type);
    OneUnionNorm(Bool);
    assert PrintSpec(a).unions[0].cases[0].types[0] == "U32" && PrintSpec(b).unions[0].cases[0].types[0] == "Bool";
    SelfDiffExact(fold, Normalize(a));
  }

  lemma OneUnionJson(payload: Prim)
    ensures StableSpec(OneUnion(payload))
    ensures PrintSpec(OneUnion(payload)).unions == [JsonUnion("U", [JsonUnionCase("A", [PrimName(payload)])], "")]
  {
    hide PrimName;
    var t := Primitive(payload);
    var c := TupleCase("A", [t]);
    var u := Union("U", "", [c]);
    assert Sort(UnionLe, [u]) == [u];
    assert MapSeq(FormatTypeDef, [t]) == [PrimName(payload)];
    assert MapSeq(PrintCase, [c]) == [JsonUnionCase("A", [PrimName(payload)])];
    assert MapSeq(PrintUnion, [u]) == [PrintUnion(u)];
  }

  lemma OneUnionNorm(payload: Prim)
    ensures Normalize(OneUnion(payload)) == Norm(map[], map[], map[], map["U" := ["A"]])
  {
    var c := TupleCase("A", [Primitive(payload)]);
    var u := Union("U", "", [c]);
    assert [c][..0] == [] && CaseNames([]) == [];
    assert CaseNames([c]) == [] + ["A"] == ["A"];
    var spec := OneUnion(payload);
    assert Functions(spec) == map[] && Structs(spec) == map[] && Enums(spec) == map[];
    LastByOne(u, (v: Union) => v.name, (v: Union) => CaseNames(v.cases));
    assert Unions(OneUnion(payload)) == map["U" := CaseNames([c])];
  }

  /** A function that lists one name with two types differs from itself. */
  lemma SelfDifference(fold: Fold)
    requires !EqualFold(fold, "U32", "Bool")
    ensures var a := SpecOf([Named("x", U32Type), Named("x", Bool)]); Worst(fold, Normalize(a), Normalize(a)) == Breaking
  {
    hide Index, Normalize;
    var x, y := Named("x", U32Type), Named("x", Bool);
    NormalizeOne([x, y]);
    var z := NormParam("x", "Bool");
    assert NormParams([x, y]) == [X, z];
    IndexAppend([], X);
    IndexAppend([X], z);
    assert [] + [X] == [X] && [X] + [z] == [X, z];
    assert X in [X, z];
    assert Detected(fold, ParamType("f", "x"), OneFunction([X, z]), OneFunction([X, z]));
    hide Detected;
    WorstBounds(fold, ParamType("f", "x"), OneFunction([X, z]), OneFunction([X, z]));
  }
}
