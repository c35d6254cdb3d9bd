/** Which specifications hash alike from XDR and from their own JSON (internal/bindings/artifact.go). */
module AbiHash {
  import opened Wrappers
  import opened Sorting
  import opened TypeDefs
  import opened TypeParser
  import opened TypeRoundTrip
  import opened TypeGrammar
  import opened ContractSpecs
  import opened AbiJson

  /** The printed form of t is a text of the grammar. */
  ghost predicate Spelt(t: TypeDef) {
    SpeltText(FormatTypeDef(t))
  }

  ghost predicate SpeltFields(fs: seq<Field>) {
    forall i | 0 <= i < |fs| :: Spelt(fs[i].ty)
  }

  ghost predicate SpeltTypes(ts: seq<TypeDef>) {
    forall i | 0 <= i < |ts| :: Spelt(ts[i])
  }

  ghost predicate SpeltFunction(fn: Function) {
    SpeltFields(fn.inputs) && SpeltTypes(fn.outputs)
  }

  ghost predicate SpeltStruct(s: Struct) {
    SpeltFields(s.fields)
  }

  ghost predicate SpeltCase(c: UnionCase) {
    c.TupleCase? ==> SpeltTypes(c.types)
  }

  ghost predicate SpeltUnion(u: Union) {
    forall i | 0 <= i < |u.cases| :: SpeltCase(u.cases[i])
  }

  ghost predicate SpeltEvent(e: Event) {
    forall i | 0 <= i < |e.params| :: Spelt(e.params[i].ty)
  }

  /** Every type in the specification is spelt as the printer spells types. */
  ghost predicate SpeltSpec(spec: ContractSpec) {
    && (forall i | 0 <= i < |spec.functions| :: SpeltFunction(spec.functions[i]))
    && (forall i | 0 <= i < |spec.structs| :: SpeltStruct(spec.structs[i]))
    && (forall i | 0 <= i < |spec.unions| :: SpeltUnion(spec.unions[i]))
    && (forall i | 0 <= i < |spec.events| :: SpeltEvent(spec.events[i]))
  }

  // ---- texts that are read and printed again ----

  /** b is read, and what was read is printed as b. */
  ghost predicate Reprints<A, B, E>(read: B -> Result<A, E>, show: A -> B, b: B) {
    read(b).Ok? && show(read(b).value) == b
  }

  /** A text is read and printed again as it is exactly when it is a text of the grammar. */
  lemma TextReprints(text: string)
    ensures Reprints(ParseTypeDef, FormatTypeDef, text) <==> SpeltText(text)
  {
    hide ParseTypeDef, FormatTypeDef, Stable, SpeltText;
    GrammarExact(text);
    if Reprints(ParseTypeDef, FormatTypeDef, text) {
      ParsedStable(text);
    }
    if u :| Stable(u) && FormatTypeDef(u) == text {
      RoundTripExact(u);
    }
  }

  lemma TextExact(t: TypeDef)
    ensures Reprints(ParseTypeDef, FormatTypeDef, FormatTypeDef(t)) <==> Spelt(t)
  {
    hide ParseTypeDef, FormatTypeDef, SpeltText;
    TextReprints(FormatTypeDef(t));
  }

  /** A list is read and printed again exactly when every element is. */
  lemma {:induction false} TraverseReprints<A, B, E>(read: B -> Result<A, E>, show: A -> B, s: seq<B>)
    ensures Traverse(read, s).Ok? ==>
      |Traverse(read, s).value| == |s| && forall i | 0 <= i < |s| :: read(s[i]).Ok? && Traverse(read, s).value[i] == read(s[i]).value
    ensures (Traverse(read, s).Ok? && MapSeq(show, Traverse(read, s).value) == s)
      <==> forall i | 0 <= i < |s| :: Reprints(read, show, s[i])
  {
    if s != [] {
      TraverseReprints(read, show, s[1..]);
      if forall i | 0 <= i < |s| :: Reprints(read, show, s[i]) {
        assert Reprints(read, show, s[0]) && forall i | 0 <= i < |s[1..]| :: Reprints(read, show, s[1..][i]);
      }
      if Traverse(read, s).Ok? {
        var all := Traverse(read, s).value;
        assert all == [read(s[0]).value] + Traverse(read, s[1..]).value;
        assert all[1..] == Traverse(read, s[1..]).value;
        var out := MapSeq(show, all);
        assert out == [show(all[0])] + MapSeq(show, all[1..]);
        assert s == [s[0]] + s[1..];
        assert out[1..] == MapSeq(show, all[1..]);
      }
    }
  }

  lemma FieldReprints(f: Field)
    ensures Reprints(ImportInput, PrintField, PrintField(f)) <==> Spelt(f.ty)
    ensures Reprints(ImportField, PrintField, PrintField(f)) <==> Spelt(f.ty)
  {
    hide ParseTypeDef, FormatTypeDef, Stable, Spelt;
    TextExact(f.ty);
  }

  lemma OutputReprints(t: TypeDef)
    ensures Reprints(ImportOutput, FormatTypeDef, FormatTypeDef(t)) <==> Spelt(t)
  {
    hide ParseTypeDef, FormatTypeDef, Stable, Spelt;
    TextExact(t);
  }

  lemma FunctionReprints(fn: Function)
    ensures Reprints(ImportFunction, PrintFunction, PrintFunction(fn)) <==> SpeltFunction(fn)
  {
    hide ImportInput, ImportOutput, PrintField, FormatTypeDef, Spelt, MapSeq, Traverse, Reprints;
    var ins, outs := MapSeq(PrintField, fn.inputs), MapSeq(FormatTypeDef, fn.outputs);
    TraverseReprints(ImportInput, PrintField, ins);
    TraverseReprints(ImportOutput, FormatTypeDef, outs);
    forall i | 0 <= i < |ins| ensures Reprints(ImportInput, PrintField, ins[i]) <==> Spelt(fn.inputs[i].ty) {
      FieldReprints(fn.inputs[i]);
    }
    forall i | 0 <= i < |outs| ensures Reprints(ImportOutput, FormatTypeDef, outs[i]) <==> Spelt(fn.outputs[i]) {
      OutputReprints(fn.outputs[i]);
    }
    FunctionParts(PrintFunction(fn));
  }

  lemma FunctionParts(jf: JsonFunction)
    ensures Reprints(ImportFunction, PrintFunction, jf) <==>
      var ins, outs := Traverse(ImportInput, jf.inputs), Traverse(ImportOutput, jf.outputs);
      ins.Ok? && MapSeq(PrintField, ins.value) == jf.inputs && outs.Ok? && MapSeq(FormatTypeDef, outs.value) == jf.outputs
  {
    hide ImportInput, ImportOutput, PrintField, FormatTypeDef, MapSeq, Traverse;
  }

  lemma StructReprints(s: Struct)
    ensures Reprints(ImportStruct, PrintStruct, PrintStruct(s)) <==> SpeltStruct(s)
  {
    hide ImportField, PrintField, Spelt, MapSeq, Traverse;
    var js := MapSeq(PrintField, s.fields);
    TraverseReprints(ImportField, PrintField, js);
    forall i | 0 <= i < |js| ensures Reprints(ImportField, PrintField, js[i]) <==> Spelt(s.fields[i].ty) {
      FieldReprints(s.fields[i]);
    }
  }

  lemma {:induction false} TypesReprint(caseName: string, ts: seq<TypeDef>, index: nat)
    ensures var texts := MapSeq(FormatTypeDef, ts); var r := ImportTypes(caseName, texts, index);
      && (r.Ok? ==> |r.value| == |ts|)
      && ((r.Ok? && MapSeq(FormatTypeDef, r.value) == texts) <==> SpeltTypes(ts))
  {
    hide ParseTypeDef, FormatTypeDef, Spelt;
    if ts != [] {
      var texts := MapSeq(FormatTypeDef, ts);
      TextExact(ts[0]);
      TypesReprint(caseName, ts[1..], index + 1);
      assert texts[1..] == MapSeq(FormatTypeDef, ts[1..]);
      assert SpeltTypes(ts) <==> Spelt(ts[0]) && SpeltTypes(ts[1..]) by {
        assert ts == [ts[0]] + ts[1..];
      }
      var r := ImportTypes(caseName, texts, index);
      if r.Ok? {
        assert r.value[1..] == ImportTypes(caseName, texts[1..], index + 1).value;
        var out := MapSeq(FormatTypeDef, r.value);
        assert out[1..] == MapSeq(FormatTypeDef, r.value[1..]);
        assert out == [out[0]] + out[1..] && texts == [texts[0]] + texts[1..];
      }
    }
  }

  lemma CaseReprints(c: UnionCase)
    ensures Reprints(ImportCase, PrintCase, PrintCase(c)) <==> SpeltCase(c)
  {
    hide ImportTypes, FormatTypeDef, Spelt;
    if c.TupleCase? {
      TypesReprint(c.name, c.types, 0);
    }
  }

  lemma UnionReprints(u: Union)
    ensures Reprints(ImportUnion, PrintUnion, PrintUnion(u)) <==> SpeltUnion(u)
  {
    hide ImportCase, PrintCase, SpeltCase, MapSeq, Traverse;
    var js := MapSeq(PrintCase, u.cases);
    TraverseReprints(ImportCase, PrintCase, js);
    forall i | 0 <= i < |js| ensures Reprints(ImportCase, PrintCase, js[i]) <==> SpeltCase(u.cases[i]) {
      CaseReprints(u.cases[i]);
    }
  }

  lemma ParamReprints(p: EventParam)
    ensures Reprints(ImportParam, PrintParam, PrintParam(p)) <==> Spelt(p.ty)
  {
    hide ParseTypeDef, FormatTypeDef, Stable, Spelt;
    TextExact(p.ty);
  }

  lemma EventReprints(e: Event)
    ensures Reprints(ImportEvent, PrintEvent, PrintEvent(e)) <==> SpeltEvent(e)
  {
    hide ImportParam, PrintParam, Spelt, MapSeq, Traverse;
    var js := MapSeq(PrintParam, e.params);
    TraverseReprints(ImportParam, PrintParam, js);
    forall i | 0 <= i < |js| ensures Reprints(ImportParam, PrintParam, js[i]) <==> Spelt(e.params[i].ty) {
      ParamReprints(e.params[i]);
    }
  }

  // ---- sections in order of name ----

  /** A printed section is read and printed again, sorting included, exactly when every entry is. */
  lemma SectionReprints<A(!new), B, E>(read: B -> Result<A, E>, show: A -> B, le: (A, A) -> bool, name: A -> string, s: seq<A>)
    requires OrdersBy(le, name)
    requires forall x :: read(show(x)).Ok? ==> name(read(show(x)).value) == name(x)
    ensures var js := MapSeq(show, Sort(le, s)); var r := Traverse(read, js);
      (r.Ok? && MapSeq(show, Sort(le, r.value)) == js) <==> forall i | 0 <= i < |s| :: Reprints(read, show, show(s[i]))
  {
    hide MapSeq, Traverse, Reprints, StringLe, Sort, SortedBy;
    var sorted := Sort(le, s);
    var js := MapSeq(show, sorted);
    var r := Traverse(read, js);
    SortTwice(le, name, s);
    TraverseReprints(read, show, js);
    if r.Ok? {
      NamesSorted(le, name, sorted, r.value);
      SortIdle(le, r.value);
    }
    SortedAlso(le, s, x => Reprints(read, show, show(x)));
  }

  lemma NamesSorted<A(!new)>(le: (A, A) -> bool, name: A -> string, s: seq<A>, t: seq<A>)
    requires OrdersBy(le, name) && SortedBy(le, s)
    requires |s| == |t| && forall i | 0 <= i < |s| :: name(t[i]) == name(s[i])
    ensures SortedBy(le, t)
  {
    hide StringLe;
    forall i, j | 0 <= i < j < |t| ensures le(t[i], t[j]) {
      assert le(s[i], s[j]);
    }
  }

  lemma NamesKept()
    ensures forall x :: ImportFunction(PrintFunction(x)).Ok? ==> ImportFunction(PrintFunction(x)).value.name == x.name
    ensures forall x :: ImportStruct(PrintStruct(x)).Ok? ==> ImportStruct(PrintStruct(x)).value.name == x.name
    ensures forall x :: ImportUnion(PrintUnion(x)).Ok? ==> ImportUnion(PrintUnion(x)).value.name == x.name
    ensures forall x :: ImportEvent(PrintEvent(x)).Ok? ==> ImportEvent(PrintEvent(x)).value.name == x.name
  {
    hide Traverse, MapSeq, ImportInput, ImportOutput, ImportField, ImportCase, ImportParam;
  }

  /** A printed specification is read and printed again exactly when all its types are spelt as the printer spells types. */
  lemma SpecReprintsExact(spec: ContractSpec)
    ensures Reprints(ImportSpec, PrintSpec, PrintSpec(spec)) <==> SpeltSpec(spec)
  {
    hide ImportFunction, ImportStruct, ImportUnion, ImportEvent, PrintFunction, PrintStruct, PrintUnion, PrintEvent;
    hide SpeltFunction, SpeltStruct, SpeltUnion, SpeltEvent, Sort, MapSeq, Traverse, Reprints, OrdersBy, SortedBy, StringLe;
    NamesOrder();
    NamesKept();
    SectionReprints(ImportFunction, PrintFunction, FunctionLe, (f: Function) => f.name, spec.functions);
    SectionReprints(ImportStruct, PrintStruct, StructLe, (s: Struct) => s.name, spec.structs);
    SectionReprints(ImportUnion, PrintUnion, UnionLe, (u: Union) => u.name, spec.unions);
    SectionReprints(ImportEvent, PrintEvent, EventLe, (e: Event) => e.name, spec.events);
    SortTwice(EnumLe, (e: Enum) => e.name, spec.enums);
    SortTwice(EnumLe, (e: Enum) => e.name, spec.errorEnums);
    EntriesReprint(spec);
    SpecParts(spec);
  }

  lemma EntriesReprint(spec: ContractSpec)
    ensures SpeltSpec(spec) <==>
      && (forall i | 0 <= i < |spec.functions| :: Reprints(ImportFunction, PrintFunction, PrintFunction(spec.functions[i])))
      && (forall i | 0 <= i < |spec.structs| :: Reprints(ImportStruct, PrintStruct, PrintStruct(spec.structs[i])))
      && (forall i | 0 <= i < |spec.unions| :: Reprints(ImportUnion, PrintUnion, PrintUnion(spec.unions[i])))
      && (forall i | 0 <= i < |spec.events| :: Reprints(ImportEvent, PrintEvent, PrintEvent(spec.events[i])))
  {
    hide ImportFunction, ImportStruct, ImportUnion, ImportEvent, PrintFunction, PrintStruct, PrintUnion, PrintEvent;
    hide SpeltFunction, SpeltStruct, SpeltUnion, SpeltEvent, Reprints;
    forall x ensures Reprints(ImportFunction, PrintFunction, PrintFunction(x)) <==> SpeltFunction(x) {
      FunctionReprints(x);
    }
    forall x ensures Reprints(ImportStruct, PrintStruct, PrintStruct(x)) <==> SpeltStruct(x) {
      StructReprints(x);
    }
    forall x ensures Reprints(ImportUnion, PrintUnion, PrintUnion(x)) <==> SpeltUnion(x) {
      UnionReprints(x);
    }
    forall x ensures Reprints(ImportEvent, PrintEvent, PrintEvent(x)) <==> SpeltEvent(x) {
      EventReprints(x);
    }
  }

  lemma SpecParts(spec: ContractSpec)
    requires Sort(EnumLe, Sort(EnumLe, spec.enums)) == Sort(EnumLe, spec.enums)
    requires Sort(EnumLe, Sort(EnumLe, spec.errorEnums)) == Sort(EnumLe, spec.errorEnums)
    ensures var js := PrintSpec(spec);
      var f, s, u, e := Traverse(ImportFunction, js.functions), Traverse(ImportStruct, js.structs), Traverse(ImportUnion, js.unions),
        Traverse(ImportEvent, js.events);
      Reprints(ImportSpec, PrintSpec, js) <==>
        && f.Ok? && MapSeq(PrintFunction, Sort(FunctionLe, f.value)) == js.functions
        && s.Ok? && MapSeq(PrintStruct, Sort(StructLe, s.value)) == js.structs
        && u.Ok? && MapSeq(PrintUnion, Sort(UnionLe, u.value)) == js.unions
        && e.Ok? && MapSeq(PrintEvent, Sort(EventLe, e.value)) == js.events
  {
    hide ImportFunction, ImportStruct, ImportUnion, ImportEvent, PrintFunction, PrintStruct, PrintUnion, PrintEvent, Sort, MapSeq, Traverse;
  }

  // ---- the hash ----

  /**
   * A specification hashes alike from XDR and from its own JSON exactly when all its types are spelt
   * as the printer spells types, if the digest separates the two texts hashed.
   */
  lemma HashFormatExact(lib: Lib, spec: ContractSpec, xdrData: string)
    requires lib.Sound() && lib.decodeXdr(xdrData) == Some(spec)
    requires var js := PrintSpec(spec); ImportSpec(js).Ok? ==>
      var x, y := lib.render(js), lib.render(PrintSpec(ImportSpec(js).value)); lib.sha(x) == lib.sha(y) ==> x == y
    ensures HashAbiBytes(lib, lib.render(PrintSpec(spec)), JsonFormat) == HashAbiBytes(lib, xdrData, XdrFormat) <==> SpeltSpec(spec)
  {
    hide PrintSpec, ImportSpec, SpeltSpec;
    SpecReprintsExact(spec);
    var js := PrintSpec(spec);
    assert lib.parse(lib.render(js)) == Some(js);
    if ImportSpec(js).Ok? {
      var again := PrintSpec(ImportSpec(js).value);
      assert lib.parse(lib.render(again)) == Some(again);
    }
  }

  /** A specification spelt as the printer spells types has one hash, whether it is given as XDR or as its own JSON, named or detected. */
  lemma HashFormatIndependent(lib: Lib, spec: ContractSpec, xdrData: string)
    requires lib.Sound() && SpeltSpec(spec) && lib.decodeXdr(xdrData) == Some(spec)
    ensures var json := lib.render(PrintSpec(spec));
      && HashAbiBytes(lib, json, JsonFormat) == Ok(HashAbi(lib, spec))
      && HashAbiBytes(lib, json, OtherFormat) == Ok(HashAbi(lib, spec))
      && HashAbiBytes(lib, xdrData, XdrFormat) == Ok(HashAbi(lib, spec))
      && (DetectFormat(xdrData).XdrFormat? ==> HashAbiBytes(lib, xdrData, OtherFormat) == Ok(HashAbi(lib, spec)))
  {
    hide PrintSpec, ImportSpec, SpeltSpec;
    SpecReprintsExact(spec);
    assert lib.parse(lib.render(PrintSpec(spec))) == Some(PrintSpec(spec));
  }

  /**
   * Next to a stable specification, any other prints like it exactly when its types are spelt as the
   * printer spells types and reading its JSON gives the canonical form of the first.
   */
  lemma PrintsLikeExact(a: ContractSpec, b: ContractSpec)
    requires StableSpec(a)
    ensures PrintSpec(a) == PrintSpec(b) <==> SpeltSpec(b) && ImportSpec(PrintSpec(b)) == Ok(Canonical(a))
  {
    hide PrintSpec, ImportSpec, SpeltSpec, StableSpec, Canonical;
    SpecRoundTripExact(a);
    CanonicalIsNormal(a);
    SpecReprintsExact(b);
  }

  /** The same for hashes, if the digest separates the two texts. */
  lemma HashesLikeExact(lib: Lib, a: ContractSpec, b: ContractSpec)
    requires lib.Sound() && StableSpec(a)
    requires var x, y := lib.render(PrintSpec(a)), lib.render(PrintSpec(b)); lib.sha(x) == lib.sha(y) ==> x == y
    ensures HashAbi(lib, a) == HashAbi(lib, b) <==> SpeltSpec(b) && ImportSpec(PrintSpec(b)) == Ok(Canonical(a))
  {
    hide PrintSpec, ImportSpec, SpeltSpec, StableSpec, Canonical;
    PrintsLikeExact(a, b);
    assert lib.parse(lib.render(PrintSpec(a))) == Some(PrintSpec(a));
    assert lib.parse(lib.render(PrintSpec(b))) == Some(PrintSpec(b));
  }

  /** A field whose type is named like a map, but not as any map is printed: the space is missing. */
  lemma OddSpelling()
    ensures !SpeltSpec(EMPTY_SPEC.(structs := [Struct("S", "", [Field("f", Udt("Map<U32,U32>"))])]))
  {
    var s := Struct("S", "", [Field("f", Udt("Map<U32,U32>"))]);
    OddNotSpelt();
    assert !Spelt(s.fields[0].ty);
    assert [s][0] == s && !SpeltStruct(s);
  }

  lemma OddNotSpelt()
    ensures !Spelt(Udt("Map<U32,U32>"))
  {
    var text := "Map<U32,U32>";
    hide SpeltText;
    UdtText(text);
    GrammarExact(text);
    forall u | Stable(u) ensures FormatTypeDef(u) != text {
      if FormatTypeDef(u) == text {
        RoundTripExact(u);
        OddIsMap();
        MapHasSpace(u.key, u.val);
      }
    }
  }

  lemma OddIsMap()
    ensures var r := ParseTypeDef("Map<U32,U32>"); r.Ok? ==> r.value.MapOf?
  {
    hide ParsePair, Split;
    var text := "Map<U32,U32>";
    assert text[0] == 'M' && text[3] == '<';
    assert PrimOf(text) == None;
    assert StripWrapper(text, "Option<", ">") == None && StripWrapper(text, "Vec<", ">") == None;
    assert text == "Map<" + "U32,U32" + ">";
    assert StripWrapper(text, "Map<", ">").Some?;
  }

  lemma MapHasSpace(k: TypeDef, v: TypeDef)
    ensures ' ' in FormatTypeDef(MapOf(k, v))
  {
    var a, b := FormatTypeDef(k), FormatTypeDef(v);
    assert FormatTypeDef(MapOf(k, v)) == "Map<" + (a + ", " + b) + ">";
    assert ("Map<" + (a + ", " + b) + ">")[4 + |a| + 1] == ' ';
  }
}
