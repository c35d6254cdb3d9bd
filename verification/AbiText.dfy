/** What the JSON form of a specification shows, entry by entry, and which format a text is taken for. */
module AbiText {
  import opened Sorting
  import opened TypeDefs
  import opened ContractSpecs
  import opened AbiJson
  import Spaces

  // ---- the order of the sections ----

  /** b shows the entries of a, each as often, with their names and none below the one before. */
  ghost predicate NamesAscend<A(!new), B>(a: seq<A>, nameA: A -> string, b: seq<B>, nameB: B -> string) {
    && (exists order: seq<A> :: multiset(order) == multiset(a) && SameNames(order, nameA, b, nameB))
    && forall i, j | 0 <= i < j < |b| :: Below(nameB(b[i]), nameB(b[j]))
  }

  ghost predicate SameNames<A, B>(a: seq<A>, nameA: A -> string, b: seq<B>, nameB: B -> string) {
    |a| == |b| && forall i | 0 <= i < |a| :: nameA(a[i]) == nameB(b[i])
  }

  lemma SectionAscends<T(!new), U>(le: (T, T) -> bool, name: T -> string, s: seq<T>, show: T -> U, shown: U -> string)
    requires OrdersBy(le, name) && forall x :: shown(show(x)) == name(x)
    ensures NamesAscend(s, name, MapSeq(show, Sort(le, s)), shown)
  {
    hide StringLe, Below, Sort;
    var sorted := Sort(le, s);
    OrdersPreorder(le, name);
    SortSorts(le, s);
    SortPermutes(le, s);
    var out := MapSeq(show, sorted);
    assert SameNames(sorted, name, out, shown);
    forall i, j | 0 <= i < j < |out| ensures Below(shown(out[i]), shown(out[j])) {
      assert le(sorted[i], sorted[j]);
      StringLeExact(name(sorted[i]), name(sorted[j]));
    }
  }

  /** Every section lists the entries of the specification by rising name. */
  lemma SpecAscends(spec: ContractSpec)
    ensures var js := PrintSpec(spec);
      && NamesAscend(spec.functions, (f: Function) => f.name, js.functions, (f: JsonFunction) => f.name)
      && NamesAscend(spec.structs, (s: Struct) => s.name, js.structs, (s: JsonStruct) => s.name)
      && NamesAscend(spec.enums, (e: Enum) => e.name, js.enums, (e: Enum) => e.name)
      && NamesAscend(spec.unions, (u: Union) => u.name, js.unions, (u: JsonUnion) => u.name)
      && NamesAscend(spec.errorEnums, (e: Enum) => e.name, js.errorEnums, (e: Enum) => e.name)
      && NamesAscend(spec.events, (e: Event) => e.name, js.events, (e: JsonEvent) => e.name)
  {
    hide NamesAscend, Sort, MapSeq;
    NamesOrder();
    SectionAscends(FunctionLe, (f: Function) => f.name, spec.functions, PrintFunction, (f: JsonFunction) => f.name);
    SectionAscends(StructLe, (s: Struct) => s.name, spec.structs, PrintStruct, (s: JsonStruct) => s.name);
    SectionAscends(UnionLe, (u: Union) => u.name, spec.unions, PrintUnion, (u: JsonUnion) => u.name);
    SectionAscends(EventLe, (e: Event) => e.name, spec.events, PrintEvent, (e: JsonEvent) => e.name);
    EnumsAscend(spec.enums);
    EnumsAscend(spec.errorEnums);
  }

  lemma EnumsAscend(es: seq<Enum>)
    ensures NamesAscend(es, (e: Enum) => e.name, Sort(EnumLe, es), (e: Enum) => e.name)
  {
    hide NamesAscend, Sort;
    NamesOrder();
    SectionAscends(EnumLe, (e: Enum) => e.name, es, (e: Enum) => e, (e: Enum) => e.name);
    assert MapSeq((e: Enum) => e, Sort(EnumLe, es)) == Sort(EnumLe, es);
  }

  // ---- event parameters ----

  /** A topic is shown as such and anything else as data; on reading, whatever is not called a topic is data. */
  lemma LocationExact(p: EventParam, q: JsonEventParam)
    ensures PrintParam(p).location == ['t', 'o', 'p', 'i', 'c'] <==> p.topic
    ensures PrintParam(p).location == ['d', 'a', 't', 'a'] <==> !p.topic
    ensures ImportParam(q).Ok? ==> (ImportParam(q).value.topic <==> q.location == ['t', 'o', 'p', 'i', 'c'])
  {
    hide FormatTypeDef;
  }

  // ---- the format of a text ----

  /** White space, an opening brace, and anything. */
  ghost predicate BraceFirst(data: string) {
    exists i :: 0 <= i < |data| && data[i] == '{' && forall j | 0 <= j < i :: Spaces.IsSpace(data[j])
  }

  /** A text is taken for JSON exactly when the first thing in it other than white space is an opening brace. */
  lemma {:induction false} DetectExact(data: string)
    ensures DetectFormat(data) == if BraceFirst(data) then JsonFormat else XdrFormat
  {
    if data != "" && Spaces.IsSpace(data[0]) {
      hide Spaces.IsSpace;
      var rest := data[1..];
      DetectExact(rest);
      if i :| 0 <= i < |data| && data[i] == '{' && forall j | 0 <= j < i :: Spaces.IsSpace(data[j]) {
        assert i > 0 by { BraceIsNoSpace(); }
        assert rest[i - 1] == '{' && forall j | 0 <= j < i - 1 :: Spaces.IsSpace(rest[j]);
      }
      if i :| 0 <= i < |rest| && rest[i] == '{' && forall j | 0 <= j < i :: Spaces.IsSpace(rest[j]) {
        assert data[i + 1] == '{';
        forall j | 0 <= j < i + 1 ensures Spaces.IsSpace(data[j]) {
          assert j > 0 ==> data[j] == rest[j - 1];
        }
      }
    }
  }

  lemma BraceIsNoSpace()
    ensures !Spaces.IsSpace('{')
  {
  }
}
