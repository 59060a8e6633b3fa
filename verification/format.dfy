/** `Format`: the tag- and nil-policy field filter. Reflection is replaced by
    an inductive value type; `StructStructure` is the pass that derives the
    new struct type and `FormatStruct` the pass that fills it in. */
module Format {
  import opened Wrappers
  import Strconv

  /** A Go value as the filter sees it through reflection. */
  datatype Value =
    | Nil                          // an untyped nil; as a field, a nil interface
    | Scalar(text: string)         // any other value that is neither a struct nor a pointer
    | Struct(fields: seq<Field>)
    | Ptr(target: Option<Value>)   // a pointer; None when it is nil

  /** A struct field: its name, the value of its `log` tag ("" when absent,
      as `Tag.Get("log")` reports), and its value. */
  datatype Field = Field(name: string, logTag: string, value: Value)

  /** The type of a field of a derived struct: the field's own declared type,
      or a struct type derived recursively. */
  datatype FieldType = Declared | Derived(fields: seq<StructField>)

  /** A `reflect.StructField` of a derived struct type. */
  datatype StructField = StructField(name: string, logTag: string, typ: FieldType)

  // ----------------------------------------------------------------- options

  /** `optionFormat`. */
  datatype FormatConfig = FormatConfig(discardNil: bool)

  /** `OptionFormat`: `WithDiscardNil(v)` is the only one. */
  datatype FormatOption = WithDiscardNil(v: bool)

  const DEFAULT_FORMAT_CONFIG := FormatConfig(false)

  function ApplyFormatOption(o: FormatConfig, opt: FormatOption): FormatConfig {
    match opt
    case WithDiscardNil(v) => o.(discardNil := v)
  }

  /** `optionFormat.apply`: the options applied left to right; the last one wins. */
  function ApplyFormatOptions(o: FormatConfig, opts: seq<FormatOption>): (r: FormatConfig)
    ensures |opts| == 0 ==> r == o
    ensures |opts| > 0 ==> r.discardNil == opts[|opts| - 1].v
    decreases |opts|
  {
    if |opts| == 0 then o else ApplyFormatOptions(ApplyFormatOption(o, opts[0]), opts[1..])
  }

  // ------------------------------------------------------------- the policy

  /** A non-empty `log` tag that does not parse as true drops the field;
      an unparseable tag reads as false, so it drops the field too. */
  predicate TaggedOut(f: Field) {
    f.logTag != "" && !Strconv.ParseBoolOrFalse(f.logTag)
  }

  predicate IsNilPointer(v: Value) {
    v == Ptr(None)
  }

  /** The keep/drop decision both passes make for one field. */
  predicate Kept(f: Field, o: FormatConfig) {
    !TaggedOut(f) && !(o.discardNil && IsNilPointer(f.value))
  }

  /** A struct, or a pointer to one: the inputs the filter rewrites. */
  predicate StructLike(v: Value) {
    v.Struct? || (v.Ptr? && v.target.Some? && v.target.value.Struct?)
  }

  /** The fields of a struct, or of the struct a pointer points to. */
  function Body(v: Value): seq<Field>
    requires StructLike(v)
  {
    if v.Struct? then v.fields else v.target.value.fields
  }

  // --------------------------------------------------------- the shape pass

  /** `structStructure`: the field list of the derived struct type. Nested
      struct fields get a derived type and, as `reflect.StructField{Name,
      Type}` is all the code fills in, lose their tag. */
  function StructStructure(v: Value, o: FormatConfig): seq<StructField> {
    match v
    case Struct(fs) => FieldShapes(fs, o)
    case Ptr(Some(Struct(fs))) => FieldShapes(fs, o)
    case _ => []
  }

  function FieldShapes(fs: seq<Field>, o: FormatConfig): seq<StructField> {
    if |fs| == 0 then []
    else
      var f := fs[0];
      var shape :=
        if !Kept(f, o) then []
        else if f.value.Struct? then [StructField(f.name, "", Derived(StructStructure(f.value, o)))]
        else [StructField(f.name, f.logTag, Declared)];
      shape + FieldShapes(fs[1..], o)
  }

  // --------------------------------------------------------- the value pass

  /** `formatStruct`: a struct or pointer to struct becomes a value of the
      derived struct type; any other value comes back as it is. */
  function FormatStruct(v: Value, o: FormatConfig): (r: Value)
    ensures !StructLike(v) ==> r == v
    ensures StructLike(v) ==> r.Struct? && |r.fields| <= |Body(v)|
  {
    match v
    case Struct(fs) => Struct(FilterFields(fs, o))
    case Ptr(Some(Struct(fs))) => Struct(FilterFields(fs, o))
    case _ => v
  }

  /** What a kept field becomes: a struct-valued field is filtered in turn
      (and, its type being derived, carries no tag); any other field,
      pointers to structs included, is copied as it is. */
  function Project(f: Field, o: FormatConfig): Field {
    if f.value.Struct? then Field(f.name, "", FormatStruct(f.value, o)) else f
  }

  function FilterFields(fs: seq<Field>, o: FormatConfig): (r: seq<Field>)
    ensures |r| <= |fs|
  {
    if |fs| == 0 then []
    else (if Kept(fs[0], o) then [Project(fs[0], o)] else []) + FilterFields(fs[1..], o)
  }

  /** `Format`: a nil input comes back untouched; anything else goes to the
      value pass with the options applied to the defaults. */
  function Format(v: Value, opts: seq<FormatOption>): (r: Value)
    ensures r == Nil <==> v == Nil
    ensures !StructLike(v) ==> r == v
    ensures StructLike(v) ==> r.Struct?
  {
    var o := ApplyFormatOptions(DEFAULT_FORMAT_CONFIG, opts);
    if v == Nil then v else FormatStruct(v, o)
  }

  // ------------------------------------------------------- names and order

  function Names(fs: seq<Field>): (ns: seq<string>)
    ensures |ns| == |fs|
    ensures forall i :: 0 <= i < |fs| ==> ns[i] == fs[i].name
  {
    if |fs| == 0 then [] else [fs[0].name] + Names(fs[1..])
  }

  /** Go rejects a struct type with two fields of one name. */
  predicate UniqueNames(fs: seq<Field>) {
    forall i, j :: 0 <= i < j < |fs| ==> fs[i].name != fs[j].name
  }

  /** `a` is `b` with some elements left out, the rest in their order. */
  predicate IsSubsequence<T(==)>(a: seq<T>, b: seq<T>)
    decreases |b|
  {
    if |a| == 0 then true
    else if |b| == 0 then false
    else if a[0] == b[0] then IsSubsequence(a[1..], b[1..])
    else IsSubsequence(a, b[1..])
  }

  // ----------------------------------------------------- filter properties

  /** Every output field is the projection of a kept input field, and every
      kept input field's projection is in the output. */
  lemma {:induction false} FilterFieldsContents(fs: seq<Field>, o: FormatConfig)
    ensures forall g :: g in FilterFields(fs, o) ==> exists f :: f in fs && Kept(f, o) && g == Project(f, o)
    ensures forall f :: f in fs && Kept(f, o) ==> Project(f, o) in FilterFields(fs, o)
    decreases |fs|
  {
    if |fs| > 0 {
      FilterFieldsContents(fs[1..], o);
      var head := if Kept(fs[0], o) then [Project(fs[0], o)] else [];
      assert FilterFields(fs, o) == head + FilterFields(fs[1..], o);
      forall f | f in fs
        ensures f == fs[0] || f in fs[1..]
      {
        var i :| 0 <= i < |fs| && fs[i] == f;
        if i > 0 {
          assert fs[1..][i - 1] == f;
        }
      }
    }
  }

  /** Surviving fields keep their names and their relative order. */
  lemma {:induction false} FilterFieldsKeepsOrder(fs: seq<Field>, o: FormatConfig)
    ensures IsSubsequence(Names(FilterFields(fs, o)), Names(fs))
    decreases |fs|
  {
    if |fs| > 0 {
      FilterFieldsKeepsOrder(fs[1..], o);
      var rest := FilterFields(fs[1..], o);
      assert Names(fs)[1..] == Names(fs[1..]);
      if Kept(fs[0], o) {
        assert FilterFields(fs, o) == [Project(fs[0], o)] + rest;
        assert Names(FilterFields(fs, o))[1..] == Names(rest);
      } else {
        assert FilterFields(fs, o) == rest;
        SubsequenceOfTail(Names(rest), Names(fs));
      }
    }
  }

  lemma {:induction false} SubsequenceOfTail<T>(a: seq<T>, b: seq<T>)
    requires |b| > 0 && IsSubsequence(a, b[1..])
    ensures IsSubsequence(a, b)
    decreases |b|, |a|
  {
    if |a| > 0 && a[0] == b[0] {
      if |b| > 1 {
        SubsequenceDropHead(a, b[1..]);
      }
    }
  }

  lemma {:induction false} SubsequenceDropHead<T>(a: seq<T>, b: seq<T>)
    requires |a| > 0 && IsSubsequence(a, b)
    ensures IsSubsequence(a[1..], b)
    decreases |b|, |a|
  {
    if |b| > 0 {
      if a[0] == b[0] {
        SubsequenceOfTail(a[1..], b);
      } else {
        SubsequenceDropHead(a, b[1..]);
        SubsequenceOfTail(a[1..], b);
      }
    }
  }

  /** With distinct field names, a field's name appears in the output
      exactly when the field is kept: a tag that does not parse as true
      removes it under any options, and so does DiscardNil on a nil pointer. */
  lemma FieldSurvivesIffKept(fs: seq<Field>, o: FormatConfig, f: Field)
    requires UniqueNames(fs) && f in fs
    ensures f.name in Names(FilterFields(fs, o)) <==> Kept(f, o)
  {
    FilterFieldsContents(fs, o);
    var r := FilterFields(fs, o);
    if f.name in Names(r) {
      var k :| 0 <= k < |r| && Names(r)[k] == f.name;
      assert r[k] in r;
      var f' :| f' in fs && Kept(f', o) && r[k] == Project(f', o);
      var i :| 0 <= i < |fs| && fs[i] == f;
      var i' :| 0 <= i' < |fs| && fs[i'] == f';
      assert fs[i].name == fs[i'].name;
      assert i == i';
    }
    if Kept(f, o) {
      var k :| 0 <= k < |r| && r[k] == Project(f, o);
      assert Names(r)[k] == f.name;
    }
  }

  /** With DiscardNil every nil pointer field is dropped, even one tagged
      `log:"true"`. */
  lemma DiscardNilDropsNilPointers(fs: seq<Field>, f: Field)
    requires UniqueNames(fs) && f in fs && IsNilPointer(f.value)
    ensures f.name !in Names(FilterFields(fs, FormatConfig(true)))
  {
    FieldSurvivesIffKept(fs, FormatConfig(true), f);
  }

  /** Without DiscardNil a nil pointer field whose tag lets it through is
      kept, verbatim, with its nil value. */
  lemma NilPointersKeptWithoutDiscard(fs: seq<Field>, f: Field)
    requires f in fs && IsNilPointer(f.value) && !TaggedOut(f)
    ensures f in FilterFields(fs, FormatConfig(false))
  {
    FilterFieldsContents(fs, FormatConfig(false));
  }

  /** A kept struct-valued field is replaced by its own filtered value,
      under the same options; a kept pointer to a struct is copied without
      being looked into. */
  lemma NestedStructsFiltered(fs: seq<Field>, o: FormatConfig, f: Field)
    requires f in fs && Kept(f, o)
    ensures f.value.Struct? ==> Field(f.name, "", Struct(FilterFields(f.value.fields, o))) in FilterFields(fs, o)
    ensures f.value.Ptr? ==> f in FilterFields(fs, o)
  {
    FilterFieldsContents(fs, o);
    if f.value.Struct? {
      assert Project(f, o) == Field(f.name, "", Struct(FilterFields(f.value.fields, o)));
    }
  }

  // ------------------------------------------- both passes agree on the shape

  /** The type a value of a derived struct has, read off the value itself. */
  function TypeOfFields(fs: seq<Field>): seq<StructField> {
    if |fs| == 0 then []
    else
      var f := fs[0];
      var t := if f.value.Struct? then Derived(TypeOfFields(f.value.fields)) else Declared;
      [StructField(f.name, f.logTag, t)] + TypeOfFields(fs[1..])
  }

  /** `structStructure` lists exactly the fields `formatStruct` sets: same
      names, tags and order, and a derived type exactly where the value is
      a filtered struct -- so every `Set` in the value pass has a field to
      land on and a value of its type. */
  lemma {:induction false} ShapeMatchesValue(v: Value, o: FormatConfig)
    requires StructLike(v)
    ensures StructStructure(v, o) == TypeOfFields(FormatStruct(v, o).fields)
    decreases v, 1
  {
    FieldShapesMatch(Body(v), o);
  }

  lemma {:induction false} FieldShapesMatch(fs: seq<Field>, o: FormatConfig)
    ensures FieldShapes(fs, o) == TypeOfFields(FilterFields(fs, o))
    decreases fs, 0
  {
    if |fs| > 0 {
      var f := fs[0];
      FieldShapesMatch(fs[1..], o);
      if Kept(f, o) {
        var p := Project(f, o);
        var rest := FilterFields(fs[1..], o);
        assert FilterFields(fs, o) == [p] + rest;
        assert ([p] + rest)[0] == p && ([p] + rest)[1..] == rest;
        var t := if p.value.Struct? then Derived(TypeOfFields(p.value.fields)) else Declared;
        assert TypeOfFields([p] + rest) == [StructField(p.name, p.logTag, t)] + TypeOfFields(rest);
        if f.value.Struct? {
          ShapeMatchesValue(f.value, o);
          assert t == Derived(StructStructure(f.value, o));
        }
      } else {
        assert FilterFields(fs, o) == FilterFields(fs[1..], o);
        assert FieldShapes(fs, o) == FieldShapes(fs[1..], o);
      }
    }
  }

  // --------------------------------------------------------- idempotence

  /** Filtering a filtered value changes nothing: every survivor passes the
      policy again, and nested structs are already filtered. */
  lemma {:induction false} FormatStructIdempotent(v: Value, o: FormatConfig)
    ensures FormatStruct(FormatStruct(v, o), o) == FormatStruct(v, o)
    decreases v, 1
  {
    if StructLike(v) {
      FilterFieldsIdempotent(Body(v), o);
    }
  }

  lemma {:induction false} FilterFieldsIdempotent(fs: seq<Field>, o: FormatConfig)
    ensures FilterFields(FilterFields(fs, o), o) == FilterFields(fs, o)
    decreases fs, 0
  {
    if |fs| > 0 {
      var f := fs[0];
      var rest := FilterFields(fs[1..], o);
      FilterFieldsIdempotent(fs[1..], o);
      if Kept(f, o) {
        var p := Project(f, o);
        assert FilterFields(fs, o) == [p] + rest;
        if f.value.Struct? {
          FormatStructIdempotent(f.value, o);
          assert !TaggedOut(p) by {
            assert p.logTag == "";
          }
        }
        assert Kept(p, o);
        assert Project(p, o) == p;
        assert ([p] + rest)[0] == p && ([p] + rest)[1..] == rest;
        assert FilterFields([p] + rest, o) == [p] + FilterFields(rest, o);
      } else {
        assert FilterFields(fs, o) == rest;
      }
    }
  }

  /** Filtering is compositional: pre-filtering one nested struct field of a
      struct does not change the result of filtering the struct. */
  lemma FilterCompositional(fs: seq<Field>, o: FormatConfig, i: nat)
    requires i < |fs| && fs[i].value.Struct?
    ensures var inner := FormatStruct(fs[i].value, o);
      FormatStruct(Struct(fs[i := fs[i].(value := inner)]), o) == FormatStruct(Struct(fs), o)
  {
    var inner := FormatStruct(fs[i].value, o);
    FormatStructIdempotent(fs[i].value, o);
    FilterFieldsReplace(fs, o, i, fs[i].(value := inner));
  }

  /** Swapping one field for another that gets the same keep decision and
      the same projection leaves the filtered list as it was. */
  lemma {:induction false} FilterFieldsReplace(fs: seq<Field>, o: FormatConfig, i: nat, g: Field)
    requires i < |fs| && Kept(g, o) == Kept(fs[i], o) && Project(g, o) == Project(fs[i], o)
    ensures FilterFields(fs[i := g], o) == FilterFields(fs, o)
    decreases |fs|
  {
    var fs' := fs[i := g];
    if i == 0 {
      assert fs'[1..] == fs[1..];
    } else {
      assert fs'[1..] == fs[1..][i - 1 := g];
      FilterFieldsReplace(fs[1..], o, i - 1, g);
    }
  }

  // ---------------------------------------------------------------- examples

  /** A reduced form of the discard-nil case in the package's tests: `A` tagged
      `log:"false"`, `B` tagged `log:"true"` holding a non-nil, non-struct
      value, `C` a nil pointer without a tag; with DiscardNil only `B` is
      left. */
  lemma DiscardNilExample(a: Value, b: Value)
    requires !b.Struct? && !IsNilPointer(b)
    ensures var fs := [Field("A", "false", a), Field("B", "true", b), Field("C", "", Ptr(None))];
      FilterFields(fs, FormatConfig(true)) == [Field("B", "true", b)]
  {
    var o := FormatConfig(true);
    var fa, fb, fc := Field("A", "false", a), Field("B", "true", b), Field("C", "", Ptr(None));
    assert !Kept(fa, o) by {
      assert !Strconv.SpellsTrue("false") by { assert "false"[1] == 'a'; }
    }
    assert Kept(fb, o) by {
      assert Strconv.SpellsTrue("true");
    }
    assert !Kept(fc, o);
    var fs := [fa, fb, fc];
    assert fs[1..] == [fb, fc] && fs[1..][1..] == [fc] && fs[1..][1..][1..] == [];
    assert FilterFields([fc], o) == [];
    assert FilterFields([fb, fc], o) == [Project(fb, o)];
  }
}
