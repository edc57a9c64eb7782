/** DeltaConfigComponent: one section of the configuration, holding
    registered fields (with their accepted types, an optional validator and
    an optional command-line flag), the values loaded so far, and named
    subcomponents that own nested sections. */
module ConfigComponent {
  import opened Wrappers
  import opened Values

  /** os.path.expanduser, os.path.join and os.path.normpath, whose
      implementations are outside this model. */
  datatype PathOps = PathOps(
    expandUser: string -> string,
    join: (string, string) -> string,
    normPath: string -> string)

  /** A base directory is used only when it is truthy: None and "" are
      ignored. */
  predicate HasBase(baseDir: Option<string>) {
    baseDir.Some? && baseDir.value != ""
  }

  /** validate_path: "default" is returned verbatim; any other path has
      "~" expanded and, when a base directory is given, is joined to it and
      normalised. A non-string raises inside os.path. */
  function ValidatePath(v: Value, baseDir: Option<string>, ops: PathOps): (r: Option<Value>)
    ensures r.Some? <==> v.StrV?
    ensures v == StrV("default") ==> r == Some(v)
    ensures v.StrV? && v.s != "default" && !HasBase(baseDir) ==>
              r == Some(StrV(ops.expandUser(v.s)))
    ensures v.StrV? && v.s != "default" && HasBase(baseDir) ==>
              r == Some(StrV(ops.normPath(ops.join(baseDir.value, ops.expandUser(v.s)))))
  {
    match v
    case StrV(path) =>
      if path == "default" then Some(v)
      else
        var expanded := ops.expandUser(path);
        if HasBase(baseDir) then Some(StrV(ops.normPath(ops.join(baseDir.value, expanded))))
        else Some(StrV(expanded))
    case _ => None
  }

  /** A path that is not "default" and has no base directory is only
      expanded, whatever falsy form the base directory takes. */
  lemma ValidatePathIgnoresFalsyBase(v: Value, ops: PathOps)
    ensures ValidatePath(v, None, ops) == ValidatePath(v, Some(""), ops)
    ensures v.StrV? && v.s != "default" ==> ValidatePath(v, None, ops) == Some(StrV(ops.expandUser(v.s)))
  {
  }

  /** validate_positive: the number is returned unchanged when it is
      greater than zero; zero, negatives and non-numbers raise (None). */
  function ValidatePositive(v: Value): (r: Option<Value>)
    ensures r.Some? ==> r.value == v
    ensures v.IntV? ==> (r.Some? <==> v.i > 0)
    ensures v.FloatV? ==> (r.Some? <==> v.r > 0.0)
    ensures v.BoolV? ==> (r.Some? <==> v.b)
    ensures !(v.IntV? || v.FloatV? || v.BoolV?) ==> r.None?
  {
    match v
    case IntV(i) => if i <= 0 then None else Some(v)
    case FloatV(x) => if x <= 0.0 then None else Some(v)
    case BoolV(b) => if !b then None else Some(v)
    case _ => None
  }

  datatype Validator = NoValidator | PositiveValidator | PathValidator

  /** Runs a field's validator; None when the validator raises. */
  function Validate(validator: Validator, v: Value, baseDir: Option<string>, ops: PathOps): (r: Option<Value>)
    ensures validator.NoValidator? ==> r == Some(v)
    ensures r.Some? ==> KindOf(r.value) == KindOf(v)
  {
    match validator
    case NoValidator => Some(v)
    case PositiveValidator => ValidatePositive(v)
    case PathValidator => ValidatePath(v, baseDir, ops)
  }

  /** What register_field records for a name. The description and the
      accessor name serve only help text and generated accessors. */
  datatype FieldDecl = FieldDecl(types: set<Kind>, validator: Validator, cmdArg: Option<string>)

  /** One call of register_field. The list keeps every call in order, as
      the source's field list does; a name registered twice is listed twice
      and its latest declaration is the one in force. */
  datatype Field = Field(name: string, decl: FieldDecl)

  datatype Sub = Sub(name: string, comp: Component)

  datatype Component = Component(
    values: map<string, Value>,
    fields: seq<Field>,
    subs: seq<Sub>,
    header: Option<string>)

  datatype ConfigError =
    | UnexpectedField(name: string)
    | WrongType(name: string, value: Value)
    | InvalidValue(name: string, value: Value)
    | NotADict(value: Value)
    | DuplicateComponent(name: string)

  function NewComponent(header: Option<string>): (c: Component)
    ensures c.values == map[] && c.fields == [] && c.subs == [] && c.header == header
  {
    Component(map[], [], [], header)
  }

  function FieldNames(fields: seq<Field>): (ns: seq<string>)
    ensures |ns| == |fields|
    ensures forall i :: 0 <= i < |fields| ==> ns[i] == fields[i].name
  {
    if fields == [] then [] else FieldNames(fields[..|fields| - 1]) + [fields[|fields| - 1].name]
  }

  function SubNames(subs: seq<Sub>): (ns: seq<string>)
    ensures |ns| == |subs|
    ensures forall i :: 0 <= i < |subs| ==> ns[i] == subs[i].name
  {
    if subs == [] then [] else [subs[0].name] + SubNames(subs[1..])
  }

  /** The declaration in force for a name: that of its latest registration. */
  function DeclFor(fields: seq<Field>, name: string): (r: Option<FieldDecl>)
    ensures r.Some? <==> name in FieldNames(fields)
    decreases |fields|
  {
    if fields == [] then None
    else if fields[|fields| - 1].name == name then Some(fields[|fields| - 1].decl)
    else
      DeclFor(fields[..|fields| - 1], name)
  }

  /** The position of the subcomponent registered under a name. */
  function FindSub(subs: seq<Sub>, name: string): (r: Option<nat>)
    ensures r.Some? <==> name in SubNames(subs)
    ensures r.Some? ==> r.value < |subs| && subs[r.value].name == name
  {
    if subs == [] then None
    else if subs[0].name == name then Some(0)
    else
      assert SubNames(subs) == [subs[0].name] + SubNames(subs[1..]);
      match FindSub(subs[1..], name)
      case None => None
      case Some(i) => assert subs[1..][i] == subs[i + 1]; Some(i + 1)
  }

  // ---------------------------------------------------------------------
  // Registration

  /** register_component: asserts the name is new, then records the
      subcomponent after the existing ones. */
  function RegisterComponent(c: Component, comp: Component, name: string): (r: Result<Component, ConfigError>)
    ensures r.Ok? <==> name !in SubNames(c.subs)
    ensures r.Err? ==> r.error == DuplicateComponent(name)
    ensures r.Ok? ==>
              && r.value.values == c.values && r.value.fields == c.fields && r.value.header == c.header
              && SubNames(r.value.subs) == SubNames(c.subs) + [name]
              && FindSub(r.value.subs, name) == Some(|c.subs|)
              && r.value.subs[|c.subs|].comp == comp
              && r.value.subs[..|c.subs|] == c.subs
  {
    if name in SubNames(c.subs) then Err(DuplicateComponent(name))
    else
      var subs := c.subs + [Sub(name, comp)];
      assert SubNames(subs) == SubNames(c.subs) + [name];
      FindSubAppend(c.subs, name, comp);
      Ok(c.(subs := subs))
  }

  lemma {:induction false} FindSubAppend(subs: seq<Sub>, name: string, comp: Component)
    requires name !in SubNames(subs)
    ensures FindSub(subs + [Sub(name, comp)], name) == Some(|subs|)
    decreases |subs|
  {
    if subs != [] {
      var all := subs + [Sub(name, comp)];
      assert all[0] == subs[0] && SubNames(subs)[0] == subs[0].name;
      assert all[1..] == subs[1..] + [Sub(name, comp)];
      assert SubNames(subs) == [subs[0].name] + SubNames(subs[1..]);
      FindSubAppend(subs[1..], name, comp);
    }
  }

  /** register_field: the name is appended to the field list and its new
      declaration replaces any earlier one; nothing else changes. */
  function RegisterField(c: Component, name: string, decl: FieldDecl): (r: Component)
    ensures FieldNames(r.fields) == FieldNames(c.fields) + [name]
    ensures DeclFor(r.fields, name) == Some(decl)
    ensures forall n :: n != name ==> DeclFor(r.fields, n) == DeclFor(c.fields, n)
    ensures r.values == c.values && r.subs == c.subs && r.header == c.header
  {
    var fields := c.fields + [Field(name, decl)];
    assert fields[..|fields| - 1] == c.fields;
    assert FieldNames(fields) == FieldNames(c.fields) + [name];
    c.(fields := fields)
  }

  // ---------------------------------------------------------------------
  // Setting and loading values

  /** _set_field: an unregistered name raises ValueError; a value that is
      not None and not of the registered types raises TypeError; a value
      that is not None goes through the validator, whose failure is
      re-raised; otherwise the (validated) value is stored. None skips both
      checks and is stored as None. */
  function SetField(c: Component, name: string, value: Value, baseDir: Option<string>, ops: PathOps)
    : (r: Result<Component, ConfigError>)
    ensures name !in FieldNames(c.fields) ==> r == Err(UnexpectedField(name))
    ensures (name in FieldNames(c.fields) && value != NoneV &&
             !IsInstance(value, DeclFor(c.fields, name).value.types)) ==> r == Err(WrongType(name, value))
    ensures name in FieldNames(c.fields) && value == NoneV ==>
              r.Ok? && name in r.value.values && r.value.values[name] == NoneV
    ensures r.Err? ==> r.error.UnexpectedField? || r.error.WrongType? || r.error.InvalidValue?
    ensures r.Ok? ==>
              && name in FieldNames(c.fields)
              && r.value.fields == c.fields && r.value.subs == c.subs && r.value.header == c.header
              && r.value.values.Keys == c.values.Keys + {name}
              && (forall k :: k in c.values && k != name ==> k in r.value.values && r.value.values[k] == c.values[k])
              && name in r.value.values
              && (value != NoneV ==> IsInstance(r.value.values[name], DeclFor(c.fields, name).value.types))
              && (DeclFor(c.fields, name).value.validator.NoValidator? ==> r.value.values[name] == value)
    ensures (name in FieldNames(c.fields) && value != NoneV &&
             IsInstance(value, DeclFor(c.fields, name).value.types) &&
             Validate(DeclFor(c.fields, name).value.validator, value, baseDir, ops).None?) ==>
              r == Err(InvalidValue(name, value))
    ensures r.Ok? && value != NoneV ==>
              Validate(DeclFor(c.fields, name).value.validator, value, baseDir, ops) == Some(r.value.values[name])
  {
    match DeclFor(c.fields, name)
    case None => Err(UnexpectedField(name))
    case Some(decl) =>
      if value != NoneV && !IsInstance(value, decl.types) then Err(WrongType(name, value))
      else if value == NoneV then Ok(c.(values := c.values[name := value]))
      else
        match Validate(decl.validator, value, baseDir, ops)
        case None => Err(InvalidValue(name, value))
        case Some(stored) => Ok(c.(values := c.values[name := stored]))
  }

  /** The outcome of _load_dict: the component as it stands afterwards
      (entries loaded before a failure stay loaded) and the exception that
      stopped loading, if any. */
  datatype Loaded = Loaded(comp: Component, error: Option<ConfigError>)

  /** The registrations of a component tree, without its values. */
  datatype Shape = Shape(fields: seq<Field>, header: Option<string>, subs: seq<SubShape>)
  datatype SubShape = SubShape(name: string, shape: Shape)

  function ShapeOf(c: Component): (s: Shape)
    ensures s.fields == c.fields && s.header == c.header && |s.subs| == |c.subs|
    ensures forall i :: 0 <= i < |c.subs| ==> s.subs[i] == SubShape(c.subs[i].name, ShapeOf(c.subs[i].comp))
    decreases c
  {
    Shape(c.fields, c.header, SubShapes(c.subs))
  }

  function SubShapes(subs: seq<Sub>): (ss: seq<SubShape>)
    ensures |ss| == |subs|
    ensures forall i :: 0 <= i < |subs| ==> ss[i] == SubShape(subs[i].name, ShapeOf(subs[i].comp))
    decreases subs
  {
    if subs == [] then [] else [SubShape(subs[0].name, ShapeOf(subs[0].comp))] + SubShapes(subs[1..])
  }

  /** The component with its i-th subcomponent replaced, as an in-place
      update of that subcomponent leaves it. */
  function ReplaceSub(c: Component, i: nat, comp: Component): (r: Component)
    requires i < |c.subs|
    ensures r.values == c.values && r.fields == c.fields && r.header == c.header
    ensures SubNames(r.subs) == SubNames(c.subs)
    ensures r.subs[i].comp == comp
    ensures forall j :: 0 <= j < |c.subs| && j != i ==> r.subs[j] == c.subs[j]
    ensures ShapeOf(comp) == ShapeOf(c.subs[i].comp) ==> ShapeOf(r) == ShapeOf(c)
  {
    var r := c.(subs := c.subs[i := Sub(c.subs[i].name, comp)]);
    assert ShapeOf(comp) == ShapeOf(c.subs[i].comp) ==> SubShapes(r.subs) == SubShapes(c.subs);
    r
  }

  /** _load_dict: the argument must be a dictionary. Its entries are taken
      in order; a key naming a subcomponent loads that subcomponent from the
      entry's value, and any other key goes to _set_field. The first
      exception stops loading. */
  function LoadDict(c: Component, d: Value, baseDir: Option<string>, ops: PathOps): (r: Loaded)
    ensures ShapeOf(r.comp) == ShapeOf(c)
    ensures !d.DictV? ==> r == Loaded(c, Some(NotADict(d)))
    decreases d, 1
  {
    if d.DictV? then LoadItems(c, d.items, baseDir, ops)
    else Loaded(c, Some(NotADict(d)))
  }

  function LoadItems(c: Component, items: seq<Item>, baseDir: Option<string>, ops: PathOps): (r: Loaded)
    ensures ShapeOf(r.comp) == ShapeOf(c)
    decreases items, 0
  {
    if items == [] then Loaded(c, None)
    else
      var key, v := items[0].key, items[0].val;
      match FindSub(c.subs, key)
      case Some(i) =>
        var inner := LoadDict(c.subs[i].comp, v, baseDir, ops);
        var next := ReplaceSub(c, i, inner.comp);
        if inner.error.Some? then Loaded(next, inner.error)
        else LoadItems(next, items[1..], baseDir, ops)
      case None =>
        match SetField(c, key, v, baseDir, ops)
        case Err(e) => Loaded(c, Some(e))
        case Ok(next) =>
          assert SubShapes(next.subs) == SubShapes(c.subs);
          LoadItems(next, items[1..], baseDir, ops)
  }

  /** Every stored value belongs to a registered field and is None or of
      that field's declared types, throughout the component tree. */
  ghost predicate Sound(c: Component)
    decreases c
  {
    && (forall k :: k in c.values ==>
          k in FieldNames(c.fields) &&
          (c.values[k] == NoneV || IsInstance(c.values[k], DeclFor(c.fields, k).value.types)))
    && (forall i :: 0 <= i < |c.subs| ==> Sound(c.subs[i].comp))
  }

  lemma ReplaceSubSound(c: Component, i: nat, comp: Component)
    requires i < |c.subs| && Sound(c) && Sound(comp)
    ensures Sound(ReplaceSub(c, i, comp))
  {
    var r := ReplaceSub(c, i, comp);
    forall j | 0 <= j < |r.subs| ensures Sound(r.subs[j].comp) {
      if j != i {
        assert r.subs[j] == c.subs[j];
      }
    }
  }

  /** Loading keeps a sound component sound, even when it stops on an
      exception part-way. */
  lemma {:induction false} LoadDictSound(c: Component, d: Value, baseDir: Option<string>, ops: PathOps)
    requires Sound(c)
    ensures Sound(LoadDict(c, d, baseDir, ops).comp)
    decreases d, 1
  {
    if d.DictV? {
      LoadItemsSound(c, d.items, baseDir, ops);
    }
  }

  lemma {:induction false} LoadItemsSound(c: Component, items: seq<Item>, baseDir: Option<string>, ops: PathOps)
    requires Sound(c)
    ensures Sound(LoadItems(c, items, baseDir, ops).comp)
    decreases items, 0
  {
    if items != [] {
      var key, v := items[0].key, items[0].val;
      match FindSub(c.subs, key)
      case Some(i) =>
        var inner := LoadDict(c.subs[i].comp, v, baseDir, ops);
        LoadDictSound(c.subs[i].comp, v, baseDir, ops);
        var next := ReplaceSub(c, i, inner.comp);
        ReplaceSubSound(c, i, inner.comp);
        if inner.error.None? {
          LoadItemsSound(next, items[1..], baseDir, ops);
        }
      case None =>
        match SetField(c, key, v, baseDir, ops)
        case Err(_) =>
        case Ok(next) =>
          assert Sound(next) by {
            forall k | k in next.values
              ensures k in FieldNames(next.fields) &&
                (next.values[k] == NoneV || IsInstance(next.values[k], DeclFor(next.fields, k).value.types))
            {
              if k != key {
                assert next.values[k] == c.values[k];
              }
            }
            assert forall j :: 0 <= j < |next.subs| ==> next.subs[j] == c.subs[j];
          }
          LoadItemsSound(next, items[1..], baseDir, ops);
    }
  }

  /** A successful load changes only the values of the keys it names: the
      other stored values of this component stay as they were. */
  lemma {:induction false} LoadItemsFrame(c: Component, items: seq<Item>, baseDir: Option<string>, ops: PathOps, k: string)
    requires k in c.values && k !in Keys(items)
    ensures k in LoadItems(c, items, baseDir, ops).comp.values
    ensures LoadItems(c, items, baseDir, ops).comp.values[k] == c.values[k]
    decreases items
  {
    if items != [] {
      var key, v := items[0].key, items[0].val;
      assert key == Keys(items)[0];
      assert Keys(items[1..]) == Keys(items)[1..];
      match FindSub(c.subs, key)
      case Some(i) =>
        var inner := LoadDict(c.subs[i].comp, v, baseDir, ops);
        var next := ReplaceSub(c, i, inner.comp);
        if inner.error.None? {
          LoadItemsFrame(next, items[1..], baseDir, ops, k);
        }
      case None =>
        match SetField(c, key, v, baseDir, ops)
        case Err(_) =>
        case Ok(next) =>
          LoadItemsFrame(next, items[1..], baseDir, ops, k);
    }
  }

  /** An entry whose key names a subcomponent loads that subcomponent from
      the entry's value and leaves this component's own values and every
      other subcomponent alone. */
  lemma LoadDelegatesToSub(c: Component, key: string, v: Value, baseDir: Option<string>, ops: PathOps, i: nat)
    requires i < |c.subs| && FindSub(c.subs, key) == Some(i)
    ensures LoadItems(c, [Item(key, v)], baseDir, ops) ==
            Loaded(ReplaceSub(c, i, LoadDict(c.subs[i].comp, v, baseDir, ops).comp),
                   LoadDict(c.subs[i].comp, v, baseDir, ops).error)
  {
    assert [Item(key, v)][1..] == [];
  }

  /** An entry whose key names no subcomponent is handed to _set_field. */
  lemma LoadSetsField(c: Component, key: string, v: Value, baseDir: Option<string>, ops: PathOps)
    requires key !in SubNames(c.subs)
    ensures var r := LoadItems(c, [Item(key, v)], baseDir, ops);
            match SetField(c, key, v, baseDir, ops)
            case Ok(next) => r == Loaded(next, None)
            case Err(e) => r == Loaded(c, Some(e))
  {
    assert [Item(key, v)][1..] == [];
  }

  /** Loading is a left fold over the entries: loading `a + b` loads `a`,
      then, unless that raised, loads `b` into the result. */
  lemma {:induction false} LoadItemsAppend(c: Component, a: seq<Item>, b: seq<Item>,
                                           baseDir: Option<string>, ops: PathOps)
    ensures LoadItems(c, a + b, baseDir, ops) ==
            var r := LoadItems(c, a, baseDir, ops);
            if r.error.Some? then r else LoadItems(r.comp, b, baseDir, ops)
    decreases a
  {
    if a == [] {
      assert a + b == b;
    } else {
      assert (a + b)[0] == a[0];
      assert (a + b)[1..] == a[1..] + b;
      var key, v := a[0].key, a[0].val;
      match FindSub(c.subs, key)
      case Some(i) =>
        var inner := LoadDict(c.subs[i].comp, v, baseDir, ops);
        var next := ReplaceSub(c, i, inner.comp);
        if inner.error.None? {
          LoadItemsAppend(next, a[1..], b, baseDir, ops);
        }
      case None =>
        match SetField(c, key, v, baseDir, ops)
        case Err(_) =>
        case Ok(next) =>
          LoadItemsAppend(next, a[1..], b, baseDir, ops);
    }
  }

  /** Components of the same shape have the same fields and subcomponent
      names. */
  lemma SameShapeNames(a: Component, b: Component)
    requires ShapeOf(a) == ShapeOf(b)
    ensures a.fields == b.fields && SubNames(a.subs) == SubNames(b.subs)
  {
    forall i | 0 <= i < |a.subs| ensures SubNames(a.subs)[i] == SubNames(b.subs)[i] {
      assert ShapeOf(a).subs[i] == ShapeOf(b).subs[i];
    }
  }

  /** What _set_field leaves in `values` for a field of `fields` set to
      `v`: None as given, and any other value as the field's validator
      returned it. */
  ghost predicate StoredAs(fields: seq<Field>, key: string, v: Value, baseDir: Option<string>, ops: PathOps,
                           values: map<string, Value>) {
    && key in FieldNames(fields) && key in values
    && (v == NoneV ==> values[key] == NoneV)
    && (v != NoneV ==> Validate(DeclFor(fields, key).value.validator, v, baseDir, ops) == Some(values[key]))
  }

  /** A load that raised nothing stores its first entry, when that names no
      subcomponent and no later entry has its key, as _set_field does. */
  lemma LoadItemsStoresFirst(c: Component, items: seq<Item>, baseDir: Option<string>, ops: PathOps)
    requires |items| > 0 && items[0].key !in SubNames(c.subs)
    requires forall l :: 0 < l < |items| ==> items[l].key != items[0].key
    requires LoadItems(c, items, baseDir, ops).error.None?
    ensures StoredAs(c.fields, items[0].key, items[0].val, baseDir, ops, LoadItems(c, items, baseDir, ops).comp.values)
  {
    var key, v, rest := items[0].key, items[0].val, items[1..];
    LoadItemsHead(c, items, baseDir, ops);
    assert items[..1] == [Item(key, v)];
    LoadSetsField(c, key, v, baseDir, ops);
    var next := SetField(c, key, v, baseDir, ops).value;
    assert key !in Keys(rest) by {
      assert forall l :: 0 <= l < |rest| ==> rest[l] == items[l + 1];
    }
    LoadItemsFrame(next, rest, baseDir, ops, key);
  }

  /** After a load that raised nothing, a key naming no subcomponent holds
      what _set_field stored for its last entry: None as given, and any
      other value as its field's validator returned it. */
  lemma {:induction false} LoadItemsStores(c: Component, items: seq<Item>, baseDir: Option<string>, ops: PathOps, j: nat)
    requires j < |items| && items[j].key !in SubNames(c.subs)
    requires forall l :: j < l < |items| ==> items[l].key != items[j].key
    requires LoadItems(c, items, baseDir, ops).error.None?
    ensures StoredAs(c.fields, items[j].key, items[j].val, baseDir, ops, LoadItems(c, items, baseDir, ops).comp.values)
    decreases j, 1
  {
    if j == 0 {
      LoadItemsStoresFirst(c, items, baseDir, ops);
    } else {
      LoadItemsStoresLater(c, items, baseDir, ops, j);
    }
  }

  /** The case of an entry after the first: the first entry leaves the
      registrations alone, and loading goes on with the rest. */
  lemma {:induction false} LoadItemsStoresLater(c: Component, items: seq<Item>, baseDir: Option<string>, ops: PathOps, j: nat)
    requires 0 < j < |items| && items[j].key !in SubNames(c.subs)
    requires forall l :: j < l < |items| ==> items[l].key != items[j].key
    requires LoadItems(c, items, baseDir, ops).error.None?
    ensures StoredAs(c.fields, items[j].key, items[j].val, baseDir, ops, LoadItems(c, items, baseDir, ops).comp.values)
    decreases j, 0
  {
    var rest := items[1..];
    var head := LoadItems(c, items[..1], baseDir, ops);
    LoadItemsHead(c, items, baseDir, ops);
    assert rest[j - 1] == items[j];
    forall l | j - 1 < l < |rest| ensures rest[l].key != rest[j - 1].key {
      assert rest[l] == items[l + 1];
    }
    LoadItemsStores(head.comp, rest, baseDir, ops, j - 1);
  }

  /** _load_dict of a dictionary that raised nothing: a key naming no
      subcomponent holds what _set_field stored for its last entry. */
  lemma LoadDictStores(c: Component, d: Value, baseDir: Option<string>, ops: PathOps, j: nat)
    requires d.DictV? && j < |d.items| && d.items[j].key !in SubNames(c.subs)
    requires forall l :: j < l < |d.items| ==> d.items[l].key != d.items[j].key
    requires LoadDict(c, d, baseDir, ops).error.None?
    ensures StoredAs(c.fields, d.items[j].key, d.items[j].val, baseDir, ops, LoadDict(c, d, baseDir, ops).comp.values)
  {
    LoadItemsStores(c, d.items, baseDir, ops, j);
  }

  /** A load that raised nothing loaded its first entry without raising,
      into a component of the same registrations, and went on from there. */
  lemma LoadItemsHead(c: Component, items: seq<Item>, baseDir: Option<string>, ops: PathOps)
    requires |items| > 0 && LoadItems(c, items, baseDir, ops).error.None?
    ensures var head := LoadItems(c, items[..1], baseDir, ops);
            && head.error.None?
            && head.comp.fields == c.fields && SubNames(head.comp.subs) == SubNames(c.subs)
            && LoadItems(c, items, baseDir, ops) == LoadItems(head.comp, items[1..], baseDir, ops)
  {
    assert items[..1] + items[1..] == items;
    LoadItemsAppend(c, items[..1], items[1..], baseDir, ops);
    SameShapeNames(LoadItems(c, items[..1], baseDir, ops).comp, c);
  }

  // ---------------------------------------------------------------------
  // Reset

  /** No component in the tree holds a value. */
  ghost predicate Cleared(c: Component)
    decreases c
  {
    c.values == map[] && forall i :: 0 <= i < |c.subs| ==> Cleared(c.subs[i].comp)
  }

  /** reset: empties this component's values and, recursively, those of
      every subcomponent; the registrations stay. */
  function Reset(c: Component): (r: Component)
    ensures ShapeOf(r) == ShapeOf(c)
    ensures Cleared(r)
    decreases c, 1
  {
    var subs := ResetSubs(c.subs);
    assert SubShapes(subs) == SubShapes(c.subs);
    Component(map[], c.fields, subs, c.header)
  }

  function ResetSubs(subs: seq<Sub>): (rs: seq<Sub>)
    ensures |rs| == |subs|
    ensures forall i :: 0 <= i < |subs| ==> rs[i] == Sub(subs[i].name, Reset(subs[i].comp))
    decreases subs, 0
  {
    if subs == [] then [] else [Sub(subs[0].name, Reset(subs[0].comp))] + ResetSubs(subs[1..])
  }

  /** What reset produces depends only on the registrations, never on the
      values loaded so far. */
  lemma {:induction false} ResetDependsOnlyOnShape(a: Component, b: Component)
    requires ShapeOf(a) == ShapeOf(b)
    ensures Reset(a) == Reset(b)
    decreases a
  {
    var sa, sb := ShapeOf(a), ShapeOf(b);
    assert SubNames(a.subs) == SubNames(b.subs) by {
      forall i | 0 <= i < |a.subs| ensures a.subs[i].name == b.subs[i].name {
        assert sa.subs[i] == sb.subs[i];
      }
    }
    forall i | 0 <= i < |a.subs|
      ensures Reset(a.subs[i].comp) == Reset(b.subs[i].comp)
    {
      assert sa.subs[i] == sb.subs[i];
      ResetDependsOnlyOnShape(a.subs[i].comp, b.subs[i].comp);
    }
    assert ResetSubs(a.subs) == ResetSubs(b.subs) by {
      forall i | 0 <= i < |a.subs| ensures ResetSubs(a.subs)[i] == ResetSubs(b.subs)[i] {
        assert SubNames(a.subs)[i] == SubNames(b.subs)[i];
      }
    }
  }

  lemma ResetIdempotent(c: Component)
    ensures Reset(Reset(c)) == Reset(c)
  {
    ResetDependsOnlyOnShape(Reset(c), c);
  }

  /** Resetting after any load, successful or not, gives the same component
      as resetting before it. */
  lemma ResetUndoesLoad(c: Component, d: Value, baseDir: Option<string>, ops: PathOps)
    ensures Reset(LoadDict(c, d, baseDir, ops).comp) == Reset(c)
  {
    ResetDependsOnlyOnShape(LoadDict(c, d, baseDir, ops).comp, c);
  }

  // ---------------------------------------------------------------------
  // Command-line arguments

  /** The argparse destination for a flag: every '-' becomes '_'. */
  function DestName(flag: string): (d: string)
    ensures |d| == |flag| && '-' !in d
    ensures forall i :: 0 <= i < |flag| && flag[i] != '-' ==> d[i] == flag[i]
    ensures forall i :: 0 <= i < |flag| && flag[i] == '-' ==> d[i] == '_'
  {
    if flag == [] then []
    else [if flag[0] == '-' then '_' else flag[0]] + DestName(flag[1..])
  }

  /** One add_argument call: the argument group (the nearest enclosing
      section header), the flag, its destination and its types. */
  datatype Argument = Argument(group: Option<string>, flag: string, dest: string, types: set<Kind>)

  /** The arguments for the fields listed from position `from` on, each with
      the declaration in force for its name. */
  function FieldArguments(fields: seq<Field>, from: nat, group: Option<string>): (args: seq<Argument>)
    requires from <= |fields|
    ensures forall a :: a in args ==> a.dest == DestName(a.flag) && a.group == group
    decreases |fields| - from
  {
    if from == |fields| then []
    else
      var name := fields[from].name;
      assert FieldNames(fields)[from] == name;
      var decl := DeclFor(fields, name).value;
      var rest := FieldArguments(fields, from + 1, group);
      match decl.cmdArg
      case None => rest
      case Some(flag) => [Argument(group, flag, DestName(flag), decl.types)] + rest
  }

  /** setup_arg_parser: a component with a header opens an argument group;
      each field with a flag adds one argument, then subcomponents add
      theirs (at the top level only those named in `components`, when it
      is given). */
  function SetupArgParser(c: Component, components: Option<set<string>>, group: Option<string>): (args: seq<Argument>)
    ensures forall a :: a in args ==> a.dest == DestName(a.flag)
    ensures c.subs == [] ==> forall a :: a in args ==> a.group == (if c.header.Some? then c.header else group)
    decreases c, 1
  {
    var g := if c.header.Some? then c.header else group;
    FieldArguments(c.fields, 0, g) + SubArguments(c.subs, components, g)
  }

  function SubArguments(subs: seq<Sub>, components: Option<set<string>>, group: Option<string>): (args: seq<Argument>)
    ensures forall a :: a in args ==> a.dest == DestName(a.flag)
    decreases subs, 0
  {
    if subs == [] then []
    else
      var here := if components.None? || subs[0].name in components.value
                  then SetupArgParser(subs[0].comp, None, group) else [];
      here + SubArguments(subs[1..], components, group)
  }

  /** The option value parse_args takes for a field: present when the
      field's flag has a destination in the parsed options whose value is
      not None. */
  function OptionFor(fields: seq<Field>, name: string, options: map<string, Value>): (v: Option<Value>)
    ensures v.Some? ==> v.value != NoneV && name in FieldNames(fields)
    ensures v.Some? ==>
              && DeclFor(fields, name).value.cmdArg.Some?
              && DestName(DeclFor(fields, name).value.cmdArg.value) in options
              && v.value == options[DestName(DeclFor(fields, name).value.cmdArg.value)]
    ensures (&& DeclFor(fields, name).Some? && DeclFor(fields, name).value.cmdArg.Some?
             && DestName(DeclFor(fields, name).value.cmdArg.value) in options
             && options[DestName(DeclFor(fields, name).value.cmdArg.value)] != NoneV) ==> v.Some?
  {
    match DeclFor(fields, name)
    case None => None
    case Some(decl) =>
      match decl.cmdArg
      case None => None
      case Some(flag) =>
        var dest := DestName(flag);
        if dest in options && options[dest] != NoneV then Some(options[dest]) else None
  }

  /** Every entry of `d` is a given option, each key once. */
  ghost predicate ArgsFrom(fields: seq<Field>, options: map<string, Value>, d: seq<Item>) {
    && DistinctKeys(d)
    && forall i :: 0 <= i < |d| ==> OptionFor(fields, d[i].key, options) == Some(d[i].val)
  }

  lemma ExtendArgs(fields: seq<Field>, options: map<string, Value>, acc: seq<Item>, name: string, v: Value)
    requires ArgsFrom(fields, options, acc) && name !in Keys(acc)
    requires OptionFor(fields, name, options) == Some(v)
    ensures ArgsFrom(fields, options, acc + [Item(name, v)])
    ensures Keys(acc + [Item(name, v)]) == Keys(acc) + [name]
  {
    var acc' := acc + [Item(name, v)];
    assert Keys(acc') == Keys(acc) + [name];
    forall i, j | 0 <= i < j < |acc'| ensures acc'[i].key != acc'[j].key {
      if j == |acc| {
        assert acc'[i].key == Keys(acc)[i];
      }
    }
  }

  /** The dictionary parse_args builds, in insertion order, continuing from
      `acc` with the fields listed from position `from` on. A name listed
      twice keeps its first position, as a dictionary update does. */
  function CollectArgs(fields: seq<Field>, from: nat, options: map<string, Value>, acc: seq<Item>): (d: seq<Item>)
    requires from <= |fields|
    ensures |acc| <= |d| <= |acc| + |fields| - from
    ensures d[..|acc|] == acc
    decreases |fields| - from
  {
    if from == |fields| then acc
    else
      var name := fields[from].name;
      match OptionFor(fields, name, options)
      case None => CollectArgs(fields, from + 1, options, acc)
      case Some(v) =>
        if name in Keys(acc) then CollectArgs(fields, from + 1, options, acc)
        else CollectArgs(fields, from + 1, options, acc + [Item(name, v)])
  }

  /** Collecting keeps every entry a given option, each key once, keeps the
      keys collected so far, and adds every field from `from` on whose
      option was given. */
  lemma {:induction false} CollectArgsSpec(fields: seq<Field>, from: nat, options: map<string, Value>, acc: seq<Item>)
    requires from <= |fields|
    requires ArgsFrom(fields, options, acc)
    ensures ArgsFrom(fields, options, CollectArgs(fields, from, options, acc))
    ensures forall j :: from <= j < |fields| && OptionFor(fields, fields[j].name, options).Some? ==>
              fields[j].name in Keys(CollectArgs(fields, from, options, acc))
    ensures forall k :: k in Keys(acc) ==> k in Keys(CollectArgs(fields, from, options, acc))
    decreases |fields| - from
  {
    if from < |fields| {
      var name := fields[from].name;
      var d := CollectArgs(fields, from, options, acc);
      var next := if OptionFor(fields, name, options).Some? && name !in Keys(acc)
                  then acc + [Item(name, OptionFor(fields, name, options).value)] else acc;
      assert d == CollectArgs(fields, from + 1, options, next);
      if next != acc {
        ExtendArgs(fields, options, acc, name, OptionFor(fields, name, options).value);
      }
      assert forall k :: k in Keys(acc) ==> k in Keys(next);
      assert OptionFor(fields, name, options).Some? ==> name in Keys(next);
      CollectArgsSpec(fields, from + 1, options, next);
      forall j | from <= j < |fields| && OptionFor(fields, fields[j].name, options).Some?
        ensures fields[j].name in Keys(d)
      {
        if j == from {
          assert name in Keys(next);
        }
      }
    }
  }

  /** The fields parse_args loads: exactly those whose option was given,
      each with that option's value and each once. */
  function ArgItems(c: Component, options: map<string, Value>): (d: seq<Item>)
    ensures DistinctKeys(d)
    ensures forall k :: k in Keys(d) <==> OptionFor(c.fields, k, options).Some?
    ensures forall i :: 0 <= i < |d| ==> OptionFor(c.fields, d[i].key, options) == Some(d[i].val)
  {
    var d := CollectArgs(c.fields, 0, options, []);
    CollectArgsSpec(c.fields, 0, options, []);
    forall k | OptionFor(c.fields, k, options).Some? ensures k in Keys(d) {
      var j :| 0 <= j < |c.fields| && FieldNames(c.fields)[j] == k;
    }
    forall k | k in Keys(d) ensures OptionFor(c.fields, k, options).Some? {
      var i :| 0 <= i < |d| && Keys(d)[i] == k;
    }
    d
  }

  /** The field arguments include one for every field in the list whose
      declaration in force has a flag. */
  lemma {:induction false} FieldArgumentsCover(fields: seq<Field>, from: nat, group: Option<string>, j: nat)
    requires from <= j < |fields|
    requires DeclFor(fields, fields[j].name).Some? && DeclFor(fields, fields[j].name).value.cmdArg.Some?
    ensures var decl := DeclFor(fields, fields[j].name).value;
            Argument(group, decl.cmdArg.value, DestName(decl.cmdArg.value), decl.types)
              in FieldArguments(fields, from, group)
    decreases j - from
  {
    var name := fields[from].name;
    assert FieldNames(fields)[from] == name;
    var d := DeclFor(fields, name).value;
    var rest := FieldArguments(fields, from + 1, group);
    var dj := DeclFor(fields, fields[j].name).value;
    var arg := Argument(group, dj.cmdArg.value, DestName(dj.cmdArg.value), dj.types);
    if from < j {
      FieldArgumentsCover(fields, from + 1, group, j);
      assert arg in rest;
    } else {
      assert d == dj;
    }
    assert FieldArguments(fields, from, group) ==
           if d.cmdArg.None? then rest else [Argument(group, d.cmdArg.value, DestName(d.cmdArg.value), d.types)] + rest;
  }

  /** parse_args and setup_arg_parser agree on destinations: every value
      parse_args loads into a component was read from the destination of
      an argument that setup_arg_parser adds for it. */
  lemma ParseArgsReadsDeclaredDests(c: Component, options: map<string, Value>, components: Option<set<string>>,
                                    group: Option<string>, i: nat)
    requires i < |ArgItems(c, options)|
    ensures var k := ArgItems(c, options)[i].key;
            && DeclFor(c.fields, k).Some? && DeclFor(c.fields, k).value.cmdArg.Some?
            && var decl := DeclFor(c.fields, k).value;
               var g := if c.header.Some? then c.header else group;
               && Argument(g, decl.cmdArg.value, DestName(decl.cmdArg.value), decl.types)
                    in SetupArgParser(c, components, group)
               && DestName(decl.cmdArg.value) in options
               && ArgItems(c, options)[i].val == options[DestName(decl.cmdArg.value)]
  {
    var d := ArgItems(c, options);
    var k := d[i].key;
    assert k in Keys(d);
    var j :| 0 <= j < |c.fields| && FieldNames(c.fields)[j] == k;
    var g := if c.header.Some? then c.header else group;
    FieldArgumentsCover(c.fields, 0, g, j);
    var decl := DeclFor(c.fields, k).value;
    var a := Argument(g, decl.cmdArg.value, DestName(decl.cmdArg.value), decl.types);
    assert a in SetupArgParser(c, components, group);
  }

  /** parse_args: loads the given options into this component's fields
      (with no base directory), then lets each subcomponent parse the same
      options. The first exception stops parsing. */
  function ParseArgs(c: Component, options: map<string, Value>, ops: PathOps): (r: Loaded)
    ensures ShapeOf(r.comp) == ShapeOf(c)
    decreases ShapeOf(c), 1
  {
    var own := LoadItems(c, ArgItems(c, options), None, ops);
    if own.error.Some? then own else ParseSubs(own.comp, 0, options, ops)
  }

  function ParseSubs(c: Component, from: nat, options: map<string, Value>, ops: PathOps): (r: Loaded)
    requires from <= |c.subs|
    ensures ShapeOf(r.comp) == ShapeOf(c)
    decreases ShapeOf(c), 0, |c.subs| - from
  {
    if from == |c.subs| then Loaded(c, None)
    else
      var sub := c.subs[from];
      assert ShapeOf(c).subs[from] == SubShape(sub.name, ShapeOf(sub.comp));
      var inner := ParseArgs(sub.comp, options, ops);
      var next := ReplaceSub(c, from, inner.comp);
      if inner.error.Some? then Loaded(next, inner.error)
      else ParseSubs(next, from + 1, options, ops)
  }

  lemma {:induction false} CollectArgsWithoutOptions(fields: seq<Field>, from: nat)
    requires from <= |fields|
    ensures CollectArgs(fields, from, map[], []) == []
    decreases |fields| - from
  {
    if from < |fields| {
      CollectArgsWithoutOptions(fields, from + 1);
    }
  }

  /** With no option given on the command line, parse_args changes nothing
      anywhere in the tree and raises nothing. */
  lemma {:induction false} ParseArgsWithoutOptions(c: Component, ops: PathOps)
    ensures ParseArgs(c, map[], ops) == Loaded(c, None)
    decreases ShapeOf(c), 1
  {
    CollectArgsWithoutOptions(c.fields, 0);
    ParseSubsWithoutOptions(c, 0, ops);
  }

  lemma {:induction false} ParseSubsWithoutOptions(c: Component, from: nat, ops: PathOps)
    requires from <= |c.subs|
    ensures ParseSubs(c, from, map[], ops) == Loaded(c, None)
    decreases ShapeOf(c), 0, |c.subs| - from
  {
    if from < |c.subs| {
      var sub := c.subs[from];
      assert ShapeOf(c).subs[from] == SubShape(sub.name, ShapeOf(sub.comp));
      ParseArgsWithoutOptions(sub.comp, ops);
      assert c.subs[from := Sub(sub.name, sub.comp)] == c.subs;
      assert ReplaceSub(c, from, sub.comp) == c;
      ParseSubsStep(c, from, map[], ops);
      ParseSubsWithoutOptions(c, from + 1, ops);
    }
  }

  /** Parsing options keeps a sound component sound. */
  lemma {:induction false} ParseArgsSound(c: Component, options: map<string, Value>, ops: PathOps)
    requires Sound(c)
    ensures Sound(ParseArgs(c, options, ops).comp)
    decreases ShapeOf(c), 1
  {
    var own := LoadItems(c, ArgItems(c, options), None, ops);
    LoadItemsSound(c, ArgItems(c, options), None, ops);
    if own.error.None? {
      ParseSubsSound(own.comp, 0, options, ops);
    }
  }

  lemma {:induction false} ParseSubsSound(c: Component, from: nat, options: map<string, Value>, ops: PathOps)
    requires from <= |c.subs| && Sound(c)
    ensures Sound(ParseSubs(c, from, options, ops).comp)
    decreases ShapeOf(c), 0, |c.subs| - from
  {
    if from < |c.subs| {
      var sub := c.subs[from];
      assert ShapeOf(c).subs[from] == SubShape(sub.name, ShapeOf(sub.comp));
      var inner := ParseArgs(sub.comp, options, ops);
      var next := ReplaceSub(c, from, inner.comp);
      ParseSubsStep(c, from, options, ops);
      ParseArgsSound(sub.comp, options, ops);
      ReplaceSubSound(c, from, inner.comp);
      if inner.error.None? {
        ParseSubsSound(next, from + 1, options, ops);
      }
    }
  }

  /** One step of the loop over subcomponents: parse one, put it back, and
      stop on its exception or go on with the next. */
  lemma ParseSubsStep(c: Component, from: nat, options: map<string, Value>, ops: PathOps)
    requires from < |c.subs|
    ensures var inner := ParseArgs(c.subs[from].comp, options, ops);
            var next := ReplaceSub(c, from, inner.comp);
            && ShapeOf(next) == ShapeOf(c)
            && ParseSubs(c, from, options, ops) ==
               if inner.error.Some? then Loaded(next, inner.error) else ParseSubs(next, from + 1, options, ops)
  {
  }

  /** Parsing the subcomponents leaves this component's own values alone. */
  lemma {:induction false} ParseSubsKeepsValues(c: Component, from: nat, options: map<string, Value>, ops: PathOps)
    requires from <= |c.subs|
    ensures ParseSubs(c, from, options, ops).comp.values == c.values
    decreases |c.subs| - from
  {
    if from < |c.subs| {
      ParseSubsStep(c, from, options, ops);
      var next := ReplaceSub(c, from, ParseArgs(c.subs[from].comp, options, ops).comp);
      ParseSubsKeepsValues(next, from + 1, options, ops);
    }
  }

  /** parse_args overrides the value of every field whose option was given:
      after a parse that raised nothing, such a field (unless a
      subcomponent has its name) holds the option's value as its validator
      returned it. */
  lemma ParseArgsStores(c: Component, options: map<string, Value>, ops: PathOps, k: string)
    requires k !in SubNames(c.subs)
    requires OptionFor(c.fields, k, options).Some?
    requires ParseArgs(c, options, ops).error.None?
    ensures var r := ParseArgs(c, options, ops).comp;
            && k in r.values
            && Validate(DeclFor(c.fields, k).value.validator, OptionFor(c.fields, k, options).value, None, ops)
                 == Some(r.values[k])
  {
    var d := ArgItems(c, options);
    var own := LoadItems(c, d, None, ops);
    assert ParseArgs(c, options, ops) == if own.error.Some? then own else ParseSubs(own.comp, 0, options, ops);
    assert own.error.None?;
    ParseSubsKeepsValues(own.comp, 0, options, ops);
    assert k in Keys(d);
    var j :| 0 <= j < |d| && Keys(d)[j] == k;
    LoadItemsStores(c, d, None, ops, j);
  }
}
