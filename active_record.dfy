/** The STI record base class (ActiveRecord.php): how a class finds its
    discriminator value and whether it is the root of its STI tree, which class a
    fetched row becomes, what a save stamps into the row, what query find()
    builds, and the conversion of a record into another class of the tree. */
module StiRecord {
  import opened Runtime
  import opened StiQuery

  /** The short name of the STI base class itself. A class whose nearest
      differently named ancestor bears it is the root of an STI tree. */
  const BaseMarker: string := "ActiveRecord"

  /** getStiColumn() unless a class overrides it. */
  const DefaultStiColumn: string := "type"

  /** The STI query class; every query find() creates must be it or extend it. */
  const StiQueryClass: ClassName := "bigdropinc\\sti\\ActiveQuery"

  /** The static methods a record class may override, looked up with late static
      binding on the class named. */
  datatype Statics = Statics(
    stiColumn: ClassName -> string,       // getStiColumn()
    stiEnabled: ClassName -> bool,        // isStiEnabled()
    tableName: ClassName -> string,       // tableName()
    activeQuery: ClassName -> ClassName)  // getActiveQuery()

  /** The statics as the base class defines them, given the table naming. */
  function DefaultStatics(tableName: ClassName -> string): Statics {
    Statics(_ => DefaultStiColumn, _ => true, tableName, _ => StiQueryClass)
  }

  /** What the static resolvers consult: the declared classes, the statics and the
      database schema as table name -> column names. */
  datatype Env = Env(classes: Hierarchy, statics: Statics, schema: map<string, set<string>>) {
    ghost predicate Valid() {
      classes.Valid()
    }
  }

  /** The exceptions the base class throws. */
  datatype StiError =
    | QueryNotSti                                    // find()
    | CannotBecome(target: ClassName, caller: ClassName)  // becomes(): STI disabled or no such class
    | NotValidForTarget                              // becomes(): validation failed
    | StiColumnSaveFailed                            // becomes(): the column update changed nothing

  /** The text each exception is thrown with. The operations answer the StiError
      itself; Message is how it reads to whoever catches it. */
  function Message(e: StiError): string {
    match e
    case QueryNotSti => "Your ActiveQuery should extends sti/ActiveQuery"
    case CannotBecome(target, caller) =>
      "Can not became to \"" + target + "\". Please check STI settings for \"" + caller + "\""
    case NotValidForTarget => "Model not satisfied validation rules of model it becomes"
    case StiColumnSaveFailed => "Error during STI column save"
  }

  // ---------------------------------------------------------------------------
  // Discriminator resolution

  /** PHP truthiness of a class-name argument: null, "" and "0" are false. */
  predicate Truthy(s: Option<string>) {
    s.Some? && s.value != "" && s.value != "0"
  }

  /** getStiValue($className = null): the short name of the class given, or of the
      calling class when the argument is falsy. */
  function GetStiValue(caller: ClassName, className: Option<string>): (r: string)
    ensures Truthy(className) ==> IsShortNameOf(r, className.value)
    ensures !Truthy(className) ==> IsShortNameOf(r, caller)
  {
    ShortNameSpec(if Truthy(className) then className.value else caller);
    ShortName(if Truthy(className) then className.value else caller)
  }

  /** The short name of a declared class has no separator and is not empty. */
  lemma DeclaredShortName(h: Hierarchy, c: ClassName)
    requires h.Valid() && h.Exists(c)
    ensures ShortName(c) != [] && Truthy(Some(c))
  {
    assert ValidName(c);
    assert LastSeparator(c) == LastSeparator(c[..|c| - 1]);
  }

  /** isBaseClass: walk up while the parent has the same short name; the class is a
      root when the first differently named parent is the STI base class. A root
      always has a parent and is never named like the STI base class itself;
      IsBaseClassIff says which classes are roots. */
  function IsBaseClass(h: Hierarchy, c: ClassName): (r: bool)
    requires h.Valid() && h.Exists(c)
    ensures r ==> h.Parent(c).Some? && ShortName(c) != BaseMarker
    decreases h.rank[c]
  {
    DeclaredShortName(h, c);
    var parentName := match h.Parent(c) case None => "" case Some(p) => ShortName(p);
    if ShortName(c) == parentName then IsBaseClass(h, h.Parent(c).value)
    else parentName == BaseMarker
  }

  /** The short name of the k-th class up the chain of c. */
  function NameAt(h: Hierarchy, c: ClassName, k: nat): Option<string> {
    match h.NthAncestor(c, k)
    case None => None
    case Some(a) => Some(ShortName(a))
  }

  /** c and its first k ancestors share c's short name, and the next ancestor is the
      STI base class (whose short name c therefore does not have). */
  ghost predicate RootWitness(h: Hierarchy, c: ClassName, k: nat) {
    ShortName(c) != BaseMarker &&
    (forall j: nat :: j <= k ==> NameAt(h, c, j) == Some(ShortName(c))) &&
    NameAt(h, c, k + 1) == Some(BaseMarker)
  }

  /** isBaseClass decides exactly the rule stated over the whole chain: the nearest
      ancestor whose short name differs from the class's own is ActiveRecord. */
  lemma {:induction false} IsBaseClassIff(h: Hierarchy, c: ClassName)
    requires h.Valid() && h.Exists(c)
    ensures IsBaseClass(h, c) <==> exists k: nat :: RootWitness(h, c, k)
    decreases h.rank[c]
  {
    DeclaredShortName(h, c);
    match h.Parent(c)
    case None =>
      forall k: nat ensures !RootWitness(h, c, k) {
        assert NameAt(h, c, k + 1) == None;
      }
    case Some(p) =>
      NameAtParent(h, c, p, 0);
      if ShortName(c) == ShortName(p) {
        IsBaseClassIff(h, p);
        if IsBaseClass(h, p) {
          var k: nat :| RootWitness(h, p, k);
          WitnessUp(h, c, p, k);
        }
        forall k: nat | RootWitness(h, c, k) ensures IsBaseClass(h, p) {
          WitnessDown(h, c, p, k);
        }
      } else {
        if ShortName(p) == BaseMarker {
          assert RootWitness(h, c, 0);
        }
        forall k: nat | RootWitness(h, c, k) ensures ShortName(p) == BaseMarker {
          var one: nat := 1;
          assert one <= k ==> NameAt(h, c, one) == Some(ShortName(c));
          assert k == 0;
        }
      }
  }

  lemma {:induction false} NameAtParent(h: Hierarchy, c: ClassName, p: ClassName, j: nat)
    requires h.Parent(c) == Some(p)
    ensures NameAt(h, c, j + 1) == NameAt(h, p, j)
    ensures NameAt(h, c, 0) == Some(ShortName(c)) && NameAt(h, c, 1) == Some(ShortName(p))
  {
    assert h.NthAncestor(c, j + 1) == h.NthAncestor(p, j);
    assert h.NthAncestor(c, 1) == h.NthAncestor(p, 0);
  }

  /** A witness for a parent with the same short name is one for the child, one
      step longer. */
  lemma {:induction false} WitnessUp(h: Hierarchy, c: ClassName, p: ClassName, k: nat)
    requires h.Parent(c) == Some(p) && ShortName(c) == ShortName(p) && RootWitness(h, p, k)
    ensures RootWitness(h, c, k + 1)
  {
    forall j: nat | j <= k + 1 ensures NameAt(h, c, j) == Some(ShortName(c)) {
      if j == 0 {
        NameAtParent(h, c, p, 0);
      } else {
        NameAtParent(h, c, p, j - 1);
      }
    }
    NameAtParent(h, c, p, k + 1);
  }

  /** And a witness for the child is one for the parent, one step shorter. */
  lemma {:induction false} WitnessDown(h: Hierarchy, c: ClassName, p: ClassName, k: nat)
    requires h.Parent(c) == Some(p) && ShortName(c) == ShortName(p) && RootWitness(h, c, k)
    ensures k >= 1 && RootWitness(h, p, k - 1)
  {
    NameAtParent(h, c, p, 0);
    assert k != 0;
    forall j: nat | j <= k - 1 ensures NameAt(h, p, j) == Some(ShortName(p)) {
      NameAtParent(h, c, p, j);
    }
    NameAtParent(h, c, p, k);
  }

  /** getTableSchema(tableName())->columns has getStiColumn(); a table the schema
      does not know has no columns. */
  predicate IsStiColumnPresentInDatabase(env: Env, c: ClassName) {
    var table := env.statics.tableName(c);
    table in env.schema && env.statics.stiColumn(c) in env.schema[table]
  }

  /** isStiNecessary: the class's rows carry a non-null discriminator. */
  predicate IsStiNecessary(env: Env, c: ClassName)
    requires env.Valid() && env.classes.Exists(c)
  {
    env.statics.stiEnabled(c) && IsStiColumnPresentInDatabase(env, c) && !IsBaseClass(env.classes, c)
  }

  /** The column, value and flag find() passes to its query. */
  datatype QueryConfig = QueryConfig(stiColumn: string, stiValue: Value, isStiConditionEnabled: bool)

  /** getQueryConfiguration: the column, the class's own short name, and the
      condition switched on when STI is necessary; QueryConfigurationSpec says
      what that means. */
  function GetQueryConfiguration(env: Env, c: ClassName): QueryConfig
    requires env.Valid() && env.classes.Exists(c)
  {
    QueryConfig(env.statics.stiColumn(c), Scalar(GetStiValue(c, None)), IsStiNecessary(env, c))
  }

  /** The query reads the class's own column, looks for the class's own short
      name, and has the condition switched on exactly when STI is enabled, the
      column exists, and the class is not the root of its tree: so a root's query
      carries no condition at all. */
  lemma QueryConfigurationSpec(env: Env, c: ClassName)
    requires env.Valid() && env.classes.Exists(c)
    ensures var r := GetQueryConfiguration(env, c);
            r.stiColumn == env.statics.stiColumn(c) &&
            r.stiValue.Scalar? && IsShortNameOf(r.stiValue.text, c) &&
            (r.isStiConditionEnabled <==>
               env.statics.stiEnabled(c) && IsStiColumnPresentInDatabase(env, c) &&
               !(exists k: nat :: RootWitness(env.classes, c, k)))
  {
    IsBaseClassIff(env.classes, c);
    ShortNameSpec(c);
  }

  /** isActiveQueryClassSupportSti: the query's class extends the STI query class
      (is_subclass_of) or is it (instanceof). */
  function IsActiveQueryClassSupportSti(h: Hierarchy, queryClass: ClassName): bool
    requires h.Valid()
  {
    h.IsSubclassOf(queryClass, StiQueryClass) || queryClass == StiQueryClass
  }

  /** A query class supports STI exactly when the STI query class turns up in its
      chain, itself included. */
  lemma QueryClassSupportSpec(h: Hierarchy, queryClass: ClassName)
    requires h.Valid()
    ensures IsActiveQueryClassSupportSti(h, queryClass) <==>
              exists k: nat :: h.NthAncestor(queryClass, k) == Some(StiQueryClass)
  {
    IsSubclassOfIff(h, queryClass, StiQueryClass);
    if queryClass == StiQueryClass {
      assert h.NthAncestor(queryClass, 0) == Some(StiQueryClass);
    }
    forall k: nat | h.NthAncestor(queryClass, k) == Some(StiQueryClass)
      ensures IsActiveQueryClassSupportSti(h, queryClass)
    {
      if k == 0 {
        assert queryClass == StiQueryClass;
      } else {
        AncestorIsSuperclass(h, queryClass, StiQueryClass, k);
      }
    }
  }

  // ---------------------------------------------------------------------------
  // Row to class dispatch

  /** instantiate($row) on the calling class: the class named by the row's
      discriminator inside the caller's namespace when that column is set, non-null
      and names a declared class; the calling class otherwise. */
  function Instantiate(env: Env, caller: ClassName, row: map<string, Value>): (r: ClassName)
    ensures r == caller || env.classes.Exists(r)
  {
    var column := env.statics.stiColumn(caller);
    if column in row && row[column].Scalar? then
      var name := ResolveName(NamespaceOf(caller) + [Separator] + row[column].text);
      if env.classes.Exists(name) then name else caller
    else caller
  }

  /** A set discriminator naming a declared class in the caller's namespace
      selects that class. */
  lemma InstantiateNamed(env: Env, caller: ClassName, row: map<string, Value>, text: string)
    requires env.statics.stiColumn(caller) in row
    requires row[env.statics.stiColumn(caller)] == Scalar(text)
    requires env.classes.Exists(ResolveName(NamespaceOf(caller) + [Separator] + text))
    ensures Instantiate(env, caller, row) == ResolveName(NamespaceOf(caller) + [Separator] + text)
  {
  }

  /** A missing or null discriminator, or one that names no declared class, leaves
      the calling class. */
  lemma InstantiateFallback(env: Env, caller: ClassName, row: map<string, Value>)
    requires var column := env.statics.stiColumn(caller);
             column !in row || row[column] == Null ||
             !env.classes.Exists(ResolveName(NamespaceOf(caller) + [Separator] + row[column].text))
    ensures Instantiate(env, caller, row) == caller
  {
  }

  /** A row carrying the short name of a declared class d dispatches to d when the
      caller lives in d's namespace (the global one included) and reads the same
      column. */
  lemma InstantiateByShortName(env: Env, caller: ClassName, d: ClassName, row: map<string, Value>)
    requires env.Valid() && env.classes.Exists(d)
    requires NamespaceOf(caller) == NamespaceOf(d)
    requires env.statics.stiColumn(caller) in row
    requires row[env.statics.stiColumn(caller)] == Scalar(ShortName(d))
    ensures Instantiate(env, caller, row) == d
  {
    assert ValidName(d);
    QualifiedNameResolves(d);
  }

  // ---------------------------------------------------------------------------
  // Save-time stamping

  /** The attributes after beforeSave: the class's short name in its discriminator
      column when STI is necessary, untouched otherwise (so a root class, for
      which it is never necessary, keeps whatever the column held). */
  function StampForSave(env: Env, c: ClassName, attributes: map<string, Value>): (r: map<string, Value>)
    requires env.Valid() && env.classes.Exists(c)
    ensures var column := env.statics.stiColumn(c);
            IsStiNecessary(env, c) ==>
              r.Keys == attributes.Keys + {column} &&
              r[column].Scalar? && IsShortNameOf(r[column].text, c) &&
              forall k :: k in attributes && k != column ==> r[k] == attributes[k]
    ensures !IsStiNecessary(env, c) ==> r == attributes
    ensures IsBaseClass(env.classes, c) ==> r == attributes
  {
    if IsStiNecessary(env, c) then attributes[env.statics.stiColumn(c) := Scalar(GetStiValue(c, None))]
    else attributes
  }

  /** What a save writes, a load through a class of the same namespace and column
      reads back as the class that was saved. */
  lemma SavedRowLoadsAs(env: Env, finder: ClassName, c: ClassName, attributes: map<string, Value>)
    requires env.Valid() && env.classes.Exists(c) && IsStiNecessary(env, c)
    requires NamespaceOf(finder) == NamespaceOf(c)
    requires env.statics.stiColumn(finder) == env.statics.stiColumn(c)
    ensures Instantiate(env, finder, StampForSave(env, c, attributes)) == c
  {
    InstantiateByShortName(env, finder, c, StampForSave(env, c, attributes));
  }

  // ---------------------------------------------------------------------------
  // Records

  /** A snapshot of a record: its class, its attributes, and the values last read
      from or written to the database (None for a new record). */
  datatype RecordState = RecordState(cls: ClassName, attributes: map<string, Value>, oldAttributes: Option<map<string, Value>>)

  /** getOldAttributes(): the snapshot, or no attributes for a new record. */
  function OldOrEmpty(stored: Option<map<string, Value>>): map<string, Value> {
    match stored case None => map[] case Some(m) => m
  }

  /** A column-only update: set column to value in table, on the row the old
      attributes identify. */
  datatype ColumnWrite = ColumnWrite(table: string, key: map<string, Value>, column: string, value: Value)

  /** What updateAttributes leaves behind: the record, the count it answers and
      the writes it issued. */
  datatype UpdateOutcome = UpdateOutcome(state: RecordState, count: nat, writes: seq<ColumnWrite>)

  /** updateAttributes([column => value]) as the framework performs it: the
      attribute is assigned; a new record, or a column whose old value is already
      value, answers 0 without touching the database; otherwise one column-only
      write is issued, its affected-row count answered, and the old value of the
      column refreshed. */
  function UpdateColumn(env: Env, s: RecordState, column: string, value: Value,
                        affectedRows: ColumnWrite -> nat): (r: UpdateOutcome)
    ensures r.state.cls == s.cls && r.state.attributes == s.attributes[column := value]
    ensures r.writes != [] <==>
              s.oldAttributes.Some? && !(column in s.oldAttributes.value && s.oldAttributes.value[column] == value)
    ensures r.writes == [] ==> r.count == 0 && r.state.oldAttributes == s.oldAttributes
    ensures r.writes != [] ==>
              r.writes == [ColumnWrite(env.statics.tableName(s.cls), s.oldAttributes.value, column, value)] &&
              r.count == affectedRows(r.writes[0]) &&
              r.state.oldAttributes == Some(s.oldAttributes.value[column := value])
  {
    var updated := s.(attributes := s.attributes[column := value]);
    match s.oldAttributes
    case None => UpdateOutcome(updated, 0, [])
    case Some(o) =>
      if column in o && o[column] == value then UpdateOutcome(updated, 0, [])
      else
        var w := ColumnWrite(env.statics.tableName(s.cls), o, column, value);
        UpdateOutcome(updated.(oldAttributes := Some(o[column := value])), affectedRows(w), [w])
  }

  /** After updateAttributes on a record that exists in the database, the column's
      old value is the value written: the column is no longer dirty. */
  lemma UpdateLeavesColumnClean(env: Env, s: RecordState, column: string, value: Value,
                                affectedRows: ColumnWrite -> nat)
    requires s.oldAttributes.Some?
    ensures var u := UpdateColumn(env, s, column, value, affectedRows);
            u.state.oldAttributes.Some? && column in u.state.oldAttributes.value &&
            u.state.oldAttributes.value[column] == u.state.attributes[column]
  {
  }

  /** A second identical updateAttributes finds nothing dirty: it writes nothing,
      answers 0 and leaves the record as the first left it. */
  lemma UpdateTwiceWritesOnce(env: Env, s: RecordState, column: string, value: Value,
                              affectedRows: ColumnWrite -> nat)
    ensures var u := UpdateColumn(env, s, column, value, affectedRows);
            var v := UpdateColumn(env, u.state, column, value, affectedRows);
            v.writes == [] && v.count == 0 && v.state == u.state
  {
    var u := UpdateColumn(env, s, column, value, affectedRows);
    assert u.state.attributes[column := value] == u.state.attributes;
  }

  /** The database as updateAttributes sees it: every write is logged and answered
      with an affected-row count the model does not compute. */
  class Database {
    const affectedRows: ColumnWrite -> nat
    var writes: seq<ColumnWrite>

    constructor (affectedRows: ColumnWrite -> nat)
      ensures this.affectedRows == affectedRows && writes == []
    {
      this.affectedRows := affectedRows;
      writes := [];
    }

    method UpdateAll(w: ColumnWrite) returns (n: nat)
      modifies this`writes
      ensures n == affectedRows(w) && writes == old(writes) + [w]
    {
      writes := writes + [w];
      n := affectedRows(w);
    }
  }

  /** The value becomes() stamps for a target class: null for a root, the target's
      short name otherwise. */
  function StiValueFor(env: Env, caller: ClassName, target: ClassName): (r: Value)
    requires env.Valid() && env.classes.Exists(target)
    ensures r == Null <==> IsBaseClass(env.classes, target)
    ensures r.Scalar? ==> IsShortNameOf(r.text, target)
  {
    DeclaredShortName(env.classes, target);
    if IsBaseClass(env.classes, target) then Null else Scalar(GetStiValue(caller, Some(target)))
  }

  /** becomes() gets past its first check: STI is enabled for the calling class and
      the target class is declared. */
  predicate CanBecome(env: Env, caller: ClassName, target: ClassName) {
    env.statics.stiEnabled(caller) && env.classes.Exists(target)
  }

  /** What becomes() leaves behind: the source record's new state, the returned
      record or the exception, and the writes issued. */
  datatype BecomeOutcome = BecomeOutcome(source: RecordState, result: Result<RecordState, StiError>, writes: seq<ColumnWrite>)

  /** becomes($class, $needSave) on a record in state source, step by step: the
      STI and class check, the stamp on the source, the new record built by the
      target's instantiate and filled with the source's attributes, validation,
      and, when saving, the column update and the hand-over of the old attributes. */
  function BecomesSpec(env: Env, source: RecordState, target: ClassName, needSave: bool,
                       validate: (ClassName, map<string, Value>) -> bool,
                       affectedRows: ColumnWrite -> nat): BecomeOutcome
    requires env.Valid()
  {
    if !CanBecome(env, source.cls, target) then
      BecomeOutcome(source, Failure(CannotBecome(target, source.cls)), [])
    else
      var column := env.statics.stiColumn(source.cls);
      var value := StiValueFor(env, source.cls, target);
      var stamped := source.attributes[column := value];
      ValidateAndSave(env, source.(attributes := stamped), Instantiate(env, target, stamped), value,
                      needSave, validate, affectedRows)
  }

  /** The steps of becomes() after the stamp: stamped is the source record with
      value in its discriminator column, modelClass the class the target's
      instantiate chose. */
  function ValidateAndSave(env: Env, stamped: RecordState, modelClass: ClassName, value: Value, needSave: bool,
                           validate: (ClassName, map<string, Value>) -> bool,
                           affectedRows: ColumnWrite -> nat): BecomeOutcome
  {
    var model := RecordState(modelClass, stamped.attributes, None);
    if !validate(model.cls, model.attributes) then
      BecomeOutcome(stamped, Failure(NotValidForTarget), [])
    else if !needSave then
      BecomeOutcome(stamped, Success(model), [])
    else
      var u := UpdateColumn(env, stamped, env.statics.stiColumn(stamped.cls), value, affectedRows);
      if u.count == 0 then
        BecomeOutcome(u.state, Failure(StiColumnSaveFailed), u.writes)
      else
        BecomeOutcome(u.state, Success(model.(oldAttributes := Some(OldOrEmpty(u.state.oldAttributes)))), u.writes)
  }

  // ---------------------------------------------------------------------------
  // What becomes() guarantees

  /** Past the first check, becomes() is the stamp followed by the later steps. */
  lemma BecomesSteps(env: Env, source: RecordState, target: ClassName, needSave: bool,
                     validate: (ClassName, map<string, Value>) -> bool, affectedRows: ColumnWrite -> nat)
    requires env.Valid() && CanBecome(env, source.cls, target)
    ensures var column := env.statics.stiColumn(source.cls);
            var value := StiValueFor(env, source.cls, target);
            var stamped := source.(attributes := source.attributes[column := value]);
            BecomesSpec(env, source, target, needSave, validate, affectedRows) ==
              ValidateAndSave(env, stamped, Instantiate(env, target, stamped.attributes), value,
                              needSave, validate, affectedRows)
  {
  }

  /** The later steps on a stamped record: validation before any write, at most
      one write of the stamped value to the record's row and only when saving,
      and the record handed back in the class instantiate chose. */
  lemma SaveSteps(env: Env, stamped: RecordState, modelClass: ClassName, value: Value, needSave: bool,
                  validate: (ClassName, map<string, Value>) -> bool, affectedRows: ColumnWrite -> nat)
    requires var column := env.statics.stiColumn(stamped.cls);
             column in stamped.attributes && stamped.attributes[column] == value
    ensures var o := ValidateAndSave(env, stamped, modelClass, value, needSave, validate, affectedRows);
            o.source.cls == stamped.cls && o.source.attributes == stamped.attributes &&
            (o.result.Failure? ==> !o.result.error.CannotBecome? && !o.result.error.QueryNotSti?) &&
            (o.writes == [] ==> o.source.oldAttributes == stamped.oldAttributes)
    ensures var o := ValidateAndSave(env, stamped, modelClass, value, needSave, validate, affectedRows);
            (o.result == Failure(NotValidForTarget) ==> o.writes == []) &&
            (!needSave ==> o.writes == []) &&
            (o.writes != [] ==>
               needSave && validate(modelClass, stamped.attributes) && stamped.oldAttributes.Some? &&
               o.writes == [ColumnWrite(env.statics.tableName(stamped.cls), stamped.oldAttributes.value,
                                        env.statics.stiColumn(stamped.cls), value)] &&
               o.source.oldAttributes == Some(stamped.oldAttributes.value[env.statics.stiColumn(stamped.cls) := value]))
    ensures var o := ValidateAndSave(env, stamped, modelClass, value, needSave, validate, affectedRows);
            o.result.Success? ==>
              o.result.value.cls == modelClass && o.result.value.attributes == stamped.attributes &&
              (!needSave ==> o.result.value.oldAttributes == None) &&
              (needSave ==> |o.writes| == 1 && affectedRows(o.writes[0]) > 0 &&
                            o.result.value.oldAttributes == o.source.oldAttributes &&
                            o.source.oldAttributes.Some?)
    ensures var o := ValidateAndSave(env, stamped, modelClass, value, needSave, validate, affectedRows);
            var column := env.statics.stiColumn(stamped.cls);
            (o.result == Failure(StiColumnSaveFailed) ==>
               needSave && (o.writes == [] || (|o.writes| == 1 && affectedRows(o.writes[0]) == 0))) &&
            (needSave && validate(modelClass, stamped.attributes) &&
             (stamped.oldAttributes.None? ||
              (column in stamped.oldAttributes.value && stamped.oldAttributes.value[column] == value)) ==>
               o.result == Failure(StiColumnSaveFailed) && o.writes == [])
  {
  }

  /** becomes() throws CannotBecome exactly when its first check fails, and then
      neither the source nor the database has changed. */
  lemma BecomesRejected(env: Env, source: RecordState, target: ClassName, needSave: bool,
                        validate: (ClassName, map<string, Value>) -> bool, affectedRows: ColumnWrite -> nat)
    requires env.Valid()
    ensures var o := BecomesSpec(env, source, target, needSave, validate, affectedRows);
            (o.result == Failure(CannotBecome(target, source.cls)) <==> !CanBecome(env, source.cls, target)) &&
            (!CanBecome(env, source.cls, target) ==> o.source == source && o.writes == [])
  {
    if CanBecome(env, source.cls, target) {
      BecomesSteps(env, source, target, needSave, validate, affectedRows);
      var column := env.statics.stiColumn(source.cls);
      var value := StiValueFor(env, source.cls, target);
      var stamped := source.(attributes := source.attributes[column := value]);
      SaveSteps(env, stamped, Instantiate(env, target, stamped.attributes), value, needSave, validate, affectedRows);
    }
  }

  /** Past the first check, the source record carries the target's discriminator
      in its own discriminator column, whatever happens next: null for a root
      target, the target's short name otherwise; its other attributes and its
      class stay as they were. */
  lemma BecomesStamps(env: Env, source: RecordState, target: ClassName, needSave: bool,
                      validate: (ClassName, map<string, Value>) -> bool, affectedRows: ColumnWrite -> nat)
    requires env.Valid() && CanBecome(env, source.cls, target)
    ensures var o := BecomesSpec(env, source, target, needSave, validate, affectedRows);
            var column := env.statics.stiColumn(source.cls);
            o.source.cls == source.cls &&
            o.source.attributes.Keys == source.attributes.Keys + {column} &&
            (forall k :: k in source.attributes && k != column ==> o.source.attributes[k] == source.attributes[k]) &&
            (o.source.attributes[column] == Null <==> IsBaseClass(env.classes, target)) &&
            (o.source.attributes[column].Scalar? ==> IsShortNameOf(o.source.attributes[column].text, target))
  {
    BecomesSteps(env, source, target, needSave, validate, affectedRows);
    var column := env.statics.stiColumn(source.cls);
    var value := StiValueFor(env, source.cls, target);
    var stamped := source.(attributes := source.attributes[column := value]);
    SaveSteps(env, stamped, Instantiate(env, target, stamped.attributes), value, needSave, validate, affectedRows);
  }

  /** Validation comes before any write: the database is touched only when saving
      was asked for and the new record passed validation, and then by one write of
      the stamped discriminator to the source's row. */
  lemma BecomesValidatesBeforeWriting(env: Env, source: RecordState, target: ClassName, needSave: bool,
                                      validate: (ClassName, map<string, Value>) -> bool,
                                      affectedRows: ColumnWrite -> nat)
    requires env.Valid()
    ensures var o := BecomesSpec(env, source, target, needSave, validate, affectedRows);
            var column := env.statics.stiColumn(source.cls);
            (o.result == Failure(NotValidForTarget) ==> o.writes == [] && o.source.oldAttributes == source.oldAttributes) &&
            (!needSave ==> o.writes == [] && o.source.oldAttributes == source.oldAttributes) &&
            (o.writes != [] ==>
               CanBecome(env, source.cls, target) && needSave &&
               validate(Instantiate(env, target, o.source.attributes), o.source.attributes) &&
               source.oldAttributes.Some? &&
               o.writes == [ColumnWrite(env.statics.tableName(source.cls), source.oldAttributes.value,
                                        column, o.source.attributes[column])])
  {
    if CanBecome(env, source.cls, target) {
      BecomesSteps(env, source, target, needSave, validate, affectedRows);
      var column := env.statics.stiColumn(source.cls);
      var value := StiValueFor(env, source.cls, target);
      var stamped := source.(attributes := source.attributes[column := value]);
      SaveSteps(env, stamped, Instantiate(env, target, stamped.attributes), value, needSave, validate, affectedRows);
    }
  }

  /** The record returned holds the stamped attributes in the class the target's
      instantiate chose. Without saving it is new; with saving it exists: the write
      hit a row, and it takes over the source's refreshed old attributes. */
  lemma BecomesResult(env: Env, source: RecordState, target: ClassName, needSave: bool,
                      validate: (ClassName, map<string, Value>) -> bool, affectedRows: ColumnWrite -> nat)
    requires env.Valid()
    ensures var o := BecomesSpec(env, source, target, needSave, validate, affectedRows);
            o.result.Success? ==>
              CanBecome(env, source.cls, target) &&
              o.result.value.cls == Instantiate(env, target, o.source.attributes) &&
              o.result.value.attributes == o.source.attributes &&
              (!needSave ==> o.result.value.oldAttributes == None) &&
              (needSave ==> |o.writes| == 1 && affectedRows(o.writes[0]) > 0 &&
                            o.result.value.oldAttributes == o.source.oldAttributes &&
                            o.source.oldAttributes.Some?)
  {
    if CanBecome(env, source.cls, target) {
      BecomesSteps(env, source, target, needSave, validate, affectedRows);
      var column := env.statics.stiColumn(source.cls);
      var value := StiValueFor(env, source.cls, target);
      var stamped := source.(attributes := source.attributes[column := value]);
      SaveSteps(env, stamped, Instantiate(env, target, stamped.attributes), value, needSave, validate, affectedRows);
    }
  }

  /** The save fails when the write hits no row, and also, without any write, when
      the source is a new record or its discriminator's old value is already the
      one to write (the framework then finds nothing dirty and answers 0). */
  lemma BecomesSaveFailure(env: Env, source: RecordState, target: ClassName, needSave: bool,
                           validate: (ClassName, map<string, Value>) -> bool, affectedRows: ColumnWrite -> nat)
    requires env.Valid()
    ensures var o := BecomesSpec(env, source, target, needSave, validate, affectedRows);
            o.result == Failure(StiColumnSaveFailed) ==>
              needSave && (o.writes == [] || (|o.writes| == 1 && affectedRows(o.writes[0]) == 0))
    ensures var o := BecomesSpec(env, source, target, needSave, validate, affectedRows);
            CanBecome(env, source.cls, target) && needSave &&
            validate(Instantiate(env, target, o.source.attributes), o.source.attributes) &&
            (source.oldAttributes.None? ||
             (var column := env.statics.stiColumn(source.cls);
              column in source.oldAttributes.value &&
              source.oldAttributes.value[column] == StiValueFor(env, source.cls, target))) ==>
              o.result == Failure(StiColumnSaveFailed) && o.writes == []
  {
    if CanBecome(env, source.cls, target) {
      BecomesSteps(env, source, target, needSave, validate, affectedRows);
      var column := env.statics.stiColumn(source.cls);
      var value := StiValueFor(env, source.cls, target);
      var stamped := source.(attributes := source.attributes[column := value]);
      SaveSteps(env, stamped, Instantiate(env, target, stamped.attributes), value, needSave, validate, affectedRows);
    }
  }

  /** The target's own instantiate, given a row stamped with the target's
      discriminator in its column, builds the target. */
  lemma StampedRowLoadsAsTarget(env: Env, caller: ClassName, target: ClassName, attributes: map<string, Value>)
    requires env.Valid() && env.classes.Exists(target)
    ensures Instantiate(env, target, attributes[env.statics.stiColumn(target) := StiValueFor(env, caller, target)]) == target
  {
    var stamped := attributes[env.statics.stiColumn(target) := StiValueFor(env, caller, target)];
    if StiValueFor(env, caller, target).Scalar? {
      DeclaredShortName(env.classes, target);
      InstantiateByShortName(env, target, target, stamped);
    }
  }

  /** When the target reads the same discriminator column as the caller, the new
      record is of the target class itself: for a root target the stamp is null,
      and otherwise the target's short name, read in the target's own namespace,
      resolves back to the target. */
  lemma BecomesReturnsTarget(env: Env, source: RecordState, target: ClassName, needSave: bool,
                             validate: (ClassName, map<string, Value>) -> bool, affectedRows: ColumnWrite -> nat)
    requires env.Valid() && CanBecome(env, source.cls, target)
    requires env.statics.stiColumn(target) == env.statics.stiColumn(source.cls)
    ensures var o := BecomesSpec(env, source, target, needSave, validate, affectedRows);
            Instantiate(env, target, o.source.attributes) == target &&
            (o.result.Success? ==> o.result.value.cls == target)
  {
    BecomesSteps(env, source, target, needSave, validate, affectedRows);
    var column := env.statics.stiColumn(source.cls);
    var value := StiValueFor(env, source.cls, target);
    var stamped := source.(attributes := source.attributes[column := value]);
    StampedRowLoadsAsTarget(env, source.cls, target, source.attributes);
    SaveSteps(env, stamped, target, value, needSave, validate, affectedRows);
  }

  /** A record loaded from a clean source and saved into another class is clean
      as well: its old attributes are its attributes. */
  lemma BecomesSavedModelIsClean(env: Env, source: RecordState, target: ClassName,
                                 validate: (ClassName, map<string, Value>) -> bool,
                                 affectedRows: ColumnWrite -> nat)
    requires env.Valid() && source.oldAttributes == Some(source.attributes)
    ensures var o := BecomesSpec(env, source, target, true, validate, affectedRows);
            o.result.Success? ==> o.result.value.oldAttributes == Some(o.result.value.attributes)
  {
  }

  /** The discriminator becomes() writes loads back, through any class of the
      target's namespace reading the same column, as the target; a root target's
      null loads as the class loading it. */
  lemma BecomesWriteLoadsAsTarget(env: Env, source: RecordState, target: ClassName, needSave: bool,
                                  validate: (ClassName, map<string, Value>) -> bool,
                                  affectedRows: ColumnWrite -> nat, finder: ClassName, row: map<string, Value>)
    requires env.Valid()
    requires var o := BecomesSpec(env, source, target, needSave, validate, affectedRows);
             o.writes != [] && env.statics.stiColumn(finder) in row &&
             row[env.statics.stiColumn(finder)] == o.writes[0].value
    requires NamespaceOf(finder) == NamespaceOf(target)
    ensures env.classes.Exists(target)
    ensures !IsBaseClass(env.classes, target) ==> Instantiate(env, finder, row) == target
    ensures IsBaseClass(env.classes, target) ==> Instantiate(env, finder, row) == finder
  {
    BecomesValidatesBeforeWriting(env, source, target, needSave, validate, affectedRows);
    BecomesStamps(env, source, target, needSave, validate, affectedRows);
    if !IsBaseClass(env.classes, target) {
      DeclaredShortName(env.classes, target);
      InstantiateByShortName(env, finder, target, row);
    }
  }

  /** Assigning every attribute of m to a record without attributes gives it m. */
  lemma EmptyUnion(m: map<string, Value>)
    ensures map[] + m == m
  {
  }

  class Record {
    /** static::class of the record. */
    const cls: ClassName
    var attributes: map<string, Value>
    var oldAttributes: Option<map<string, Value>>

    /** new $className: no attributes, not loaded from the database. */
    constructor (cls: ClassName)
      ensures this.cls == cls && attributes == map[] && oldAttributes == None
    {
      this.cls := cls;
      attributes := map[];
      oldAttributes := None;
    }

    function State(): RecordState
      reads this
    {
      RecordState(cls, attributes, oldAttributes)
    }

    method SetAttribute(name: string, value: Value)
      modifies this`attributes
      ensures attributes == old(attributes)[name := value]
    {
      attributes := attributes[name := value];
    }

    /** setAttributes($values, false): every value is assigned, safe or not. */
    method SetAttributes(values: map<string, Value>)
      modifies this`attributes
      ensures attributes == old(attributes) + values
    {
      attributes := attributes + values;
    }

    method SetOldAttributes(values: map<string, Value>)
      modifies this`oldAttributes
      ensures oldAttributes == Some(values)
    {
      oldAttributes := Some(values);
    }

    /** setStiColumn: writes the discriminator only when STI is necessary for the class. */
    method SetStiColumn(env: Env, value: Value)
      requires env.Valid() && env.classes.Exists(cls)
      modifies this`attributes
      ensures attributes == if IsStiNecessary(env, cls)
                            then old(attributes)[env.statics.stiColumn(cls) := value]
                            else old(attributes)
    {
      if IsStiNecessary(env, cls) {
        SetAttribute(env.statics.stiColumn(cls), value);
      }
    }

    /** beforeSave: stamps the class's own short name, then answers what the
        framework's beforeSave answers (given as parentResult). */
    method BeforeSave(env: Env, parentResult: bool) returns (ok: bool)
      requires env.Valid() && env.classes.Exists(cls)
      modifies this`attributes
      ensures attributes == StampForSave(env, cls, old(attributes))
      ensures ok == parentResult
    {
      SetStiColumn(env, Scalar(GetStiValue(cls, None)));
      ok := parentResult;
    }

    /** updateAttributes([column => value]). */
    method UpdateAttributes(env: Env, db: Database, column: string, value: Value) returns (n: nat)
      modifies this`attributes, this`oldAttributes, db`writes
      ensures var u := UpdateColumn(env, old(State()), column, value, db.affectedRows);
              State() == u.state && n == u.count && db.writes == old(db.writes) + u.writes
    {
      SetAttribute(column, value);
      n := 0;
      if oldAttributes.Some? {
        var o := oldAttributes.value;
        if !(column in o && o[column] == value) {
          n := db.UpdateAll(ColumnWrite(env.statics.tableName(cls), o, column, value));
          SetOldAttributes(o[column := value]);
        }
      }
    }

    /** becomes($class, $needSave): the converted record, or the exception thrown. */
    method Becomes(env: Env, db: Database, target: ClassName, needSave: bool,
                   validate: (ClassName, map<string, Value>) -> bool)
      returns (r: Result<Record, StiError>)
      requires env.Valid()
      modifies this`attributes, this`oldAttributes, db`writes
      ensures var o := BecomesSpec(env, old(State()), target, needSave, validate, db.affectedRows);
              State() == o.source && db.writes == old(db.writes) + o.writes &&
              match r
              case Success(m) => fresh(m) && o.result == Success(m.State())
              case Failure(e) => o.result == Failure(e)
    {
      if !CanBecome(env, cls, target) {
        return Failure(CannotBecome(target, cls));
      }
      ghost var source := State();
      var value := StiValueFor(env, cls, target);
      SetAttribute(env.statics.stiColumn(cls), value);
      var model := new Record(Instantiate(env, target, attributes));
      model.SetAttributes(attributes);
      EmptyUnion(attributes);
      BecomesSteps(env, source, target, needSave, validate, db.affectedRows);
      assert State() == source.(attributes := attributes);
      ghost var o := BecomesSpec(env, source, target, needSave, validate, db.affectedRows);
      r := ValidateAndPersist(env, db, model, value, needSave, validate, o);
    }

    /** The part of becomes() after the stamp: validate the new record and, when
        saving, update the column and hand the old attributes over. */
    method ValidateAndPersist(env: Env, db: Database, model: Record, value: Value, needSave: bool,
                              validate: (ClassName, map<string, Value>) -> bool, ghost o: BecomeOutcome)
      returns (r: Result<Record, StiError>)
      requires model != this && model.attributes == attributes && model.oldAttributes == None
      requires o == ValidateAndSave(env, State(), model.cls, value, needSave, validate, db.affectedRows)
      modifies this`attributes, this`oldAttributes, db`writes, model`oldAttributes
      ensures State() == o.source && db.writes == old(db.writes) + o.writes &&
              match r
              case Success(m) => m == model && o.result == Success(m.State())
              case Failure(e) => o.result == Failure(e)
    {
      if !validate(model.cls, model.attributes) {
        return Failure(NotValidForTarget);
      }
      if needSave {
        var n := UpdateAttributes(env, db, env.statics.stiColumn(cls), value);
        if n == 0 {
          return Failure(StiColumnSaveFailed);
        }
        model.SetOldAttributes(OldOrEmpty(oldAttributes));
      }
      r := Success(model);
    }
  }

  // ---------------------------------------------------------------------------
  // find()

  /** find(): a new query of the class getActiveQuery() names, for the calling
      class and its table, configured by getQueryConfiguration; QueryNotSti when
      that query class is neither the STI query class nor extends it. */
  method Find(env: Env, c: ClassName) returns (r: Result<ActiveQuery, StiError>)
    requires env.Valid() && env.classes.Exists(c)
    ensures r.Failure? <==> !IsActiveQueryClassSupportSti(env.classes, env.statics.activeQuery(c))
    ensures r.Failure? ==> r.error == QueryNotSti
    ensures r.Success? ==>
              var q := r.value;
              var cfg := GetQueryConfiguration(env, c);
              fresh(q) && q.queryClass == env.statics.activeQuery(c) &&
              q.modelClass == c && q.modelTable == env.statics.tableName(c) &&
              q.stiColumn == cfg.stiColumn && q.stiValue == cfg.stiValue &&
              q.isStiConditionEnabled == cfg.isStiConditionEnabled && q.filter == []
  {
    var cfg := GetQueryConfiguration(env, c);
    var q := new ActiveQuery(env.statics.activeQuery(c), c, env.statics.tableName(c));
    q.SetStiColumn(cfg.stiColumn);
    q.SetStiValue(cfg.stiValue);
    q.SetIsStiConditionEnabled(cfg.isStiConditionEnabled);
    if !IsActiveQueryClassSupportSti(env.classes, q.queryClass) {
      return Failure(QueryNotSti);
    }
    r := Success(q);
  }

  /** The WHERE clause of c::find() once prepared: a class for which STI is
      necessary selects exactly the rows whose table-qualified discriminator holds
      its own short name; any other class, a root among them, selects every row. */
  method FindAndPrepare(env: Env, c: ClassName) returns (r: Result<seq<Condition>, StiError>)
    requires env.Valid() && env.classes.Exists(c)
    ensures r.Failure? <==> !IsActiveQueryClassSupportSti(env.classes, env.statics.activeQuery(c))
    ensures r.Failure? ==> r.error == QueryNotSti
    ensures r.Success? && IsStiNecessary(env, c) ==>
              var column := env.statics.tableName(c) + "." + env.statics.stiColumn(c);
              r.value == [Equals(column, Scalar(ShortName(c)))] &&
              forall row :: Satisfies(r.value, row) <==> Lookup(row, column) == Scalar(ShortName(c))
    ensures r.Success? && !IsStiNecessary(env, c) ==> r.value == [] && forall row :: Satisfies(r.value, row)
    ensures r.Success? && IsBaseClass(env.classes, c) ==> r.value == []
  {
    var found := Find(env, c);
    match found
    case Failure(e) =>
      r := Failure(e);
    case Success(q) =>
      q.Prepare();
      r := Success(q.filter);
      forall row ensures Satisfies(q.filter, row) <==>
          (IsStiNecessary(env, c) ==> Lookup(row, q.StiCondition().column) == q.StiCondition().value) {
        AndWhere([], q.StiCondition(), row);
      }
  }
}
