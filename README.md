# yii2-sti in Dafny

A model of bigdropinc/yii2-sti, a single-table-inheritance (STI) layer for the
Yii2 ORM. Every class of an STI tree stores its rows in one table. A
discriminator column (`type` by default) holds the short class name of the
row's class. The model covers two parts:

- The STI record base class, `bigdropinc\sti\ActiveRecord`, in module
  `StiRecord` (file `active_record.dfy`). It covers:
  - how a class finds its discriminator value (`getStiValue`, the short class
    name);
  - whether a class is the root of its STI tree (`isBaseClass`);
  - when STI is necessary (`isStiNecessary`);
  - which class a fetched row becomes (`instantiate`);
  - what a save stamps into the row (`beforeSave` / `setStiColumn`);
  - what query `find()` builds, and its query-class check;
  - the conversion `becomes($class, $needSave)`. It is a sequence of steps: a
    check, the stamp, the new record, validation, an optional column-only
    update, and the hand-over of the old attributes.
- The STI query, `bigdropinc\sti\ActiveQuery`, in module `StiQuery` (file
  `active_query.dfy`). It is a class with the discriminator column, the value
  and an enabled flag. The WHERE clause is a sequence of ANDed conditions, and
  `prepare` appends `table.column = value` to it while the flag is on.

Module `Runtime` (file `runtime.dfy`) holds what these parts rely on from PHP:
- class names, with the short name and the namespace;
- the table of declared classes and their parents, which stands in for
  `class_exists`, `get_parent_class` and `is_subclass_of`. It is finite and
  acyclic, witnessed by a rank that strictly decreases from child to parent.

Every protected or public static method of the base class can be overridden
in PHP. The model lets four of them vary from class to class: `getStiColumn`,
`isStiEnabled`, `tableName` and `getActiveQuery`. They are hooks (`Statics`);
the other methods are modelled as the base class defines them. Two things
cannot vary at all, because they are reached through `self::`:
- `getShortClassName`, which is private (ActiveRecord.php:127, 202-203, 213);
- the query class that `isActiveQueryClassSupportSti` checks against, which is
  the base class's `getActiveQuery()` (ActiveRecord.php:188), the constant
  `StiQueryClass` in the model.
The database schema is a map from table name to column names. Validation is a
function of the class and the attributes. A column update is answered by an
affected-row count that the model does not compute (`Database.affectedRows`),
and every write is logged. `scenario.dfy` takes the Animal / Dog / Cat tree
through the model.

The code decides these points, where a reader might expect the usual STI
convention (a root storing NULL):
- A root class's query has no STI condition at all, not `type IS NULL`. Its
  configuration switches the condition on only when STI is necessary, and STI
  is never necessary for a root (ActiveRecord.php:156, 172-177).
  `StiScenario.ZooQueries` shows it: `Animal::find()` keeps dogs and cats.
- `beforeSave` leaves a root's discriminator untouched; it does not write null
  (ActiveRecord.php:160-165).
- `instantiate` dispatches on the discriminator even when `isStiEnabled()` is
  false, although that method's doc comment says the column is then not
  checked on populating (ActiveRecord.php:86-95, 134).
- `isBaseClass` tests "same short name as the parent" before "the parent is
  named ActiveRecord". So `bigdropinc\sti\ActiveRecord` itself is not a root:
  it shares its short name with `yii\db\ActiveRecord`, whose parent is
  `BaseActiveRecord` (ActiveRecord.php:204-210).
- `becomes` does change the current instance, although its doc comment says
  it does not (ActiveRecord.php:22). It stamps the discriminator into the
  source record in memory (line 36) and, when saving, writes the source's row
  (line 46). `BecomesStamps` states it.

A record built by `instantiate` starts with no attributes, as `new $className`
does (ActiveRecord.php:91): the framework loads default values only when
`loadDefaultValues()` is called.

`updateAttributes` comes from the framework (ActiveRecord.php:46). It is
modelled as the framework performs it:
- it assigns the attribute;
- it answers 0 without writing for a new record, or when the column's old
  value already equals the new value;
- otherwise it issues one write and refreshes the column's old value.

Together with `becomes`, this means `$record->becomes($class)` with saving
throws "Error during STI column save" in two cases without touching the
database: the record was never saved, or it already carries the target's
discriminator (`BecomesSaveFailure`).

## Model

| member | source | states |
|---|---|---|
| Runtime.ShortNameSpec | ActiveRecord.php:213-216 | basename of a class name is the separator-free suffix after the last `\`, and is shorter than the name exactly when the name has a namespace |
| Runtime.ShortNameUnique | ActiveRecord.php:213-216 | there is only one separator-free suffix that starts the name or follows a separator, so the short name is well defined |
| Runtime.ShortName | ActiveRecord.php:213-216 | getShortClassName: the text after the last `\`; ShortNameSpec states what it is |
| Runtime.NamespaceOf | ActiveRecord.php:89 | the namespace plus a separator plus the short name is the whole class name; a class in the global namespace has the empty namespace |
| Runtime.ShortNameOfQualified | ActiveRecord.php:213-216 | a namespace, a separator and a separator-free name make a class whose short name and namespace are exactly those parts |
| Runtime.QualifiedNameResolves | ActiveRecord.php:89-91 | a class's namespace, a separator and its short name name the class again once a leading `\` is dropped, as `class_exists` and `new` drop it; for a class in the global namespace that is the name with a leading `\` |
| Runtime.Hierarchy.Exists | ActiveRecord.php:34 | class_exists: the class is in the table of declared classes |
| Runtime.Hierarchy.Parent | ActiveRecord.php:200 | get_parent_class: the declared parent, or none for a class without one or an unknown class (PHP's false) |
| Runtime.ResolveName | ActiveRecord.php:90-91 | the name class_exists and new look up: one leading `\` is dropped; QualifiedNameResolves states what it gives for the names line 89 builds |
| Runtime.Hierarchy.IsSubclassOf | ActiveRecord.php:189 | is_subclass_of: true exactly when the second class is a proper ancestor of the first; IsSubclassOfIff states it over the parent chain |
| Runtime.IsSubclassOfIff | ActiveRecord.php:189 | is_subclass_of(c, b) holds exactly when b is found one or more steps up c's parent chain |
| Runtime.AncestorsDescendInRank | ActiveRecord.php:198-211 | every ancestor of a declared class is declared and has a strictly smaller rank, so walking up the chain ends |
| Runtime.NoInheritanceCycle | ActiveRecord.php:198-211 | no class is its own ancestor |
| StiRecord.GetStiValue | ActiveRecord.php:124-128 | the value is the short name of the class argument when that argument is truthy (not null, "" or "0"), and of the calling class otherwise |
| StiRecord.DeclaredShortName | ActiveRecord.php:124-128 | a declared class has a non-empty short name and is a truthy argument |
| StiRecord.DefaultStatics | ActiveRecord.php:104-144 | the base class's statics: the column `type`, STI always enabled, the STI query class, and the table naming given |
| StiRecord.Message | ActiveRecord.php:49-77 | the texts of the four exceptions the base class throws (lines 49, 53, 57 and 77) |
| StiRecord.IsBaseClass | ActiveRecord.php:198-211 | a root always has a parent and its own short name is never ActiveRecord; IsBaseClassIff gives the exact condition |
| StiRecord.IsBaseClassIff | ActiveRecord.php:198-211 | isBaseClass(c) holds exactly when c and its first k ancestors share c's short name and the next ancestor's short name is ActiveRecord, c's own short name being different |
| StiRecord.IsStiColumnPresentInDatabase | ActiveRecord.php:180-184 | the class's table is known to the schema and has the class's discriminator column |
| StiRecord.IsStiNecessary | ActiveRecord.php:172-177 | STI is enabled, the column is present and the class is not a root; QueryConfigurationSpec and StampForSave state what follows from it |
| StiRecord.GetQueryConfiguration | ActiveRecord.php:151-158 | the column, value and flag given to the query; QueryConfigurationSpec states them |
| StiRecord.QueryConfigurationSpec | ActiveRecord.php:151-158 | the query gets the class's column and its short name as value; its condition is on exactly when STI is enabled, the column exists and the class is not a root |
| StiRecord.IsActiveQueryClassSupportSti | ActiveRecord.php:186-190 | is_subclass_of the STI query class or that class itself; QueryClassSupportSpec states it over the parent chain |
| StiRecord.QueryClassSupportSpec | ActiveRecord.php:186-190 | a query class supports STI exactly when the STI query class is the class itself or one of its ancestors |
| StiRecord.Instantiate | ActiveRecord.php:86-95 | the class chosen is the calling class or a declared class |
| StiRecord.InstantiateNamed | ActiveRecord.php:88-92 | a set, non-null discriminator naming a declared class in the caller's namespace selects that class; for a caller in the global namespace the leading `\` is dropped, so the discriminator itself is looked up |
| StiRecord.InstantiateFallback | ActiveRecord.php:88-94 | a missing or null discriminator, or one naming no declared class, gives the calling class |
| StiRecord.InstantiateByShortName | ActiveRecord.php:86-95 | a row carrying the short name of a declared class d loads as d through any class of d's namespace (the global one included) that reads the same column |
| StiRecord.StampForSave | ActiveRecord.php:160-177 | when STI is necessary, the class's short name goes into its discriminator column and every other attribute is kept; otherwise, and always for a root, the attributes are unchanged |
| StiRecord.SavedRowLoadsAs | ActiveRecord.php:86-95 | what a save of class c stamps loads back as c through a class of c's namespace reading the same column |
| StiRecord.OldOrEmpty | ActiveRecord.php:47 | getOldAttributes(): the snapshot of a stored record, and no attributes for a new one |
| StiRecord.UpdateColumn | ActiveRecord.php:46 | updateAttributes assigns the attribute; it writes exactly when the record exists and the column's old value differs, then one write of the value to the record's row, answering its count and refreshing the old value |
| StiRecord.Database.UpdateAll | ActiveRecord.php:46 | one write is logged, appended to the earlier ones, and answered with its affected-row count |
| StiRecord.UpdateLeavesColumnClean | ActiveRecord.php:46 | after updateAttributes on a stored record the column's old value equals its value |
| StiRecord.UpdateTwiceWritesOnce | ActiveRecord.php:46 | a repeated identical updateAttributes writes nothing, answers 0 and changes nothing |
| StiRecord.CanBecome | ActiveRecord.php:34 | becomes() gets past its check exactly when STI is enabled for the calling class and the target class is declared; BecomesRejected states what happens otherwise |
| StiRecord.StiValueFor | ActiveRecord.php:35 | the stamped value is null exactly for a root target, and otherwise the target's short name |
| StiRecord.BecomesSpec | ActiveRecord.php:32-59 | becomes() as a function of the source record: the check, the stamp, the class instantiate picks, then ValidateAndSave; the Becomes lemmas below state what it guarantees |
| StiRecord.ValidateAndSave | ActiveRecord.php:44-55 | the steps after the stamp: validation, the optional column update, the hand-over of old attributes; SaveSteps states them |
| StiRecord.SaveSteps | ActiveRecord.php:41-55 | after the stamp, validation precedes any write; at most one write of the stamped value, only when saving; the new record carries the stamped attributes, and takes over the refreshed old attributes only after a write that hit a row |
| StiRecord.BecomesRejected | ActiveRecord.php:34-58 | CannotBecome is thrown exactly when STI is disabled for the caller or the target is not declared, and then nothing changes and nothing is written |
| StiRecord.BecomesStamps | ActiveRecord.php:35-36 | past the check the source's discriminator holds null for a root target and the target's short name otherwise, whatever follows; its other attributes and its class are kept |
| StiRecord.BecomesValidatesBeforeWriting | ActiveRecord.php:44-53 | a validation failure or an unsaved conversion writes nothing; any write comes after a passed validation with saving requested, and is the source's row getting the stamped discriminator |
| StiRecord.BecomesResult | ActiveRecord.php:41-55 | the returned record holds all the stamped attributes in the class instantiate chose; unsaved it is new, saved it follows one write that hit a row and carries the source's old attributes |
| StiRecord.BecomesSaveFailure | ActiveRecord.php:46-50 | "Error during STI column save" comes after saving was requested, with no write or one that hit no row; a new source, or one already carrying the value, always fails that way without writing |
| StiRecord.BecomesReturnsTarget | ActiveRecord.php:35-42 | when the target reads the caller's discriminator column, the new record is of the target class itself |
| StiRecord.StampedRowLoadsAsTarget | ActiveRecord.php:35-41 | the attributes stamped with the target's discriminator, given to the target's instantiate, build the target itself |
| StiRecord.BecomesSavedModelIsClean | ActiveRecord.php:46-47 | a clean source saved into another class gives a record whose old attributes equal its attributes |
| StiRecord.BecomesWriteLoadsAsTarget | ActiveRecord.php:86-95 | a row holding the written discriminator loads as the target through a class of its namespace, or as the loading class for a root target |
| StiRecord.Record.constructor | ActiveRecord.php:91 | `new $className`: a record of that class with no attributes and no old attributes |
| StiRecord.Record.SetAttribute | ActiveRecord.php:36 | setAttribute: only the named attribute changes, to the value given |
| StiRecord.Record.SetAttributes | ActiveRecord.php:42 | setAttributes($values, false): every value given is assigned over the record's attributes, the rest are kept |
| StiRecord.Record.SetOldAttributes | ActiveRecord.php:47 | setOldAttributes: the old-attribute snapshot becomes the map given, and nothing else changes |
| StiRecord.Record.SetStiColumn | ActiveRecord.php:160-165 | the discriminator is assigned only when STI is necessary for the record's class |
| StiRecord.Record.BeforeSave | ActiveRecord.php:64-68 | the attributes become StampForSave of the old ones, and the framework's answer is passed on |
| StiRecord.Record.UpdateAttributes | ActiveRecord.php:46 | the record, the answer and the write log move as UpdateColumn says |
| StiRecord.Record.Becomes | ActiveRecord.php:32-59 | the source's state, the writes and the returned fresh record or exception are those of BecomesSpec |
| StiRecord.Record.ValidateAndPersist | ActiveRecord.php:44-55 | the steps after the stamp change the source, the log and the new record as ValidateAndSave says |
| StiRecord.Find | ActiveRecord.php:73-81 | a fresh query of getActiveQuery's class for the class and its table, configured by getQueryConfiguration; QueryNotSti exactly when that class does not support STI |
| StiRecord.FindAndPrepare | ActiveRecord.php:151-158 | once prepared, the query of a class for which STI is necessary selects exactly the rows whose qualified discriminator holds its short name; every other class, roots included, selects all rows |
| StiQuery.Satisfies | ActiveQuery.php:47 | a WHERE clause of ANDed conditions; SatisfiesEvery states which rows it selects |
| StiQuery.SatisfiesEvery | ActiveQuery.php:47 | a WHERE clause of ANDed conditions holds exactly when each condition holds |
| StiQuery.AndWhere | ActiveQuery.php:47 | andWhere adds one conjunct |
| StiQuery.AndWhereAgain | ActiveQuery.php:47 | ANDing a condition already present selects the same rows |
| StiQuery.ActiveQuery.constructor | ActiveQuery.php:12-16 | a new query has no condition and its private fields are unset |
| StiQuery.ActiveQuery.WithSti | ActiveQuery.php:43-50 | exactly one condition is appended when the flag is on, none otherwise; the query itself is returned |
| StiQuery.ActiveQuery.Prepare | ActiveQuery.php:21-25 | prepare runs withSti: with the flag on, the rows selected are the old ones that also satisfy the STI condition; with it off the clause is unchanged |
| StiQuery.ActiveQuery.WithoutSti | ActiveQuery.php:32-36 | only the flag changes, to false, and the query itself is returned |
| StiQuery.ActiveQuery.SetStiColumn | ActiveQuery.php:54-57 | only the column changes |
| StiQuery.ActiveQuery.SetStiValue | ActiveQuery.php:59-62 | only the value changes |
| StiQuery.ActiveQuery.SetIsStiConditionEnabled | ActiveQuery.php:64-67 | only the flag changes |
| StiQuery.PrepareTwice | ActiveQuery.php:21-25 | preparing twice appends the condition twice, and the clause selects exactly the rows the single condition selects |
| StiQuery.WithoutStiAfterPrepare | ActiveQuery.php:32-36 | withoutSti keeps a condition already appended and stops the next prepare from appending another |
| StiScenario.Names | ActiveRecord.php:213-216 | the short names and namespaces of the example classes |
| StiScenario.Keys | ActiveRecord.php:34 | the declared example classes |
| StiScenario.NamesValid | ActiveRecord.php:34 | each declared example name is a valid class name |
| StiScenario.ZooValid | ActiveRecord.php:200 | the example class table is acyclic and well named |
| StiScenario.Parents | ActiveRecord.php:200 | the parent of each example class |
| StiScenario.ZooRoots | ActiveRecord.php:198-211 | Animal is a root; Dog, Cat and the STI base class are not |
| StiScenario.ZooNecessity | ActiveRecord.php:172-177 | STI is necessary for Dog and not for Animal |
| StiScenario.ZooQuerySupport | ActiveRecord.php:186-190 | the default query class supports STI |
| StiScenario.ZooQueries | ActiveRecord.php:151-158 | Animal::find() has no condition; Dog::find() has `animal.type = 'Dog'` |
| StiScenario.ZooLoads | ActiveRecord.php:86-95 | through Animal, a null type loads an Animal and type "Dog" a Dog |
| StiScenario.CatStamp | ActiveRecord.php:34-35 | a Dog may become a Cat, stamped "Cat" |
| StiScenario.CatSaved | ActiveRecord.php:44-55 | saving the stamped dog writes "Cat" to its row and hands over the refreshed old attributes |
| StiScenario.DogBecomesCat | ActiveRecord.php:32-59 | a loaded dog becomes a clean Cat whose row now holds type "Cat" |

## Left out

- The framework itself: `parent::prepare` and the SQL it builds and runs. `prepare` returns what `parent::prepare` builds from the query (ActiveQuery.php:24), a new framework query; `ActiveQuery.Prepare` returns nothing and states only what happens to the query itself. Also `parent::beforeSave` (its answer is an input of `BeforeSave`) and `parent::instantiate`, which is taken to build the calling class. The WHERE clause is a sequence of ANDed conditions, matched against rows keyed by table-qualified column names.
- `getTableSchema` is a map from table name to column names; a table missing from it has no columns.
- Reflection, `class_exists`, `is_subclass_of`, `instanceof` and `Yii::createObject` are replaced by the class table. `Find` always builds the query and then checks its class. `Yii::createObject` (ActiveRecord.php:75) passes the configuration to the query's constructor, which assigns `stiColumn`, `stiValue` and `isStiConditionEnabled`; a query class without those properties throws the framework's UnknownPropertyException before line 76. So `QueryNotSti` (line 77) is in fact raised only for query classes that accept those three properties, and the framework's exception is not modelled.
- Class names are compared as written. PHP's case-insensitive class names are not modelled. `instantiate` drops one leading `\` before the lookup, as `class_exists` and `new` do; the target name given to `becomes` is taken without one.
- `StringHelper::basename` is modelled as "the text after the last `\`". Its handling of `/` and its suffix trimming are not modelled.
- Overrides are modelled only for `getStiColumn`, `isStiEnabled`, `tableName` and `getActiveQuery`. A subclass may also override each of the following, and the model fixes each to the base class's definition:
  - `getStiValue` (GetStiValue),
  - `isBaseClass` (IsBaseClass),
  - `isStiNecessary` (IsStiNecessary),
  - `getQueryConfiguration` (GetQueryConfiguration),
  - `isStiColumnPresentInDatabase` (IsStiColumnPresentInDatabase),
  - `isActiveQueryClassSupportSti` (IsActiveQueryClassSupportSti),
  - `instantiate` (Instantiate),
  - `beforeSave` (Record.BeforeSave),
  - `setStiColumn` (Record.SetStiColumn),
  - and, on the query, `withSti` (ActiveQuery.WithSti).
- Validation is a function of the target class and the attributes. Rules, scenarios and error messages are not modelled.
- StiRecord.BecomesResult: the returned record is stated to hold the stamped attributes, because the validation oracle cannot change attributes. Yii's filter and default-value validators can change them during `validate()`, and the model does not capture that.
- `updateAttributes`: the row key is the whole old-attribute map rather than the old primary key, and the affected-row count is an oracle. Events and optimistic locking are not modelled, and the database's rows are not stored, only the log of writes.
- When `setAttribute` gets an unknown attribute name it throws; the model instead adds the attribute. `setAttributes($values, false)` keeps only the model's own attribute names; the model takes all of them, which is the same thing for classes sharing one table.
- `$this->stiColumn` (ActiveRecord.php:163) is read as `getStiColumn()`.
- Attribute values are SQL NULL or a string. PHP's loose `==` and the strict comparison in the dirty check are both string equality here.
