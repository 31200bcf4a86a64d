/** A concrete STI tree: app\models\Animal extends the STI base class, which
    extends yii\db\ActiveRecord; Dog and Cat extend Animal. All three share the
    table "animal" whose discriminator column is "type". */
module StiScenario {
  import opened Runtime
  import opened StiQuery
  import opened StiRecord

  const Yii: string := "yii\\db"
  const Models: string := "app\\models"
  const BaseAR: ClassName := Yii + [Separator] + "BaseActiveRecord"
  const YiiAR: ClassName := Yii + [Separator] + "ActiveRecord"
  const StiAR: ClassName := "bigdropinc\\sti" + [Separator] + "ActiveRecord"
  const Animal: ClassName := Models + [Separator] + "Animal"
  const Dog: ClassName := Models + [Separator] + "Dog"
  const Cat: ClassName := Models + [Separator] + "Cat"

  const Zoo: Hierarchy := Hierarchy(
    map[BaseAR := None, YiiAR := Some(BaseAR), StiAR := Some(YiiAR), Animal := Some(StiAR),
        Dog := Some(Animal), Cat := Some(Animal)],
    map[BaseAR := 0, YiiAR := 1, StiAR := 2, Animal := 3, Dog := 4, Cat := 4])

  /** The short names and namespaces of the classes. */
  lemma Names()
    ensures ShortName(Animal) == "Animal" && ShortName(Dog) == "Dog" && ShortName(Cat) == "Cat"
    ensures ShortName(StiAR) == BaseMarker && ShortName(YiiAR) == BaseMarker && ShortName(BaseAR) == "BaseActiveRecord"
    ensures NamespaceOf(Dog) == Models && NamespaceOf(Cat) == Models && NamespaceOf(Animal) == Models
  {
    ShortNameOfQualified(Models, "Animal");
    ShortNameOfQualified(Models, "Dog");
    ShortNameOfQualified(Models, "Cat");
    ShortNameOfQualified("bigdropinc\\sti", "ActiveRecord");
    ShortNameOfQualified(Yii, "ActiveRecord");
    ShortNameOfQualified(Yii, "BaseActiveRecord");
  }
  /** The declared classes. */
  lemma Keys()
    ensures Zoo.parent.Keys == {BaseAR, YiiAR, StiAR, Animal, Dog, Cat}
  {
  }
  /** Every declared name is a valid class name. */
  lemma NamesValid()
    ensures ValidName(BaseAR) && ValidName(YiiAR) && ValidName(StiAR)
    ensures ValidName(Animal) && ValidName(Dog) && ValidName(Cat)
  {
  }
  /** The table is acyclic and its names are valid class names. */
  lemma ZooValid()
    ensures Zoo.Valid()
  {
    Keys();
    NamesValid();
  }

  /** get_parent_class on each declared class. */
  lemma Parents()
    ensures Zoo.Parent(BaseAR) == None && Zoo.Parent(YiiAR) == Some(BaseAR)
    ensures Zoo.Parent(StiAR) == Some(YiiAR) && Zoo.Parent(Animal) == Some(StiAR)
    ensures Zoo.Parent(Dog) == Some(Animal) && Zoo.Parent(Cat) == Some(Animal)
  {
  }

  const ZooEnv: Env := Env(Zoo, DefaultStatics(_ => "animal"), map["animal" := {"id", "type", "name"}])

  /** Animal hangs directly below the STI base class and is the root of its tree;
      Dog and Cat are not roots. Neither is the STI base class itself: it shares
      its short name with its parent, and above that comes BaseActiveRecord. */
  lemma ZooRoots()
    ensures ZooEnv.Valid()
    ensures IsBaseClass(Zoo, Animal) && !IsBaseClass(Zoo, Dog) && !IsBaseClass(Zoo, Cat)
    ensures !IsBaseClass(Zoo, StiAR)
  {
    ZooValid();
    Names();
    Parents();
    assert !IsBaseClass(Zoo, YiiAR);
  }

  /** STI is necessary for Dog but not for the root Animal. */
  lemma ZooNecessity()
    ensures ZooEnv.Valid() && Zoo.Exists(Animal) && Zoo.Exists(Dog)
    ensures !IsStiNecessary(ZooEnv, Animal) && IsStiNecessary(ZooEnv, Dog)
  {
    ZooRoots();
    Keys();
  }

  /** Both classes find() with the STI query class itself. */
  lemma ZooQuerySupport()
    ensures ZooEnv.Valid()
    ensures IsActiveQueryClassSupportSti(Zoo, ZooEnv.statics.activeQuery(Animal))
    ensures IsActiveQueryClassSupportSti(Zoo, ZooEnv.statics.activeQuery(Dog))
  {
    ZooValid();
  }

  /** Animal::find() has no condition, so it loads dogs and cats too; Dog::find()
      keeps the rows whose type is "Dog". */
  method ZooQueries() returns (animals: Result<seq<Condition>, StiError>, dogs: Result<seq<Condition>, StiError>)
    ensures animals == Success([])
    ensures dogs == Success([Equals("animal.type", Scalar("Dog"))])
  {
    ZooNecessity();
    ZooQuerySupport();
    animals := FindAndPrepare(ZooEnv, Animal);
    dogs := FindAndPrepare(ZooEnv, Dog);
    assert ShortName(Dog) == "Dog" by {
      Names();
    }
    assert ZooEnv.statics.tableName(Dog) + "." + ZooEnv.statics.stiColumn(Dog) == "animal.type";
  }

  /** Loading through Animal: a null type gives an Animal, type "Dog" a Dog. */
  lemma ZooLoads()
    ensures Instantiate(ZooEnv, Animal, map["id" := Scalar("1"), "type" := Null, "name" := Scalar("Rex")]) == Animal
    ensures Instantiate(ZooEnv, Animal, map["id" := Scalar("2"), "type" := Scalar("Dog"), "name" := Scalar("Fido")]) == Dog
  {
    Names();
    Keys();
  }

  /** A dog row as loaded from the table. */
  function Fido(): map<string, Value> {
    map["id" := Scalar("2"), "type" := Scalar("Dog"), "name" := Scalar("Fido")]
  }

  /** Turning a Dog into a Cat is allowed and stamps "Cat". */
  lemma CatStamp()
    ensures ZooEnv.Valid() && Zoo.Exists(Cat) && CanBecome(ZooEnv, Dog, Cat)
    ensures StiValueFor(ZooEnv, Dog, Cat) == Scalar("Cat")
  {
    ZooRoots();
    Names();
    Keys();
  }

  /** Saving the stamped dog as a cat writes "Cat" to its row and refreshes the
      old value of the column. */
  lemma CatSaved()
    ensures var cat := Fido()["type" := Scalar("Cat")];
            var o := ValidateAndSave(ZooEnv, RecordState(Dog, cat, Some(Fido())), Cat, Scalar("Cat"), true,
                                     (_, _) => true, _ => 1);
            o.result == Success(RecordState(Cat, cat, Some(cat))) &&
            o.writes == [ColumnWrite("animal", Fido(), "type", Scalar("Cat"))] &&
            o.source == RecordState(Dog, cat, Some(cat))
  {
    assert Fido()["type"] != Scalar("Cat");
  }

  /** $fido->becomes(Cat::class) on a loaded dog: the row's type becomes "Cat" and
      a clean Cat comes back. */
  lemma DogBecomesCat()
    ensures ZooEnv.Valid()
    ensures var cat := Fido()["type" := Scalar("Cat")];
            var o := BecomesSpec(ZooEnv, RecordState(Dog, Fido(), Some(Fido())), Cat, true,
                                 (_, _) => true, _ => 1);
            o.result == Success(RecordState(Cat, cat, Some(cat))) &&
            o.writes == [ColumnWrite("animal", Fido(), "type", Scalar("Cat"))] &&
            o.source == RecordState(Dog, cat, Some(cat))
  {
    CatStamp();
    var source := RecordState(Dog, Fido(), Some(Fido()));
    BecomesSteps(ZooEnv, source, Cat, true, (_, _) => true, _ => 1);
    BecomesReturnsTarget(ZooEnv, source, Cat, true, (_, _) => true, _ => 1);
    CatSaved();
  }
}
