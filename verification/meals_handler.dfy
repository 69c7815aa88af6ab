/** `MealsHandler`: validates a loaded meal catalogue (meal -> ingredient ->
    {quantity, unit}) and converts an accepted one into typed amounts. */
module MealsHandler {
  import opened Yaml
  import opened FormatErrors
  import Text
  import OrderedMap
  import StringOrder

  /** What the converted catalogue holds per ingredient. The quantity is the
      number read from the document, taken as an exact real. */
  datatype IngredientAmount = IngredientAmount(quantity: real, unit: string)

  /** meal name -> ingredient name -> amount. */
  type Catalogue = map<string, map<string, IngredientAmount>>

  /** Per ingredient, the units seen for it, each with the meals it was seen in
      (the validator's `ingredientsUnits`). */
  type UnitMeals = OrderedMap.OMap<seq<string>>
  type UnitRecord = OrderedMap.OMap<UnitMeals>

  function ErrorPrefix(fileName: string): string {
    "Error in " + fileName + ": "
  }

  // ---------------------------------------------------------------------------
  // The accepted shape, stated declaratively
  // ---------------------------------------------------------------------------

  /** A quantity the validator accepts: an `Integer` or a `Double`. */
  predicate IsNumber(n: Node) {
    IsJavaInteger(n) || n.NDbl?
  }

  /** An ingredient value made of exactly a numeric `quantity` and a string `unit`. */
  predicate AmountWellFormed(v: Node) {
    && v.NMap?
    && |v.entries| == 2
    && HasKey(v.entries, "quantity") && IsNumber(Get(v.entries, "quantity"))
    && HasKey(v.entries, "unit") && Get(v.entries, "unit").NStr?
  }

  predicate IngredientWellFormed(e: (Node, Node)) {
    e.0.NStr? && AmountWellFormed(e.1)
  }

  predicate MealWellFormed(e: (Node, Node)) {
    && e.0.NStr?
    && e.1.NMap?
    && forall k :: 0 <= k < |e.1.entries| ==> IngredientWellFormed(e.1.entries[k])
  }

  /** Every record of the document has the two-level shape. */
  predicate WellFormedCatalogue(content: Node) {
    content.NMap? && forall k :: 0 <= k < |content.entries| ==> MealWellFormed(content.entries[k])
  }

  /** One occurrence of an ingredient in a meal, with the unit it uses there. */
  datatype Use = Use(meal: string, ingredient: string, unit: string)

  /** The well-formed ingredients of one meal, in iteration order. */
  function IngredientUses(meal: string, ings: seq<(Node, Node)>): seq<Use> {
    if |ings| == 0 then []
    else
      (if IngredientWellFormed(ings[0])
       then [Use(meal, ings[0].0.s, Get(ings[0].1.entries, "unit").s)]
       else [])
      + IngredientUses(meal, ings[1..])
  }

  /** The ingredient occurrences of a sequence of meals, in iteration order. */
  function MealUses(meals: seq<(Node, Node)>): seq<Use> {
    if |meals| == 0 then []
    else
      (if meals[0].0.NStr? && meals[0].1.NMap?
       then IngredientUses(meals[0].0.s, meals[0].1.entries)
       else [])
      + MealUses(meals[1..])
  }

  function DocumentUses(content: Node): seq<Use> {
    if content.NMap? then MealUses(content.entries) else []
  }

  /** No ingredient name is paired with two different units. */
  predicate UnitsConsistent(us: seq<Use>) {
    forall i, j :: 0 <= i < |us| && 0 <= j < |us| && us[i].ingredient == us[j].ingredient ==>
      us[i].unit == us[j].unit
  }

  /** The meals, in order, in which `ingredient` occurs with `unit`. */
  function MealsWith(us: seq<Use>, ingredient: string, unit: string): seq<string> {
    if |us| == 0 then []
    else
      var last := us[|us| - 1];
      MealsWith(us[..|us| - 1], ingredient, unit)
      + (if last.ingredient == ingredient && last.unit == unit then [last.meal] else [])
  }

  lemma {:induction false} MealsWithNonEmpty(us: seq<Use>, ingredient: string, unit: string)
    requires |MealsWith(us, ingredient, unit)| > 0
    ensures exists i :: 0 <= i < |us| && us[i].ingredient == ingredient && us[i].unit == unit
  {
    var last := us[|us| - 1];
    if !(last.ingredient == ingredient && last.unit == unit) {
      MealsWithNonEmpty(us[..|us| - 1], ingredient, unit);
      var i :| 0 <= i < |us| - 1 && us[..|us| - 1][i].ingredient == ingredient && us[..|us| - 1][i].unit == unit;
      assert us[i] == us[..|us| - 1][i];
    }
  }

  // ---------------------------------------------------------------------------
  // The unit record of the first pass
  // ---------------------------------------------------------------------------

  ghost predicate RecordValid(rec: UnitRecord) {
    && OrderedMap.Valid(rec)
    && forall ing :: ing in rec.values ==> OrderedMap.Valid(rec.values[ing])
  }

  /** `rec` records exactly the occurrences `us`: every occurrence's unit is
      listed under its ingredient, and every listed unit carries the meals,
      in order, where the ingredient occurs with it. */
  ghost predicate Represents(rec: UnitRecord, us: seq<Use>) {
    && RecordValid(rec)
    && (forall i :: 0 <= i < |us| ==>
          us[i].ingredient in rec.values && us[i].unit in rec.values[us[i].ingredient].values)
    && (forall ing, unit :: ing in rec.values && unit in rec.values[ing].values ==>
          rec.values[ing].values[unit] == MealsWith(us, ing, unit)
          && |rec.values[ing].values[unit]| > 0)
  }

  /** The meals recorded so far for `ingredient` with `unit`. */
  function Recorded(rec: UnitRecord, ingredient: string, unit: string): seq<string> {
    if ingredient in rec.values && unit in rec.values[ingredient].values
    then rec.values[ingredient].values[unit] else []
  }

  /** Records that `u.meal` uses `u.unit` for `u.ingredient`: a new unit gets a
      new one-meal list, a known unit's list grows by that meal, and nothing
      else changes. */
  function RecordUse(rec: UnitRecord, u: Use): (r: UnitRecord)
    requires RecordValid(rec)
    ensures RecordValid(r)
    ensures u.ingredient in r.values && u.unit in r.values[u.ingredient].values
    ensures r.values[u.ingredient].values[u.unit] == Recorded(rec, u.ingredient, u.unit) + [u.meal]
    ensures forall unit :: unit in r.values[u.ingredient].values && unit != u.unit ==>
      u.ingredient in rec.values && unit in rec.values[u.ingredient].values
      && r.values[u.ingredient].values[unit] == rec.values[u.ingredient].values[unit]
    ensures forall ing :: ing in r.values && ing != u.ingredient ==>
      ing in rec.values && r.values[ing] == rec.values[ing]
    ensures forall ing :: ing in rec.values ==> ing in r.values && rec.values[ing].values.Keys <= r.values[ing].values.Keys
    ensures u.ingredient in rec.values && u.unit in rec.values[u.ingredient].values ==>
      r.keys == rec.keys && r.values[u.ingredient].keys == rec.values[u.ingredient].keys
  {
    var units := if u.ingredient in rec.values then rec.values[u.ingredient] else OrderedMap.Empty();
    OrderedMap.Put(rec, u.ingredient, OrderedMap.Put(units, u.unit, Recorded(rec, u.ingredient, u.unit) + [u.meal]))
  }

  lemma RecordUseRepresents(rec: UnitRecord, us: seq<Use>, u: Use)
    requires Represents(rec, us)
    ensures Represents(RecordUse(rec, u), us + [u])
  {
    var r := RecordUse(rec, u);
    var us' := us + [u];
    assert us'[..|us'| - 1] == us;
    forall i | 0 <= i < |us'|
      ensures us'[i].ingredient in r.values && us'[i].unit in r.values[us'[i].ingredient].values
    {
      if i < |us| {
        assert us'[i] == us[i];
      }
    }
    forall ing, unit | ing in r.values && unit in r.values[ing].values
      ensures r.values[ing].values[unit] == MealsWith(us', ing, unit)
      ensures |r.values[ing].values[unit]| > 0
    {
      assert MealsWith(us', ing, unit)
          == MealsWith(us, ing, unit) + (if u.ingredient == ing && u.unit == unit then [u.meal] else []);
      if ing == u.ingredient && unit == u.unit {
        if |MealsWith(us, ing, unit)| > 0 {
          MealsWithNonEmpty(us, ing, unit);
        }
        assert Recorded(rec, ing, unit) == MealsWith(us, ing, unit);
      }
    }
  }

  // ---------------------------------------------------------------------------
  // checkFileFormat
  // ---------------------------------------------------------------------------

  /** The checks on one ingredient's value map, in the order `checkFileFormat`
      runs them; the first one that fails is reported. On success, the unit. */
  function CheckAmount(prefix: string, meal: string, ingredient: string, amount: seq<(Node, Node)>): (r: Result<string>)
    ensures r.Ok? <==> AmountWellFormed(NMap(amount))
    ensures r.Ok? ==> r.value == Get(amount, "unit").s
    ensures r.Err? ==> prefix <= r.error.message
  {
    var where := "ingredient '" + ingredient + "' in meal '" + meal + "'";
    if !HasKey(amount, "quantity") then
      Err(FormatError(MissingQuantity, prefix + where + " misses the key 'quantity'"))
    else if !IsNumber(Get(amount, "quantity")) then
      Err(FormatError(QuantityNotNumber, prefix + "key 'quantity' of " + where + " is not a number"))
    else if !HasKey(amount, "unit") then
      Err(FormatError(MissingUnit, prefix + where + " misses the key 'unit'"))
    else if !Get(amount, "unit").NStr? then
      Err(FormatError(UnitNotString, prefix + "key 'unit' of " + where + " is not a string"))
    else if |amount| != 2 then
      Err(FormatError(UnexpectedKey, prefix + where + " has one or several keys that are not 'quantity' or 'unit'"))
    else
      Ok(Get(amount, "unit").s)
  }

  /** The checks on an ingredient's value run in a fixed order: presence of
      `quantity`, its type, presence of `unit`, its type, and last the number
      of keys. The first that fails names the error. */
  lemma AmountCheckOrder(prefix: string, meal: string, ingredient: string, amount: seq<(Node, Node)>)
    ensures !HasKey(amount, "quantity") ==> CheckAmount(prefix, meal, ingredient, amount).FailsWith(MissingQuantity)
    ensures HasKey(amount, "quantity") && !IsNumber(Get(amount, "quantity")) ==>
      CheckAmount(prefix, meal, ingredient, amount).FailsWith(QuantityNotNumber)
    ensures HasKey(amount, "quantity") && IsNumber(Get(amount, "quantity")) && !HasKey(amount, "unit") ==>
      CheckAmount(prefix, meal, ingredient, amount).FailsWith(MissingUnit)
    ensures HasKey(amount, "quantity") && IsNumber(Get(amount, "quantity")) && HasKey(amount, "unit")
            && !Get(amount, "unit").NStr? ==>
      CheckAmount(prefix, meal, ingredient, amount).FailsWith(UnitNotString)
    ensures HasKey(amount, "quantity") && IsNumber(Get(amount, "quantity")) && HasKey(amount, "unit")
            && Get(amount, "unit").NStr? && |amount| != 2 ==>
      CheckAmount(prefix, meal, ingredient, amount).FailsWith(UnexpectedKey)
  {
  }

  /** The inner loop of the first pass: checks the ingredients of `meal` in
      order and records each one's unit. */
  function CheckIngredients(prefix: string, meal: string, ings: seq<(Node, Node)>, rec: UnitRecord): (r: Result<UnitRecord>)
    requires RecordValid(rec)
    ensures r.Ok? <==> forall k :: 0 <= k < |ings| ==> IngredientWellFormed(ings[k])
    ensures r.Ok? ==> RecordValid(r.value)
    ensures r.Err? ==> prefix <= r.error.message && r.error.kind != InconsistentUnit
    decreases |ings|
  {
    if |ings| == 0 then Ok(rec)
    else
      var (key, value) := ings[0];
      if !key.NStr? then
        Err(FormatError(IngredientNameNotString,
                        prefix + "ingredient '" + Show(key) + "' in meal '" + meal + "' is not a string"))
      else if !value.NMap? then
        Err(FormatError(IngredientValueNotMapping,
                        prefix + "value of ingredient '" + key.s + "' in meal '" + meal + "' is not a dictionary"))
      else
        match CheckAmount(prefix, meal, key.s, value.entries)
        case Err(e) => Err(e)
        case Ok(unit) =>
          var r := CheckIngredients(prefix, meal, ings[1..], RecordUse(rec, Use(meal, key.s, unit)));
          assert r.Ok? <==> forall k :: 0 <= k < |ings| ==> IngredientWellFormed(ings[k]) by {
            assert forall k :: 1 <= k < |ings| ==> ings[k] == ings[1..][k - 1];
          }
          r
  }

  /** The outer loop of the first pass: checks the meals in order. */
  function CheckMeals(prefix: string, meals: seq<(Node, Node)>, rec: UnitRecord): (r: Result<UnitRecord>)
    requires RecordValid(rec)
    ensures r.Ok? <==> forall k :: 0 <= k < |meals| ==> MealWellFormed(meals[k])
    ensures r.Ok? ==> RecordValid(r.value)
    ensures r.Err? ==> prefix <= r.error.message && r.error.kind != InconsistentUnit
    decreases |meals|
  {
    if |meals| == 0 then Ok(rec)
    else
      var (key, value) := meals[0];
      if !key.NStr? then
        Err(FormatError(MealNameNotString, prefix + "the key '" + Show(key) + "' is not a string"))
      else if !value.NMap? then
        Err(FormatError(MealValueNotMapping, prefix + "the value of the key '" + key.s + "' is not a dictionary"))
      else
        match CheckIngredients(prefix, key.s, value.entries, rec)
        case Err(e) => Err(e)
        case Ok(rec') =>
          var r := CheckMeals(prefix, meals[1..], rec');
          assert r.Ok? <==> forall k :: 0 <= k < |meals| ==> MealWellFormed(meals[k]) by {
            assert forall k :: 1 <= k < |meals| ==> meals[k] == meals[1..][k - 1];
          }
          r
  }

  /** The meals listed under `unit`, none when the unit is not listed. */
  function MealsUnder(units: UnitMeals, unit: string): seq<string> {
    if unit in units.values then units.values[unit] else []
  }

  /** `'g' in [risotto, paella]` for each unit in `unitNames`, in that order. */
  function UnitParts(units: UnitMeals, unitNames: seq<string>): seq<string> {
    if |unitNames| == 0 then []
    else ["'" + unitNames[0] + "' in " + Text.ShowList(MealsUnder(units, unitNames[0]))]
         + UnitParts(units, unitNames[1..])
  }

  function InconsistentUnitError(prefix: string, ingredient: string, units: UnitMeals): FormatError {
    FormatError(InconsistentUnit,
                prefix + "ingredient '" + ingredient + "' uses several units: " + Text.Join(", ", UnitParts(units, units.keys)))
  }

  /** The second pass: visits the recorded ingredients `ings` in order and
      fails on the first one recorded with more than one unit. */
  function CheckUnits(prefix: string, rec: UnitRecord, ings: seq<string>): (r: Outcome)
    requires RecordValid(rec)
    requires forall k :: 0 <= k < |ings| ==> ings[k] in rec.values
    ensures r.Pass? <==> forall k :: 0 <= k < |ings| ==> |rec.values[ings[k]].keys| <= 1
    ensures r.Fail? ==> prefix <= r.error.message
    ensures r.Fail? ==> exists k :: 0 <= k < |ings| && |rec.values[ings[k]].keys| > 1
                                 && r.error == InconsistentUnitError(prefix, ings[k], rec.values[ings[k]])
  {
    if |ings| == 0 then Pass
    else if |rec.values[ings[0]].keys| > 1 then
      Fail(InconsistentUnitError(prefix, ings[0], rec.values[ings[0]]))
    else
      var r := CheckUnits(prefix, rec, ings[1..]);
      assert forall k :: 1 <= k < |ings| ==> ings[k] == ings[1..][k - 1];
      r
  }

  /** The first pass over all meals, starting from an empty record. */
  function FirstPass(prefix: string, meals: seq<(Node, Node)>): (r: Result<UnitRecord>)
    ensures r.Ok? <==> forall k :: 0 <= k < |meals| ==> MealWellFormed(meals[k])
    ensures r.Ok? ==> RecordValid(r.value)
    ensures r.Err? ==> prefix <= r.error.message && r.error.kind != InconsistentUnit
  {
    CheckMeals(prefix, meals, OrderedMap.Empty())
  }

  /** `MealsHandler.checkFileFormat`. */
  function CheckFileFormat(fileName: string, content: Node): (r: Outcome)
    ensures r.Fail? ==> ErrorPrefix(fileName) <= r.error.message
    ensures !content.NMap? ==>
      r == Fail(FormatError(NotAMapping, ErrorPrefix(fileName) + "the root element is not a dictionary"))
  {
    var prefix := ErrorPrefix(fileName);
    if !content.NMap? then Fail(FormatError(NotAMapping, prefix + "the root element is not a dictionary"))
    else
      match FirstPass(prefix, content.entries)
      case Err(e) => Fail(e)
      case Ok(rec) => CheckUnits(prefix, rec, rec.keys)
  }

  // ---------------------------------------------------------------------------
  // What checkFileFormat accepts
  // ---------------------------------------------------------------------------

  lemma AppendAssociative<T>(a: seq<T>, b: seq<T>, c: seq<T>)
    ensures a + b + c == a + (b + c)
  {
  }

  lemma {:induction false} IngredientsRecorded(prefix: string, meal: string, ings: seq<(Node, Node)>,
                                                rec: UnitRecord, done: seq<Use>)
    requires Represents(rec, done)
    requires CheckIngredients(prefix, meal, ings, rec).Ok?
    ensures Represents(CheckIngredients(prefix, meal, ings, rec).value, done + IngredientUses(meal, ings))
    decreases |ings|
  {
    if |ings| == 0 {
      assert done + IngredientUses(meal, ings) == done;
    } else {
      assert IngredientWellFormed(ings[0]);
      var u := Use(meal, ings[0].0.s, Get(ings[0].1.entries, "unit").s);
      assert CheckAmount(prefix, meal, u.ingredient, ings[0].1.entries) == Ok(u.unit);
      assert CheckIngredients(prefix, meal, ings, rec) == CheckIngredients(prefix, meal, ings[1..], RecordUse(rec, u));
      assert IngredientUses(meal, ings) == [u] + IngredientUses(meal, ings[1..]);
      AppendAssociative(done, [u], IngredientUses(meal, ings[1..]));
      RecordUseRepresents(rec, done, u);
      IngredientsRecorded(prefix, meal, ings[1..], RecordUse(rec, u), done + [u]);
    }
  }

  lemma {:induction false} MealsRecorded(prefix: string, meals: seq<(Node, Node)>, rec: UnitRecord, done: seq<Use>)
    requires Represents(rec, done)
    requires CheckMeals(prefix, meals, rec).Ok?
    ensures Represents(CheckMeals(prefix, meals, rec).value, done + MealUses(meals))
    decreases |meals|
  {
    if |meals| == 0 {
      assert done + MealUses(meals) == done;
    } else {
      assert MealWellFormed(meals[0]);
      var (key, value) := meals[0];
      var rec' := CheckIngredients(prefix, key.s, value.entries, rec).value;
      assert CheckMeals(prefix, meals, rec) == CheckMeals(prefix, meals[1..], rec');
      assert MealUses(meals) == IngredientUses(key.s, value.entries) + MealUses(meals[1..]);
      IngredientsRecorded(prefix, key.s, value.entries, rec, done);
      var done' := done + IngredientUses(key.s, value.entries);
      AppendAssociative(done, IngredientUses(key.s, value.entries), MealUses(meals[1..]));
      MealsRecorded(prefix, meals[1..], rec', done');
    }
  }

  /** The second pass passes exactly when the recorded occurrences never pair
      one ingredient with two units. */
  lemma UnitsCheckExact(prefix: string, rec: UnitRecord, us: seq<Use>)
    requires Represents(rec, us)
    ensures CheckUnits(prefix, rec, rec.keys).Pass? ==> UnitsConsistent(us)
    ensures UnitsConsistent(us) ==> CheckUnits(prefix, rec, rec.keys).Pass?
  {
    if UnitsConsistent(us) {
      forall k | 0 <= k < |rec.keys| ensures |rec.values[rec.keys[k]].keys| <= 1 {
        var ing := rec.keys[k];
        var units := rec.values[ing];
        if |units.keys| > 1 {
          MealsWithNonEmpty(us, ing, units.keys[0]);
          MealsWithNonEmpty(us, ing, units.keys[1]);
          assert false;
        }
      }
    } else {
      var i, j :| 0 <= i < |us| && 0 <= j < |us| && us[i].ingredient == us[j].ingredient && us[i].unit != us[j].unit;
      var ing := us[i].ingredient;
      var k :| 0 <= k < |rec.keys| && rec.keys[k] == ing;
      OrderedMap.SizeAboveOne(rec.values[ing]);
      assert |rec.values[rec.keys[k]].keys| > 1;
    }
  }

  /** The first pass over a well-formed document succeeds and records exactly
      the document's ingredient occurrences. */
  lemma FirstPassRecords(prefix: string, content: Node)
    requires WellFormedCatalogue(content)
    ensures FirstPass(prefix, content.entries).Ok?
    ensures Represents(FirstPass(prefix, content.entries).value, DocumentUses(content))
  {
    var empty: UnitRecord := OrderedMap.Empty();
    MealsRecorded(prefix, content.entries, empty, []);
    assert [] + MealUses(content.entries) == DocumentUses(content);
  }

  /** `checkFileFormat` accepts a document exactly when every record has the
      two-level shape and no ingredient name is used with two different units. */
  lemma AcceptsExactly(fileName: string, content: Node)
    ensures CheckFileFormat(fileName, content).Pass? ==>
            WellFormedCatalogue(content) && UnitsConsistent(DocumentUses(content))
    ensures WellFormedCatalogue(content) && UnitsConsistent(DocumentUses(content)) ==>
            CheckFileFormat(fileName, content).Pass?
  {
    if WellFormedCatalogue(content) {
      var prefix := ErrorPrefix(fileName);
      FirstPassRecords(prefix, content);
      UnitsCheckExact(prefix, FirstPass(prefix, content.entries).value, DocumentUses(content));
    }
  }

  // ---------------------------------------------------------------------------
  // Corollaries: what is rejected, and how
  // ---------------------------------------------------------------------------

  /** A record that breaks the two-level shape is rejected by the first pass,
      never by the unit check. */
  lemma MalformedRejectedByFirstPass(fileName: string, content: Node)
    requires !WellFormedCatalogue(content)
    ensures CheckFileFormat(fileName, content).Fail?
    ensures !CheckFileFormat(fileName, content).FailsWith(InconsistentUnit)
  {
  }

  /** The four structural rejections: a meal name that is not a string, a meal
      value that is not a map, an ingredient name that is not a string, an
      ingredient value that is not a map. */
  lemma StructuralRejections(fileName: string, content: Node, m: nat, i: nat)
    requires content.NMap? && m < |content.entries|
    ensures !content.entries[m].0.NStr? ==> CheckFileFormat(fileName, content).Fail?
    ensures !content.entries[m].1.NMap? ==> CheckFileFormat(fileName, content).Fail?
    ensures content.entries[m].1.NMap? && i < |content.entries[m].1.entries| ==>
      var ingredient := content.entries[m].1.entries[i];
      !ingredient.0.NStr? || !ingredient.1.NMap? ==> CheckFileFormat(fileName, content).Fail?
  {
  }

  /** An ingredient map holding a valid `quantity`, a valid `unit` and any
      further key fails, and only the key-count check rejects it. */
  lemma ExtraKeyRejectedBySize(prefix: string, meal: string, ingredient: string,
                               amount: seq<(Node, Node)>, extra: seq<(Node, Node)>)
    requires AmountWellFormed(NMap(amount))
    requires |extra| > 0
    requires forall k :: 0 <= k < |extra| ==> extra[k].0 != NStr("quantity") && extra[k].0 != NStr("unit")
    ensures CheckAmount(prefix, meal, ingredient, amount + extra).FailsWith(UnexpectedKey)
  {
    var all := amount + extra;
    GetPrefix(amount, extra, "quantity");
    GetPrefix(amount, extra, "unit");
    AmountCheckOrder(prefix, meal, ingredient, all);
  }

  /** Looking up a key present in `a` is unaffected by entries appended after it. */
  lemma {:induction false} GetPrefix(a: seq<(Node, Node)>, b: seq<(Node, Node)>, key: string)
    requires HasKey(a, key)
    ensures HasKey(a + b, key) && Get(a + b, key) == Get(a, key)
  {
    var k :| 0 <= k < |a| && a[k].0 == NStr(key);
    assert (a + b)[k] == a[k];
    if a[0].0 != NStr(key) {
      assert a[1..][k - 1] == a[k];
      GetPrefix(a[1..], b, key);
      assert (a + b)[1..] == a[1..] + b;
    }
  }

  /** The ingredient entry `e` is `ingredient` with unit `unit`. */
  predicate ListsIngredient(e: (Node, Node), ingredient: string, unit: string) {
    e.0 == NStr(ingredient) && e.1.NMap? && Get(e.1.entries, "unit") == NStr(unit)
  }

  /** The meal entry `e` is `u.meal` and lists `u.ingredient` with `u.unit`. */
  predicate ListsMeal(e: (Node, Node), u: Use) {
    && e.0 == NStr(u.meal)
    && e.1.NMap?
    && exists k :: 0 <= k < |e.1.entries| && ListsIngredient(e.1.entries[k], u.ingredient, u.unit)
  }

  /** Where the occurrences come from: in a well-formed document, `Use(m, i, u)`
      is an occurrence exactly when meal `m` lists ingredient `i` with unit `u`. */
  lemma {:induction false} IngredientUsesExact(meal: string, ings: seq<(Node, Node)>, u: Use)
    requires forall k :: 0 <= k < |ings| ==> IngredientWellFormed(ings[k])
    ensures u in IngredientUses(meal, ings) <==>
      u.meal == meal && exists k :: 0 <= k < |ings| && ListsIngredient(ings[k], u.ingredient, u.unit)
  {
    if |ings| > 0 {
      IngredientUsesExact(meal, ings[1..], u);
      assert forall k :: 1 <= k < |ings| ==> ings[k] == ings[1..][k - 1];
    }
  }

  lemma {:induction false} MealUsesExact(meals: seq<(Node, Node)>, u: Use)
    requires forall k :: 0 <= k < |meals| ==> MealWellFormed(meals[k])
    ensures u in MealUses(meals) <==>
      exists m :: 0 <= m < |meals| && ListsMeal(meals[m], u)
  {
    if |meals| > 0 {
      var name := meals[0].0.s;
      assert MealWellFormed(meals[0]);
      IngredientUsesExact(name, meals[0].1.entries, u);
      assert u in IngredientUses(name, meals[0].1.entries) <==> ListsMeal(meals[0], u);
      assert forall k :: 1 <= k < |meals| ==> meals[k] == meals[1..][k - 1];
      MealUsesExact(meals[1..], u);
      assert MealUses(meals) == IngredientUses(name, meals[0].1.entries) + MealUses(meals[1..]);
      if exists m :: 0 <= m < |meals| && ListsMeal(meals[m], u) {
        var m :| 0 <= m < |meals| && ListsMeal(meals[m], u);
        if m > 0 {
          assert ListsMeal(meals[1..][m - 1], u);
        }
      }
    }
  }

  /** For each unit in `units`, in order, the unit with the meals in which
      `ingredient` occurs with it. */
  function UnitsListing(us: seq<Use>, ingredient: string, units: seq<string>): seq<string> {
    if |units| == 0 then []
    else ["'" + units[0] + "' in " + Text.ShowList(MealsWith(us, ingredient, units[0]))]
         + UnitsListing(us, ingredient, units[1..])
  }

  /** `message` reports `ingredient` as used with several units, and `units`
      lists every unit observed for it, each once, with the meals that used it. */
  ghost predicate ReportsUnits(message: string, prefix: string, us: seq<Use>, ingredient: string, units: seq<string>) {
    && |units| > 1
    && (forall a, b :: 0 <= a < b < |units| ==> units[a] != units[b])
    && (forall unit :: unit in units <==>
          exists i :: 0 <= i < |us| && us[i].ingredient == ingredient && us[i].unit == unit)
    && message == prefix + "ingredient '" + ingredient + "' uses several units: "
                  + Text.Join(", ", UnitsListing(us, ingredient, units))
  }

  /** A document of the right shape that pairs one ingredient with two units
      fails the unit check. The message names one such ingredient and lists
      every unit observed for it, once each, with the meals that used that unit. */
  lemma InconsistentUnitReported(fileName: string, content: Node)
    requires WellFormedCatalogue(content)
    requires !UnitsConsistent(DocumentUses(content))
    ensures CheckFileFormat(fileName, content).FailsWith(InconsistentUnit)
    ensures exists ingredient: string, units: seq<string> ::
      ReportsUnits(CheckFileFormat(fileName, content).error.message, ErrorPrefix(fileName),
                   DocumentUses(content), ingredient, units)
  {
    AcceptsExactly(fileName, content);
    var prefix := ErrorPrefix(fileName);
    FirstPassRecords(prefix, content);
    var rec := FirstPass(prefix, content.entries).value;
    SecondPassDecides(fileName, content);
    UnitCheckReports(prefix, rec, DocumentUses(content));
  }

  /** The position of the ingredient the unit check fails on. */
  lemma FailingIngredient(prefix: string, rec: UnitRecord) returns (k: nat)
    requires RecordValid(rec)
    requires CheckUnits(prefix, rec, rec.keys).Fail?
    ensures k < |rec.keys| && |rec.values[rec.keys[k]].keys| > 1
    ensures CheckUnits(prefix, rec, rec.keys).error == InconsistentUnitError(prefix, rec.keys[k], rec.values[rec.keys[k]])
  {
    assert OrderedMap.Valid(rec);
    var r := CheckUnits(prefix, rec, rec.keys);
    k :| 0 <= k < |rec.keys| && |rec.values[rec.keys[k]].keys| > 1
         && r.error == InconsistentUnitError(prefix, rec.keys[k], rec.values[rec.keys[k]]);
  }

  /** When the unit check fails on a record of `us`, its error reports one
      ingredient with all of its units. */
  lemma UnitCheckReports(prefix: string, rec: UnitRecord, us: seq<Use>)
    requires Represents(rec, us)
    requires CheckUnits(prefix, rec, rec.keys).Fail?
    ensures CheckUnits(prefix, rec, rec.keys).FailsWith(InconsistentUnit)
    ensures exists ingredient: string, units: seq<string> ::
      ReportsUnits(CheckUnits(prefix, rec, rec.keys).error.message, prefix, us, ingredient, units)
  {
    var k := FailingIngredient(prefix, rec);
    RecordedUnits(prefix, rec, us, rec.keys[k]);
  }

  /** Once the first pass succeeds, the unit check decides. */
  lemma SecondPassDecides(fileName: string, content: Node)
    requires content.NMap? && FirstPass(ErrorPrefix(fileName), content.entries).Ok?
    ensures var rec := FirstPass(ErrorPrefix(fileName), content.entries).value;
      CheckFileFormat(fileName, content) == CheckUnits(ErrorPrefix(fileName), rec, rec.keys)
  {
  }

  lemma {:induction false} PartsMatchListing(rec: UnitRecord, us: seq<Use>, ingredient: string, unitNames: seq<string>)
    requires Represents(rec, us) && ingredient in rec.values
    requires forall k :: 0 <= k < |unitNames| ==> unitNames[k] in rec.values[ingredient].values
    ensures UnitParts(rec.values[ingredient], unitNames) == UnitsListing(us, ingredient, unitNames)
  {
    if |unitNames| > 0 {
      PartsMatchListing(rec, us, ingredient, unitNames[1..]);
    }
  }

  /** The error the unit check raises for a recorded ingredient lists the
      units observed for it, each once, each with the meals that used it. */
  lemma RecordedUnits(prefix: string, rec: UnitRecord, us: seq<Use>, ingredient: string)
    requires Represents(rec, us) && ingredient in rec.values
    requires |rec.values[ingredient].keys| > 1
    ensures ReportsUnits(InconsistentUnitError(prefix, ingredient, rec.values[ingredient]).message,
                         prefix, us, ingredient, rec.values[ingredient].keys)
  {
    var units := rec.values[ingredient];
    PartsMatchListing(rec, us, ingredient, units.keys);
    forall unit
      ensures unit in units.keys <==>
              exists i :: 0 <= i < |us| && us[i].ingredient == ingredient && us[i].unit == unit
    {
      if unit in units.keys {
        MealsWithNonEmpty(us, ingredient, unit);
      }
    }
  }

  /** The first pass of an accepted document records, for each ingredient, a
      single unit, and under it every meal using the ingredient, in order: the
      list grows by one entry per occurrence. */
  lemma ConsistentRecord(fileName: string, content: Node, i: nat)
    requires CheckFileFormat(fileName, content).Pass?
    requires i < |DocumentUses(content)|
    ensures var us := DocumentUses(content);
      var rec := FirstPass(ErrorPrefix(fileName), content.entries).value;
      && us[i].ingredient in rec.values
      && rec.values[us[i].ingredient].keys == [us[i].unit]
      && rec.values[us[i].ingredient].values[us[i].unit] == MealsWith(us, us[i].ingredient, us[i].unit)
  {
    AcceptsExactly(fileName, content);
    var prefix := ErrorPrefix(fileName);
    var us := DocumentUses(content);
    FirstPassRecords(prefix, content);
    var rec := FirstPass(prefix, content.entries).value;
    var ing := us[i].ingredient;
    var units := rec.values[ing];
    var k :| 0 <= k < |rec.keys| && rec.keys[k] == ing;
    assert |units.keys| <= 1;
    assert units.keys[0] in units.values;
    MealsWithNonEmpty(us, ing, units.keys[0]);
  }

  // ---------------------------------------------------------------------------
  // convertToStructuredObject, getAvailableMealsNames, the constructor
  // ---------------------------------------------------------------------------

  /** `((Number) quantity).floatValue()`, taken without rounding. */
  function QuantityValue(n: Node): real
    requires IsNumber(n)
  {
    if n.NInt? then n.i as real else n.d
  }

  function ConvertAmount(amount: seq<(Node, Node)>): (r: IngredientAmount)
    requires AmountWellFormed(NMap(amount))
    ensures NStr(r.unit) == Get(amount, "unit")
  {
    IngredientAmount(QuantityValue(Get(amount, "quantity")), Get(amount, "unit").s)
  }

  /** The ingredients of one meal, put into a fresh map in iteration order. */
  function ConvertIngredients(ings: seq<(Node, Node)>): (r: map<string, IngredientAmount>)
    requires forall k :: 0 <= k < |ings| ==> IngredientWellFormed(ings[k])
    ensures forall name :: name in r <==> HasKey(ings, name)
  {
    if |ings| == 0 then map[]
    else
      var last := ings[|ings| - 1];
      assert IngredientWellFormed(last);
      assert forall k :: 0 <= k < |ings| - 1 ==> ings[k] == ings[..|ings| - 1][k];
      ConvertIngredients(ings[..|ings| - 1])[last.0.s := ConvertAmount(last.1.entries)]
  }

  /** In a map without repeated keys, every ingredient is converted from its
      own amount. */
  lemma {:induction false} ConvertIngredientsValue(ings: seq<(Node, Node)>, k: nat)
    requires forall j :: 0 <= j < |ings| ==> IngredientWellFormed(ings[j])
    requires DistinctKeys(ings) && k < |ings|
    ensures IngredientWellFormed(ings[k])
    ensures ings[k].0.s in ConvertIngredients(ings)
    ensures ConvertIngredients(ings)[ings[k].0.s] == ConvertAmount(ings[k].1.entries)
  {
    var last := ings[|ings| - 1];
    assert IngredientWellFormed(last);
    if k < |ings| - 1 {
      var init := ings[..|ings| - 1];
      assert init[k] == ings[k];
      assert forall j :: 0 <= j < |init| ==> init[j] == ings[j];
      ConvertIngredientsValue(init, k);
      assert ings[k].0 != last.0;
    }
  }

  /** The ingredients of one well-formed meal entry. */
  function ConvertMeal(e: (Node, Node)): map<string, IngredientAmount>
    requires MealWellFormed(e)
  {
    ConvertIngredients(e.1.entries)
  }

  /** The meals, put into a fresh map in iteration order. */
  function ConvertMeals(meals: seq<(Node, Node)>): (r: Catalogue)
    requires forall k :: 0 <= k < |meals| ==> MealWellFormed(meals[k])
    ensures forall name :: name in r <==> HasKey(meals, name)
  {
    if |meals| == 0 then map[]
    else
      var last := meals[|meals| - 1];
      assert MealWellFormed(last);
      assert forall k :: 0 <= k < |meals| - 1 ==> meals[k] == meals[..|meals| - 1][k];
      ConvertMeals(meals[..|meals| - 1])[last.0.s := ConvertMeal(last)]
  }

  /** In a map without repeated keys, every meal is converted from its own
      ingredients. */
  lemma {:induction false} ConvertMealsValue(meals: seq<(Node, Node)>, k: nat)
    requires forall j :: 0 <= j < |meals| ==> MealWellFormed(meals[j])
    requires DistinctKeys(meals) && k < |meals|
    ensures MealWellFormed(meals[k])
    ensures meals[k].0.s in ConvertMeals(meals)
    ensures ConvertMeals(meals)[meals[k].0.s] == ConvertIngredients(meals[k].1.entries)
  {
    var last := meals[|meals| - 1];
    assert MealWellFormed(last);
    if k < |meals| - 1 {
      var init := meals[..|meals| - 1];
      assert init[k] == meals[k];
      assert forall j :: 0 <= j < |init| ==> init[j] == meals[j];
      ConvertMealsValue(init, k);
      assert meals[k].0 != last.0;
    }
  }

  /** `convertToStructuredObject`: defined on documents of the checked shape. */
  function Convert(content: Node): (r: Catalogue)
    requires WellFormedCatalogue(content)
    ensures forall name :: name in r <==> HasKey(content.entries, name)
  {
    ConvertMeals(content.entries)
  }

  /** For a document that passed the check (and whose maps, as Java maps do,
      hold each key once), the catalogue has the same meals, each with the
      same ingredients; every unit is copied and every quantity converted. */
  lemma ConvertKeepsContent(fileName: string, content: Node, m: nat, i: nat)
    requires CheckFileFormat(fileName, content).Pass?
    requires content.NMap? && DistinctKeys(content.entries)
    requires m < |content.entries| && content.entries[m].1.NMap?
    requires DistinctKeys(content.entries[m].1.entries)
    requires i < |content.entries[m].1.entries|
    ensures var catalogue := Convert(content);
      var (mealKey, ingredients) := content.entries[m];
      var (ingredientKey, amount) := ingredients.entries[i];
      && mealKey.NStr? && ingredientKey.NStr? && amount.NMap?
      && mealKey.s in catalogue
      && (forall name :: name in catalogue[mealKey.s] <==> HasKey(ingredients.entries, name))
      && ingredientKey.s in catalogue[mealKey.s]
      && NStr(catalogue[mealKey.s][ingredientKey.s].unit) == Get(amount.entries, "unit")
      && catalogue[mealKey.s][ingredientKey.s].quantity == QuantityValue(Get(amount.entries, "quantity"))
  {
    AcceptsExactly(fileName, content);
    ConvertMealsValue(content.entries, m);
    ConvertIngredientsValue(content.entries[m].1.entries, i);
  }

  /** `getAvailableMealsNames`: the meal names in ascending order. */
  method AvailableMealNames(meals: Catalogue) returns (names: seq<string>)
    ensures StringOrder.StrictlyAscending(names)
    ensures forall name :: name in names <==> name in meals
    ensures |names| == |meals|
  {
    names := StringOrder.SortedKeys(meals);
  }

  /** The constructor: check the loaded content, then convert it. */
  function Load(fileName: string, content: Node): (r: Result<Catalogue>)
    ensures r.Ok? <==> WellFormedCatalogue(content) && UnitsConsistent(DocumentUses(content))
    ensures r.Err? ==> CheckFileFormat(fileName, content) == Fail(r.error)
    ensures r.Ok? ==> forall name :: name in r.value <==> HasKey(content.entries, name)
  {
    AcceptsExactly(fileName, content);
    match CheckFileFormat(fileName, content)
    case Fail(e) => Err(e)
    case Pass => Ok(Convert(content))
  }

  // ---------------------------------------------------------------------------
  // Documents from the tests and the edge cases
  // ---------------------------------------------------------------------------

  function Amount(quantity: Node, unit: Node): (r: Node)
    ensures r.NMap? && |r.entries| == 2
    ensures HasKey(r.entries, "quantity") && Get(r.entries, "quantity") == quantity
    ensures HasKey(r.entries, "unit") && Get(r.entries, "unit") == unit
    ensures AmountWellFormed(r) <==> IsNumber(quantity) && unit.NStr?
  {
    var r := NMap([(NStr("quantity"), quantity), (NStr("unit"), unit)]);
    assert r.entries[0].0 == NStr("quantity") && r.entries[1].0 == NStr("unit");
    r
  }

  /** An empty catalogue, a meal without ingredients, a negative quantity and
      a fractional quantity are all accepted. */
  lemma EdgeCasesAccepted(fileName: string)
    ensures CheckFileFormat(fileName, NMap([])).Pass?
    ensures CheckFileFormat(fileName, NMap([(NStr("risotto"), NMap([]))])).Pass?
    ensures CheckFileFormat(fileName, NMap([(NStr("risotto"), NMap([(NStr("riz"), Amount(NInt(-3), NStr("g")))]))])).Pass?
    ensures CheckFileFormat(fileName, NMap([(NStr("risotto"), NMap([(NStr("riz"), Amount(NDbl(1.5), NStr("g")))]))])).Pass?
  {
  }

  /** A quantity too large for an `Integer` is read as a `Long` and rejected. */
  lemma LongQuantityRejected(prefix: string)
    ensures CheckAmount(prefix, "risotto", "riz", Amount(NInt(INT_MAX + 1), NStr("g")).entries).FailsWith(QuantityNotNumber)
  {
  }

  /** The same ingredient in grams in one meal and in kilograms in another is
      rejected by the unit check. */
  lemma TwoUnitsRejected(fileName: string)
    ensures CheckFileFormat(fileName, NMap([(NStr("risotto"), NMap([(NStr("riz"), Amount(NInt(1), NStr("g")))])),
                                            (NStr("riz cantonnais"), NMap([(NStr("riz"), Amount(NInt(1), NStr("kg")))]))]))
            .FailsWith(InconsistentUnit)
  {
  }
}
