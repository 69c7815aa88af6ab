# Food shopping list: document validators, in Dafny

This project models the part of the food-shopping-list program that decides
whether a loaded YAML document can be trusted, and what it becomes once it is.

- **`MealsHandler`** (`meals_handler.dfy`) checks a meal catalogue of the form
  meal → ingredient → `{quantity, unit}`. It runs a fail-fast first pass over
  every meal and ingredient. That pass records, per ingredient, which units
  were used and in which meals. A second pass then rejects any ingredient
  seen with more than one unit. An accepted document is converted into
  typed `IngredientAmount`s, and its meal names can be listed in ascending
  order.
- **`FrontendHandler`** (`frontend_handler.dfy`) checks the text assets, a
  flat string → string table, and keeps the document as the asset table. It
  also renders the numbered meal listing (`1. pâtes`, `2. risotto`, ...).
- **`TextAssetsLoader`** (`text_assets_loader.dfy`) holds a second check on
  the text assets. It uses the same rule, but its messages carry no file
  name.

Supporting modules:

- `Yaml` (`yaml.dfy`) is the untyped tree SnakeYAML produces. A map is a
  sequence of key/value pairs in iteration order. `Get` models `Map.get`;
  `Show` models `toString` as the messages use it.
- `FormatErrors` (`format_errors.dfy`) is `FileFormatException` as a value.
  It has a kind naming the `throw` site and the exact message.
- `OrderedMap` (`ordered_map.dfy`) stands for the validator's `HashMap`s.
- `StringOrder` (`string_order.dfy`) is `String.compareTo` and sorting.
- `Text` (`text.dfy`) renders integers, lists and `String.join`.

Each validator is a pure function returning `Pass` or `Fail(error)`. Each is
proved equal to a declarative description of the documents it accepts:

- `MealsHandler.WellFormedCatalogue` together with
  `MealsHandler.UnitsConsistent`;
- `FrontendHandler.IsTextTable`.

Java's `HashMap` iteration order is unspecified. The model fixes it: a
document's maps are visited in the order of their entry sequence, and the
unit record in insertion order. Facts about which error wins are stated
relative to that order. Accept/reject facts do not depend on it.

A Java `Integer` is a 32-bit value. SnakeYAML reads a larger integral scalar
as a `Long` or a `BigInteger`, which is not `instanceof Integer`. So the
model rejects such a quantity as "not a number".

The model follows `checkFileFormat` as written:

- It checks the presence of `quantity`, then its type, then the presence of
  `unit`, then its type, and only then the number of keys.
- It visits entries in map iteration order.
- It has no sign check on quantities, so negative quantities are accepted
  (`MealsHandler.EdgeCasesAccepted`).

The text-asset checks require no particular key. A missing
`introduce_available_meals` prints as `null`.

## Model

| member | source | states |
|---|---|---|
| MealsHandler.CheckFileFormat | src/main/java/com/foodshoppinglist/MealsHandler.java:39-50 | every error message begins with `Error in <file>: `; a root that is not a map fails with exactly `the root element is not a dictionary` |
| MealsHandler.AcceptsExactly | src/main/java/com/foodshoppinglist/MealsHandler.java:49-116 | the check passes if and only if every meal key is a string, every meal value is a map from string keys to maps of exactly `quantity` (Integer or Double) and `unit` (String), and no ingredient name is used with two different units anywhere in the document |
| MealsHandler.MalformedRejectedByFirstPass | src/main/java/com/foodshoppinglist/MealsHandler.java:52-116 | the unit rule is judged only after the whole first pass: a document without the two-level shape is rejected by the first pass, never with the inconsistent-unit error, whatever units it uses |
| MealsHandler.StructuralRejections | src/main/java/com/foodshoppinglist/MealsHandler.java:54-68 | a non-string meal name, a non-map meal value, a non-string ingredient name or a non-map ingredient value anywhere makes the check fail |
| MealsHandler.CheckAmount | src/main/java/com/foodshoppinglist/MealsHandler.java:69-89 | the per-ingredient checks pass exactly for a map with a numeric `quantity`, a string `unit` and nothing else, and then yield that unit; their errors carry the file prefix |
| MealsHandler.AmountCheckOrder | src/main/java/com/foodshoppinglist/MealsHandler.java:70-89 | the first failing check names the error, in the order: `quantity` missing, `quantity` not a number, `unit` missing, `unit` not a string, a key count other than two |
| MealsHandler.ExtraKeyRejectedBySize | src/main/java/com/foodshoppinglist/MealsHandler.java:86-89 | a valid amount with extra keys passes every check but the size check, and fails on that one |
| MealsHandler.LongQuantityRejected | src/main/java/com/foodshoppinglist/MealsHandler.java:74-77 | a quantity just above the 32-bit range is not an `Integer` and is rejected as not a number |
| MealsHandler.CheckIngredients | src/main/java/com/foodshoppinglist/MealsHandler.java:59-97 | the inner loop succeeds if and only if every ingredient of the meal is well formed; its errors carry the prefix and are never unit errors |
| MealsHandler.CheckMeals | src/main/java/com/foodshoppinglist/MealsHandler.java:52-99 | the outer loop succeeds if and only if every meal is well formed, and then leaves a well-formed unit record |
| MealsHandler.RecordUse | src/main/java/com/foodshoppinglist/MealsHandler.java:92-96 | recording a use adds the meal at the end of the list for that ingredient and unit, creating the ingredient's map or the unit's list when new, and changes no other list |
| MealsHandler.RecordUseRepresents | src/main/java/com/foodshoppinglist/MealsHandler.java:91-96 | if the record described the uses so far, it describes them plus the new use after recording it |
| MealsHandler.IngredientsRecorded | src/main/java/com/foodshoppinglist/MealsHandler.java:59-97 | after the inner loop, the record describes the earlier uses followed by this meal's ingredients, in order |
| MealsHandler.MealsRecorded | src/main/java/com/foodshoppinglist/MealsHandler.java:52-99 | after the outer loop, the record describes every use in the document: each unit of each ingredient with the meals, in order, that use it |
| MealsHandler.FirstPassRecords | src/main/java/com/foodshoppinglist/MealsHandler.java:47-99 | on a well-formed document the first pass succeeds and its record describes exactly the document's uses |
| MealsHandler.IngredientUsesExact | src/main/java/com/foodshoppinglist/MealsHandler.java:59-96 | the uses of a meal are exactly the (meal, ingredient, unit) triples that the meal lists |
| MealsHandler.MealUsesExact | src/main/java/com/foodshoppinglist/MealsHandler.java:52-96 | the uses of a catalogue are exactly the triples that some meal of it lists |
| MealsHandler.ConsistentRecord | src/main/java/com/foodshoppinglist/MealsHandler.java:92-105 | in an accepted document an ingredient used many times with one unit is recorded with that single unit, and its meal list holds every meal that uses it, in order |
| MealsHandler.CheckUnits | src/main/java/com/foodshoppinglist/MealsHandler.java:101-116 | the second pass passes if and only if no visited ingredient has more than one unit; otherwise it reports one ingredient that does, with its units and meals |
| MealsHandler.UnitsCheckExact | src/main/java/com/foodshoppinglist/MealsHandler.java:101-116 | over a record of the document's uses, the second pass passes if and only if no ingredient is used with two units |
| MealsHandler.FailingIngredient | src/main/java/com/foodshoppinglist/MealsHandler.java:102-114 | a failing second pass names a recorded ingredient that has more than one unit |
| MealsHandler.PartsMatchListing | src/main/java/com/foodshoppinglist/MealsHandler.java:107-113 | the message parts built from the record are the units with the meals that use them in the document |
| MealsHandler.RecordedUnits | src/main/java/com/foodshoppinglist/MealsHandler.java:105-114 | for an ingredient recorded with several units, the message lists each of its units once with the meals that use it |
| MealsHandler.UnitCheckReports | src/main/java/com/foodshoppinglist/MealsHandler.java:101-115 | a failing second pass fails with the unit error, naming an ingredient and listing every unit observed for it with its meals |
| MealsHandler.InconsistentUnitReported | src/main/java/com/foodshoppinglist/MealsHandler.java:101-115 | a well-formed document pairing an ingredient with two units fails with the unit error; the message names an ingredient and lists all its units, each once, with the meals that used it |
| MealsHandler.TwoUnitsRejected | src/test/java/com/foodshoppinglist/MealsHandlerTest.java:52-58 | `riz` in grams in one meal and in kilograms in another is rejected by the unit check |
| MealsHandler.EdgeCasesAccepted | src/main/java/com/foodshoppinglist/MealsHandler.java:49-116 | an empty catalogue, a meal without ingredients, a negative quantity and a fractional quantity are all accepted |
| MealsHandler.ConvertAmount | src/main/java/com/foodshoppinglist/MealsHandler.java:144-148 | the converted unit is the document's `unit` string |
| MealsHandler.ConvertIngredients | src/main/java/com/foodshoppinglist/MealsHandler.java:142-149 | the converted meal has exactly the ingredient names of the document's meal |
| MealsHandler.ConvertIngredientsValue | src/main/java/com/foodshoppinglist/MealsHandler.java:142-149 | each ingredient is converted from its own amount |
| MealsHandler.ConvertMeals | src/main/java/com/foodshoppinglist/MealsHandler.java:136-150 | the catalogue has exactly the meal names of the document |
| MealsHandler.ConvertMealsValue | src/main/java/com/foodshoppinglist/MealsHandler.java:136-150 | each meal is converted from its own ingredient map |
| MealsHandler.Convert | src/main/java/com/foodshoppinglist/MealsHandler.java:132-152 | the result has exactly the document's meal names |
| MealsHandler.ConvertKeepsContent | src/main/java/com/foodshoppinglist/MealsHandler.java:132-151 | for an accepted document, every meal and ingredient is kept with the same ingredient names, the unit copied and the quantity converted |
| MealsHandler.AvailableMealNames | src/main/java/com/foodshoppinglist/MealsHandler.java:161-163 | the meal names are returned strictly ascending, each once, and nothing else |
| MealsHandler.Load | src/main/java/com/foodshoppinglist/MealsHandler.java:23-27 | the constructor succeeds if and only if the document has the two-level shape and no ingredient name is used with two units; otherwise it throws the check's error; on success the catalogue has exactly the document's meal names |
| Yaml.GetFindsKey | src/main/java/com/foodshoppinglist/MealsHandler.java:70-82 | `get` returns the value stored under a present key, and `null` for a missing one |
| OrderedMap.Put | src/main/java/com/foodshoppinglist/MealsHandler.java:92-96 | `put` sets the value of the key; a new key goes last and a present one keeps its place |
| OrderedMap.SizeAboveOne | src/main/java/com/foodshoppinglist/MealsHandler.java:105 | `size() > 1` holds exactly when the map has two different keys |
| StringOrder.LessTransitive | src/main/java/com/foodshoppinglist/MealsHandler.java:162 | the natural string order is transitive |
| StringOrder.LessTotal | src/main/java/com/foodshoppinglist/MealsHandler.java:162 | of two different strings, one comes before the other |
| StringOrder.Insert | src/main/java/com/foodshoppinglist/MealsHandler.java:162 | inserting a new string into an ascending list keeps it ascending and adds exactly that string |
| StringOrder.SortedKeys | src/main/java/com/foodshoppinglist/MealsHandler.java:162 | the keys of a map, strictly ascending, each exactly once |
| FrontendHandler.CheckFileFormat | src/main/java/com/foodshoppinglist/FrontendHandler.java:42-53 | the check passes if and only if the root is a map whose keys and values are all strings (the empty map passes, no key is required); every error begins with `Error in <file>: `; a root that is not a map fails with exactly `the root element is not a dictionary` |
| FrontendHandler.CheckEntries | src/main/java/com/foodshoppinglist/FrontendHandler.java:47-52 | the loop over the entries passes if and only if every key and every value is a string |
| FrontendHandler.EntryError | src/main/java/com/foodshoppinglist/FrontendHandler.java:48-51 | a non-string key is reported as a key error even when the value is not a string either; otherwise the value is reported |
| FrontendHandler.CheckEntriesReportsFirst | src/main/java/com/foodshoppinglist/FrontendHandler.java:47-52 | a failing loop reports the first offending entry in iteration order |
| FrontendHandler.RejectsFirstOffender | src/main/java/com/foodshoppinglist/FrontendHandler.java:47-52 | a rejected map is rejected with the error for its first offending entry |
| FrontendHandler.RejectsAnyOffender | src/main/java/com/foodshoppinglist/FrontendHandler.java:48-51 | any non-string key or value anywhere in the map makes the check fail |
| FrontendHandler.TableOf | src/main/java/com/foodshoppinglist/FrontendHandler.java:29 | the asset table has exactly the document's keys |
| FrontendHandler.TableOfValue | src/main/java/com/foodshoppinglist/FrontendHandler.java:29 | each key keeps its own value |
| FrontendHandler.Load | src/main/java/com/foodshoppinglist/FrontendHandler.java:26-30 | the constructor succeeds exactly on tables of strings, throws the check's error otherwise, and keeps the document's keys |
| FrontendHandler.LoadKeepsContent | src/main/java/com/foodshoppinglist/FrontendHandler.java:28-29 | validation changes nothing: every entry of the document is in the asset table unchanged |
| FrontendHandler.AvailableMealsLines | src/main/java/com/foodshoppinglist/FrontendHandler.java:60-66 | the listing is an empty line, the introduction (or `null`), one line per meal in list order, and an empty line |
| FrontendHandler.ListingLineRoundTrip | src/main/java/com/foodshoppinglist/FrontendHandler.java:64 | a listing line reads back as the 1-based position and the meal name it was built from |
| FrontendHandler.ListingLinesDistinct | src/main/java/com/foodshoppinglist/FrontendHandler.java:63-64 | lines for different positions differ |
| Text.NatToStringRoundTrip | src/main/java/com/foodshoppinglist/FrontendHandler.java:64 | the decimal rendering of a position reads back as that position |
| TextAssetsLoader.CheckContentCorrectness | src/main/java/com/foodshoppinglist/TextAssetsLoader.java:33-42 | passes if and only if the root is a map of strings to strings; a root that is not a map fails with `the root element is not a dictionary`, with no file prefix |
| TextAssetsLoader.EntryError | src/main/java/com/foodshoppinglist/TextAssetsLoader.java:37-40 | the key is checked before the value |
| TextAssetsLoader.CheckEntries | src/main/java/com/foodshoppinglist/TextAssetsLoader.java:36-41 | the loop passes if and only if every key and value is a string |
| TextAssetsLoader.SameEntryAsFrontend | src/main/java/com/foodshoppinglist/TextAssetsLoader.java:36-41 | the loop passes exactly when `FrontendHandler`'s loop passes; when it fails, both stop at the same entry, the first offending one, and report it with errors of the same kind |
| TextAssetsLoader.SameVerdictAsFrontend | src/main/java/com/foodshoppinglist/TextAssetsLoader.java:33-42 | accepts exactly the documents `FrontendHandler.checkFileFormat` accepts, and rejects the others with an error of the same kind |
| TextAssetsLoader.IntegerKeyMessage | src/main/java/com/foodshoppinglist/TextAssetsLoader.java:37-38 | an `Integer` key is named without quotes and without a file name |

## Left out

- Reading files and resources, YAML parsing and `System.exit` (`Utils.readYamlFile` and its helpers) are I/O. The parsed tree is the model's input.
- `Main.main` only checks arguments, wires the handlers together and sets exit codes.
- `TextAssetsLoader.load` is I/O, and it calls `Utils.printFileFormatException`, which `Utils.java` does not define.
- `FrontendHandler.parseUserInput` is exercised by the tests but has no implementation in `FrontendHandler.java`, so there is no code to model it against.
- `MealsHandler.setSelectedMealsNames` is a plain setter.
- Console output (`IO.println`) is left out. `FrontendHandler.AvailableMealsLines` returns the printed lines instead.
- `MealsHandler.ConvertAmount`: `floatValue()` rounds to the nearest `float`; the model keeps the document's number as an exact real and does not model the rounding.
- `Yaml.Show`: `Double.toString` is not modelled; a `Double` key prints as a fixed placeholder in messages.
- `StringOrder.Less` compares code points; Java compares UTF-16 code units, which orders characters outside the Basic Multilingual Plane differently.
- NaN and infinite doubles are not represented. `Yaml.Node`'s `NDbl` holds finite values only.
- `HashMap` iteration order is fixed to the entry-sequence order and to insertion order. Which error wins among several violations, and the order of units in the unit message, are therefore stated only relative to that order.
- Java's `equals` on map-valued keys is modelled as structural equality of the entry sequences, so two maps with the same entries in different orders count as different keys.
- `MealsHandler.ConvertKeepsContent` and `FrontendHandler.LoadKeepsContent` assume each map holds each key once, as Java maps do; the tree type itself allows repeated keys.
