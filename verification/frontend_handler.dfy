/** `FrontendHandler`: the text assets shown to the user, checked as a flat
    table of strings, and the numbered listing of the available meals. */
module FrontendHandler {
  import opened Yaml
  import opened FormatErrors
  import Text

  /** The text-asset key of the line that introduces the meal listing. */
  const INTRODUCE_AVAILABLE_MEALS: string := "introduce_available_meals"

  function ErrorPrefix(fileName: string): string {
    "Error in " + fileName + ": "
  }

  // ---------------------------------------------------------------------------
  // checkFileFormat
  // ---------------------------------------------------------------------------

  /** An entry of the table: a string key with a string value. */
  predicate IsTextEntry(e: (Node, Node)) {
    e.0.NStr? && e.1.NStr?
  }

  /** The accepted shape: a map whose keys and values are all strings. No key
      is required, so the empty map is a table. */
  predicate IsTextTable(content: Node) {
    content.NMap? && forall k :: 0 <= k < |content.entries| ==> IsTextEntry(content.entries[k])
  }

  /** Entry `k` is the first one, in iteration order, that is not a table entry. */
  predicate FirstOffender(entries: seq<(Node, Node)>, k: nat) {
    && k < |entries|
    && !IsTextEntry(entries[k])
    && forall j :: 0 <= j < k ==> IsTextEntry(entries[j])
  }

  /** The exception thrown for an entry that is not a table entry: the key is
      checked before the value. */
  function EntryError(prefix: string, e: (Node, Node)): (r: FormatError)
    requires !IsTextEntry(e)
    ensures prefix <= r.message
    ensures r.kind == KeyNotString <==> !e.0.NStr?
    ensures r.kind == ValueNotString <==> e.0.NStr? && !e.1.NStr?
  {
    if !e.0.NStr? then
      FormatError(KeyNotString, prefix + "the key '" + Show(e.0) + "' is not a string")
    else
      FormatError(ValueNotString, prefix + "the value of the key '" + e.0.s + "' is not a string")
  }

  /** The loop over the entries: stops at the first one that is not a table
      entry. */
  function CheckEntries(prefix: string, entries: seq<(Node, Node)>): (r: Outcome)
    ensures r.Pass? <==> forall k :: 0 <= k < |entries| ==> IsTextEntry(entries[k])
    ensures r.Fail? ==> prefix <= r.error.message
  {
    if |entries| == 0 then Pass
    else if !IsTextEntry(entries[0]) then Fail(EntryError(prefix, entries[0]))
    else
      assert forall k :: 1 <= k < |entries| ==> entries[k] == entries[1..][k - 1];
      CheckEntries(prefix, entries[1..])
  }

  /** The loop reports the first offending entry, and the error built for it. */
  lemma {:induction false} CheckEntriesReportsFirst(prefix: string, entries: seq<(Node, Node)>)
    requires CheckEntries(prefix, entries).Fail?
    ensures exists k: nat :: FirstOffender(entries, k)
                        && CheckEntries(prefix, entries).error == EntryError(prefix, entries[k])
  {
    if IsTextEntry(entries[0]) {
      CheckEntriesReportsFirst(prefix, entries[1..]);
      var k: nat :| FirstOffender(entries[1..], k)
               && CheckEntries(prefix, entries[1..]).error == EntryError(prefix, entries[1..][k]);
      assert entries[k + 1] == entries[1..][k];
      assert forall j :: 1 <= j <= k ==> entries[j] == entries[1..][j - 1];
      assert FirstOffender(entries, k + 1);
    } else {
      assert FirstOffender(entries, 0);
    }
  }

  /** `checkFileFormat`: throws unless `content` is a table of strings. It
      accepts exactly the tables of strings: the empty map passes and no key
      is required. */
  function CheckFileFormat(fileName: string, content: Node): (r: Outcome)
    ensures r.Pass? <==> IsTextTable(content)
    ensures r.Fail? ==> ErrorPrefix(fileName) <= r.error.message
    ensures !content.NMap? ==>
      r == Fail(FormatError(NotAMapping, ErrorPrefix(fileName) + "the root element is not a dictionary"))
  {
    var prefix := ErrorPrefix(fileName);
    if !content.NMap? then
      Fail(FormatError(NotAMapping, prefix + "the root element is not a dictionary"))
    else
      CheckEntries(prefix, content.entries)
  }

  /** A rejected map is rejected because of its first offending entry: for a
      non-string key with the key's text, otherwise for the value, naming the
      key. */
  lemma RejectsFirstOffender(fileName: string, content: Node)
    requires content.NMap? && CheckFileFormat(fileName, content).Fail?
    ensures exists k: nat :: FirstOffender(content.entries, k)
                        && CheckFileFormat(fileName, content).error
                           == EntryError(ErrorPrefix(fileName), content.entries[k])
  {
    CheckEntriesReportsFirst(ErrorPrefix(fileName), content.entries);
  }

  /** Whatever entry comes first, a non-string key or value anywhere in the
      map makes the check fail. */
  lemma RejectsAnyOffender(fileName: string, content: Node, k: nat)
    requires content.NMap? && k < |content.entries| && !IsTextEntry(content.entries[k])
    ensures CheckFileFormat(fileName, content).Fail?
  {
  }

  // ---------------------------------------------------------------------------
  // The constructor
  // ---------------------------------------------------------------------------

  /** The entries of a table, put into a map in iteration order. */
  function TableOf(entries: seq<(Node, Node)>): (r: map<string, string>)
    requires forall k :: 0 <= k < |entries| ==> IsTextEntry(entries[k])
    ensures forall key :: key in r <==> HasKey(entries, key)
  {
    if |entries| == 0 then map[]
    else
      var last := entries[|entries| - 1];
      assert IsTextEntry(last);
      assert forall k :: 0 <= k < |entries| - 1 ==> entries[k] == entries[..|entries| - 1][k];
      TableOf(entries[..|entries| - 1])[last.0.s := last.1.s]
  }

  /** In a map without repeated keys, every key keeps its own value. */
  lemma {:induction false} TableOfValue(entries: seq<(Node, Node)>, k: nat)
    requires forall j :: 0 <= j < |entries| ==> IsTextEntry(entries[j])
    requires DistinctKeys(entries) && k < |entries|
    ensures IsTextEntry(entries[k])
    ensures entries[k].0.s in TableOf(entries)
    ensures TableOf(entries)[entries[k].0.s] == entries[k].1.s
  {
    var last := entries[|entries| - 1];
    assert IsTextEntry(last);
    if k < |entries| - 1 {
      var init := entries[..|entries| - 1];
      assert init[k] == entries[k];
      assert forall j :: 0 <= j < |init| ==> init[j] == entries[j];
      TableOfValue(init, k);
      assert entries[k].0 != last.0;
    }
  }

  /** The constructor: check the loaded content, then keep it as the text
      assets. */
  function Load(fileName: string, content: Node): (r: Result<map<string, string>>)
    ensures r.Ok? <==> IsTextTable(content)
    ensures r.Err? ==> CheckFileFormat(fileName, content) == Fail(r.error)
    ensures r.Ok? ==> forall key :: key in r.value <==> HasKey(content.entries, key)
  {
    match CheckFileFormat(fileName, content)
    case Fail(e) => Err(e)
    case Pass => Ok(TableOf(content.entries))
  }

  /** The text assets are the validated document itself: every entry of it is
      found, unchanged, in the loaded table. */
  lemma LoadKeepsContent(fileName: string, content: Node, k: nat)
    requires Load(fileName, content).Ok?
    requires DistinctKeys(content.entries) && k < |content.entries|
    ensures content.entries[k].0.NStr? && content.entries[k].1.NStr?
    ensures content.entries[k].0.s in Load(fileName, content).value
    ensures Load(fileName, content).value[content.entries[k].0.s] == content.entries[k].1.s
  {
    TableOfValue(content.entries, k);
  }

  // ---------------------------------------------------------------------------
  // printAvailableMeals
  // ---------------------------------------------------------------------------

  /** The introduction line: the asset's text, or what `println(null)` prints
      when the asset is missing. */
  function Introduction(textAssets: map<string, string>): string {
    if INTRODUCE_AVAILABLE_MEALS in textAssets then textAssets[INTRODUCE_AVAILABLE_MEALS] else "null"
  }

  /** The line for the meal at (0-based) position `i`. */
  function ListingLine(i: nat, name: string): string {
    Text.NatToString(i + 1) + ". " + name
  }

  /** The lines `printAvailableMeals` prints: an empty line, the introduction,
      one numbered line per meal, and an empty line. */
  method AvailableMealsLines(textAssets: map<string, string>, names: seq<string>) returns (lines: seq<string>)
    ensures |lines| == |names| + 3
    ensures lines[0] == "" && lines[1] == Introduction(textAssets) && lines[|lines| - 1] == ""
    ensures forall i :: 0 <= i < |names| ==> lines[i + 2] == ListingLine(i, names[i])
  {
    lines := ["", Introduction(textAssets)];
    var i := 0;
    while i < |names|
      invariant 0 <= i <= |names|
      invariant |lines| == i + 2
      invariant lines[0] == "" && lines[1] == Introduction(textAssets)
      invariant forall j :: 0 <= j < i ==> lines[j + 2] == ListingLine(j, names[j])
    {
      lines := lines + [ListingLine(i, names[i])];
      i := i + 1;
    }
    lines := lines + [""];
  }

  /** A listing line read back: its number and the meal name. */
  datatype Entry = Entry(number: nat, name: string)
  datatype Parsed = NoEntry | Parsed(entry: Entry)

  /** The number of decimal digits at the start of `s`. */
  function DigitPrefixLength(s: string): (n: nat)
    ensures n <= |s| && Text.AllDigits(s[..n]) && (n < |s| ==> !Text.IsDigit(s[n]))
  {
    if |s| == 0 || !Text.IsDigit(s[0]) then 0
    else
      var n := 1 + DigitPrefixLength(s[1..]);
      assert s[..n] == [s[0]] + s[1..][..n - 1];
      n
  }

  /** Reads a line of the form `<number>. <name>`. */
  function ParseListingLine(line: string): Parsed {
    var n := DigitPrefixLength(line);
    if n == 0 || n + 2 > |line| || line[n..n + 2] != ". " then NoEntry
    else Parsed(Entry(Text.DigitsValue(line[..n]), line[n + 2..]))
  }

  lemma {:induction false} DigitPrefixOfDigits(d: string, rest: string)
    requires Text.AllDigits(d)
    requires |rest| > 0 && !Text.IsDigit(rest[0])
    ensures DigitPrefixLength(d + rest) == |d|
  {
    if |d| > 0 {
      assert (d + rest)[1..] == d[1..] + rest;
      DigitPrefixOfDigits(d[1..], rest);
    }
  }

  /** Each listing line gives back the 1-based position and the name it was
      built from, so the listing numbers the meals 1, 2, ... in list order and
      no two lines are alike. */
  lemma ListingLineRoundTrip(i: nat, name: string)
    ensures ParseListingLine(ListingLine(i, name)) == Parsed(Entry(i + 1, name))
  {
    var d := Text.NatToString(i + 1);
    var line := ListingLine(i, name);
    assert line == d + (". " + name);
    DigitPrefixOfDigits(d, ". " + name);
    assert line[..|d|] == d;
    assert line[|d|..|d| + 2] == ". ";
    assert line[|d| + 2..] == name;
    Text.NatToStringRoundTrip(i + 1);
  }

  /** The lines for different positions differ. */
  lemma ListingLinesDistinct(i: nat, j: nat, a: string, b: string)
    requires i != j
    ensures ListingLine(i, a) != ListingLine(j, b)
  {
    ListingLineRoundTrip(i, a);
    ListingLineRoundTrip(j, b);
  }
}
