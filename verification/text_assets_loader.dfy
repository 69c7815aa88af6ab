/** `TextAssetsLoader`: a second check on the text assets. It applies the
    rule of `FrontendHandler.CheckFileFormat`, but its messages name no file
    and do not quote the key. */
module TextAssetsLoader {
  import opened Yaml
  import opened FormatErrors
  import FrontendHandler

  /** The exception thrown for an entry that is not a table entry. */
  function EntryError(e: (Node, Node)): (r: FormatError)
    requires !FrontendHandler.IsTextEntry(e)
    ensures r.kind == KeyNotString <==> !e.0.NStr?
    ensures r.kind == ValueNotString <==> e.0.NStr? && !e.1.NStr?
  {
    if !e.0.NStr? then
      FormatError(KeyNotString, "the key " + Show(e.0) + " is not a string")
    else
      FormatError(ValueNotString, "the value of the key " + e.0.s + " is not a string")
  }

  /** The loop over the entries, stopping at the first offending one. */
  function CheckEntries(entries: seq<(Node, Node)>): (r: Outcome)
    ensures r.Pass? <==> forall k :: 0 <= k < |entries| ==> FrontendHandler.IsTextEntry(entries[k])
  {
    if |entries| == 0 then Pass
    else if !FrontendHandler.IsTextEntry(entries[0]) then Fail(EntryError(entries[0]))
    else
      assert forall k :: 1 <= k < |entries| ==> entries[k] == entries[1..][k - 1];
      CheckEntries(entries[1..])
  }

  /** `checkContentCorrectness`. */
  function CheckContentCorrectness(content: Node): (r: Outcome)
    ensures r.Pass? <==> FrontendHandler.IsTextTable(content)
    ensures !content.NMap? ==> r == Fail(FormatError(NotAMapping, "the root element is not a dictionary"))
  {
    if !content.NMap? then Fail(FormatError(NotAMapping, "the root element is not a dictionary"))
    else CheckEntries(content.entries)
  }

  /** Both loops stop at the same entry, the first offending one, for the
      same reason. */
  lemma {:induction false} SameEntryAsFrontend(prefix: string, entries: seq<(Node, Node)>)
    ensures CheckEntries(entries).Pass? <==> FrontendHandler.CheckEntries(prefix, entries).Pass?
    ensures CheckEntries(entries).Fail? ==>
      CheckEntries(entries).error.kind == FrontendHandler.CheckEntries(prefix, entries).error.kind
    ensures CheckEntries(entries).Fail? ==>
      exists k: nat :: FrontendHandler.FirstOffender(entries, k)
                       && CheckEntries(entries).error == EntryError(entries[k])
                       && FrontendHandler.CheckEntries(prefix, entries).error
                          == FrontendHandler.EntryError(prefix, entries[k])
  {
    if |entries| > 0 {
      if FrontendHandler.IsTextEntry(entries[0]) {
        SameEntryAsFrontend(prefix, entries[1..]);
        if CheckEntries(entries).Fail? {
          var k: nat :| FrontendHandler.FirstOffender(entries[1..], k)
                        && CheckEntries(entries[1..]).error == EntryError(entries[1..][k])
                        && FrontendHandler.CheckEntries(prefix, entries[1..]).error
                           == FrontendHandler.EntryError(prefix, entries[1..][k]);
          assert entries[k + 1] == entries[1..][k];
          assert forall j :: 1 <= j <= k ==> entries[j] == entries[1..][j - 1];
          assert FrontendHandler.FirstOffender(entries, k + 1);
        }
      } else {
        assert FrontendHandler.FirstOffender(entries, 0);
      }
    }
  }

  /** The two checks accept the same documents, and reject the others with an
      error of the same kind; only the messages differ. */
  lemma SameVerdictAsFrontend(fileName: string, content: Node)
    ensures CheckContentCorrectness(content).Pass?
            <==> FrontendHandler.CheckFileFormat(fileName, content).Pass?
    ensures CheckContentCorrectness(content).Fail? ==>
      CheckContentCorrectness(content).error.kind
      == FrontendHandler.CheckFileFormat(fileName, content).error.kind
  {
    if content.NMap? {
      SameEntryAsFrontend(FrontendHandler.ErrorPrefix(fileName), content.entries);
    }
  }

  /** The messages name the key as its text, without quotes: an `Integer` key
      `1` gives `the key 1 is not a string`. */
  lemma IntegerKeyMessage(content: Node)
    requires content == NMap([(NInt(1), NStr("a"))])
    ensures CheckContentCorrectness(content) == Fail(FormatError(KeyNotString, "the key 1 is not a string"))
  {
  }
}
