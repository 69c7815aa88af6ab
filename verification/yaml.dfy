/** The untyped tree that SnakeYAML's `Yaml.load` hands to the validators. */
module Yaml {
  import Text

  /** One object of the loaded tree.
      - NMap: a `java.util.Map`; `entries` lists its key/value pairs in the
        map's iteration order.
      - NStr: a `String`.
      - NInt: an integral scalar. SnakeYAML builds an `Integer` when the value
        fits in 32 bits and a `Long` or `BigInteger` otherwise.
      - NDbl: a `Double` (finite values only).
      - NOther: anything else (`null`, a `Boolean`, a `List`, a `Date`, ...);
        `text` is what its `toString` prints. */
  datatype Node =
    | NMap(entries: seq<(Node, Node)>)
    | NStr(s: string)
    | NInt(i: int)
    | NDbl(d: real)
    | NOther(text: string)

  /** Java's `null`: what `Map.get` returns for a missing key. */
  const Null: Node := NOther("null")

  const INT_MIN: int := -0x8000_0000
  const INT_MAX: int := 0x7fff_ffff

  /** `n instanceof Integer`. */
  predicate IsJavaInteger(n: Node) {
    n.NInt? && INT_MIN <= n.i <= INT_MAX
  }

  /** A Java map never holds the same key twice. */
  predicate DistinctKeys(entries: seq<(Node, Node)>) {
    forall i, j :: 0 <= i < j < |entries| ==> entries[i].0 != entries[j].0
  }

  /** `map.containsKey(key)` for a string key. */
  predicate HasKey(entries: seq<(Node, Node)>, key: string) {
    exists k :: 0 <= k < |entries| && entries[k].0 == NStr(key)
  }

  /** `map.get(key)` for a string key: the value stored under `key`, or
      `null` when there is none. */
  function Get(entries: seq<(Node, Node)>, key: string): Node {
    if |entries| == 0 then Null
    else if entries[0].0 == NStr(key) then entries[0].1
    else Get(entries[1..], key)
  }

  /** `Get` returns the value of an entry with the key when there is one (the
      only one, in a Java map), and `null` otherwise. */
  lemma {:induction false} GetFindsKey(entries: seq<(Node, Node)>, key: string)
    ensures HasKey(entries, key) ==>
      exists k :: 0 <= k < |entries| && entries[k].0 == NStr(key) && Get(entries, key) == entries[k].1
    ensures !HasKey(entries, key) ==> Get(entries, key) == Null
    ensures DistinctKeys(entries) ==>
      forall k :: 0 <= k < |entries| && entries[k].0 == NStr(key) ==> Get(entries, key) == entries[k].1
  {
    if |entries| > 0 {
      GetFindsKey(entries[1..], key);
      assert forall k :: 1 <= k < |entries| ==> entries[k] == entries[1..][k - 1];
      if entries[0].0 != NStr(key) && HasKey(entries, key) {
        var k :| 0 <= k < |entries| && entries[k].0 == NStr(key);
        assert entries[1..][k - 1].0 == NStr(key);
      }
    }
  }

  /** `toString()` of a key, as the error messages print it. A map prints as
      `{k1=v1, k2=v2}`; a `Double` prints as a fixed placeholder. */
  function Show(n: Node): string {
    match n
    case NStr(s) => s
    case NInt(i) => Text.IntToString(i)
    case NDbl(_) => "<double>"
    case NOther(text) => text
    case NMap(entries) =>
      "{" + Text.Join(", ", seq(|entries|, k requires 0 <= k < |entries| =>
                                  Show(entries[k].0) + "=" + Show(entries[k].1))) + "}"
  }
}
