/** The natural ordering of strings (`String.compareTo`) and sorting by it. */
module StringOrder {

  /** `a.compareTo(b) < 0`: the first differing character decides; when one
      string is a prefix of the other, the shorter one comes first. */
  predicate Less(a: string, b: string) {
    if |a| == 0 then |b| > 0
    else if |b| == 0 then false
    else if a[0] != b[0] then a[0] < b[0]
    else Less(a[1..], b[1..])
  }

  lemma {:induction false} LessIrreflexive(a: string)
    ensures !Less(a, a)
  {
    if |a| > 0 {
      LessIrreflexive(a[1..]);
    }
  }

  lemma {:induction false} LessTransitive(a: string, b: string, c: string)
    requires Less(a, b) && Less(b, c)
    ensures Less(a, c)
  {
    if |a| > 0 && |b| > 0 && |c| > 0 && a[0] == b[0] && b[0] == c[0] {
      LessTransitive(a[1..], b[1..], c[1..]);
    }
  }

  lemma {:induction false} LessTotal(a: string, b: string)
    requires a != b
    ensures Less(a, b) || Less(b, a)
  {
    if |a| > 0 && |b| > 0 && a[0] == b[0] {
      assert a == [a[0]] + a[1..] && b == [b[0]] + b[1..];
      LessTotal(a[1..], b[1..]);
    }
  }

  predicate StrictlyAscending(s: seq<string>) {
    forall i, j :: 0 <= i < j < |s| ==> Less(s[i], s[j])
  }

  lemma ConsAscending(h: string, t: seq<string>)
    requires StrictlyAscending(t)
    requires forall y :: y in t ==> Less(h, y)
    ensures StrictlyAscending([h] + t)
  {
  }

  /** Inserts a new string into a strictly ascending sequence. */
  function Insert(s: seq<string>, x: string): (r: seq<string>)
    requires StrictlyAscending(s) && x !in s
    ensures StrictlyAscending(r)
    ensures forall y :: y in r <==> y in s || y == x
    ensures |r| == |s| + 1
  {
    if |s| == 0 then [x]
    else if Less(x, s[0]) then
      assert forall y :: y in s ==> Less(x, y) by {
        forall y | y in s ensures Less(x, y) {
          if y != s[0] {
            var j :| 0 <= j < |s| && s[j] == y;
            LessTransitive(x, s[0], y);
          }
        }
      }
      ConsAscending(x, s);
      [x] + s
    else
      var rest := Insert(s[1..], x);
      assert forall y :: y in rest ==> Less(s[0], y) by {
        forall y | y in rest ensures Less(s[0], y) {
          if y == x {
            LessTotal(x, s[0]);
          } else {
            var j :| 0 <= j < |s[1..]| && s[1..][j] == y;
            assert s[j + 1] == y;
          }
        }
      }
      ConsAscending(s[0], rest);
      assert forall y :: y in s <==> y == s[0] || y in s[1..] by {
        assert s == [s[0]] + s[1..];
      }
      [s[0]] + rest
  }

  /** `keys.stream().sorted().toList()`: the keys of `m` in ascending order. */
  method SortedKeys<V>(m: map<string, V>) returns (names: seq<string>)
    ensures StrictlyAscending(names)
    ensures forall n :: n in names <==> n in m
    ensures |names| == |m|
  {
    names := [];
    var rest := m.Keys;
    while rest != {}
      invariant rest <= m.Keys
      invariant StrictlyAscending(names)
      invariant forall n :: n in names <==> n in m && n !in rest
      invariant |names| + |rest| == |m|
      decreases |rest|
    {
      var x :| x in rest;
      names := Insert(names, x);
      rest := rest - {x};
    }
  }
}
