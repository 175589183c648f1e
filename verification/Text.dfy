/** Order and listing of strings, as Python's `sorted` and Rust's `str` comparison define them. */
module Text {

  /** Lexicographic order by code point. */
  predicate LexLe(a: string, b: string) {
    a == "" || (b != "" && (a[0] < b[0] || (a[0] == b[0] && LexLe(a[1..], b[1..]))))
  }

  lemma {:induction false} LexReflexive(a: string)
    ensures LexLe(a, a)
  {
    if a != "" { LexReflexive(a[1..]); }
  }

  lemma {:induction false} LexTotal(a: string, b: string)
    ensures LexLe(a, b) || LexLe(b, a)
  {
    if a != "" && b != "" { LexTotal(a[1..], b[1..]); }
  }

  lemma {:induction false} LexAntisymmetric(a: string, b: string)
    requires LexLe(a, b) && LexLe(b, a)
    ensures a == b
  {
    if a != "" && b != "" {
      LexAntisymmetric(a[1..], b[1..]);
      assert a == [a[0]] + a[1..] && b == [b[0]] + b[1..];
    }
  }

  lemma {:induction false} LexTransitive(a: string, b: string, c: string)
    requires LexLe(a, b) && LexLe(b, c)
    ensures LexLe(a, c)
  {
    if a != "" && a[0] == b[0] == c[0] { LexTransitive(a[1..], b[1..], c[1..]); }
  }

  predicate IsLeast(k: string, keys: set<string>) {
    k in keys && forall other :: other in keys ==> LexLe(k, other)
  }

  lemma {:induction false} LeastExists(keys: set<string>)
    requires keys != {}
    ensures exists k :: IsLeast(k, keys)
  {
    var any :| any in keys;
    var rest := keys - {any};
    LexReflexive(any);
    if rest == {} {
      assert keys == {any};
      assert IsLeast(any, keys);
    } else {
      LeastExists(rest);
      var k :| IsLeast(k, rest);
      LexTotal(any, k);
      if LexLe(k, any) {
        assert IsLeast(k, keys);
      } else {
        forall other | other in keys ensures LexLe(any, other) {
          if other != any { LexTransitive(any, k, other); }
        }
        assert IsLeast(any, keys);
      }
    }
  }

  function Least(keys: set<string>): (k: string)
    requires keys != {}
    ensures IsLeast(k, keys)
  {
    LeastExists(keys);
    assert forall a, b :: IsLeast(a, keys) && IsLeast(b, keys) ==> a == b by {
      forall a, b | IsLeast(a, keys) && IsLeast(b, keys) ensures a == b { LexAntisymmetric(a, b); }
    }
    var k :| IsLeast(k, keys);
    k
  }

  /** Python's `sorted(keys)`. */
  function Sorted(keys: set<string>): (s: seq<string>)
    ensures forall k :: k in s <==> k in keys
    ensures |s| == |keys|
    decreases keys
  {
    if keys == {} then [] else var k := Least(keys); [k] + Sorted(keys - {k})
  }

  ghost predicate Ascending(s: seq<string>) {
    forall i, j :: 0 <= i < j < |s| ==> LexLe(s[i], s[j]) && s[i] != s[j]
  }

  lemma {:induction false} SortedAscends(keys: set<string>)
    ensures Ascending(Sorted(keys))
    decreases keys
  {
    if keys != {} {
      var k := Least(keys);
      var s, rest := Sorted(keys), Sorted(keys - {k});
      SortedAscends(keys - {k});
      forall i, j | 0 <= i < j < |s| ensures LexLe(s[i], s[j]) && s[i] != s[j] {
        assert s[j] == rest[j - 1];
        assert s[j] in rest;
      }
    }
  }
}
