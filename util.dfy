/** Small helpers shared by the whole model: an option type and the string
    operations that the TypeScript sources use (`startsWith`, `endsWith`,
    `<` on strings and ASCII lower-casing). */
module Util {

  datatype Option<+T> = None | Some(value: T)

  /** JavaScript truthiness of a `string | null`: both null and the empty
      string are falsy. */
  predicate Truthy(s: Option<string>) {
    s.Some? && s.value != ""
  }

  /** `s.startsWith(p)` */
  predicate StartsWith(s: string, p: string) {
    |p| <= |s| && s[..|p|] == p
  }

  /** `s.endsWith(suffix)` */
  predicate EndsWith(s: string, suffix: string) {
    |suffix| <= |s| && s[|s| - |suffix|..] == suffix
  }

  /** JavaScript's `a < b` on strings: lexicographic on characters, a proper
      prefix comes first. */
  predicate StrLess(a: string, b: string)
    decreases |a|
  {
    if |a| == 0 then |b| > 0
    else if |b| == 0 then false
    else if a[0] != b[0] then a[0] < b[0]
    else StrLess(a[1..], b[1..])
  }

  predicate StrLe(a: string, b: string) {
    a == b || StrLess(a, b)
  }

  lemma {:induction false} StrLessIrreflexive(a: string)
    ensures !StrLess(a, a)
    decreases |a|
  {
    if |a| > 0 {
      StrLessIrreflexive(a[1..]);
    }
  }

  lemma {:induction false} StrLessTransitive(a: string, b: string, c: string)
    requires StrLess(a, b) && StrLess(b, c)
    ensures StrLess(a, c)
    decreases |a|
  {
    if |a| > 0 && a[0] == b[0] && b[0] == c[0] {
      StrLessTransitive(a[1..], b[1..], c[1..]);
    }
  }

  lemma {:induction false} StrLessTotal(a: string, b: string)
    requires a != b
    ensures StrLess(a, b) != StrLess(b, a)
    decreases |a|
  {
    if |a| > 0 && |b| > 0 && a[0] == b[0] {
      assert a == [a[0]] + a[1..] && b == [b[0]] + b[1..];
      StrLessTotal(a[1..], b[1..]);
    }
  }

  /** `<=` on strings is a total order. */
  lemma StrLeTotalOrder(a: string, b: string, c: string)
    ensures StrLe(a, b) || StrLe(b, a)
    ensures StrLe(a, b) && StrLe(b, a) ==> a == b
    ensures StrLe(a, b) && StrLe(b, c) ==> StrLe(a, c)
  {
    if a != b {
      StrLessTotal(a, b);
    }
    if StrLess(a, b) && StrLess(b, c) {
      StrLessTransitive(a, b, c);
    }
  }

  function LowerChar(c: char): char {
    if 'A' <= c <= 'Z' then (c as int + 32) as char else c
  }

  /** `toLocaleLowerCase`, restricted to the ASCII letters. */
  function AsciiLower(s: string): (r: string)
    ensures |r| == |s|
    ensures forall i | 0 <= i < |s| :: r[i] == LowerChar(s[i])
  {
    seq(|s|, i requires 0 <= i < |s| => LowerChar(s[i]))
  }

  /** m is the least string of s. */
  predicate IsLeast(s: set<string>, m: string) {
    m in s && forall y | y in s :: StrLe(m, y)
  }

  /** A set of strings has at most one least element. */
  lemma LeastUnique(s: set<string>)
    ensures forall a, b | IsLeast(s, a) && IsLeast(s, b) :: a == b
  {
    forall a, b | IsLeast(s, a) && IsLeast(s, b) ensures a == b {
      StrLeTotalOrder(a, b, a);
    }
  }

  lemma {:induction false} MinimumExists(s: set<string>)
    requires s != {}
    ensures exists m :: IsLeast(s, m)
    decreases |s|
  {
    var x :| x in s;
    if s == {x} {
      assert forall y | y in s :: y == x;
      assert IsLeast(s, x);
    } else {
      MinimumExists(s - {x});
      var m :| IsLeast(s - {x}, m);
      if StrLess(x, m) {
        forall y | y in s ensures StrLe(x, y) {
          if y != x {
            assert y in s - {x};
            StrLeTotalOrder(x, m, y);
          }
        }
        assert IsLeast(s, x);
      } else {
        StrLeTotalOrder(m, x, m);
        forall y | y in s ensures StrLe(m, y) {
          if y != x {
            assert y in s - {x};
          }
        }
        assert IsLeast(s, m);
      }
    }
  }

  /** The keys of a map in ascending `<` order, as
      `Array.from(keys).sort(...)` lists them. */
  function SortedKeys(s: set<string>): (r: seq<string>)
    ensures forall x :: x in r <==> x in s
    ensures forall i, j | 0 <= i < j < |r| :: StrLess(r[i], r[j])
    ensures forall i, j | 0 <= i < j < |r| :: r[i] != r[j]
    decreases |s|
  {
    if s == {} then []
    else
      MinimumExists(s);
      LeastUnique(s);
      var m :| IsLeast(s, m);
      var rest := SortedKeys(s - {m});
      assert forall y | y in rest :: y in s && y != m && StrLess(m, y);
      [m] + rest
  }
}
