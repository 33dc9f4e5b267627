/** The order in which `std::map<std::string, T>` and `std::set<std::string>` are iterated. */
module Ordered {

  /** Lexicographic order on byte strings. */
  predicate LexLe(a: string, b: string) {
    a == "" || (b != "" && (a[0] < b[0] || (a[0] == b[0] && LexLe(a[1..], b[1..]))))
  }

  lemma {:induction false} LexTotal(a: string, b: string)
    ensures LexLe(a, b) || LexLe(b, a)
    ensures LexLe(a, b) && LexLe(b, a) ==> a == b
  {
    if a != "" && b != "" && a[0] == b[0] {
      LexTotal(a[1..], b[1..]);
      assert a == [a[0]] + a[1..] && b == [b[0]] + b[1..];
    }
  }

  lemma {:induction false} LexTransitive(a: string, b: string, c: string)
    requires LexLe(a, b) && LexLe(b, c)
    ensures LexLe(a, c)
  {
    if a != "" && a[0] == b[0] == c[0] {
      LexTransitive(a[1..], b[1..], c[1..]);
    }
  }

  predicate IsLeast(m: string, s: set<string>) {
    m in s && forall x :: x in s ==> LexLe(m, x)
  }

  lemma LeastExists(s: set<string>) returns (m: string)
    requires s != {}
    ensures IsLeast(m, s)
    decreases |s|
  {
    var x :| x in s;
    if s == {x} {
      m := x;
      LexTotal(x, x);
    } else {
      var t := s - {x};
      assert s == t + {x};
      var y := LeastExists(t);
      LexTotal(x, y);
      LexTotal(x, x);
      if LexLe(x, y) {
        m := x;
        forall z | z in s ensures LexLe(m, z) {
          if z != x { LexTransitive(x, y, z); }
        }
      } else {
        m := y;
      }
    }
  }

  lemma LeastUnique(s: set<string>)
    ensures forall a, b :: IsLeast(a, s) && IsLeast(b, s) ==> a == b
  {
    forall a, b | IsLeast(a, s) && IsLeast(b, s) ensures a == b {
      LexTotal(a, b);
    }
  }

  lemma LeastExistsUnique(s: set<string>)
    requires s != {}
    ensures exists m :: m in s && IsLeast(m, s)
    ensures forall a, b :: IsLeast(a, s) && IsLeast(b, s) ==> a == b
  {
    var m := LeastExists(s);
    LeastUnique(s);
  }

  ghost predicate Sorted(keys: seq<string>) {
    forall i, j :: 0 <= i < j < |keys| ==> LexLe(keys[i], keys[j]) && keys[i] != keys[j]
  }

  /** The keys of an ordered container, in iteration order. */
  function SortedKeys(s: set<string>): (keys: seq<string>)
    ensures Sorted(keys)
    ensures forall x :: x in keys <==> x in s
    decreases |s|
  {
    if s == {} then []
    else
      LeastExistsUnique(s);
      var m :| m in s && IsLeast(m, s);
      var t := s - {m};
      assert s == t + {m};
      [m] + SortedKeys(t)
  }

  /** The first difference decides, by the numbers of the characters; a prefix comes first. */
  lemma {:induction false} LexIsDictionaryOrder(a: string, b: string, k: nat)
    requires k <= |a| && k <= |b| && a[..k] == b[..k]
    ensures k == |a| ==> LexLe(a, b)
    ensures k < |a| && k == |b| ==> !LexLe(a, b)
    ensures k < |a| && k < |b| && a[k] != b[k] ==> (LexLe(a, b) <==> a[k] as int < b[k] as int)
    decreases k
  {
    if k > 0 {
      assert a[0] == a[..k][0] && b[0] == b[..k][0];
      assert a[1..][..k - 1] == a[..k][1..] && b[1..][..k - 1] == b[..k][1..];
      LexIsDictionaryOrder(a[1..], b[1..], k - 1);
    }
  }
}
