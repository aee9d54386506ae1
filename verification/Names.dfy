/** The order on names that the scope tables install as the comparison
    function of their red-black trees: C's `strcmp` on byte strings. */
module Names {

  type Name = string

  /** `strcmp`: negative, zero or positive; the end of a name sorts first. */
  function StrCmp(a: Name, b: Name): (r: int) {
    if a == [] then (if b == [] then 0 else -1)
    else if b == [] then 1
    else if a[0] != b[0] then a[0] as int - b[0] as int
    else StrCmp(a[1..], b[1..])
  }

  /** The order of a dictionary: a proper prefix comes first, otherwise the
      first character that differs decides. */
  ghost predicate Precedes(a: Name, b: Name) {
    || (|a| < |b| && a == b[..|a|])
    || exists k :: 0 <= k < |a| && k < |b| && a[..k] == b[..k] && a[k] < b[k]
  }

  lemma {:induction false} StrCmpPrecedes(a: Name, b: Name)
    ensures StrCmp(a, b) < 0 <==> Precedes(a, b)
  {
    if a != [] && b != [] {
      if a[0] == b[0] {
        StrCmpPrecedes(a[1..], b[1..]);
        PrecedesTail(a, b);
      } else {
        assert a[..0] == b[..0];
        assert Precedes(a, b) ==> a[0] < b[0];
      }
    }
  }

  /** Equal first characters do not matter. */
  lemma PrecedesTail(a: Name, b: Name)
    requires a != [] && b != [] && a[0] == b[0]
    ensures Precedes(a[1..], b[1..]) <==> Precedes(a, b)
  {
    var x, y := a[1..], b[1..];
    assert a == [a[0]] + x && b == [b[0]] + y;
    if k :| 0 <= k < |x| && k < |y| && x[..k] == y[..k] && x[k] < y[k] {
      assert a[..k + 1] == [a[0]] + x[..k] && b[..k + 1] == [b[0]] + y[..k];
      assert a[k + 1] < b[k + 1];
    }
    if k :| 0 <= k < |a| && k < |b| && a[..k] == b[..k] && a[k] < b[k] {
      assert k > 0;
      assert x[..k - 1] == a[..k][1..] && y[..k - 1] == b[..k][1..];
      assert x[k - 1] < y[k - 1];
    }
    if |x| < |y| && x == y[..|x|] {
      assert b[..|a|] == [b[0]] + y[..|x|];
    }
    if |a| < |b| && a == b[..|a|] {
      assert y[..|x|] == b[..|a|][1..];
    }
  }

  lemma {:induction false} StrCmpEqual(a: Name, b: Name)
    ensures StrCmp(a, b) == 0 <==> a == b
  {
    if a != [] && b != [] && a[0] == b[0] {
      StrCmpEqual(a[1..], b[1..]);
      assert a == [a[0]] + a[1..] && b == [b[0]] + b[1..];
    }
  }

  lemma {:induction false} StrCmpFlip(a: Name, b: Name)
    ensures StrCmp(a, b) < 0 <==> StrCmp(b, a) > 0
  {
    if a != [] && b != [] && a[0] == b[0] {
      StrCmpFlip(a[1..], b[1..]);
    }
  }

  lemma {:induction false} StrCmpTransitive(a: Name, b: Name, c: Name)
    requires StrCmp(a, b) < 0 && StrCmp(b, c) < 0
    ensures StrCmp(a, c) < 0
  {
    if a != [] && b != [] && c != [] && a[0] == b[0] == c[0] {
      StrCmpTransitive(a[1..], b[1..], c[1..]);
    }
  }
}
