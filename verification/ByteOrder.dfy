/** The byte-wise (lexicographic) order in which a database cursor visits keys. */
module ByteOrder {
  import opened Common

  predicate KeyLess(a: seq<byte>, b: seq<byte>) {
    b != [] && (a == [] || a[0] < b[0] || (a[0] == b[0] && KeyLess(a[1..], b[1..])))
  }

  lemma {:induction false} KeyLessAsymmetric(a: seq<byte>, b: seq<byte>)
    requires KeyLess(a, b)
    ensures !KeyLess(b, a)
  {
    if a != [] && a[0] == b[0] {
      KeyLessAsymmetric(a[1..], b[1..]);
    }
  }

  /** A smaller byte after a common prefix decides. */
  lemma {:induction false} KeyLessPrefix(p: seq<byte>, q: seq<byte>, i: nat, a: seq<byte>, b: seq<byte>)
    requires |p| == |q| && i < |p| && p[..i] == q[..i] && p[i] < q[i]
    ensures KeyLess(p + a, q + b)
  {
    var x, y := p + a, q + b;
    assert x[0] == p[0] && y[0] == q[0];
    if i > 0 {
      assert p[0] == p[..i][0] && q[0] == q[..i][0];
      assert x[1..] == p[1..] + a && y[1..] == q[1..] + b;
      assert p[1..][..i - 1] == p[..i][1..] && q[1..][..i - 1] == q[..i][1..];
      KeyLessPrefix(p[1..], q[1..], i - 1, a, b);
    }
  }

  /** A common prefix does not matter. */
  lemma {:induction false} KeyLessAfter(p: seq<byte>, a: seq<byte>, b: seq<byte>)
    ensures KeyLess(p + a, p + b) <==> KeyLess(a, b)
  {
    if p == [] {
      assert p + a == a && p + b == b;
    } else {
      assert (p + a)[1..] == p[1..] + a && (p + b)[1..] == p[1..] + b;
      KeyLessAfter(p[1..], a, b);
    }
  }

  /** What lies between two keys with a common prefix has that prefix. */
  lemma {:induction false} Between(p: seq<byte>, a: seq<byte>, f: seq<byte>, b: seq<byte>)
    requires !KeyLess(f, p + a) && !KeyLess(p + b, f)
    ensures |p| <= |f| && f[..|p|] == p
  {
    if p != [] {
      assert (p + a)[0] == p[0] && (p + b)[0] == p[0];
      assert (p + a)[1..] == p[1..] + a && (p + b)[1..] == p[1..] + b;
      assert f != [] && f[0] == p[0];
      Between(p[1..], a, f[1..], b);
    }
  }
}
