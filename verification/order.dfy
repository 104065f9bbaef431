/** Byte-wise lexicographic order: how SQL compares bytea and how Rust orders byte arrays. */
module Order {
  import opened ByteStrings

  predicate LexLess(a: Bytes, b: Bytes) {
    if a == [] then b != []
    else if b == [] then false
    else a[0] < b[0] || (a[0] == b[0] && LexLess(a[1..], b[1..]))
  }

  lemma {:induction false} LexIrreflexive(a: Bytes)
    ensures !LexLess(a, a)
  {
    if a != [] {
      LexIrreflexive(a[1..]);
    }
  }

  lemma {:induction false} LexTransitive(a: Bytes, b: Bytes, c: Bytes)
    requires LexLess(a, b) && LexLess(b, c)
    ensures LexLess(a, c)
  {
    if a != [] {
      if a[0] == b[0] == c[0] {
        LexTransitive(a[1..], b[1..], c[1..]);
      }
    }
  }

  /** They agree on the first `k` bytes, and there `a` ends or has the smaller byte. */
  predicate LessAt(a: Bytes, b: Bytes, k: nat) {
    k <= |a| && k < |b| && a[..k] == b[..k] && (k < |a| ==> a[k] < b[k])
  }

  lemma {:induction false} LexIs(a: Bytes, b: Bytes)
    ensures LexLess(a, b) <==> exists k: nat :: LessAt(a, b, k)
  {
    if a == [] || b == [] || a[0] != b[0] {
      if LexLess(a, b) {
        assert LessAt(a, b, 0);
      }
      if k: nat :| LessAt(a, b, k) {
        assert k > 0 ==> a[..k][0] == b[..k][0];
      }
    } else {
      LexIs(a[1..], b[1..]);
      if LexLess(a, b) {
        var k: nat :| LessAt(a[1..], b[1..], k);
        assert a[..k + 1] == [a[0]] + a[1..][..k] && b[..k + 1] == [b[0]] + b[1..][..k];
        assert LessAt(a, b, k + 1);
      }
      if k: nat :| LessAt(a, b, k) {
        assert k > 0;
        assert a[1..][..k - 1] == a[..k][1..] && b[1..][..k - 1] == b[..k][1..];
        assert LessAt(a[1..], b[1..], k - 1);
      }
    }
  }

  lemma {:induction false} LexTotal(a: Bytes, b: Bytes)
    ensures a == b || LexLess(a, b) || LexLess(b, a)
  {
    if a != [] && b != [] && a[0] == b[0] {
      LexTotal(a[1..], b[1..]);
      assert a == [a[0]] + a[1..] && b == [b[0]] + b[1..];
    }
  }
}
