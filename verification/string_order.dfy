/** The ordering `std::string` uses for `<` and `>`: lexicographic, comparing
    characters one by one, with a proper prefix ordered before the longer string.
    Dafny's own `<` on sequences means "proper prefix", so the library's date
    comparisons are written with `Less` instead. */
module StringOrder {

  /** `a < b` on `std::string`. */
  predicate Less(a: string, b: string)
    decreases |a|
  {
    if |b| == 0 then false
    else if |a| == 0 then true
    else if a[0] != b[0] then a[0] < b[0]
    else Less(a[1..], b[1..])
  }

  /** The textbook definition: `a` and `b` agree on the first `k` characters and
      then either `a` has ended while `b` goes on, or `a[k]` is the smaller. */
  ghost predicate DiffersFirstAt(a: string, b: string, k: nat)
  {
    k <= |a| && k < |b| && a[..k] == b[..k] && (k == |a| || a[k] < b[k])
  }

  lemma {:induction false} LessAt(a: string, b: string, k: nat)
    requires DiffersFirstAt(a, b, k)
    ensures Less(a, b)
  {
    if k > 0 && |a| > 0 {
      assert a[0] == a[..k][0] == b[..k][0] == b[0];
      assert a[1..][..k - 1] == a[..k][1..] == b[..k][1..] == b[1..][..k - 1];
      LessAt(a[1..], b[1..], k - 1);
    }
  }

  lemma {:induction false} LessHasWitness(a: string, b: string)
    requires Less(a, b)
    ensures exists k: nat :: DiffersFirstAt(a, b, k)
  {
    if |a| == 0 || a[0] != b[0] {
      assert DiffersFirstAt(a, b, 0);
    } else {
      LessHasWitness(a[1..], b[1..]);
      var k: nat :| DiffersFirstAt(a[1..], b[1..], k);
      assert a[..k + 1] == [a[0]] + a[1..][..k];
      assert b[..k + 1] == [b[0]] + b[1..][..k];
      assert DiffersFirstAt(a, b, k + 1);
    }
  }

  /** `Less` agrees with the definition by the first differing position. */
  lemma LessIff(a: string, b: string)
    ensures Less(a, b) <==> exists k: nat :: DiffersFirstAt(a, b, k)
  {
    if Less(a, b) {
      LessHasWitness(a, b);
    }
    if exists k: nat :: DiffersFirstAt(a, b, k) {
      var k: nat :| DiffersFirstAt(a, b, k);
      LessAt(a, b, k);
    }
  }

  /** Unlike Dafny's `<` on sequences, `Less` also orders strings that are not
      prefixes of each other; but a proper prefix is always less. */
  lemma ProperPrefixIsLess(a: string, b: string)
    requires a < b
    ensures Less(a, b)
  {
  }

  lemma {:induction false} LessIrreflexive(a: string)
    ensures !Less(a, a)
  {
    if |a| > 0 {
      LessIrreflexive(a[1..]);
    }
  }

  lemma {:induction false} LessAsymmetric(a: string, b: string)
    requires Less(a, b)
    ensures !Less(b, a)
  {
    if |a| > 0 && a[0] == b[0] {
      LessAsymmetric(a[1..], b[1..]);
    }
  }

  lemma {:induction false} LessTransitive(a: string, b: string, c: string)
    requires Less(a, b) && Less(b, c)
    ensures Less(a, c)
  {
    if |a| > 0 && a[0] == b[0] && b[0] == c[0] {
      LessTransitive(a[1..], b[1..], c[1..]);
    }
  }

  /** Any two strings are equal or ordered one way or the other. */
  lemma {:induction false} LessTotal(a: string, b: string)
    ensures a == b || Less(a, b) || Less(b, a)
  {
    if |a| > 0 && |b| > 0 && a[0] == b[0] {
      LessTotal(a[1..], b[1..]);
      if a[1..] == b[1..] {
        assert a == [a[0]] + a[1..] && b == [b[0]] + b[1..];
      }
    }
  }
}
