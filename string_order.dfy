/** Go's `<` on strings: bytewise lexicographic order. Keys here are Dafny
    strings, sequences of Unicode scalar values, so the keys modelled are the
    Go strings that are valid UTF-8. UTF-8 encoding preserves the order of
    code points, so on those keys comparing the characters one by one gives
    the same answer as comparing the encoded bytes. (Dafny's own `<` on
    sequences means "proper prefix", which is not this order.) */
module StringOrder {

  /** a < b: at the first position where they differ a has the smaller
      character, or a is a proper prefix of b. */
  predicate Less(a: string, b: string)
    decreases |a|
  {
    if |b| == 0 then false
    else if |a| == 0 then true
    else if a[0] != b[0] then a[0] < b[0]
    else Less(a[1..], b[1..])
  }

  lemma {:induction false} Irreflexive(a: string)
    ensures !Less(a, a)
  {
    if |a| > 0 {
      Irreflexive(a[1..]);
    }
  }

  lemma {:induction false} Transitive(a: string, b: string, c: string)
    requires Less(a, b) && Less(b, c)
    ensures Less(a, c)
  {
    if |a| > 0 && a[0] == b[0] && b[0] == c[0] {
      Transitive(a[1..], b[1..], c[1..]);
    }
  }

  /** Any two different strings are ordered one way or the other, so the
      three-way branch `key < t.Key` / `key > t.Key` / else of Delete only
      reaches its last arm on equal keys. */
  lemma {:induction false} Total(a: string, b: string)
    ensures a == b || Less(a, b) || Less(b, a)
  {
    if |a| > 0 && |b| > 0 && a[0] == b[0] {
      assert a == a[..1] + a[1..] && b == b[..1] + b[1..];
      Total(a[1..], b[1..]);
    }
  }

  lemma {:induction false} Asymmetric(a: string, b: string)
    requires Less(a, b)
    ensures !Less(b, a)
  {
    if Less(b, a) {
      Transitive(a, b, a);
      Irreflexive(a);
    }
  }

  /** a < b <= c gives a < c ("b <= c" written as "not c < b"). */
  lemma {:induction false} LessThenAtMost(a: string, b: string, c: string)
    requires Less(a, b) && !Less(c, b)
    ensures Less(a, c)
  {
    Total(b, c);
    if b != c {
      Transitive(a, b, c);
    }
  }
}
