/** Byte strings, their memcmp order, and prefixes. */
module ByteStrings {

  datatype Option<+T> = None | Some(value: T)

  type Byte = b: int | 0 <= b < 256

  type Bytes = seq<Byte>

  // LMDB's default key order: the first differing byte decides; a proper prefix sorts first.
  predicate Less(a: Bytes, b: Bytes) {
    b != [] && (a == [] || a[0] < b[0] || (a[0] == b[0] && Less(a[1..], b[1..])))
  }

  predicate AtMost(a: Bytes, b: Bytes) {
    a == b || Less(a, b)
  }

  // ---- Less is a strict total order ----

  lemma {:induction false} Irreflexive(a: Bytes)
    ensures !Less(a, a)
  {
    if a != [] {
      Irreflexive(a[1..]);
    }
  }

  lemma {:induction false} Transitive(a: Bytes, b: Bytes, c: Bytes)
    requires Less(a, b) && Less(b, c)
    ensures Less(a, c)
  {
    if a != [] && a[0] == b[0] == c[0] {
      Transitive(a[1..], b[1..], c[1..]);
    }
  }

  lemma {:induction false} Trichotomy(a: Bytes, b: Bytes)
    ensures a == b || Less(a, b) || Less(b, a)
  {
    if a != [] && b != [] && a[0] == b[0] {
      Trichotomy(a[1..], b[1..]);
      assert a == [a[0]] + a[1..] && b == [b[0]] + b[1..];
    }
  }

  lemma Asymmetric(a: Bytes, b: Bytes)
    requires Less(a, b)
    ensures !Less(b, a)
  {
    Irreflexive(a);
    if Less(b, a) {
      Transitive(a, b, a);
    }
  }

  /** Not being below is the same as being at or above. */
  lemma NotLess(a: Bytes, b: Bytes)
    ensures !Less(a, b) <==> AtMost(b, a)
  {
    Trichotomy(a, b);
    Irreflexive(a);
    if Less(b, a) {
      Asymmetric(b, a);
    }
  }

  lemma AtMostLess(a: Bytes, b: Bytes, c: Bytes)
    requires AtMost(a, b) && Less(b, c)
    ensures Less(a, c)
  {
    if a != b {
      Transitive(a, b, c);
    }
  }

  // ---- how the order sees concatenation ----

  /** A common front does not take part in the comparison. */
  lemma {:induction false} LessAfterFront(p: Bytes, a: Bytes, b: Bytes)
    ensures Less(p + a, p + b) <==> Less(a, b)
  {
    if p == [] {
      assert p + a == a && p + b == b;
    } else {
      assert (p + a)[1..] == p[1..] + a && (p + b)[1..] == p[1..] + b;
      LessAfterFront(p[1..], a, b);
    }
  }

  /** Between strings of one length, everything before the last byte decides first. */
  lemma {:induction false} LessAtLast(a: Bytes, b: Bytes, x: Byte, y: Byte)
    requires |a| == |b|
    ensures Less(a + [x], b + [y]) <==> Less(a, b) || (a == b && x < y)
  {
    if a == [] {
      assert a + [x] == [x] && b + [y] == [y];
    } else {
      assert (a + [x])[1..] == a[1..] + [x] && (b + [y])[1..] == b[1..] + [y];
      assert a == [a[0]] + a[1..] && b == [b[0]] + b[1..];
      LessAtLast(a[1..], b[1..], x, y);
    }
  }

  /** A string that neither extends `p` nor sorts below it sorts above every extension of `p`. */
  lemma {:induction false} AboveAllExtensions(p: Bytes, k: Bytes, tail: Bytes)
    requires Less(p, k) && !(p <= k)
    ensures Less(p + tail, k)
  {
    if p[0] == k[0] {
      assert (p + tail)[1..] == p[1..] + tail;
      assert p == [p[0]] + p[1..] && k == [k[0]] + k[1..];
      AboveAllExtensions(p[1..], k[1..], tail);
    }
  }

  /** Extensions of `p` are at or above it. */
  lemma PrefixAtMost(p: Bytes, k: Bytes)
    requires p <= k
    ensures AtMost(p, k)
  {
    var tail := k[|p|..];
    assert k == p + tail && p == p + [];
    LessAfterFront(p, [], tail);
  }
}
