/** The exclusive upper bound of a prefix scan (state_machine.rs, `next_prefix`). */
module NextPrefixes {
  import opened ByteStrings

  // Drop trailing 0xFF bytes, then bump the last byte that is left.
  function NextPrefix(p: Bytes): Option<Bytes> {
    if p == [] then None
    else if p[|p| - 1] < 255 then Some(p[..|p| - 1] + [p[|p| - 1] + 1])
    else NextPrefix(p[..|p| - 1])
  }

  predicate AllOnes(p: Bytes) {
    forall i :: 0 <= i < |p| ==> p[i] == 255
  }

  /** The loop over the copied vector: bump the last byte, or pop it and look again. */
  method ComputeNextPrefix(prefix: Bytes) returns (r: Option<Bytes>)
    ensures r == NextPrefix(prefix)
  {
    var next := prefix;
    while true
      invariant NextPrefix(next) == NextPrefix(prefix)
      decreases |next|
    {
      if next == [] {
        return None;
      }
      var b := next[|next| - 1];
      if b < 255 {
        var front := next[..|next| - 1];
        next := next[|next| - 1 := b + 1];
        assert next == front + [b + 1];
        return Some(next);
      }
      next := next[..|next| - 1];
    }
  }

  lemma {:induction false} NextPrefixNone(p: Bytes)
    ensures NextPrefix(p).None? <==> AllOnes(p)
  {
    if p != [] && p[|p| - 1] == 255 {
      NextPrefixNone(p[..|p| - 1]);
    }
  }

  // The shape of the result: a shorter front, bumped by one, with only 0xFF bytes cut away.
  lemma {:induction false} NextPrefixShape(p: Bytes) returns (front: Bytes, b: Byte, ones: Bytes)
    requires NextPrefix(p).Some?
    ensures b < 255 && AllOnes(ones)
    ensures p == front + [b] + ones
    ensures NextPrefix(p) == Some(front + [b + 1])
  {
    var last := |p| - 1;
    if p[last] < 255 {
      front, b, ones := p[..last], p[last], [];
    } else {
      front, b, ones := NextPrefixShape(p[..last]);
      ones := ones + [255];
    }
  }

  /** Nothing sorts above a run of 0xFF bytes without extending it. */
  lemma {:induction false} AboveOnesExtends(ones: Bytes, k: Bytes)
    requires AllOnes(ones)
    ensures AtMost(ones, k) <==> ones <= k
  {
    if ones != [] {
      if k != [] && k[0] == 255 {
        AboveOnesExtends(ones[1..], k[1..]);
        assert ones == [ones[0]] + ones[1..] && k == [k[0]] + k[1..];
      }
    }
  }

  /** With no successor, "at or above the prefix" already means "has the prefix". */
  lemma NoSuccessorExact(p: Bytes, k: Bytes)
    requires NextPrefix(p).None?
    ensures AtMost(p, k) <==> p <= k
  {
    NextPrefixNone(p);
    AboveOnesExtends(p, k);
  }

  /** `[p, next)` holds exactly the strings with prefix `p`. */
  lemma SuccessorExact(p: Bytes, k: Bytes)
    requires NextPrefix(p).Some?
    ensures AtMost(p, k) && Less(k, NextPrefix(p).value) <==> p <= k
  {
    var front, b, ones := NextPrefixShape(p);
    var next := NextPrefix(p).value;
    if p <= k {
      PrefixAtMost(p, k);
      var tail := k[|p|..];
      assert k == front + ([b] + ones + tail);
      LessAfterFront(front, [b] + ones + tail, [b + 1]);
    } else if AtMost(p, k) && Less(k, next) {
      BetweenExtends(front, b, ones, k);
    }
  }

  lemma BetweenExtends(front: Bytes, b: Byte, ones: Bytes, k: Bytes)
    requires b < 255 && AllOnes(ones)
    requires Less(front + [b] + ones, k) && Less(k, front + [b + 1])
    ensures front + [b] + ones <= k
  {
    var p := front + [b] + ones;
    // k starts with front: otherwise it would sort above front's every extension.
    if !(front <= k) {
      assert p == front + ([b] + ones);
      PrefixAtMost(front, p);
      AtMostLess(front, p, k);
      AboveAllExtensions(front, k, [b + 1]);
      Asymmetric(k, front + [b + 1]);
      assert false;
    }
    var rest := k[|front|..];
    assert k == front + rest;
    assert p == front + ([b] + ones);
    LessAfterFront(front, [b] + ones, rest);
    LessAfterFront(front, rest, [b + 1]);
    assert rest != [] && rest[0] == b;
    assert ([b] + ones)[1..] == ones;
    AboveOnesExtends(ones, rest[1..]);
    assert rest == [b] + rest[1..];
  }

  /** No smaller bound works: whatever lies above every extension of `p` is at or above `next`. */
  lemma SuccessorLeast(p: Bytes, bound: Bytes)
    requires NextPrefix(p).Some?
    requires forall k :: p <= k ==> Less(k, bound)
    ensures AtMost(NextPrefix(p).value, bound)
  {
    var next := NextPrefix(p).value;
    NotLess(bound, next);
    if Less(bound, next) {
      assert p <= p;
      SuccessorExact(p, bound);
      assert p <= bound;
      Irreflexive(bound);
      assert false;
    }
  }
}
