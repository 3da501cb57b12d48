/** Error bursts anywhere in a codeword: in the data, in the checksum field behind it, or across the two. */
module Codeword {
  import opened Bitwise
  import opened Crc
  import opened Frame

  /** The field holds the checksum of the data. */
  predicate Passes(k: Kind, data: seq<byte>, field: seq<byte>) { Checksum(k, data) == Message(field) }

  lemma MessageOfTwo(a: seq<byte>, b: seq<byte>)
    ensures Message(a + b) == Xor(Message(a), Shl(Message(b), 8 * |a|))
  {
    hide Xor, Shl, Message;
    MessageAppend(a, b);
    MessageFits(a);
    XorDisjoint(Message(a), Message(b), 8 * |a|);
  }

  /** The difference of two byte strings, from those of their parts. */
  lemma DifferenceOfTwo(a: seq<byte>, fa: seq<byte>, b: seq<byte>, fb: seq<byte>)
    requires |a| == |b|
    ensures var low, high := Xor(Message(a), Message(b)), Xor(Message(fa), Message(fb));
            && Xor(Message(a + fa), Message(b + fb)) == Xor(low, Shl(high, 8 * |a|))
            && low < Shl(1, 8 * |a|)
            && Xor(low, Shl(high, 8 * |a|)) == low + Shl(high, 8 * |a|)
  {
    hide Xor, Shl, Message;
    MessageOfTwo(a, fa);
    MessageOfTwo(b, fb);
    var n := 8 * |a|;
    XorSwap(Message(a), Shl(Message(fa), n), Message(b), Shl(Message(fb), n));
    XorShift(Message(fa), Message(fb), n);
    MessageFits(a);
    MessageFits(b);
    XorFits(Message(a), Message(b), n);
    XorDisjoint(Xor(Message(a), Message(b)), Xor(Message(fa), Message(fb)), n);
  }

  /** Beside a codeword that passes, another of the same shape passes if and only if the register maps the
      difference of the two, fields included, to zero in as many steps as the data has bits. */
  lemma PassesExactly(k: Kind, a: seq<byte>, fa: seq<byte>, b: seq<byte>, fb: seq<byte>)
    requires |a| == |b| && Passes(k, a, fa)
    ensures Passes(k, b, fb) <==> Steps(k, Xor(Message(a + fa), Message(b + fb)), 8 * |a|) == 0
  {
    hide Xor, Shl, Message, Run, Steps;
    var i, n, x, y := Ones(k), 8 * |a|, Message(a), Message(b);
    var ra, rb, u, v := Run(k, i, a), Run(k, i, b), Message(fa), Message(fb);
    RunIsSteps(k, i, a);
    RunIsSteps(k, i, b);
    StepsLinear(k, Xor(i, x), Xor(i, y), n);
    XorCommonPart(x, y, i);
    DifferenceOfTwo(a, fa, b, fb);
    StepsLinear(k, Xor(x, y), Shl(Xor(u, v), n), n);
    StepsShift(k, Xor(u, v), n);
    XorIsZero(Xor(ra, rb), Xor(u, v));
    XorCommonPart(ra, rb, i);
    assert u == Xor(ra, i);
    XorAssociates(u, u, v);
    XorAssociates(u, u, Xor(rb, i));
    XorZero(u);
    XorZero(v);
    XorZero(Xor(rb, i));
  }

  /** No register content of Width bits or fewer, entering at any bit, is mapped to zero. */
  lemma BurstSurvives(k: Kind, e: nat, p: nat, n: nat)
    requires 0 < e < Shl(1, Width(k))
    ensures Steps(k, Shl(e, p), n) != 0
  {
    hide Shl, Steps;
    if p < n {
      StepsAdd(k, Shl(e, p), p, n - p);
      StepsShift(k, e, p);
      if Steps(k, e, n - p) == 0 { StepsInjective(k, e, n - p); }
    } else {
      ShlAdd(e, p - n, n);
      StepsShift(k, Shl(e, p - n), n);
      ShlGrows(e, p - n);
    }
  }

  lemma ShlGrows(a: nat, n: nat)
    ensures a <= Shl(a, n)
  {
  }

  /** A burst of at most Width(k) bits anywhere in the codeword is always detected. */
  lemma CodewordBurst(k: Kind, a: seq<byte>, fa: seq<byte>, b: seq<byte>, fb: seq<byte>, p: nat, e: nat)
    requires |a| == |b| && Passes(k, a, fa)
    requires Xor(Message(a + fa), Message(b + fb)) == Shl(e, p) && 0 < e < Shl(1, Width(k))
    ensures !Passes(k, b, fb)
  {
    hide Shl, Xor, Steps, Message, Passes;
    PassesExactly(k, a, fa, b, fb);
    BurstSurvives(k, e, p, 8 * |a|);
  }

  /** Up to 63 bits in the sixteen header bytes. */
  lemma HeaderBurst(h: seq<byte>, g: seq<byte>, p: nat, e: nat)
    requires |h| == |g| == HDR_SIZE && HeaderCrcOk(h)
    requires Xor(Message(h), Message(g)) == Shl(e, p) && 0 < e < Shl(1, 63)
    ensures !HeaderCrcOk(g)
  {
    hide Shl, Xor, Message, Checksum;
    assert h == h[..8] + h[8..] && g == g[..8] + g[8..];
    CodewordBurst(Crc64, h[..8], h[8..], g[..8], g[8..], p, e);
  }

  /** Up to 32 bits in payload and trailer. */
  lemma PayloadBurst(u: seq<byte>, t: seq<byte>, v: seq<byte>, w: seq<byte>, p: nat, e: nat)
    requires |u| == |v| && TrailerOk(u, t)
    requires Xor(Message(u + t), Message(v + w)) == Shl(e, p) && 0 < e < Shl(1, 32)
    ensures !TrailerOk(v, w)
  {
    hide Shl, Xor, Message, Checksum;
    CodewordBurst(Crc32, u, t, v, w, p, e);
  }

  // ----- a burst across two parts of a frame

  lemma {:induction false} ShlSubtract(e: nat, y: nat, p: nat)
    requires Shl(e, p) > Shl(y, p)
    ensures e > y && Shl(e, p) - Shl(y, p) == Shl(e - y, p)
    decreases p
  {
    if p > 0 { ShlSubtract(e, y, p - 1); }
  }

  lemma {:induction false} ShlApart(x: nat, y: nat, low: nat, n: nat)
    requires low < Shl(1, n) && Shl(x, n) == low + Shl(y, n)
    ensures low == 0 && x == y
    decreases n
  {
    if n > 0 { ShlApart(x, y, low / 2, n - 1); }
  }

  /** What a burst does to the first part, if it touches that. */
  lemma LowPart(e: nat, p: nat, low: nat, high: nat, n: nat) returns (e1: nat)
    requires 0 < low < Shl(1, n) && Shl(e, p) == low + Shl(high, n)
    ensures low == Shl(e1, p) && 0 < e1 <= e
  {
    hide Shl;
    e1 := e;
    if p >= n {
      ShlAdd(e, p - n, n);
      ShlApart(Shl(e, p - n), high, low, n);
      assert false;
    } else {
      ShlAdd(high, n - p, p);
      ShlSubtract(e, Shl(high, n - p), p);
      e1 := e - Shl(high, n - p);
    }
  }

  /** And to the second, if it does not. */
  lemma HighPart(e: nat, p: nat, high: nat, n: nat) returns (e2: nat, p2: nat)
    requires e > 0 && Shl(e, p) == Shl(high, n)
    ensures high == Shl(e2, p2) && 0 < e2 <= e
  {
    hide Shl;
    ShlOne(n);
    if p >= n {
      ShlAdd(e, p - n, n);
      ShlApart(Shl(e, p - n), high, 0, n);
      e2, p2 := e, p - n;
    } else {
      ShlAdd(high, n - p, p);
      ShlOne(p);
      ShlApart(e, Shl(high, n - p), 0, p);
      ShlGrows(high, n - p);
      ShlNone(high);
      if high == 0 { ShlZero(n - p); }
      e2, p2 := high, 0;
    }
  }

  /** A burst in two parts is a burst in the first, or if that is untouched, in the second. */
  lemma SplitBurst(a: seq<byte>, fa: seq<byte>, b: seq<byte>, fb: seq<byte>, p: nat, e: nat) returns (q: nat, d: nat)
    requires |a| == |b| && e > 0 && Xor(Message(a + fa), Message(b + fb)) == Shl(e, p)
    ensures 0 < d <= e
    ensures if a != b then Xor(Message(a), Message(b)) == Shl(d, q) else Xor(Message(fa), Message(fb)) == Shl(d, q)
  {
    hide Xor, Shl, Message;
    DifferenceOfTwo(a, fa, b, fb);
    var low, high := Xor(Message(a), Message(b)), Xor(Message(fa), Message(fb));
    XorIsZero(Message(a), Message(b));
    if a != b {
      if low == 0 { MessageInjective(a, b); }
      q := p;
      d := LowPart(e, p, low, high, 8 * |a|);
    } else {
      d, q := HighPart(e, p, high, 8 * |a|);
    }
  }

  lemma ShorterFits(e: nat)
    requires e < Shl(1, 32)
    ensures e < Shl(1, 63)
  {
    hide Shl;
    ShlAdd(1, 32, 31);
    ShlGrows(Shl(1, 32), 31);
  }

  lemma ShlOne(n: nat)
    ensures Shl(1, n) >= 1
  {
  }

  lemma ShlNone(a: nat)
    ensures Shl(a, 0) == a
  {
  }

  lemma {:induction false} ShlZero(n: nat)
    ensures Shl(0, n) == 0
  {
    if n > 0 { ShlZero(n - 1); }
  }
}
