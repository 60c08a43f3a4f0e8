/**
 * IPv4 address sets with the semantics the engine relies on from netaddr's
 * IPSet: a finite set of 32-bit addresses, built from and taken apart into
 * CIDR blocks.
 *
 * An address is an int in [0, 2^32). A CIDR is a network address with a
 * prefix length; as in netaddr, host bits below the prefix are ignored
 * (Mask clears them). `cidr in S`
 * for an IPSet S is `Block(cidr) <= S`, and S.iter_cidrs() is Cidrs(S): the
 * maximal aligned blocks of S in ascending order.
 */
module IPSets {

  /** Number of IPv4 addresses, 2^32. */
  const AddressCount: int := 0x1_0000_0000

  predicate IsAddr(a: int) { 0 <= a < AddressCount }

  /** Every member of s is an IPv4 address. */
  predicate IsIPSet(s: set<int>) { forall a :: a in s ==> IsAddr(a) }

  /** A netaddr IPSet, seen as the set of addresses it holds. */
  type IPSet = s: set<int> | IsIPSet(s)

  function Pow2(n: nat): (r: nat)
    ensures r >= 1
  {
    if n == 0 then 1 else 2 * Pow2(n - 1)
  }

  /** Number of addresses in a block with prefix length len. */
  function Size(len: int): nat
    requires 0 <= len <= 32
  {
    Pow2(32 - len)
  }

  /** `net/len`, as configured or as a route announces it. */
  datatype Cidr = Cidr(net: int, len: int)

  predicate IsCidr(c: Cidr) { IsAddr(c.net) && 0 <= c.len <= 32 }

  /** A CIDR with no host bits set, the form netaddr hands out. */
  predicate IsNetwork(c: Cidr) { IsCidr(c) && c.net % Size(c.len) == 0 }

  /** Address a lies in the block that starts at c.net and holds Size(c.len) addresses. */
  predicate Covers(c: Cidr, a: int)
  {
    0 <= c.len <= 32 && c.net <= a < c.net + Size(c.len)
  }

  /** The addresses a CIDR covers. */
  function Block(c: Cidr): IPSet
  {
    set a | 0 <= a < AddressCount && Covers(c, a)
  }

  /**
   * IPNetwork(c).cidr: the network c denotes, with the host bits below the
   * prefix cleared, as netaddr does when a CIDR with host bits is parsed
   * into a set.
   */
  function Mask(c: Cidr): (m: Cidr)
    requires IsCidr(c)
    ensures IsNetwork(m) && m.len == c.len
    ensures m.net <= c.net < m.net + Size(m.len)
    ensures IsNetwork(c) ==> m == c
  {
    MaskFacts(c);
    Cidr(c.net - c.net % Size(c.len), c.len)
  }

  /** IPSet(cidrs): the union of the blocks of a list of CIDRs. */
  function IPSetOf(cs: seq<Cidr>): IPSet
  {
    if cs == [] then {} else Block(cs[0]) + IPSetOf(cs[1..])
  }

  /**
   * IPSet(list of CIDR strings) for well-formed CIDRs: host bits are
   * cleared, then the blocks are joined.
   */
  function Parse(cs: seq<Cidr>): IPSet
    requires forall k :: 0 <= k < |cs| ==> IsCidr(cs[k])
  {
    IPSetOf(seq(|cs|, k requires 0 <= k < |cs| => Mask(cs[k])))
  }

  /**
   * The parsed set holds every listed address, and an address exactly when
   * one of the masked CIDRs covers it.
   */
  lemma ParseMembers(cs: seq<Cidr>)
    requires forall k :: 0 <= k < |cs| ==> IsCidr(cs[k])
    ensures forall k :: 0 <= k < |cs| ==> cs[k].net in Parse(cs)
    ensures forall a :: a in Parse(cs) <==> exists k :: 0 <= k < |cs| && a in Block(Mask(cs[k]))
  {
    var ms := seq(|cs|, k requires 0 <= k < |cs| => Mask(cs[k]));
    forall a | a in IPSetOf(ms) ensures exists k :: 0 <= k < |cs| && a in Block(Mask(cs[k])) {
      var k := IPSetOfWitness(ms, a);
    }
    forall k | 0 <= k < |cs| ensures Block(Mask(cs[k])) <= IPSetOf(ms) && cs[k].net in IPSetOf(ms) {
      IPSetOfHolds(ms, k);
      BlockFacts(ms[k]);
      assert cs[k].net in Block(ms[k]) by { MaskCovers(cs[k]); }
    }
  }

  /** The whole IPv4 space, 0.0.0.0/0. */
  const Root: Cidr := Cidr(0, 0)

  /** Lower half of a network block: one bit longer, same start. */
  function Left(c: Cidr): (l: Cidr)
    requires IsNetwork(c) && c.len < 32
    ensures IsNetwork(l) && l.len == c.len + 1 && l.net == c.net
    ensures Size(c.len) == 2 * Size(l.len)
  {
    Halves(c);
    Cidr(c.net, c.len + 1)
  }

  /** Upper half of a network block. */
  function Right(c: Cidr): (h: Cidr)
    requires IsNetwork(c) && c.len < 32
    ensures IsNetwork(h) && h.len == c.len + 1 && h.net == c.net + Size(c.len + 1)
    ensures Size(c.len) == 2 * Size(h.len)
  {
    Halves(c);
    Cidr(c.net + Size(c.len + 1), c.len + 1)
  }

  /** Each block ends before the next one starts. */
  predicate Ascending(cs: seq<Cidr>)
  {
    forall i, j :: 0 <= i < j < |cs| ==> IsCidr(cs[i]) && cs[i].net + Size(cs[i].len) <= cs[j].net
  }

  /** Networks whose blocks lie within [lo, hi) and within s. */
  predicate Inside(cs: seq<Cidr>, s: set<int>, lo: int, hi: int)
  {
    forall k :: 0 <= k < |cs| ==>
      && IsNetwork(cs[k])
      && lo <= cs[k].net
      && cs[k].net + Size(cs[k].len) <= hi
      && Block(cs[k]) <= s
  }

  /**
   * The maximal blocks of s inside network block c, in ascending order:
   * c itself when s holds all of it, nothing when s misses it, and
   * otherwise the blocks of its two halves.
   */
  function Split(s: set<int>, c: Cidr): (r: seq<Cidr>)
    requires IsNetwork(c)
    decreases 32 - c.len
  {
    if Block(c) <= s then [c]
    else if c.len == 32 || Block(c) !! s then []
    else Split(s, Left(c)) + Split(s, Right(c))
  }

  /** s.iter_cidrs(): networks whose union is s (ordered as CidrsOrdered states). */
  function Cidrs(s: set<int>): (r: seq<Cidr>)
    requires IsIPSet(s)
    ensures forall k :: 0 <= k < |r| ==> IsNetwork(r[k])
    ensures IPSetOf(r) == s
  {
    RootFacts();
    SplitInside(s, Root);
    SplitCovers(s, Root);
    Split(s, Root)
  }

  /** The CIDRs of s lie inside s and come in ascending, hence disjoint, order. */
  lemma CidrsOrdered(s: set<int>)
    requires IsIPSet(s)
    ensures Inside(Cidrs(s), s, 0, AddressCount)
    ensures Ascending(Cidrs(s))
  {
    RootFacts();
    SplitInside(s, Root);
    SplitAscending(s, Root);
  }

  /** A list of CIDRs whose blocks do not share an address. */
  predicate PairwiseDisjoint(cs: seq<Cidr>)
  {
    forall i, j :: 0 <= i < |cs| && 0 <= j < |cs| && i != j ==> Block(cs[i]) !! Block(cs[j])
  }

  // ---------------------------------------------------------------------
  // Arithmetic

  lemma MulMono(a: int, b: int, s: int)
    requires a <= b && 0 <= s
    ensures a * s <= b * s
  {
  }

  lemma MultipleMod(k: int, s: int)
    requires s > 0
    ensures (k * s) % s == 0 && (k * s) / s == k
  {
    var q, r := (k * s) / s, (k * s) % s;
    assert (k - q) * s == r;
    if k - q >= 1 {
      MulMono(1, k - q, s);
    } else if k - q <= -1 {
      MulMono(k - q, -1, s);
    }
  }

  /** Two multiples of s that differ are at least s apart. */
  lemma AlignedGap(x: int, y: int, s: int)
    requires s > 0 && x % s == 0 && y % s == 0 && x < y
    ensures x + s <= y
  {
    assert x == (x / s) * s && y == (y / s) * s;
    if x / s >= y / s {
      MulMono(y / s, x / s, s);
    } else {
      MulMono(x / s + 1, y / s, s);
    }
  }

  lemma {:induction false} Pow2Add(m: nat, n: nat)
    ensures Pow2(m + n) == Pow2(m) * Pow2(n)
  {
    if m > 0 {
      Pow2Add(m - 1, n);
    }
  }

  lemma Pow2ThirtyTwo()
    ensures Pow2(32) == AddressCount
  {
    assert Pow2(4) == 16;
    Pow2Add(4, 4);
    Pow2Add(8, 8);
    Pow2Add(16, 16);
  }

  /** A shorter prefix's size is a multiple of a longer prefix's size. */
  lemma SizeMultiple(short: int, long: int)
    requires 0 <= short <= long <= 32
    ensures Size(short) == Pow2(long - short) * Size(long)
  {
    Pow2Add(long - short, 32 - long);
  }

  lemma MultipleOfMultiple(x: int, m: int, s: int)
    requires m > 0 && s > 0 && x % (m * s) == 0
    ensures x % s == 0 && (x + m * s) % s == 0
  {
    var q := x / (m * s);
    assert x == q * (m * s);
    assert x == (q * m) * s;
    MultipleMod(q * m, s);
    assert x + m * s == (q * m + m) * s;
    MultipleMod(q * m + m, s);
  }

  /** A multiple of a shorter prefix's size is a multiple of a longer one's. */
  lemma AlignedToLonger(x: int, short: int, long: int)
    requires 0 <= short <= long <= 32 && x % Size(short) == 0
    ensures x % Size(long) == 0 && (x + Size(short)) % Size(long) == 0
  {
    SizeMultiple(short, long);
    MultipleOfMultiple(x, Pow2(long - short), Size(long));
  }

  // ---------------------------------------------------------------------
  // Blocks

  /** Rounding x down to a multiple of s. */
  lemma RoundDown(x: int, s: int)
    requires 0 <= x && s > 0
    ensures (x - x % s) % s == 0
    ensures 0 <= x - x % s <= x < x - x % s + s
  {
    var q := x / s;
    assert x == q * s + x % s;
    assert x - x % s == q * s;
    MultipleMod(q, s);
    MulMono(0, q, s);
  }

  lemma MaskFacts(c: Cidr)
    requires IsCidr(c)
    ensures IsNetwork(Cidr(c.net - c.net % Size(c.len), c.len))
    ensures c.net - c.net % Size(c.len) <= c.net < c.net - c.net % Size(c.len) + Size(c.len)
  {
    RoundDown(c.net, Size(c.len));
  }

  lemma MaskCovers(c: Cidr)
    requires IsCidr(c)
    ensures c.net in Block(Mask(c))
  {
  }

  /** A network's block stays within IPv4 and holds its network address. */
  lemma BlockFacts(c: Cidr)
    requires IsNetwork(c)
    ensures c.net + Size(c.len) <= AddressCount
    ensures c.net in Block(c)
    ensures IsIPSet(Block(c))
  {
    var s := Size(c.len);
    Pow2ThirtyTwo();
    SizeMultiple(0, c.len);
    MultipleMod(Pow2(c.len), s);
    AlignedGap(c.net, AddressCount, s);
  }

  /** The next multiple of s after a multiple of s. */
  lemma NextAligned(x: int, s: int)
    requires s > 0 && x % s == 0
    ensures (x + s) % s == 0
  {
    assert x == (x / s) * s;
    assert x + s == (x / s + 1) * s;
    MultipleMod(x / s + 1, s);
  }

  /** A network block splits into two aligned halves. */
  lemma Halves(c: Cidr)
    requires IsNetwork(c) && c.len < 32
    ensures Size(c.len) == 2 * Size(c.len + 1)
    ensures IsNetwork(Cidr(c.net, c.len + 1))
    ensures IsNetwork(Cidr(c.net + Size(c.len + 1), c.len + 1))
  {
    var h := Size(c.len + 1);
    assert Size(c.len) == 2 * h;
    BlockFacts(c);
    AlignedToLonger(c.net, c.len, c.len + 1);
    NextAligned(c.net, h);
  }

  /** Two CIDR blocks are nested or disjoint; the longer prefix is the inner one. */
  lemma {:induction false} Nesting(c: Cidr, d: Cidr)
    requires IsNetwork(c) && IsNetwork(d) && c.len <= d.len
    ensures Block(d) <= Block(c) || Block(c) !! Block(d)
  {
    var fc, fd := c.net, d.net;
    var sc, sd := Size(c.len), Size(d.len);
    AlignedToLonger(fc, c.len, d.len);
    if fd < fc {
      AlignedGap(fd, fc, sd);
    } else if fd < fc + sc {
      AlignedGap(fd, fc + sc, sd);
    }
  }

  /** Blocks that share an address are nested. */
  lemma Overlapping(c: Cidr, d: Cidr, a: int)
    requires IsNetwork(c) && IsNetwork(d) && a in Block(c) && a in Block(d)
    ensures Block(c) <= Block(d) || Block(d) <= Block(c)
  {
    if c.len <= d.len {
      Nesting(c, d);
    } else {
      Nesting(d, c);
    }
  }

  lemma RootFacts()
    ensures IsNetwork(Root) && Size(Root.len) == AddressCount
    ensures forall a :: a in Block(Root) <==> IsAddr(a)
  {
    Pow2ThirtyTwo();
  }

  // ---------------------------------------------------------------------
  // IPSet(cidrs)

  lemma {:induction false} IPSetOfAppend(a: seq<Cidr>, b: seq<Cidr>)
    ensures IPSetOf(a + b) == IPSetOf(a) + IPSetOf(b)
  {
    if a == [] {
      assert a + b == b;
    } else {
      assert (a + b)[0] == a[0];
      assert (a + b)[1..] == a[1..] + b;
      IPSetOfAppend(a[1..], b);
    }
  }

  /** Each listed block lies in IPSet(cidrs). */
  lemma {:induction false} IPSetOfHolds(cs: seq<Cidr>, k: int)
    requires 0 <= k < |cs|
    ensures Block(cs[k]) <= IPSetOf(cs)
  {
    if k > 0 {
      IPSetOfHolds(cs[1..], k - 1);
    }
  }

  /** An address of IPSet(cidrs) lies in one of the listed blocks. */
  lemma {:induction false} IPSetOfWitness(cs: seq<Cidr>, a: int) returns (k: int)
    requires a in IPSetOf(cs)
    ensures 0 <= k < |cs| && a in Block(cs[k])
  {
    if a in Block(cs[0]) {
      k := 0;
    } else {
      k := IPSetOfWitness(cs[1..], a);
      k := k + 1;
    }
  }

  lemma {:induction false} IPSetOfIsIPSet(cs: seq<Cidr>)
    ensures IsIPSet(IPSetOf(cs))
  {
    if cs != [] {
      IPSetOfIsIPSet(cs[1..]);
    }
  }

  // ---------------------------------------------------------------------
  // iter_cidrs

  lemma AppendInside(p: seq<Cidr>, q: seq<Cidr>, s: set<int>, lo: int, mid: int, hi: int)
    requires lo <= mid <= hi
    requires Inside(p, s, lo, mid) && Inside(q, s, mid, hi)
    ensures Inside(p + q, s, lo, hi)
    ensures Ascending(p) && Ascending(q) ==> Ascending(p + q)
  {
    forall k | 0 <= k < |p + q|
      ensures IsNetwork((p + q)[k]) && lo <= (p + q)[k].net
      ensures (p + q)[k].net + Size((p + q)[k].len) <= hi && Block((p + q)[k]) <= s
    {
      if k < |p| {
        assert (p + q)[k] == p[k];
      } else {
        assert (p + q)[k] == q[k - |p|];
      }
    }
    if Ascending(p) && Ascending(q) {
      forall i, j | 0 <= i < j < |p + q|
        ensures IsCidr((p + q)[i]) && (p + q)[i].net + Size((p + q)[i].len) <= (p + q)[j].net
      {
        if j < |p| {
          assert (p + q)[i] == p[i] && (p + q)[j] == p[j];
        } else if i >= |p| {
          assert (p + q)[i] == q[i - |p|] && (p + q)[j] == q[j - |p|];
        } else {
          assert (p + q)[i] == p[i] && (p + q)[j] == q[j - |p|];
        }
      }
    }
  }

  lemma SizeThirtyTwo(c: Cidr)
    requires IsNetwork(c) && c.len == 32
    ensures Block(c) == {c.net}
  {
    assert Size(32) == 1;
    assert c.net in Block(c);
  }

  lemma {:induction false} SplitInside(s: set<int>, c: Cidr)
    requires IsNetwork(c)
    ensures Inside(Split(s, c), s, c.net, c.net + Size(c.len))
    ensures Ascending(Split(s, c))
    decreases 32 - c.len
  {
    if Block(c) <= s {
    } else if c.len == 32 || Block(c) !! s {
    } else {
      var lo, hi := Left(c), Right(c);
      SplitInside(s, lo);
      SplitInside(s, hi);
      AppendInside(Split(s, lo), Split(s, hi), s, c.net, hi.net, c.net + Size(c.len));
    }
  }

  lemma SplitAscending(s: set<int>, c: Cidr)
    requires IsNetwork(c)
    ensures Ascending(Split(s, c))
  {
    SplitInside(s, c);
  }

  lemma HalvesCover(c: Cidr)
    requires IsNetwork(c) && c.len < 32
    ensures Block(c) == Block(Left(c)) + Block(Right(c))
  {
  }

  lemma {:induction false} SplitCovers(s: set<int>, c: Cidr)
    requires IsNetwork(c)
    ensures IPSetOf(Split(s, c)) == s * Block(c)
    decreases 32 - c.len
  {
    if Block(c) <= s {
      assert IPSetOf([c]) == Block(c) + IPSetOf([]);
    } else if c.len == 32 || Block(c) !! s {
      if c.len == 32 {
        SizeThirtyTwo(c);
      }
    } else {
      var lo, hi := Left(c), Right(c);
      SplitCovers(s, lo);
      SplitCovers(s, hi);
      IPSetOfAppend(Split(s, lo), Split(s, hi));
      HalvesCover(c);
    }
  }

  /** Ascending networks are pairwise disjoint. */
  lemma AscendingDisjoint(cs: seq<Cidr>)
    requires forall k :: 0 <= k < |cs| ==> IsNetwork(cs[k])
    requires Ascending(cs)
    ensures PairwiseDisjoint(cs)
  {
  }

  /**
   * Maximality of iter_cidrs: every CIDR block inside s lies inside one of
   * the blocks s.iter_cidrs() yields.
   */
  lemma {:induction false} SplitMaximal(s: set<int>, c: Cidr, d: Cidr) returns (k: int)
    requires IsNetwork(c) && IsNetwork(d)
    requires Block(d) <= s && Block(d) <= Block(c)
    ensures 0 <= k < |Split(s, c)| && Block(d) <= Block(Split(s, c)[k])
    decreases 32 - c.len
  {
    BlockFacts(d);
    if Block(c) <= s {
      k := 0;
    } else if c.len == 32 || Block(c) !! s {
      if !(Block(c) !! s) {
        SizeThirtyTwo(c);
      }
      assert false;
    } else {
      var lo, hi := Left(c), Right(c);
      HalvesCover(c);
      if d.len <= c.len {
        Nesting(d, c);
        assert false;
      }
      var p, q := Split(s, lo), Split(s, hi);
      assert Split(s, c) == p + q;
      if d.net in Block(lo) {
        Nesting(lo, d);
        k := SplitMaximal(s, lo, d);
        assert Split(s, c)[k] == p[k];
      } else {
        Nesting(hi, d);
        var k' := SplitMaximal(s, hi, d);
        k := |p| + k';
        assert Split(s, c)[k] == q[k'];
      }
    }
  }

  /** Every CIDR block wholly inside s is inside one of s.iter_cidrs(). */
  lemma CidrsMaximal(s: set<int>, d: Cidr) returns (k: int)
    requires IsIPSet(s) && IsNetwork(d) && Block(d) <= s
    ensures 0 <= k < |Cidrs(s)| && Block(d) <= Block(Cidrs(s)[k])
  {
    RootFacts();
    BlockFacts(d);
    k := SplitMaximal(s, Root, d);
  }

  /** The empty IPSet has no CIDRs. */
  lemma CidrsEmpty()
    ensures Cidrs({}) == []
  {
    RootFacts();
    assert 0 in Block(Root);
  }
}
