/** Choosing the cyclic group and a random generator of it. */
module Cyclic {
  import opened Arith
  import opened ModPower

  /** A multiplicative group of integers modulo a prime. */
  datatype Group = Group(prime: u64, root: nat, factors: seq<nat>)

  /** The known root generates the group, and the factors are the prime divisors of its order. */
  ghost predicate Sound(g: Group) {
    && g.prime > 3
    && PrimitiveRoot(g.root, g.prime)
    && g.factors != []
    && (forall i :: 0 <= i < |g.factors| ==> g.factors[i] > 1 && Mod(g.prime - 1, g.factors[i]) == 0)
    && (forall q :: IsPrime(q) && Mod(g.prime - 1, q) == 0 ==> q in g.factors)
  }

  datatype Verdict = Coprime | NotCoprime | DivisionByZero

  /** A factor and a candidate divide one another. */
  predicate Clash(f: nat, c: nat)
    requires f > 0 && c > 0
  {
    Mod(c, f) == 0 || Mod(f, c) == 0
  }

  /** What the factor loop decides: 1 and multiples of a listed factor are refused. */
  ghost predicate Accepts(g: Group, c: nat) {
    c > 0 && forall i :: 0 <= i < |g.factors| ==> g.factors[i] > 0 && !Clash(g.factors[i], c)
  }

  /** A candidate is accepted iff no listed factor divides it and it divides none. */
  lemma AcceptsMeans(g: Group, c: nat)
    requires forall i :: 0 <= i < |g.factors| ==> g.factors[i] > 1
    ensures Accepts(g, c) <==>
              c > 0 && forall i :: 0 <= i < |g.factors| ==> c % g.factors[i] != 0 && g.factors[i] % c != 0
  {
    if c > 0 {
      forall i | 0 <= i < |g.factors|
        ensures Clash(g.factors[i], c) <==> c % g.factors[i] == 0 || g.factors[i] % c == 0
      {
      }
    }
  }

  /** Compares a candidate with each listed factor in turn; a zero candidate divides by zero. */
  method CheckCoprime(check: u64, g: Group) returns (r: Verdict)
    requires forall i :: 0 <= i < |g.factors| ==> g.factors[i] > 1
    ensures r == DivisionByZero <==> check == 0 && g.factors != []
    ensures check > 0 ==> (r == Coprime <==> Accepts(g, check))
    ensures check > 0 ==>
              (r == Coprime <==> forall i :: 0 <= i < |g.factors| ==> check % g.factors[i] != 0 && g.factors[i] % check != 0)
  {
    hide Mod;
    if check > 0 { AcceptsMeans(g, check); }
    var i := 0;
    while i < |g.factors|
      invariant 0 <= i <= |g.factors|
      invariant check == 0 ==> i == 0
      invariant check > 0 ==> forall j :: 0 <= j < i ==> !Clash(g.factors[j], check)
    {
      var f := g.factors[i];
      if f > check {
        if check == 0 {
          return DivisionByZero;
        }
        ModSmall(check, f);
        if Mod(f, check) == 0 {
          return NotCoprime;
        }
      } else if f < check {
        ModSmall(f, check);
        if Mod(check, f) == 0 {
          return NotCoprime;
        }
      } else {
        ModSelf(f);
        return NotCoprime;
      }
      i := i + 1;
    }
    return Coprime;
  }

  lemma ModSelf(f: nat)
    requires f > 0
    ensures Mod(f, f) == 0
  {
  }

  /** An accepted candidate has no common divisor with the group order. */
  lemma AcceptedIsCoprime(g: Group, c: nat)
    requires Sound(g) && Accepts(g, c)
    ensures Gcd(c, g.prime - 1) == 1
  {
    forall q | IsPrime(q) && Mod(g.prime - 1, q) == 0 ensures Mod(c, q) != 0 {
      assert q in g.factors;
    }
    NoCommonPrime(c, g.prime - 1);
  }

  /** p - 2 is always accepted: it is next to p - 1. */
  lemma NeighbourAccepted(g: Group)
    requires Sound(g)
    ensures Accepts(g, g.prime - 2)
  {
    hide Mod;
    forall i | 0 <= i < |g.factors| ensures !Clash(g.factors[i], g.prime - 2) {
      NeighboursDoNotClash(g.prime - 2, g.factors[i]);
    }
  }

  lemma NeighboursDoNotClash(c: nat, f: nat)
    requires f > 1 && c > 1 && Mod(c + 1, f) == 0
    ensures !Clash(f, c)
  {
    var q := (c + 1) / f;
    assert c + 1 == q * f;
    DivModUnique(c, f, q - 1, f - 1);
    MulMono(1, q, f);
    if f == c + 1 {
      DivModUnique(f, c, 1, 1);
    } else if f == c {
      if q >= 2 { MulMono(2, q, f); }
    } else {
      DivModUnique(f, c, 0, f);
    }
  }

  datatype Search = Root(value: u32) | Trap

  function Low32(x: nat): u32 {
    x % 0x1_0000_0000
  }

  /** Where the search for a candidate starts. */
  function Start(g: Group, word: u64): u32
    requires g.prime > 0
  {
    ModAtMost(Low32(word), g.prime);
    var c := Mod(Low32(word), g.prime);
    if c == 0 then 1 else c
  }

  /** The word's low half modulo the prime, or 1 for 0. */
  lemma StartMeans(g: Group, word: u64)
    requires g.prime > 1
    ensures var c := word % 0x1_0000_0000 % g.prime;
            c < g.prime && Start(g, word) == (if c == 0 then 1 else c) && !Accepts(g, 0)
  {
  }

  lemma ModAtMost(a: nat, n: nat)
    requires n > 0
    ensures Mod(a, n) <= a
  {
    if a < n { ModSmall(a, n); }
  }

  /** The first accepted exponent, cyclically, from a random start on. */
  ghost predicate Chosen(g: Group, word: u64, s: nat)
    requires g.prime > 0
  {
    && s < 0x1_0000_0000 && s < g.prime && Accepts(g, s)
    && if s >= Start(g, word) then forall c :: Start(g, word) <= c < s ==> !Accepts(g, c)
       else forall c :: 0 < c < s || Start(g, word) <= c < g.prime ==> !Accepts(g, c)
  }

  /**
   * Steps a 32-bit candidate from a random start to the first one coprime to the order and
   * raises the known root to it.  The ghost result is that exponent.  In a group of more than
   * 2^32 elements the candidate can run past 2^32 - 1 to 0, which traps.
   */
  method FindPrimroot(g: Group, word: u64) returns (r: Search, ghost s: nat)
    requires Sound(g)
    ensures r.Trap? <==> g.prime >= 0x1_0000_0000 && forall c :: Start(g, word) <= c < 0x1_0000_0000 ==> !Accepts(g, c)
    ensures r.Root? ==> Chosen(g, word, s) && r.value == Low32(PowMod(g.root, s, g.prime))
    ensures var c := word % 0x1_0000_0000 % g.prime;
            && (r.Trap? <==> g.prime >= 0x1_0000_0000 && forall e :: 0 < e && c <= e < 0x1_0000_0000 ==> !Accepts(g, e))
            && (r.Root? && Accepts(g, c) ==> s == c)
            && (r.Root? ==> 0 < s < g.prime && Accepts(g, s) && r.value == PowMod(g.root, s, g.prime) % 0x1_0000_0000)
            && (r.Root? && s >= c ==> forall e :: 0 < e && c <= e < s ==> !Accepts(g, e))
            && (r.Root? && s < c ==> forall e :: 0 < e < s || c <= e < g.prime ==> !Accepts(g, e))
  {
    hide Mod, Clash, PrimitiveRoot, Accepts;
    ModAtMost(Low32(word), g.prime);
    var candidate: u32 := Mod(Low32(word), g.prime);
    if candidate == 0 {
      candidate := candidate + 1;
    }
    NeighbourAccepted(g);
    StartMeans(g, word);
    ghost var wrapped := false;
    var verdict := CheckCoprime(candidate, g);
    while verdict == NotCoprime
      invariant 0 <= candidate < g.prime && verdict != DivisionByZero
      invariant candidate > 0 && (verdict == Coprime <==> Accepts(g, candidate))
      invariant !wrapped ==> candidate >= Start(g, word) && forall c :: Start(g, word) <= c < candidate ==> !Accepts(g, c)
      invariant wrapped ==> g.prime < 0x1_0000_0000 && candidate < Start(g, word)
                            && forall c :: 0 < c < candidate || Start(g, word) <= c < g.prime ==> !Accepts(g, c)
      decreases if wrapped then 0 else 1, g.prime - candidate
    {
      var next: u32 := Low32(candidate + 1);
      if next >= g.prime {
        wrapped := true;
        next := 1;
      }
      candidate := next;
      verdict := CheckCoprime(candidate, g);
      if verdict == DivisionByZero {
        return Trap, 0;
      }
    }
    s := candidate;
    var power := PowMod(g.root, candidate, g.prime);
    r := Root(Low32(power));
  }

  /** Unless truncated to 32 bits, the generator found generates the whole group. */
  lemma FoundGenerates(g: Group, s: nat)
    requires Sound(g) && Accepts(g, s)
    ensures PrimitiveRoot(PowMod(g.root, s, g.prime), g.prime)
    ensures g.prime < 0x1_0000_0000 || PowMod(g.root, s, g.prime) < 0x1_0000_0000 ==>
              Low32(PowMod(g.root, s, g.prime)) == PowMod(g.root, s, g.prime)
  {
    AcceptedIsCoprime(g, s);
    CoprimePowerGenerates(g.root, s, g.prime);
  }

  /** The built-in groups, by ascending prime. */
  function Groups(): seq<Group> {
    [Group(257, 3, [2]),
     Group(65537, 3, [2]),
     Group(16777259, 2, [2, 23, 103, 3541]),
     Group(268435459, 2, [2, 3, 19, 87211]),
     Group(4294967311, 3, [2, 3, 5, 131, 364289])]
  }

  /**
   * The first built-in group whose prime is larger than minSize.  The result |Groups()| stands
   * for a search that runs past the array, as its bound is the array's size in bytes.
   */
  method GetCyclicGroup(minSize: u64) returns (i: nat)
    ensures i <= |Groups()| && (i == |Groups()| <==> minSize >= 4294967311)
    ensures i < |Groups()| ==> Groups()[i].prime > minSize
    ensures forall j :: 0 <= j < i ==> Groups()[j].prime <= minSize
  {
    i := 0;
    while i < |Groups()| && Groups()[i].prime <= minSize
      invariant 0 <= i <= |Groups()|
      invariant forall j :: 0 <= j < i ==> Groups()[j].prime <= minSize
      decreases |Groups()| - i
    {
      i := i + 1;
    }
    assert Groups()[4].prime == 4294967311;
    if i < |Groups()| { LargestPrime(i); }
  }

  lemma LargestPrime(i: nat)
    requires i < |Groups()|
    ensures Groups()[i].prime <= 4294967311
  {
  }

  /** In the largest group the search traps exactly from the two last 32-bit starts. */
  lemma LargestGroupTraps(word: u64)
    ensures var g := Groups()[4];
            (forall c :: Start(g, word) <= c < 0x1_0000_0000 ==> !Accepts(g, c)) <==> Low32(word) >= 0xFFFF_FFFE
  {
    var g := Groups()[4];
    ModSmall(Low32(word), g.prime);
    assert Accepts(g, 0xFFFF_FFFD);
    assert Clash(g.factors[0], 0xFFFF_FFFE) && Clash(g.factors[1], 0xFFFF_FFFF);
  }

  /** A cycle through a group. */
  datatype Cycle = Cycle(group: Group, generator: u64, order: u64, offset: u32)

  ghost predicate SoundCycle(c: Cycle) {
    && c.group.prime > 3
    && PrimitiveRoot(c.generator, c.group.prime)
    && c.generator < c.group.prime
    && c.order == c.group.prime - 1
  }

  lemma OffsetMeans(g: Group, word: u64)
    requires g.prime > 0
    ensures Mod(Low32(word), g.prime) == word % 0x1_0000_0000 % g.prime
  {
  }

  /** Builds a cycle from two random words.  The ghost result is the exponent of the generator before it is cut. */
  method MakeCycle(g: Group, word1: u64, word2: u64) returns (trap: bool, c: Cycle, ghost s: nat)
    requires Sound(g)
    ensures g.prime < 0x1_0000_0000 ==> !trap && SoundCycle(c) && c.group == g && c.generator < 0x1_0000_0000
    ensures !trap ==> c.group == g && c.order == g.prime - 1 && c.offset < g.prime && c.offset == Mod(Low32(word2), g.prime)
    ensures !trap ==> c.offset == word2 % 0x1_0000_0000 % g.prime
    ensures !trap ==> Chosen(g, word1, s) && c.generator == Low32(PowMod(g.root, s, g.prime))
    ensures trap <==> g.prime >= 0x1_0000_0000 && forall e :: Start(g, word1) <= e < 0x1_0000_0000 ==> !Accepts(g, e)
  {
    hide Mod, PrimitiveRoot, Accepts;
    var r, e := FindPrimroot(g, word1);
    s := e;
    ModAtMost(Low32(word2), g.prime);
    if r.Trap? {
      return true, Cycle(g, 0, 0, 0), s;
    }
    FoundGenerates(g, s);
    OffsetMeans(g, word2);
    trap := false;
    c := Cycle(g, r.value, g.prime - 1, Mod(Low32(word2), g.prime));
  }
}
