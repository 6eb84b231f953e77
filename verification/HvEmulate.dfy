/** Emulated guest accesses that are split into naturally aligned pieces (hv_emulate_rw in src/hv_vm.c). */
module HvEmulate {
  import opened Arith
  import opened HvDescriptors

  type Byte = b: nat | b < 256

  // Little-endian words.

  function Pack(s: seq<Byte>): nat {
    if s == [] then 0 else s[0] + 256 * Pack(s[1..])
  }

  function ByteOf(w: nat, k: nat): Byte {
    if k == 0 then w % 256 else ByteOf(w / 256, k - 1)
  }

  /** Bytes are numbered from the low end. */
  lemma ByteOfIs(w: nat)
    ensures ByteOf(w, 0) == w % 0x100 && ByteOf(w, 1) == w / 0x100 % 0x100
    ensures ByteOf(w, 2) == w / 0x1_0000 % 0x100 && ByteOf(w, 3) == w / 0x100_0000 % 0x100
    ensures ByteOf(w, 4) == w / 0x1_0000_0000 % 0x100 && ByteOf(w, 5) == w / 0x100_0000_0000 % 0x100
    ensures ByteOf(w, 6) == w / 0x1_0000_0000_0000 % 0x100 && ByteOf(w, 7) == w / 0x100_0000_0000_0000 % 0x100
  {
    ByteAt(w, 0, 1);
    ByteAt(w, 1, 0x100);
    ByteAt(w, 2, 0x1_0000);
    ByteAt(w, 3, 0x100_0000);
    ByteAt(w, 4, 0x1_0000_0000);
    ByteAt(w, 5, 0x100_0000_0000);
    ByteAt(w, 6, 0x1_0000_0000_0000);
    ByteAt(w, 7, 0x100_0000_0000_0000);
    hide ByteOf;
  }

  function Scale(k: nat): nat { if k == 0 then 1 else 256 * Scale(k - 1) }

  lemma {:induction false} ByteAt(w: nat, k: nat, scale: nat)
    requires scale == Scale(k)
    ensures scale > 0 && ByteOf(w, k) == w / scale % 256
  {
    if k > 0 {
      ByteAt(w / 256, k - 1, Scale(k - 1));
      Nested(w, 256, Scale(k - 1));
    }
  }

  lemma {:induction false} PackRoundTrip(s: seq<Byte>, k: nat)
    requires k < |s|
    ensures ByteOf(Pack(s), k) == s[k]
    decreases k
  {
    DivModIs(Pack(s), 256, Pack(s[1..]), s[0]);
    if k > 0 { PackRoundTrip(s[1..], k - 1); }
  }

  /** The 64-byte area, as eight words, after it was cleared and s copied to its start. */
  function ToWords(s: seq<Byte>): (w: seq<nat>)
    requires |s| <= 64
  {
    seq(8, i requires 0 <= i < 8 =>
      Pack(if |s| <= 8 * i then [] else if |s| <= 8 * i + 8 then s[8 * i..] else s[8 * i..8 * i + 8]))
  }

  /** The first n bytes of the area. */
  function FromWords(w: seq<nat>, n: nat): (s: seq<Byte>)
    requires |w| == 8 && n <= 64
  {
    seq(n, k requires 0 <= k < n => ByteOf(w[k / 8], k % 8))
  }

  /** Copying bytes into the area and reading them back as stored words gives the bytes. */
  lemma WordsRoundTrip(s: seq<Byte>)
    requires |s| <= 64
    ensures FromWords(ToWords(s), |s|) == s
  {
    forall k | 0 <= k < |s| ensures FromWords(ToWords(s), |s|)[k] == s[k] {
      var i := k / 8;
      var part := if |s| <= 8 * i + 8 then s[8 * i..] else s[8 * i..8 * i + 8];
      PackRoundTrip(part, k % 8);
    }
  }

  function Pow2(width: nat): nat
    requires width <= 6
  {
    [1, 2, 4, 8, 16, 32, 64][width]
  }

  // Physical memory as a function from addresses to bytes.

  type Memory = nat -> Byte

  function Bytes(m: Memory, a: nat, n: nat): (s: seq<Byte>) {
    seq(n, i requires 0 <= i < n => m(a + i))
  }

  /** m' is m with the bytes s at address a. */
  ghost predicate Written(m: Memory, m': Memory, a: nat, s: seq<Byte>) {
    forall x: nat :: m'(x) == if a <= x < a + |s| then s[x - a] else m(x)
  }

  ghost predicate OnlyWithin(m: Memory, m': Memory, a: nat, n: nat) {
    forall x: nat :: !(a <= x < a + n) ==> m'(x) == m(x)
  }

  lemma WrittenTwice(m: Memory, m1: Memory, m2: Memory, a: nat, s: seq<Byte>, t: seq<Byte>)
    requires Written(m, m1, a, s) && Written(m1, m2, a + |s|, t)
    ensures Written(m, m2, a, s + t)
  {
    forall x: nat ensures m2(x) == if a <= x < a + |s + t| then (s + t)[x - a] else m(x) {
      assert m1(x) == if a <= x < a + |s| then s[x - a] else m(x);
    }
  }

  // The choice of the pieces.

  /** The width of the next piece: the branches of hv_emulate_rw. */
  function Width(ipa: nat, left: nat): (w: nat)
    ensures w <= 6
  {
    if left >= 64 && ipa % 64 == 0 then 6
    else if left >= 32 && ipa % 32 == 0 then 5
    else if left >= 16 && ipa % 16 == 0 then 4
    else if left >= 8 && ipa % 8 == 0 then 3
    else if left >= 4 && ipa % 4 == 0 then 2
    else if left >= 2 && ipa % 2 == 0 then 1
    else 0
  }

  /** A piece is naturally aligned, it fits, it is the widest such, and it lies in one 16K page. */
  lemma WidthIs(ipa: nat, left: nat)
    requires left > 0
    ensures var w := Width(ipa, left);
            && Pow2(w) <= left && ipa % Pow2(w) == 0 && ipa % 0x4000 + Pow2(w) <= 0x4000
            && forall v: nat :: w < v <= 6 ==> Pow2(v) > left || ipa % Pow2(v) != 0
  {
    InPage(ipa, Width(ipa, left));
  }

  /** The n bytes at a are the widest naturally aligned piece there that ends by `end`. */
  predicate Widest(a: nat, n: nat, end: nat) {
    && n in {1, 2, 4, 8, 16, 32, 64} && a % n == 0 && a + n <= end
    && (a % 2 == 0 && a + 2 <= end ==> n >= 2)
    && (a % 4 == 0 && a + 4 <= end ==> n >= 4)
    && (a % 8 == 0 && a + 8 <= end ==> n >= 8)
    && (a % 16 == 0 && a + 16 <= end ==> n >= 16)
    && (a % 32 == 0 && a + 32 <= end ==> n >= 32)
    && (a % 64 == 0 && a + 64 <= end ==> n >= 64)
  }

  lemma WidestIs(ipa: nat, left: nat)
    requires left > 0
    ensures Widest(ipa, Pow2(Width(ipa, left)), ipa + left)
  {
    WidthIs(ipa, left);
  }

  lemma InPage(ipa: nat, w: nat)
    requires w <= 6 && ipa % Pow2(w) == 0
    ensures ipa % 0x4000 + Pow2(w) <= 0x4000
  {
    match w
    case 0 =>
    case 1 => Nested(ipa, 2, 0x2000);
    case 2 => Nested(ipa, 4, 0x1000);
    case 3 => Nested(ipa, 8, 0x800);
    case 4 => Nested(ipa, 16, 0x400);
    case 5 => Nested(ipa, 32, 0x200);
    case _ => Nested(ipa, 64, 0x100);
  }

  /** Some 64-byte block with natural alignment lies inside the n bytes at ipa. */
  predicate HasBlock64(ipa: nat, n: nat) { (64 - ipa % 64) % 64 + 64 <= n }

  lemma BlockAhead(ipa: nat, left: nat)
    requires left > 0
    ensures var w := Width(ipa, left);
            && Pow2(w) <= left
            && if w == 6 then HasBlock64(ipa, left)
               else HasBlock64(ipa, left) <==> HasBlock64(ipa + Pow2(w), left - Pow2(w))
  {
    WidthIs(ipa, left);
    var w := Width(ipa, left);
    if w == 6 {
      BlockRoom(ipa, left);
    } else {
      NextIn64(ipa, w);
      BlockRoom(ipa, left);
      BlockRoom(ipa + Pow2(w), left - Pow2(w));
    }
    hide HasBlock64;
  }

  lemma BlockRoom(ipa: nat, n: nat)
    ensures HasBlock64(ipa, n) <==> (if ipa % 64 == 0 then 64 else 128 - ipa % 64) <= n
  {
  }

  lemma NextIn64(ipa: nat, w: nat)
    requires w < 6 && ipa % Pow2(w) == 0
    ensures ipa % 64 + Pow2(w) <= 64
    ensures (ipa + Pow2(w)) % 64 == if ipa % 64 + Pow2(w) == 64 then 0 else ipa % 64 + Pow2(w)
  {
    Multiple64(ipa, w);
    var x, p := ipa % 64, Pow2(w);
    hide Pow2;
    if x + p == 64 { DivModIs(ipa + p, 64, ipa / 64 + 1, 0); } else { DivModIs(ipa + p, 64, ipa / 64, x + p); }
  }

  lemma Multiple64(ipa: nat, w: nat)
    requires w < 6 && ipa % Pow2(w) == 0
    ensures ipa % 64 + Pow2(w) <= 64
  {
    match w
    case 0 =>
    case 1 => Nested(ipa, 2, 32);
    case 2 => Nested(ipa, 4, 16);
    case 3 => Nested(ipa, 8, 8);
    case 4 => Nested(ipa, 16, 4);
    case _ => Nested(ipa, 32, 2);
  }

  // Where an access goes.

  /** pte & PTE_TARGET_MASK_L4. */
  function Target4(pte: nat): nat { pte % 0x4_0000_0000_0000 - pte % 4 }

  /** The descriptor with its target replaced by that of paddr. */
  function Retarget(pte: nat, paddr: nat): nat { Target4(paddr) + (pte - Target4(pte)) }

  /** Hardware entries are treated as SPTE_MAP. */
  function Kind(pte: nat): nat { if IsHw(pte) then 0 else SpteType(pte) }

  /** An access goes to physical memory, to a hook, or nowhere. */
  datatype Sink = Ram(addr: nat) | Hooked(hook: nat) | Invalid

  function Place(pte: nat, vaddr: nat, ipa: nat, isWrite: bool): Sink {
    var kind := Kind(pte);
    if kind == 0 then Ram(Target4(pte) + vaddr % 4)
    else if kind == (if isWrite then 2 else 3) then Ram(ipa)
    else if kind <= 4 then Hooked(Target4(pte))
    else Invalid
  }

  function Shift(s: Sink, n: nat): Sink { if s.Ram? then Ram(s.addr + n) else s }

  /** The fields of a descriptor put together from its upper bits, a word address and its two lowest bits. */
  lemma FieldsOf(d: nat, q: nat, word: nat, r: nat)
    requires word % 4 == 0 && word + 3 < 0x4_0000_0000_0000 && r < 4
    requires d == q * 0x4_0000_0000_0000 + (word + r)
    ensures Target4(d) == word && SpteType(d) == q % 8 && d % 2 == r % 2
  {
    DivModIs(d, 0x4_0000_0000_0000, q, word + r);
    Mod4(q, word, r);
  }

  lemma Apart(pte: nat) returns (q: nat, r: nat)
    ensures Target4(pte) % 4 == 0 && Target4(pte) + 3 < 0x4_0000_0000_0000 && r < 4
    ensures pte == q * 0x4_0000_0000_0000 + (Target4(pte) + r)
  {
    q, r := pte / 0x4_0000_0000_0000, pte % 4;
    Nested(pte, 4, 0x1_0000_0000_0000);
    WordBelow(pte % 0x4_0000_0000_0000);
  }

  /** A target that is moved on within its field moves the place of the access and nothing else. */
  lemma RetargetIs(pte: nat, paddr: nat)
    requires paddr < 0x4_0000_0000_0000
    ensures Target4(Retarget(pte, paddr)) == paddr - paddr % 4
    ensures Kind(Retarget(pte, paddr)) == Kind(pte)
    ensures Retarget(pte, paddr) - Target4(Retarget(pte, paddr)) == pte - Target4(pte)
  {
    var q, r := Apart(pte);
    WordBelow(paddr);
    OwnTarget(paddr);
    hide Target4, SpteType;
    FieldsOf(pte, q, Target4(pte), r);
    FieldsOf(Retarget(pte, paddr), q, paddr - paddr % 4, r);
  }

  lemma OwnTarget(paddr: nat)
    requires paddr < 0x4_0000_0000_0000
    ensures Target4(paddr) == paddr - paddr % 4
  {
    DivModIs(paddr, 0x4_0000_0000_0000, 0, paddr);
  }

  lemma WordBelow(paddr: nat)
    requires paddr < 0x4_0000_0000_0000
    ensures paddr - paddr % 4 + 3 < 0x4_0000_0000_0000 && (paddr - paddr % 4) % 4 == 0
  {
  }

  lemma Mod4(q: nat, word: nat, r: nat)
    requires word % 4 == 0 && r < 4
    ensures (q * 0x4_0000_0000_0000 + (word + r)) % 4 == r
    ensures (q * 0x4_0000_0000_0000 + (word + r)) % 2 == r % 2
  {
  }

  lemma PlaceAhead(pte: nat, pte0: nat, vaddr: nat, ipa: nat, isWrite: bool, n: nat)
    requires Kind(pte0) == 0 ==> Target4(pte0) + vaddr % 4 + n < 0x4_0000_0000_0000
    requires pte == if Kind(pte0) == 0 then Retarget(pte0, Target4(pte0) + vaddr % 4 + n) else pte0
    ensures Place(pte, vaddr + n, ipa + n, isWrite) == Shift(Place(pte0, vaddr, ipa, isWrite), n)
  {
    hide Target4, Kind, Retarget;
    if Kind(pte0) == 0 {
      var q, r := Apart(pte0);
      RetargetIs(pte0, Target4(pte0) + vaddr % 4 + n);
      LowBits(Target4(pte0), vaddr, n);
    }
  }

  lemma LowBits(t: nat, vaddr: nat, n: nat)
    requires t % 4 == 0
    ensures (t + vaddr % 4 + n) % 4 == (vaddr + n) % 4
  {
  }

  lemma RetargetNonzero(pte: nat, vaddr: nat, paddr: nat)
    requires pte != 0 && Target4(pte) + vaddr % 4 <= paddr < 0x4_0000_0000_0000
    ensures Retarget(pte, paddr) != 0
  {
  }

  lemma RetargetSame(pte: nat, pte0: nat, paddr: nat)
    requires pte - Target4(pte) == pte0 - Target4(pte0)
    ensures Retarget(pte, paddr) == Retarget(pte0, paddr)
  {
  }

  function LowBytes(w: nat, n: nat): seq<Byte> {
    seq(n, k requires 0 <= k < n => ByteOf(w, k))
  }

  lemma FromWordsNext(w: seq<nat>, i: nat)
    requires |w| == 8 && i < 8
    ensures FromWords(w, 8 * i + 8) == FromWords(w, 8 * i) + LowBytes(w[i], 8)
  {
    var a, b := FromWords(w, 8 * i + 8), FromWords(w, 8 * i) + LowBytes(w[i], 8);
    forall k | 0 <= k < 8 * i + 8 ensures a[k] == b[k] {
      if k >= 8 * i { DivModIs(k, 8, i, k - 8 * i); }
    }
  }

  lemma WithinTwice(m: Memory, m1: Memory, m2: Memory, a: nat, n: nat, k: nat, s: seq<Byte>)
    requires OnlyWithin(m, m1, a, n) && (m2 == m1 || Written(m1, m2, a + n, s)) && |s| == k
    ensures OnlyWithin(m, m2, a, n + k)
  {
  }
}
