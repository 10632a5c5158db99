/** SHA-1 as src/tls.c computes it. */
module Sha1 {
  import opened Sha1Spec

  // ---------------------------------------------------------------- one block

  /** Word i of 16 as the host reads it from the octets of the block. */
  function HostWord(b: block, i: nat, bigEndian: bool): word
    requires i < 16
  {
    if bigEndian then BigEndianWord(b[4 * i], b[4 * i + 1], b[4 * i + 2], b[4 * i + 3])
    else BigEndianWord(b[4 * i + 3], b[4 * i + 2], b[4 * i + 1], b[4 * i])
  }

  /** The swap of blk0. */
  function Swap(x: word): word {
    (Rotl(x, 24) & 0xFF00FF00) | (Rotl(x, 8) & 0x00FF00FF)
  }

  lemma SwapIsBigEndian(b0: bv8, b1: bv8, b2: bv8, b3: bv8)
    ensures Swap(BigEndianWord(b3, b2, b1, b0)) == BigEndianWord(b0, b1, b2, b3)
  {
  }

  /** Ch and Maj as the macros R0, R1 and R3 write them. */
  function ChAsCoded(w: word, x: word, y: word): word {
    (w & (x ^ y)) ^ y
  }

  function MajAsCoded(w: word, x: word, y: word): word {
    ((w | x) & y) | (w & x)
  }

  lemma RewrittenCh(w: word, x: word, y: word)
    ensures ChAsCoded(w, x, y) == Ch(w, x, y)
  {
    assert (w & (x ^ y)) ^ y == (w & x) ^ (!w & y);
  }

  lemma RewrittenMaj(w: word, x: word, y: word)
    ensures MajAsCoded(w, x, y) == Maj(w, x, y)
  {
    assert ((w | x) & y) | (w & x) == (w & x) ^ (w & y) ^ (x & y);
  }

  /** `z += f + blk + k + rol(v, 5)`. */
  function Accumulate(z: word, f: word, blk: word, k: word, v5: word): word {
    z + (f + blk + k + v5)
  }

  lemma SumReordered(a5: word, f: word, e: word, k: word, w: word)
    ensures Sum(a5, f, e, k, w) == Accumulate(e, f, w, k, a5)
  {
  }

  /**
   * One run of the 80 rounds: the five working variables of the standard before each round and after
   * the last, and what the ring of 16 words holds at those moments.
   */
  datatype Run = Run(data: block, h: Registers, bigEndian: bool, states: seq<Registers>, rings: seq<seq<word>>) {

    predicate Valid() {
      && |states| == 81 && |rings| == 81 && states[0] == h
      && (forall t :: 0 <= t < 80 ==> Shifts(t))
      && (forall t :: 0 <= t <= 80 ==> HoldsLast(t))
    }

    function Words(): (w: seq<word>)
      ensures |w| == 80
    {
      Extend(MessageWords(data))
    }

    /** The standard shifts the registers. */
    predicate Shifts(t: nat)
      requires t < 80 && |states| == 81
    {
      states[t + 1] == Round(states[t], t, Words()[t])
    }

    /**
     * The ring holds the last 16 words of the schedule, each at its number mod 16; in the first
     * 16 rounds, what is not swapped yet is as the host reads it.
     */
    predicate HoldsLast(t: nat)
      requires t <= 80 && |rings| == 81
    {
      && |rings[t]| == 16
      && (forall s :: 0 <= s < t && t <= s + 16 ==> rings[t][s % 16] == Words()[s])
      && (forall j :: t <= j < 16 ==> rings[t][j] == HostWord(data, j, bigEndian))
    }
  }

  predicate At(run: Run, t: nat, ring: seq<word>) {
    t < |run.rings| && ring == run.rings[t]
  }

  lemma OneRound(run: Run, t: nat, f: word, k: word, a5: word, b30: word)
    requires t < 80 && run.Valid()
    requires var r := run.states[t]; f == F(t, r.b, r.c, r.d) && k == K(t) && a5 == Rotl(r.a, 5) && b30 == Rotl(r.b, 30)
    ensures var r := run.states[t]; run.states[t + 1] == Registers(Accumulate(r.e, f, run.Words()[t], k, a5), r.a, b30, r.c, r.d)
  {
    assert run.Shifts(t);
    SumReordered(a5, f, run.states[t].e, k, run.Words()[t]);
  }

  /** Writing word t of the schedule over word t - 16 gives the next ring. */
  lemma NextRing(run: Run, t: nat)
    requires t < 80 && run.Valid()
    ensures |run.rings[t]| == 16 && run.rings[t + 1] == run.rings[t][t % 16 := run.Words()[t]]
  {
    assert run.HoldsLast(t) && run.HoldsLast(t + 1);
    var now, next := run.rings[t], run.rings[t + 1];
    forall j | 0 <= j < 16 && j != t % 16 ensures next[j] == now[j] {
      if j < t {
        var s := LastAt(t, j);
        assert next[s % 16] == run.Words()[s] == now[s % 16];
      }
    }
    assert next[t % 16] == run.Words()[t];
  }

  /** The last number below t that is j mod 16. */
  function LastAt(t: nat, j: nat): (s: nat)
    requires j < 16 && j < t
    ensures s % 16 == j && s < t <= s + 16
    ensures t % 16 != j ==> t < s + 16
  {
    j + 16 * ((t - 1 - j) / 16)
  }

  method BlkZero(block: array<word>, i: nat, bigEndian: bool, ghost run: Run) returns (x: word)
    requires i < 16 && run.Valid() && At(run, i, block[..]) && bigEndian == run.bigEndian
    modifies block
    ensures x == run.Words()[i] && At(run, i + 1, block[..])
  {
    NextRing(run, i);
    assert run.HoldsLast(i);
    SwapIsBigEndian(run.data[4 * i], run.data[4 * i + 1], run.data[4 * i + 2], run.data[4 * i + 3]);
    if !bigEndian {
      block[i] := Swap(block[i]);
    }
    x := block[i];
  }

  method Blk(block: array<word>, i: nat, ghost run: Run) returns (x: word)
    requires 16 <= i < 80 && run.Valid() && At(run, i, block[..])
    modifies block
    ensures x == run.Words()[i] && At(run, i + 1, block[..])
  {
    NextRing(run, i);
    RingReads(run, i);
    block[i % 16] := NextWord(block[(i + 13) % 16], block[(i + 8) % 16], block[(i + 2) % 16], block[i % 16]);
    x := block[i % 16];
  }

  lemma RingReads(run: Run, i: nat)
    requires 16 <= i < 80 && run.Valid()
    ensures
      var ring := run.rings[i];
      |ring| == 16 && run.Words()[i] == NextWord(ring[(i + 13) % 16], ring[(i + 8) % 16], ring[(i + 2) % 16], ring[i % 16])
  {
    Schedule(MessageWords(run.data), i);
    assert run.HoldsLast(i);
    assert (i + 13) % 16 == (i - 3) % 16 && (i + 8) % 16 == (i - 8) % 16 && (i + 2) % 16 == (i - 14) % 16;
  }

  // The macros R0 to R4. In each call the five variables keep their places and change their roles:
  // z becomes the new first register, w is rotated, the others are only renamed.

  method R0(block: array<word>, v: word, w: word, x: word, y: word, z: word, i: nat, bigEndian: bool, ghost run: Run)
    returns (w': word, z': word)
    requires i < 16 && run.Valid() && At(run, i, block[..]) && bigEndian == run.bigEndian
    requires run.states[i] == Registers(v, w, x, y, z)
    modifies block
    ensures At(run, i + 1, block[..]) && run.states[i + 1] == Registers(z', v, w', x, y)
  {
    var next := BlkZero(block, i, bigEndian, run);
    var f, k, v5 := ChAsCoded(w, x, y), 0x5A827999, Rotl(v, 5);
    z' := Accumulate(z, f, next, k, v5);
    w' := Rotl(w, 30);
    RewrittenCh(w, x, y);
    OneRound(run, i, f, k, v5, w');
  }

  method R1(block: array<word>, v: word, w: word, x: word, y: word, z: word, i: nat, ghost run: Run)
    returns (w': word, z': word)
    requires 16 <= i < 20 && run.Valid() && At(run, i, block[..])
    requires run.states[i] == Registers(v, w, x, y, z)
    modifies block
    ensures At(run, i + 1, block[..]) && run.states[i + 1] == Registers(z', v, w', x, y)
  {
    var next := Blk(block, i, run);
    var f, k, v5 := ChAsCoded(w, x, y), 0x5A827999, Rotl(v, 5);
    z' := Accumulate(z, f, next, k, v5);
    w' := Rotl(w, 30);
    RewrittenCh(w, x, y);
    OneRound(run, i, f, k, v5, w');
  }

  method R2(block: array<word>, v: word, w: word, x: word, y: word, z: word, i: nat, ghost run: Run)
    returns (w': word, z': word)
    requires 20 <= i < 40 && run.Valid() && At(run, i, block[..])
    requires run.states[i] == Registers(v, w, x, y, z)
    modifies block
    ensures At(run, i + 1, block[..]) && run.states[i + 1] == Registers(z', v, w', x, y)
  {
    var next := Blk(block, i, run);
    var f, k, v5 := Parity(w, x, y), 0x6ED9EBA1, Rotl(v, 5);
    z' := Accumulate(z, f, next, k, v5);
    w' := Rotl(w, 30);
    OneRound(run, i, f, k, v5, w');
  }

  method R3(block: array<word>, v: word, w: word, x: word, y: word, z: word, i: nat, ghost run: Run)
    returns (w': word, z': word)
    requires 40 <= i < 60 && run.Valid() && At(run, i, block[..])
    requires run.states[i] == Registers(v, w, x, y, z)
    modifies block
    ensures At(run, i + 1, block[..]) && run.states[i + 1] == Registers(z', v, w', x, y)
  {
    var next := Blk(block, i, run);
    var f, k, v5 := MajAsCoded(w, x, y), 0x8F1BBCDC, Rotl(v, 5);
    z' := Accumulate(z, f, next, k, v5);
    w' := Rotl(w, 30);
    RewrittenMaj(w, x, y);
    OneRound(run, i, f, k, v5, w');
  }

  method R4(block: array<word>, v: word, w: word, x: word, y: word, z: word, i: nat, ghost run: Run)
    returns (w': word, z': word)
    requires 60 <= i < 80 && run.Valid() && At(run, i, block[..])
    requires run.states[i] == Registers(v, w, x, y, z)
    modifies block
    ensures At(run, i + 1, block[..]) && run.states[i + 1] == Registers(z', v, w', x, y)
  {
    var next := Blk(block, i, run);
    var f, k, v5 := Parity(w, x, y), 0xCA62C1D6, Rotl(v, 5);
    z' := Accumulate(z, f, next, k, v5);
    w' := Rotl(w, 30);
    OneRound(run, i, f, k, v5, w');
  }

  // Five calls in a row bring every variable back to its first role; the 80 calls are 16 such rows.

  /** Rounds 0 to 14, five at a time. */
  method RowR0(block: array<word>, r: Registers, i: nat, bigEndian: bool, ghost run: Run) returns (r': Registers)
    requires i <= 10 && run.Valid() && At(run, i, block[..]) && run.states[i] == r && bigEndian == run.bigEndian
    modifies block
    ensures At(run, i + 5, block[..]) && run.states[i + 5] == r'
  {
    var Registers(a, b, c, d, e) := r;
    b, e := R0(block, a, b, c, d, e, i, bigEndian, run);
    a, d := R0(block, e, a, b, c, d, i + 1, bigEndian, run);
    e, c := R0(block, d, e, a, b, c, i + 2, bigEndian, run);
    d, b := R0(block, c, d, e, a, b, i + 3, bigEndian, run);
    c, a := R0(block, b, c, d, e, a, i + 4, bigEndian, run);
    r' := Registers(a, b, c, d, e);
  }

  /** Rounds 15 to 19. */
  method RowR0R1(block: array<word>, r: Registers, i: nat, bigEndian: bool, ghost run: Run) returns (r': Registers)
    requires i == 15 && run.Valid() && At(run, i, block[..]) && run.states[i] == r && bigEndian == run.bigEndian
    modifies block
    ensures At(run, i + 5, block[..]) && run.states[i + 5] == r'
  {
    var Registers(a, b, c, d, e) := r;
    b, e := R0(block, a, b, c, d, e, i, bigEndian, run);
    a, d := R1(block, e, a, b, c, d, i + 1, run);
    e, c := R1(block, d, e, a, b, c, i + 2, run);
    d, b := R1(block, c, d, e, a, b, i + 3, run);
    c, a := R1(block, b, c, d, e, a, i + 4, run);
    r' := Registers(a, b, c, d, e);
  }

  /** Rounds 20 to 39. */
  method RowR2(block: array<word>, r: Registers, i: nat, ghost run: Run) returns (r': Registers)
    requires 20 <= i <= 35 && run.Valid() && At(run, i, block[..]) && run.states[i] == r
    modifies block
    ensures At(run, i + 5, block[..]) && run.states[i + 5] == r'
  {
    var Registers(a, b, c, d, e) := r;
    b, e := R2(block, a, b, c, d, e, i, run);
    a, d := R2(block, e, a, b, c, d, i + 1, run);
    e, c := R2(block, d, e, a, b, c, i + 2, run);
    d, b := R2(block, c, d, e, a, b, i + 3, run);
    c, a := R2(block, b, c, d, e, a, i + 4, run);
    r' := Registers(a, b, c, d, e);
  }

  /** Rounds 40 to 59. */
  method RowR3(block: array<word>, r: Registers, i: nat, ghost run: Run) returns (r': Registers)
    requires 40 <= i <= 55 && run.Valid() && At(run, i, block[..]) && run.states[i] == r
    modifies block
    ensures At(run, i + 5, block[..]) && run.states[i + 5] == r'
  {
    var Registers(a, b, c, d, e) := r;
    b, e := R3(block, a, b, c, d, e, i, run);
    a, d := R3(block, e, a, b, c, d, i + 1, run);
    e, c := R3(block, d, e, a, b, c, i + 2, run);
    d, b := R3(block, c, d, e, a, b, i + 3, run);
    c, a := R3(block, b, c, d, e, a, i + 4, run);
    r' := Registers(a, b, c, d, e);
  }

  /** Rounds 60 to 79. */
  method RowR4(block: array<word>, r: Registers, i: nat, ghost run: Run) returns (r': Registers)
    requires 60 <= i <= 75 && run.Valid() && At(run, i, block[..]) && run.states[i] == r
    modifies block
    ensures At(run, i + 5, block[..]) && run.states[i + 5] == r'
  {
    var Registers(a, b, c, d, e) := r;
    b, e := R4(block, a, b, c, d, e, i, run);
    a, d := R4(block, e, a, b, c, d, i + 1, run);
    e, c := R4(block, d, e, a, b, c, i + 2, run);
    d, b := R4(block, c, d, e, a, b, i + 3, run);
    c, a := R4(block, b, c, d, e, a, i + 4, run);
    r' := Registers(a, b, c, d, e);
  }

  method FirstRounds(block: array<word>, h: Registers, bigEndian: bool, ghost run: Run) returns (r: Registers)
    requires run.Valid() && At(run, 0, block[..]) && run.h == h && bigEndian == run.bigEndian
    modifies block
    ensures At(run, 40, block[..]) && run.states[40] == r
  {
    r := h;
    r := RowR0(block, r, 0, bigEndian, run);
    r := RowR0(block, r, 5, bigEndian, run);
    r := RowR0(block, r, 10, bigEndian, run);
    r := RowR0R1(block, r, 15, bigEndian, run);
    r := RowR2(block, r, 20, run);
    r := RowR2(block, r, 25, run);
    r := RowR2(block, r, 30, run);
    r := RowR2(block, r, 35, run);
  }

  method LastRounds(block: array<word>, r0: Registers, ghost run: Run) returns (r: Registers)
    requires run.Valid() && At(run, 40, block[..]) && run.states[40] == r0
    modifies block
    ensures run.states[80] == r
  {
    r := r0;
    r := RowR3(block, r, 40, run);
    r := RowR3(block, r, 45, run);
    r := RowR3(block, r, 50, run);
    r := RowR3(block, r, 55, run);
    r := RowR4(block, r, 60, run);
    r := RowR4(block, r, 65, run);
    r := RowR4(block, r, 70, run);
    r := RowR4(block, r, 75, run);
  }

  // ---------------------------------------------------------------- the run there is for every block

  /** The ring before round t, position by position. */
  function RingBefore(data: block, bigEndian: bool, t: nat): seq<word>
    requires t <= 80
  {
    var w := Extend(MessageWords(data));
    seq(16, j requires 0 <= j < 16 =>
      if t <= j then HostWord(data, j, bigEndian) else w[LastAt(t, j)])
  }

  function RunOf(data: block, h: Registers, bigEndian: bool): Run {
    var w := Extend(MessageWords(data));
    Run(data, h, bigEndian,
        seq(81, t requires 0 <= t < 81 => Rounds(h, w[..t])),
        seq(81, t requires 0 <= t < 81 => RingBefore(data, bigEndian, t)))
  }

  lemma RunIsValid(data: block, h: Registers, bigEndian: bool)
    ensures RunOf(data, h, bigEndian).Valid()
    ensures RunOf(data, h, bigEndian).states[80] == Rounds(h, Extend(MessageWords(data)))
    ensures RunOf(data, h, bigEndian).rings[0] == seq(16, j requires 0 <= j < 16 => HostWord(data, j, bigEndian))
  {
    var run, w := RunOf(data, h, bigEndian), Extend(MessageWords(data));
    forall t | 0 <= t < 80 ensures run.Shifts(t) {
      assert w[..t + 1][..t] == w[..t];
    }
    forall t | 0 <= t <= 80 ensures run.HoldsLast(t) {
      RingBeforeHoldsLast(data, h, bigEndian, t);
    }
    assert w[..80] == w;
  }

  lemma RingBeforeHoldsLast(data: block, h: Registers, bigEndian: bool, t: nat)
    requires t <= 80
    ensures RunOf(data, h, bigEndian).HoldsLast(t)
  {
    var run := RunOf(data, h, bigEndian);
    forall s | 0 <= s < t && t <= s + 16 ensures run.rings[t][s % 16] == run.Words()[s] {
      var j := s % 16;
      assert j < t && s == LastAt(t, j);
    }
  }

  method AllRounds(buffer: block, h: Registers, bigEndian: bool) returns (r: Registers)
    ensures r == Rounds(h, Extend(MessageWords(buffer)))
  {
    ghost var run := RunOf(buffer, h, bigEndian);
    RunIsValid(buffer, h, bigEndian);
    var block := new word[16](i requires 0 <= i < 16 => HostWord(buffer, i, bigEndian));
    assert block[..] == run.rings[0];
    r := FirstRounds(block, h, bigEndian, run);
    r := LastRounds(block, r, run);
  }

  function StateOf(s: seq<word>): Registers
    requires |s| == 5
  {
    Registers(s[0], s[1], s[2], s[3], s[4])
  }

  method AddTo(state: array<word>, r: Registers)
    requires state.Length == 5
    modifies state
    ensures StateOf(state[..]) == Add(StateOf(old(state[..])), r)
  {
    var s := Add(StateOf(state[..]), r);
    state[0], state[1], state[2], state[3], state[4] := s.a, s.b, s.c, s.d, s.e;
  }

  /** SHA1Transform: the state becomes what the standard computes for the block. */
  method Transform(state: array<word>, buffer: block, bigEndian: bool)
    requires state.Length == 5
    modifies state
    ensures StateOf(state[..]) == Compress(StateOf(old(state[..])), buffer)
  {
    var r := AllRounds(buffer, StateOf(state[..]), bigEndian);
    AddTo(state, r);
  }
}
