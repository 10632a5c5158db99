/**
 * The constants of FIPS 180-4 by where they come from, and its hash of "abc" worked out word by word and
 * round by round: whatever computes the standard's function computes this digest.
 */
module Sha1Known {
  import opened Sha1Spec

  // ---------------------------------------------------------------- constants

  /** What stands under the root in rounds 0 to 19, 20 to 39, 40 to 59 and 60 to 79. */
  function Radicand(t: nat): nat {
    if t < 20 then 2 else if t < 40 then 3 else if t < 60 then 5 else 10
  }

  /** Each constant is the integer part of 2^30 times a square root. */
  lemma ConstantsAreRoots(t: nat)
    requires t < 80
    ensures var k := K(t) as nat; k * k <= Radicand(t) * 0x1000_0000_0000_0000 < (k + 1) * (k + 1)
  {
  }

  /** The initial value, least significant octet first, counts up 01 23 .. EF, down FE DC .. 10, and F0 E1 D2 C3. */
  lemma InitialOctets(j: nat)
    requires j < 20
    ensures
      var octet := Octets(INITIAL)[j / 4 * 4 + 3 - j % 4] as nat;
      octet == if j < 8 then 0x01 + 0x22 * j else if j < 16 then 0xFE - 0x22 * (j - 8) else 0xF0 - 0x0F * (j - 16)
  {
  }

  // ---------------------------------------------------------------- "abc"

  const ABC: seq<bv8> := [0x61, 0x62, 0x63]

  /** Sixteen words of the schedule. */
  datatype Window = Window(w0: word, w1: word, w2: word, w3: word, w4: word, w5: word, w6: word, w7: word, 
                           w8: word, w9: word, w10: word, w11: word, w12: word, w13: word, w14: word, w15: word)

  datatype Stage = Stage(r: Registers, w: Window)

  /** Eight rounds and the eight words that come next. */
  function Eight(s: Stage, t: nat): Stage {
    var r4 := Round(Round(Round(Round(s.r, t, s.w.w0), t + 1, s.w.w1), t + 2, s.w.w2), t + 3, s.w.w3);
    var r8 := Round(Round(Round(Round(r4, t + 4, s.w.w4), t + 5, s.w.w5), t + 6, s.w.w6), t + 7, s.w.w7);
    var n0 := NextWord(s.w.w13, s.w.w8, s.w.w2, s.w.w0);
    var n1 := NextWord(s.w.w14, s.w.w9, s.w.w3, s.w.w1);
    var n2 := NextWord(s.w.w15, s.w.w10, s.w.w4, s.w.w2);
    var n3 := NextWord(n0, s.w.w11, s.w.w5, s.w.w3);
    var n4 := NextWord(n1, s.w.w12, s.w.w6, s.w.w4);
    var n5 := NextWord(n2, s.w.w13, s.w.w7, s.w.w5);
    var n6 := NextWord(n3, s.w.w14, s.w.w8, s.w.w6);
    var n7 := NextWord(n4, s.w.w15, s.w.w9, s.w.w7);
    Stage(r8, Window(s.w.w8, s.w.w9, s.w.w10, s.w.w11, s.w.w12, s.w.w13, s.w.w14, s.w.w15, n0, n1, n2, n3, n4, n5, n6, n7))
  }

  /** Word t of the schedule, if there is one. */
  predicate Has(ws: seq<word>, t: nat, w: word) {
    t < |ws| ==> ws[t] == w
  }

  predicate HasWindow(ws: seq<word>, t: nat, w: Window) {
    && Has(ws, t, w.w0) && Has(ws, t + 1, w.w1) && Has(ws, t + 2, w.w2) && Has(ws, t + 3, w.w3)
    && Has(ws, t + 4, w.w4) && Has(ws, t + 5, w.w5) && Has(ws, t + 6, w.w6) && Has(ws, t + 7, w.w7)
    && Has(ws, t + 8, w.w8) && Has(ws, t + 9, w.w9) && Has(ws, t + 10, w.w10) && Has(ws, t + 11, w.w11)
    && Has(ws, t + 12, w.w12) && Has(ws, t + 13, w.w13) && Has(ws, t + 14, w.w14) && Has(ws, t + 15, w.w15)
  }

  predicate IsSchedule(ws: seq<word>) {
    |ws| == 80 && forall t :: 16 <= t < 80 ==> IsNext(ws, t)
  }

  predicate IsNext(ws: seq<word>, t: nat)
    requires 16 <= t < |ws|
  {
    ws[t] == NextWord(ws[t - 3], ws[t - 8], ws[t - 14], ws[t - 16])
  }

  /** What the working variables and the next words are before round t. */
  predicate Reached(ws: seq<word>, t: nat, s: Stage) {
    IsSchedule(ws) && t <= 80 && Rounds(INITIAL, ws[..t]) == s.r && HasWindow(ws, t, s.w)
  }

  lemma RoundsStep(ws: seq<word>, t: nat)
    requires t < |ws|
    ensures Rounds(INITIAL, ws[..t + 1]) == Round(Rounds(INITIAL, ws[..t]), t, ws[t])
  {
    assert ws[..t + 1][..t] == ws[..t];
  }

  lemma NextHas(ws: seq<word>, t: nat, w3: word, w8: word, w14: word, w16: word)
    requires IsSchedule(ws) && t >= 16
    requires Has(ws, t - 3, w3) && Has(ws, t - 8, w8) && Has(ws, t - 14, w14) && Has(ws, t - 16, w16)
    ensures Has(ws, t, NextWord(w3, w8, w14, w16))
  {
    assert t < 80 ==> IsNext(ws, t);
  }

  lemma Advance(ws: seq<word>, t: nat, s: Stage)
    requires t <= 72 && Reached(ws, t, s)
    ensures Reached(ws, t + 8, Eight(s, t))
  {
    RegistersAdvance(ws, t, s);
    WindowAdvances(ws, t, s);
  }

  lemma RegistersAdvance(ws: seq<word>, t: nat, s: Stage)
    requires t <= 72 && Reached(ws, t, s)
    ensures Rounds(INITIAL, ws[..t + 8]) == Eight(s, t).r
  {
    RoundsStep(ws, t);
    RoundsStep(ws, t + 1);
    RoundsStep(ws, t + 2);
    RoundsStep(ws, t + 3);
    RoundsStep(ws, t + 4);
    RoundsStep(ws, t + 5);
    RoundsStep(ws, t + 6);
    RoundsStep(ws, t + 7);
  }

  lemma WindowAdvances(ws: seq<word>, t: nat, s: Stage)
    requires IsSchedule(ws) && HasWindow(ws, t, s.w)
    ensures HasWindow(ws, t + 8, Eight(s, t).w)
  {
    NewWords(ws, t, s.w, Eight(s, t).w);
  }

  lemma NewWords(ws: seq<word>, t: nat, w: Window, n: Window)
    requires IsSchedule(ws) && HasWindow(ws, t, w) && IsAhead(w, n)
    ensures Has(ws, t + 16, n.w8) && Has(ws, t + 17, n.w9) && Has(ws, t + 18, n.w10) && Has(ws, t + 19, n.w11)
    ensures Has(ws, t + 20, n.w12) && Has(ws, t + 21, n.w13) && Has(ws, t + 22, n.w14) && Has(ws, t + 23, n.w15)
  {
    NextHas(ws, t + 16, w.w13, w.w8, w.w2, w.w0);
    NextHas(ws, t + 17, w.w14, w.w9, w.w3, w.w1);
    NextHas(ws, t + 18, w.w15, w.w10, w.w4, w.w2);
    NextHas(ws, t + 19, n.w8, w.w11, w.w5, w.w3);
    NextHas(ws, t + 20, n.w9, w.w12, w.w6, w.w4);
    NextHas(ws, t + 21, n.w10, w.w13, w.w7, w.w5);
    NextHas(ws, t + 22, n.w11, w.w14, w.w8, w.w6);
    NextHas(ws, t + 23, n.w12, w.w15, w.w9, w.w7);
  }

  /** The eight words that come next. */
  predicate IsAhead(w: Window, n: Window) {
    && n.w8 == NextWord(w.w13, w.w8, w.w2, w.w0)
    && n.w9 == NextWord(w.w14, w.w9, w.w3, w.w1)
    && n.w10 == NextWord(w.w15, w.w10, w.w4, w.w2)
    && n.w11 == NextWord(n.w8, w.w11, w.w5, w.w3)
    && n.w12 == NextWord(n.w9, w.w12, w.w6, w.w4)
    && n.w13 == NextWord(n.w10, w.w13, w.w7, w.w5)
    && n.w14 == NextWord(n.w11, w.w14, w.w8, w.w6)
    && n.w15 == NextWord(n.w12, w.w15, w.w9, w.w7)
  }

  // The stages before rounds 0, 8, ..., 80.

  lemma Rounds0(ws: seq<word>)
    requires Reached(ws, 0,
      Stage(Registers(0x67452301, 0xEFCDAB89, 0x98BADCFE, 0x10325476, 0xC3D2E1F0),
            Window(0x61626380, 0x00000000, 0x00000000, 0x00000000,
                   0x00000000, 0x00000000, 0x00000000, 0x00000000,
                   0x00000000, 0x00000000, 0x00000000, 0x00000000,
                   0x00000000, 0x00000000, 0x00000000, 0x00000018)))
    ensures Reached(ws, 8,
      Stage(Registers(0x9E8C07D4, 0x993E30C1, 0x0FF1F290, 0xB3F52677, 0xF3763846),
            Window(0x00000000, 0x00000000, 0x00000000, 0x00000000,
                   0x00000000, 0x00000000, 0x00000000, 0x00000018,
                   0xC2C4C700, 0x00000000, 0x00000030, 0x85898E01,
                   0x00000000, 0x00000060, 0x0B131C03, 0x00000030)))
  {
    Advance(ws, 0,
      Stage(Registers(0x67452301, 0xEFCDAB89, 0x98BADCFE, 0x10325476, 0xC3D2E1F0),
            Window(0x61626380, 0x00000000, 0x00000000, 0x00000000,
                   0x00000000, 0x00000000, 0x00000000, 0x00000000,
                   0x00000000, 0x00000000, 0x00000000, 0x00000000,
                   0x00000000, 0x00000000, 0x00000000, 0x00000018)));
  }

  lemma Rounds8(ws: seq<word>)
    requires Reached(ws, 8,
      Stage(Registers(0x9E8C07D4, 0x993E30C1, 0x0FF1F290, 0xB3F52677, 0xF3763846),
            Window(0x00000000, 0x00000000, 0x00000000, 0x00000000,
                   0x00000000, 0x00000000, 0x00000000, 0x00000018,
                   0xC2C4C700, 0x00000000, 0x00000030, 0x85898E01,
                   0x00000000, 0x00000060, 0x0B131C03, 0x00000030)))
    ensures Reached(ws, 16,
      Stage(Registers(0x20BDD62F, 0x196BEE77, 0x644A3DA5, 0x1181ED99, 0x18C623F9),
            Window(0xC2C4C700, 0x00000000, 0x00000030, 0x85898E01,
                   0x00000000, 0x00000060, 0x0B131C03, 0x00000030,
                   0x85898EC1, 0x16263806, 0x00000000, 0x00000180,
                   0x2C4C700C, 0x000000F0, 0x93AFB507, 0x5898E048)))
  {
    Advance(ws, 8,
      Stage(Registers(0x9E8C07D4, 0x993E30C1, 0x0FF1F290, 0xB3F52677, 0xF3763846),
            Window(0x00000000, 0x00000000, 0x00000000, 0x00000000,
                   0x00000000, 0x00000000, 0x00000000, 0x00000018,
                   0xC2C4C700, 0x00000000, 0x00000030, 0x85898E01,
                   0x00000000, 0x00000060, 0x0B131C03, 0x00000030)));
  }

  lemma Rounds16(ws: seq<word>)
    requires Reached(ws, 16,
      Stage(Registers(0x20BDD62F, 0x196BEE77, 0x644A3DA5, 0x1181ED99, 0x18C623F9),
            Window(0xC2C4C700, 0x00000000, 0x00000030, 0x85898E01,
                   0x00000000, 0x00000060, 0x0B131C03, 0x00000030,
                   0x85898EC1, 0x16263806, 0x00000000, 0x00000180,
                   0x2C4C700C, 0x000000F0, 0x93AFB507, 0x5898E048)))
    ensures Reached(ws, 24,
      Stage(Registers(0xD541F12D, 0x21283486, 0x0CE88EFF, 0x868DEC32, 0x7F67875F),
            Window(0x85898EC1, 0x16263806, 0x00000000, 0x00000180,
                   0x2C4C700C, 0x000000F0, 0x93AFB507, 0x5898E048,
                   0x8E9A9202, 0x00000600, 0xB131C0F0, 0x16263BC6,
                   0x4EBED41E, 0x626380A1, 0x16263806, 0x000018C0)))
  {
    Advance(ws, 16,
      Stage(Registers(0x20BDD62F, 0x196BEE77, 0x644A3DA5, 0x1181ED99, 0x18C623F9),
            Window(0xC2C4C700, 0x00000000, 0x00000030, 0x85898E01,
                   0x00000000, 0x00000060, 0x0B131C03, 0x00000030,
                   0x85898EC1, 0x16263806, 0x00000000, 0x00000180,
                   0x2C4C700C, 0x000000F0, 0x93AFB507, 0x5898E048)));
  }

  lemma Rounds24(ws: seq<word>)
    requires Reached(ws, 24,
      Stage(Registers(0xD541F12D, 0x21283486, 0x0CE88EFF, 0x868DEC32, 0x7F67875F),
            Window(0x85898EC1, 0x16263806, 0x00000000, 0x00000180,
                   0x2C4C700C, 0x000000F0, 0x93AFB507, 0x5898E048,
                   0x8E9A9202, 0x00000600, 0xB131C0F0, 0x16263BC6,
                   0x4EBED41E, 0x626380A1, 0x16263806, 0x000018C0)))
    ensures Reached(ws, 32,
      Stage(Registers(0x3B845D33, 0x1267B407, 0x717EEBD7, 0xA0DC2D4B, 0xD2AA1365),
            Window(0x8E9A9202, 0x00000600, 0xB131C0F0, 0x16263BC6,
                   0x4EBED41E, 0x626380A1, 0x16263806, 0x000018C0,
                   0xD2E138C4, 0x00000F00, 0x3AFB5079, 0x898E04E5,
                   0xE2BA3C2B, 0x000060C0, 0x053A37CD, 0x74458547)))
  {
    Advance(ws, 24,
      Stage(Registers(0xD541F12D, 0x21283486, 0x0CE88EFF, 0x868DEC32, 0x7F67875F),
            Window(0x85898EC1, 0x16263806, 0x00000000, 0x00000180,
                   0x2C4C700C, 0x000000F0, 0x93AFB507, 0x5898E048,
                   0x8E9A9202, 0x00000600, 0xB131C0F0, 0x16263BC6,
                   0x4EBED41E, 0x626380A1, 0x16263806, 0x000018C0)));
  }

  lemma Rounds32(ws: seq<word>)
    requires Reached(ws, 32,
      Stage(Registers(0x3B845D33, 0x1267B407, 0x717EEBD7, 0xA0DC2D4B, 0xD2AA1365),
            Window(0x8E9A9202, 0x00000600, 0xB131C0F0, 0x16263BC6,
                   0x4EBED41E, 0x626380A1, 0x16263806, 0x000018C0,
                   0xD2E138C4, 0x00000F00, 0x3AFB5079, 0x898E04E5,
                   0xE2BA3C2B, 0x000060C0, 0x053A37CD, 0x74458547)))
    ensures Reached(ws, 40,
      Stage(Registers(0x32DE1CBA, 0x4C986405, 0xF718E5CF, 0x03D447F6, 0xF72EEC32),
            Window(0xD2E138C4, 0x00000F00, 0x3AFB5079, 0x898E04E5,
                   0xE2BA3C2B, 0x000060C0, 0x053A37CD, 0x74458547,
                   0xDA9415ED, 0x26380A16, 0x626383A1, 0x4EBF54DE,
                   0x3835B44B, 0x0000F600, 0x1E84C7A3, 0x98E04D98)))
  {
    Advance(ws, 32,
      Stage(Registers(0x3B845D33, 0x1267B407, 0x717EEBD7, 0xA0DC2D4B, 0xD2AA1365),
            Window(0x8E9A9202, 0x00000600, 0xB131C0F0, 0x16263BC6,
                   0x4EBED41E, 0x626380A1, 0x16263806, 0x000018C0,
                   0xD2E138C4, 0x00000F00, 0x3AFB5079, 0x898E04E5,
                   0xE2BA3C2B, 0x000060C0, 0x053A37CD, 0x74458547)));
  }

  lemma Rounds40(ws: seq<word>)
    requires Reached(ws, 40,
      Stage(Registers(0x32DE1CBA, 0x4C986405, 0xF718E5CF, 0x03D447F6, 0xF72EEC32),
            Window(0xD2E138C4, 0x00000F00, 0x3AFB5079, 0x898E04E5,
                   0xE2BA3C2B, 0x000060C0, 0x053A37CD, 0x74458547,
                   0xDA9415ED, 0x26380A16, 0x626383A1, 0x4EBF54DE,
                   0x3835B44B, 0x0000F600, 0x1E84C7A3, 0x98E04D98)))
    ensures Reached(ws, 48,
      Stage(Registers(0xBEAD02CA, 0xA01B846C, 0x8714787C, 0x503CA382, 0xFB86C6AB),
            Window(0xDA9415ED, 0x26380A16, 0x626383A1, 0x4EBF54DE,
                   0x3835B44B, 0x0000F600, 0x1E84C7A3, 0x98E04D98,
                   0x651D16A0, 0x62658CA1, 0x458544D6, 0x44584CB7,
                   0x7BA06619, 0x6380AEA2, 0x0AE55269, 0x627B49A1)))
  {
    Advance(ws, 40,
      Stage(Registers(0x32DE1CBA, 0x4C986405, 0xF718E5CF, 0x03D447F6, 0xF72EEC32),
            Window(0xD2E138C4, 0x00000F00, 0x3AFB5079, 0x898E04E5,
                   0xE2BA3C2B, 0x000060C0, 0x053A37CD, 0x74458547,
                   0xDA9415ED, 0x26380A16, 0x626383A1, 0x4EBF54DE,
                   0x3835B44B, 0x0000F600, 0x1E84C7A3, 0x98E04D98)));
  }

  lemma Rounds48(ws: seq<word>)
    requires Reached(ws, 48,
      Stage(Registers(0xBEAD02CA, 0xA01B846C, 0x8714787C, 0x503CA382, 0xFB86C6AB),
            Window(0xDA9415ED, 0x26380A16, 0x626383A1, 0x4EBF54DE,
                   0x3835B44B, 0x0000F600, 0x1E84C7A3, 0x98E04D98,
                   0x651D16A0, 0x62658CA1, 0x458544D6, 0x44584CB7,
                   0x7BA06619, 0x6380AEA2, 0x0AE55269, 0x627B49A1)))
    ensures Reached(ws, 56,
      Stage(Registers(0x5E6456AF, 0x7B71F76D, 0x09FA7C76, 0x792410DB, 0x8E11EB59),
            Window(0x651D16A0, 0x62658CA1, 0x458544D6, 0x44584CB7,
                   0x7BA06619, 0x6380AEA2, 0x0AE55269, 0x627B49A1,
                   0x7CD45C9D, 0x000F0000, 0xFB50753A, 0xEC6765E8,
                   0xBA3C2BE2, 0x0060C000, 0x3A37CD05, 0x458546F4)))
  {
    Advance(ws, 48,
      Stage(Registers(0xBEAD02CA, 0xA01B846C, 0x8714787C, 0x503CA382, 0xFB86C6AB),
            Window(0xDA9415ED, 0x26380A16, 0x626383A1, 0x4EBF54DE,
                   0x3835B44B, 0x0000F600, 0x1E84C7A3, 0x98E04D98,
                   0x651D16A0, 0x62658CA1, 0x458544D6, 0x44584CB7,
                   0x7BA06619, 0x6380AEA2, 0x0AE55269, 0x627B49A1)));
  }

  lemma Rounds56(ws: seq<word>)
    requires Reached(ws, 56,
      Stage(Registers(0x5E6456AF, 0x7B71F76D, 0x09FA7C76, 0x792410DB, 0x8E11EB59),
            Window(0x651D16A0, 0x62658CA1, 0x458544D6, 0x44584CB7,
                   0x7BA06619, 0x6380AEA2, 0x0AE55269, 0x627B49A1,
                   0x7CD45C9D, 0x000F0000, 0xFB50753A, 0xEC6765E8,
                   0xBA3C2BE2, 0x0060C000, 0x3A37CD05, 0x458546F4)))
    ensures Reached(ws, 64,
      Stage(Registers(0x6B61C9E1, 0xB66C020B, 0x9523272C, 0xF5D5B051, 0x8FD4B796),
            Window(0x7CD45C9D, 0x000F0000, 0xFB50753A, 0xEC6765E8,
                   0xBA3C2BE2, 0x0060C000, 0x3A37CD05, 0x458546F4,
                   0xB8599DD6, 0x380A1A26, 0x01E02203, 0xE7CC3456,
                   0xE6E60B69, 0x00F60A00, 0x5795EF4F, 0x822E0879)))
  {
    Advance(ws, 56,
      Stage(Registers(0x5E6456AF, 0x7B71F76D, 0x09FA7C76, 0x792410DB, 0x8E11EB59),
            Window(0x651D16A0, 0x62658CA1, 0x458544D6, 0x44584CB7,
                   0x7BA06619, 0x6380AEA2, 0x0AE55269, 0x627B49A1,
                   0x7CD45C9D, 0x000F0000, 0xFB50753A, 0xEC6765E8,
                   0xBA3C2BE2, 0x0060C000, 0x3A37CD05, 0x458546F4)));
  }

  lemma Rounds64(ws: seq<word>)
    requires Reached(ws, 64,
      Stage(Registers(0x6B61C9E1, 0xB66C020B, 0x9523272C, 0xF5D5B051, 0x8FD4B796),
            Window(0x7CD45C9D, 0x000F0000, 0xFB50753A, 0xEC6765E8,
                   0xBA3C2BE2, 0x0060C000, 0x3A37CD05, 0x458546F4,
                   0xB8599DD6, 0x380A1A26, 0x01E02203, 0xE7CC3456,
                   0xE6E60B69, 0x00F60A00, 0x5795EF4F, 0x822E0879)))
    ensures Reached(ws, 72,
      Stage(Registers(0x39859DE7, 0xC199F8C7, 0x8FC96230, 0x125C24F0, 0xDE37534A),
            Window(0xB8599DD6, 0x380A1A26, 0x01E02203, 0xE7CC3456,
                   0xE6E60B69, 0x00F60A00, 0x5795EF4F, 0x822E0879,
                   0x7E577CE2, 0x07EF2103, 0x8544E945, 0xEB39DAB8,
                   0xC205991A, 0x80AECB63, 0x7D84CA48, 0x7B499B62)))
  {
    Advance(ws, 64,
      Stage(Registers(0x6B61C9E1, 0xB66C020B, 0x9523272C, 0xF5D5B051, 0x8FD4B796),
            Window(0x7CD45C9D, 0x000F0000, 0xFB50753A, 0xEC6765E8,
                   0xBA3C2BE2, 0x0060C000, 0x3A37CD05, 0x458546F4,
                   0xB8599DD6, 0x380A1A26, 0x01E02203, 0xE7CC3456,
                   0xE6E60B69, 0x00F60A00, 0x5795EF4F, 0x822E0879)));
  }

  lemma Rounds72(ws: seq<word>)
    requires Reached(ws, 72,
      Stage(Registers(0x39859DE7, 0xC199F8C7, 0x8FC96230, 0x125C24F0, 0xDE37534A),
            Window(0xB8599DD6, 0x380A1A26, 0x01E02203, 0xE7CC3456,
                   0xE6E60B69, 0x00F60A00, 0x5795EF4F, 0x822E0879,
                   0x7E577CE2, 0x07EF2103, 0x8544E945, 0xEB39DAB8,
                   0xC205991A, 0x80AECB63, 0x7D84CA48, 0x7B499B62)))
    ensures Reached(ws, 80,
      Stage(Registers(0x42541B35, 0x5738D5E1, 0x21834873, 0x681E6DF6, 0xD8FDF6AD),
            Window(0x7E577CE2, 0x07EF2103, 0x8544E945, 0xEB39DAB8,
                   0xC205991A, 0x80AECB63, 0x7D84CA48, 0x7B499B62,
                   0x8E8010A8, 0x4B5B8A77, 0x3216B69A, 0x0507E88D,
                   0x705BEE96, 0x60C0FF00, 0xA28362D0, 0x1DA6B91D)))
  {
    Advance(ws, 72,
      Stage(Registers(0x39859DE7, 0xC199F8C7, 0x8FC96230, 0x125C24F0, 0xDE37534A),
            Window(0xB8599DD6, 0x380A1A26, 0x01E02203, 0xE7CC3456,
                   0xE6E60B69, 0x00F60A00, 0x5795EF4F, 0x822E0879,
                   0x7E577CE2, 0x07EF2103, 0x8544E945, 0xEB39DAB8,
                   0xC205991A, 0x80AECB63, 0x7D84CA48, 0x7B499B62)));
  }

  lemma MessageReached(b: block, ws: seq<word>)
    requires ws == Extend(MessageWords(b)) && b == Pad(ABC)
    ensures Reached(ws, 0,
      Stage(Registers(0x67452301, 0xEFCDAB89, 0x98BADCFE, 0x10325476, 0xC3D2E1F0),
            Window(0x61626380, 0x00000000, 0x00000000, 0x00000000,
                   0x00000000, 0x00000000, 0x00000000, 0x00000000,
                   0x00000000, 0x00000000, 0x00000000, 0x00000000,
                   0x00000000, 0x00000000, 0x00000000, 0x00000018)))
  {
    AbcPadded();
    AbcWords(b);
    forall t | 16 <= t < 80 ensures IsNext(ws, t) {
      Schedule(MessageWords(b), t);
    }
    assert ws[..0] == [];
    PrefixAt(MessageWords(b), ws);
  }

  lemma AbcPadded()
    ensures |Pad(ABC)| == 64 && IsAbcBlock(Pad(ABC))
  {
    ShortPadded(ABC);
  }

  /** A message of less than 32 octets, the octet 0x80, zeros, and its length in the last octet. */
  predicate IsShortBlock(m: seq<bv8>, b: seq<bv8>)
    requires |m| < 32
  {
    && |b| == 64 && (forall j :: 0 <= j < |m| ==> b[j] == m[j]) && b[|m|] == 0x80
    && (forall j :: |m| < j < 63 ==> b[j] == 0) && b[63] == (8 * |m|) as bv8
  }

  lemma ShortPadded(m: seq<bv8>)
    requires |m| < 32
    ensures IsShortBlock(m, Pad(m))
  {
    var n := 8 * |m|;
    SmallEndian(n);
    ShortZeros(|m|);
    Placed(m, Zeros(55 - |m|), BigEndian(n, 8));
  }

  lemma ShortZeros(n: nat)
    requires n < 32
    ensures PadZeros(n) == 55 - n && 8 * n % 0x1_0000_0000_0000_0000 == 8 * n
  {
  }

  lemma Placed(m: seq<bv8>, zeros: seq<bv8>, last: seq<bv8>)
    requires |m| < 32 && |zeros| == 55 - |m| && |last| == 8 && last[7] == (8 * |m|) as bv8
    requires (forall j :: 0 <= j < |zeros| ==> zeros[j] == 0) && (forall j :: 0 <= j < 7 ==> last[j] == 0)
    ensures IsShortBlock(m, m + [0x80] + zeros + last)
  {
    var b := m + [0x80] + zeros + last;
    forall j | |m| < j < 63 ensures b[j] == 0 {
      assert b[j] == if j < 56 then zeros[j - |m| - 1] else last[j - 56];
    }
    assert b[63] == last[7];
  }

  lemma SmallEndian(n: nat)
    requires n < 256
    ensures var last := BigEndian(n, 8); last[7] == n as bv8 && forall j :: 0 <= j < 7 ==> last[j] == 0
  {
    ZeroOctets(7);
    assert BigEndian(n, 8) == BigEndian(n / 256, 7) + [n as bv8] && n / 256 == 0;
  }

  predicate IsAbcBlock(b: block) {
    && b[0] == 0x61 && b[1] == 0x62 && b[2] == 0x63 && b[3] == 0x80
    && (forall j :: 4 <= j < 63 ==> b[j] == 0) && b[63] == 24
  }

  lemma AbcWords(b: block)
    requires IsAbcBlock(b)
    ensures MessageWords(b)[0] == 0x61626380 && MessageWords(b)[15] == 0x18
    ensures forall i :: 1 <= i < 15 ==> MessageWords(b)[i] == 0
  {
  }

  lemma {:induction false} ZeroOctets(n: nat)
    ensures forall j :: 0 <= j < n ==> BigEndian(0, n)[j] == 0
  {
    if n > 0 {
      ZeroOctets(n - 1);
    }
  }

  lemma AbcRounds(b: block, ws: seq<word>)
    requires ws == Extend(MessageWords(b)) && b == Pad(ABC)
    ensures Rounds(INITIAL, ws) == Registers(0x42541B35, 0x5738D5E1, 0x21834873, 0x681E6DF6, 0xD8FDF6AD)
  {
    MessageReached(b, ws);
    Rounds0(ws);
    Rounds8(ws);
    Rounds16(ws);
    Rounds24(ws);
    Rounds32(ws);
    Rounds40(ws);
    Rounds48(ws);
    Rounds56(ws);
    Rounds64(ws);
    Rounds72(ws);
    assert ws[..80] == ws;
  }

  lemma AbcSum()
    ensures Octets(Add(INITIAL, Registers(0x42541B35, 0x5738D5E1, 0x21834873, 0x681E6DF6, 0xD8FDF6AD))) ==
      [0xA9, 0x99, 0x3E, 0x36, 0x47, 0x06, 0x81, 0x6A, 0xBA, 0x3E,
       0x25, 0x71, 0x78, 0x50, 0xC2, 0x6C, 0x9C, 0xD0, 0xD8, 0x9D]
  {
  }

  /** The digest of "abc". */
  lemma AbcDigest()
    ensures Digest(ABC) ==
      [0xA9, 0x99, 0x3E, 0x36, 0x47, 0x06, 0x81, 0x6A, 0xBA, 0x3E,
       0x25, 0x71, 0x78, 0x50, 0xC2, 0x6C, 0x9C, 0xD0, 0xD8, 0x9D]
  {
    AbcPadded();
    var b: block := Pad(ABC);
    AbcRounds(b, Extend(MessageWords(b)));
    AbcSum();
    assert b[..64] == b && b[64..] == [];
    assert Fold(Compress, INITIAL, b) == Fold(Compress, Compress(INITIAL, b), []) == Compress(INITIAL, b);
  }
}
