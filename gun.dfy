/**
 The random draws and the three-slot gun of src/game.cpp (`getRandVal`, `setNext`,
 `rearm`, `swapExtra`) as values: the gun is the armed payload, the next one and a
 parked extra one, with the flags saying which slots are filled. The generator behind
 `getRandVal` is a foreign call; it is a parameter `random` from seeds to numbers, so a
 drawn value is arbitrary but in range and determined by the seed it was drawn with.
 */
module Guns {
  import opened Hex

  /** The number of values of the `unsigned int` seed. */
  const SEED_MOD: int := 0x1_0000_0000

  /**
   The generator as the game reaches it: draw number `s` seeds `gen` with the seed's
   `unsigned int` value, `s % 2^32`. The model counts draws with an unbounded seed.
   */
  function Seeded(gen: nat -> nat): nat -> nat
  {
    s => gen(s % SEED_MOD)
  }

  /**
   `GetRandomValue(lo, hi)` right after `SetRandomSeed` with seed `s`, where `random` is
   the generator as seen through the seed: some value of `lo .. hi` that the seed determines.
   */
  function RandVal(random: nat -> nat, s: nat, lo: int, hi: int): (v: int)
    requires lo <= hi
    ensures lo <= v <= hi
  {
    lo + random(s) % (hi - lo + 1)
  }

  /** The draws repeat after 2^32 of them: the seed's wrap-around. */
  lemma SeedWraps(gen: nat -> nat, s: nat, lo: int, hi: int)
    requires lo <= hi
    ensures RandVal(Seeded(gen), s + SEED_MOD, lo, hi) == RandVal(Seeded(gen), s, lo, hi)
  {
    assert (s + SEED_MOD) % SEED_MOD == s % SEED_MOD by {
      assert s + SEED_MOD == SEED_MOD * (s / SEED_MOD + 1) + s % SEED_MOD;
    }
  }

  /** The `(unsigned char)` cast: the value modulo 256. */
  function ToByte(v: int): (b: byte)
    ensures 0 <= v < 256 ==> b as int == v
  {
    (v % 256) as byte
  }

  /**
   `(unsigned char)getRandVal(gs, 0, COLORS.size() - 1)` drawn with seed `s`: with at
   most 256 colours it names one of them.
   */
  function Draw(random: nat -> nat, nColors: int, s: nat): (b: byte)
    requires nColors >= 1
    ensures nColors <= 256 ==> b as int < nColors
  {
    ToByte(RandVal(random, s, 0, nColors - 1))
  }

  /** All three attributes of `t` name one of `nColors` colours. */
  predicate InPalette(t: Thing, nColors: int)
  {
    t.clr as int < nColors && t.shp as int < nColors && t.sym as int < nColors
  }

  /** The payload `generateRows` draws from seed `s`: colour, shape and symbol, in that order. */
  function RowThing(random: nat -> nat, nColors: int, s: nat): (t: Thing)
    requires nColors >= 1
  {
    Thing(Draw(random, nColors, s), Draw(random, nColors, s + 1), Draw(random, nColors, s + 2))
  }

  /** Every attribute of a row payload names one of the colours, when there are at most 256. */
  lemma RowThingInPalette(random: nat -> nat, nColors: int, s: nat)
    requires 1 <= nColors <= 256
    ensures InPalette(RowThing(random, nColors, s), nColors)
  {
  }

  /** The payload `setNext` draws from seed `s`: shape first, then colour, then symbol. */
  function NextThing(random: nat -> nat, nColors: int, s: nat): (t: Thing)
    requires nColors >= 1
    ensures nColors <= 256 ==> InPalette(t, nColors)
  {
    Thing(Draw(random, nColors, s + 1), Draw(random, nColors, s), Draw(random, nColors, s + 2))
  }

  /**
   The same three draws give a row tile and a gun payload whose colour and shape are
   exchanged: the two functions are the same draws in a different assignment order.
   */
  lemma NextThingSwapsRowThing(random: nat -> nat, nColors: int, s: nat)
    requires nColors >= 1
    ensures var r := RowThing(random, nColors, s);
            NextThing(random, nColors, s) == Thing(r.shp, r.clr, r.sym)
  {
  }

  /** The gun's discrete state (its aim and speed are floating point and not part of the model). */
  datatype Gun = Gun(armed: Thing, next: Thing, extra: Thing, nextArmed: bool, extraArmed: bool, firstSwap: bool)

  /** `setNext`: three draws fill the next slot. The result pairs the gun with the new seed. */
  function SetNext(g: Gun, random: nat -> nat, nColors: int, s: nat): (r: (Gun, nat))
    requires nColors >= 1
    ensures r.0 == g.(next := r.0.next, nextArmed := true) && r.1 == s + 3
    ensures nColors <= 256 ==> InPalette(r.0.next, nColors)
  {
    (g.(next := NextThing(random, nColors, s), nextArmed := true), s + 3)
  }

  /** `rearm`: fill the next slot if it is empty, move it into the armed slot, and draw a new next. */
  function Rearm(g: Gun, random: nat -> nat, nColors: int, s: nat): (r: (Gun, nat))
    requires nColors >= 1
    ensures r.0.nextArmed && r.0.extra == g.extra && r.0.extraArmed == g.extraArmed && r.0.firstSwap == g.firstSwap
    ensures g.nextArmed ==> r.0.armed == g.next && r.1 == s + 3
    ensures !g.nextArmed ==> r.1 == s + 6
    ensures nColors <= 256 ==> InPalette(r.0.next, nColors) && (!g.nextArmed ==> InPalette(r.0.armed, nColors))
  {
    var (g1, s1) := if g.nextArmed then (g, s) else SetNext(g, random, nColors, s);
    SetNext(g1.(armed := g1.next), random, nColors, s1)
  }

  /** `swapExtra`: exchange armed and extra if something is parked, otherwise park the armed payload and rearm. */
  function SwapExtra(g: Gun, random: nat -> nat, nColors: int, s: nat): (r: (Gun, nat))
    requires nColors >= 1
    ensures r.0.extraArmed && r.0.extra == g.armed
    ensures g.extraArmed ==> r.0.armed == g.extra && r.1 == s && !r.0.firstSwap
    ensures !g.extraArmed ==> r.0.nextArmed && r.0.firstSwap == g.firstSwap && r.1 >= s + 3
  {
    if g.extraArmed then (g.(extra := g.armed, armed := g.extra, firstSwap := false), s)
    else Rearm(g.(extra := g.armed, extraArmed := true), random, nColors, s)
  }

  /**
   After `rearm` the armed payload is what was waiting in the next slot (drawn on the
   spot if nothing was), a freshly drawn payload waits next, the extra slot is
   untouched, and three draws were made, or six when the next slot was empty.
   */
  lemma RearmShifts(g: Gun, random: nat -> nat, nColors: int, s: nat)
    requires nColors >= 1
    ensures var (h, t) := Rearm(g, random, nColors, s);
            var drawn := if g.nextArmed then 0 else 3;
            && h.armed == (if g.nextArmed then g.next else NextThing(random, nColors, s))
            && h.next == NextThing(random, nColors, s + drawn)
            && h.nextArmed
            && h.extra == g.extra && h.extraArmed == g.extraArmed && h.firstSwap == g.firstSwap
            && t == s + drawn + 3
  {
  }

  /**
   `swapExtra` never loses a payload: with something parked the armed and parked
   payloads trade places without a draw; otherwise the armed payload is parked and the
   gun is rearmed. Either way something is parked afterwards.
   */
  lemma SwapKeepsPayloads(g: Gun, random: nat -> nat, nColors: int, s: nat)
    requires nColors >= 1
    ensures var (h, t) := SwapExtra(g, random, nColors, s);
            && h.extraArmed
            && (g.extraArmed ==> h.nextArmed == g.nextArmed) && (!g.extraArmed ==> h.nextArmed)
            && (g.extraArmed ==> h.armed == g.extra && h.extra == g.armed && h.next == g.next && t == s && !h.firstSwap)
            && (!g.extraArmed ==> h.extra == g.armed && h.armed == (if g.nextArmed then g.next else NextThing(random, nColors, s)))
  {
    if !g.extraArmed {
      RearmShifts(g.(extra := g.armed, extraArmed := true), random, nColors, s);
    }
  }

  /** Swapping twice with something parked gives back the same armed and parked payloads. */
  lemma SwapTwice(g: Gun, random: nat -> nat, nColors: int, s: nat)
    requires nColors >= 1 && g.extraArmed
    ensures var (h, t) := SwapExtra(g, random, nColors, s);
            var (k, u) := SwapExtra(h, random, nColors, t);
            k == g.(firstSwap := false) && u == s
  {
  }
}
