/**
  The `Format` flags that select the parts of a log line's prefix. They are `u8`
  bit masks combined with `|`; `Nano` (0) selects nothing.
 */
module Format {

  /** The empty mask. */
  const Nano: bv8 := 0

  datatype Flag = Date | Time | Microseconds | LongFileName | ShortFileName | LevelFlag

  /** The `u8` constant of each flag. */
  function Bit(f: Flag): (b: bv8)
    ensures b != Nano && b & (b - 1) == 0
  {
    match f
    case Date => 1
    case Time => 2
    case Microseconds => 4
    case LongFileName => 8
    case ShortFileName => 16
    case LevelFlag => 32
  }

  /** Every flag is a single bit, and distinct flags share no bit, so OR-ing
      two of them is the same as adding them. */
  lemma FlagsAreDisjointBits(f: Flag, g: Flag)
    ensures Bit(f) != Nano && Bit(f) & (Bit(f) - 1) == 0
    ensures f != g ==> Bit(f) & Bit(g) == 0 && Bit(f) | Bit(g) == Bit(f) + Bit(g)
  {
  }

  /** The mask `f1 | f2 | ...` a caller builds from a list of flags. */
  function Combine(fs: seq<Flag>): bv8 {
    if fs == [] then Nano else Combine(fs[..|fs| - 1]) | Bit(fs[|fs| - 1])
  }

  /** Whether a mask selects flag f (`mask & f != 0`). */
  predicate Has(mask: bv8, f: Flag) {
    mask & Bit(f) != 0
  }

  /** Adding one flag to a mask selects that flag and keeps every other selection. */
  lemma HasOr(mask: bv8, g: Flag, f: Flag)
    ensures Has(mask | Bit(g), f) <==> Has(mask, f) || g == f
  {
    FlagsAreDisjointBits(g, f);
    assert (mask | Bit(g)) & Bit(f) == (mask & Bit(f)) | (Bit(g) & Bit(f));
  }

  /** A combined mask selects exactly the flags it was built from. */
  lemma {:induction false} CombineSelectsExactly(fs: seq<Flag>, f: Flag)
    ensures Has(Combine(fs), f) <==> f in fs
  {
    if fs != [] {
      var init, last := fs[..|fs| - 1], fs[|fs| - 1];
      CombineSelectsExactly(init, f);
      HasOr(Combine(init), last, f);
      assert fs == init + [last];
    }
  }
}
