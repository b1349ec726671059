/**
  Log levels (`tklog::LEVEL`). The enum is `repr(u8)` with discriminants 1..7 and
  derives `PartialOrd`, so levels compare as their discriminants do; a logger
  emits a record when its threshold is at most the record's level.
 */
module Levels {

  import opened Wrappers

  datatype Level = Trace | Debug | Info | Warn | Error | Fatal | Off

  /** The `u8` a level is represented by. */
  function Discriminant(l: Level): (v: nat)
    ensures 1 <= v <= 7
  {
    match l
    case Trace => 1
    case Debug => 2
    case Info => 3
    case Warn => 4
    case Error => 5
    case Fatal => 6
    case Off => 7
  }

  /** The level a `u8` represents, if any. */
  function FromDiscriminant(v: int): (r: Option<Level>)
    ensures r.Some? <==> 1 <= v <= 7
    ensures r.Some? ==> Discriminant(r.value) == v
  {
    if v == 1 then Some(Trace)
    else if v == 2 then Some(Debug)
    else if v == 3 then Some(Info)
    else if v == 4 then Some(Warn)
    else if v == 5 then Some(Error)
    else if v == 6 then Some(Fatal)
    else if v == 7 then Some(Off)
    else None
  }

  lemma DiscriminantRoundTrip(l: Level)
    ensures FromDiscriminant(Discriminant(l)) == Some(l)
  {
  }

  /** `a <= b` under the derived `PartialOrd`. */
  predicate Le(a: Level, b: Level) {
    Discriminant(a) <= Discriminant(b)
  }

  /** `a < b` under the derived `PartialOrd`. */
  predicate Lt(a: Level, b: Level) {
    Discriminant(a) < Discriminant(b)
  }

  /** The derived order is a total order on levels: every pair is comparable
      and only equal levels are below each other. */
  lemma LevelTotalOrder(a: Level, b: Level, c: Level)
    ensures Le(a, a)
    ensures Le(a, b) && Le(b, a) ==> a == b
    ensures Le(a, b) && Le(b, c) ==> Le(a, c)
    ensures Le(a, b) || Le(b, a)
    ensures Lt(a, b) <==> Le(a, b) && a != b
  {
    DiscriminantRoundTrip(a);
    DiscriminantRoundTrip(b);
  }

  /** The levels in increasing order. */
  lemma LevelLadder()
    ensures Lt(Trace, Debug) && Lt(Debug, Info) && Lt(Info, Warn)
    ensures Lt(Warn, Error) && Lt(Error, Fatal) && Lt(Fatal, Off)
    ensures forall l :: Le(Trace, l) && Le(l, Off)
  {
  }
}
