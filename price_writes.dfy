/**
 * Price updates written into objects one after another: the value an object
 * holds afterwards is the last one written to it, or what it held before when
 * nothing was written to it.
 */
module PriceWrites {
  /** A value written into one object. */
  datatype Write<T> = Write(target: T, value: real)

  /** The value of `t` after the writes, in order: the last one to `t` wins. */
  function LastWritten<T(==)>(writes: seq<Write<T>>, t: T, initial: real): real
  {
    if writes == [] then initial
    else if writes[|writes| - 1].target == t then writes[|writes| - 1].value
    else LastWritten(writes[..|writes| - 1], t, initial)
  }

  /** An object no write targets keeps its value. */
  lemma {:induction false} UntargetedKeepsValue<T>(writes: seq<Write<T>>, t: T, initial: real)
    requires forall k :: 0 <= k < |writes| ==> writes[k].target != t
    ensures LastWritten(writes, t, initial) == initial
  {
    if writes != [] {
      UntargetedKeepsValue(writes[..|writes| - 1], t, initial);
    }
  }

  /** An object some write targets ends with the value of the last such write. */
  lemma {:induction false} LastWriteWins<T>(writes: seq<Write<T>>, t: T, initial: real, k: nat)
    requires k < |writes| && writes[k].target == t
    requires forall j :: k < j < |writes| ==> writes[j].target != t
    ensures LastWritten(writes, t, initial) == writes[k].value
  {
    if k < |writes| - 1 {
      LastWriteWins(writes[..|writes| - 1], t, initial, k);
    }
  }

  /** Appending at most one write changes only its target's value. */
  lemma LastWrittenAppend<T>(writes: seq<Write<T>>, extra: seq<Write<T>>, t: T, initial: real)
    requires |extra| <= 1
    ensures LastWritten(writes + extra, t, initial)
      == if extra != [] && extra[0].target == t then extra[0].value else LastWritten(writes, t, initial)
  {
    if extra == [] {
      assert writes + extra == writes;
    } else {
      assert (writes + extra)[..|writes|] == writes;
    }
  }
}
