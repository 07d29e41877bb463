/**
 * The shape both `while True` loops of `utils/latex_transform.py` share:
 * a round searches the text, and when it finds a block it replaces every
 * copy of the block's text by the next numbered key and keeps the text.
 * `step(s, k)` is one round with key `k`; the loops differ only in it.
 */
module LatexRounds {
  import opened Wrappers
  import opened LatexBlocks

  /** Every key of the numbering is free of `{`; the numberings of the source are. */
  ghost predicate BraceFree(key: nat -> string) {
    forall n: nat :: Braces(key(n)) == 0
  }

  /** A round with a `{`-free key leaves fewer `{` behind, so the loop ends. */
  ghost predicate Lowering(step: (string, string) -> Option<(string, string)>) {
    forall s, k :: Braces(k) == 0 && step(s, k).Some? ==> Braces(step(s, k).value.0) < Braces(s)
  }

  /**
   * The loop started with the index at `index`: the final string and, in
   * order, the texts the rounds cut out.
   */
  function Rounds(s: string, index: nat, key: nat -> string, step: (string, string) -> Option<(string, string)>): (string, seq<string>)
    requires BraceFree(key) && Lowering(step)
    decreases Braces(s)
  {
    match step(s, key(index))
    case None => (s, [])
    case Some((next, content)) =>
      var rest := Rounds(next, index + 1, key, step);
      (rest.0, [content] + rest.1)
  }

  /** The string the first `k` rounds leave. */
  function After(s: string, index: nat, key: nat -> string, step: (string, string) -> Option<(string, string)>, k: nat): string
    requires BraceFree(key) && Lowering(step)
    decreases k
  {
    if k == 0 then s
    else match step(s, key(index))
      case None => s
      case Some((next, _)) => After(next, index + 1, key, step, k - 1)
  }

  /** When the round finds nothing the loop stops. */
  lemma RoundsNone(s: string, index: nat, key: nat -> string, step: (string, string) -> Option<(string, string)>)
    requires BraceFree(key) && Lowering(step) && step(s, key(index)).None?
    ensures Rounds(s, index, key, step) == (s, [])
  {
  }

  /** After a round the loop goes on from what the round left, with the next key. */
  lemma RoundsOnce(s: string, next: string, c: string, index: nat, key: nat -> string,
                   step: (string, string) -> Option<(string, string)>)
    requires BraceFree(key) && Lowering(step) && step(s, key(index)) == Some((next, c))
    ensures Rounds(s, index, key, step).0 == Rounds(next, index + 1, key, step).0
    ensures Rounds(s, index, key, step).1 == [c] + Rounds(next, index + 1, key, step).1
  {
  }

  /** The loop stops only at a string where the next round finds nothing. */
  lemma {:induction false} RoundsDone(s: string, index: nat, key: nat -> string,
                                      step: (string, string) -> Option<(string, string)>)
    requires BraceFree(key) && Lowering(step)
    ensures step(Rounds(s, index, key, step).0, key(index + |Rounds(s, index, key, step).1|)).None?
    decreases Braces(s)
  {
    match step(s, key(index))
    case None =>
    case Some((next, content)) =>
      RoundsDone(next, index + 1, key, step);
      assert index + 1 + |Rounds(next, index + 1, key, step).1| == index + |Rounds(s, index, key, step).1|;
  }

  /** The `k`-th text kept is what round `k` cuts out of the string the earlier rounds left. */
  lemma {:induction false} RoundsAt(s: string, index: nat, key: nat -> string,
                                    step: (string, string) -> Option<(string, string)>, k: nat)
    requires BraceFree(key) && Lowering(step) && k < |Rounds(s, index, key, step).1|
    ensures var t := After(s, index, key, step, k);
            step(t, key(index + k)).Some? && step(t, key(index + k)).value.1 == Rounds(s, index, key, step).1[k]
    decreases Braces(s)
  {
    match step(s, key(index))
    case Some((next, content)) =>
      if k > 0 {
        RoundsAt(next, index + 1, key, step, k - 1);
        assert index + 1 + (k - 1) == index + k;
      }
  }
}
