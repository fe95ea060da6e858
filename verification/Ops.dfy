/** Outcomes shared by the model, and the table of op implementations that both
    the integrity check and the interpreter dispatch into. */
module Ops {
  import opened Words

  datatype Option<+T> = None | Some(value: T)

  datatype Result<+T, +E> = Ok(value: T) | Err(error: E)

  /** An entry of the function pointer tables. The ops that read the state are
      concrete; every other op is an arbitrary function that declares, per
      operand, how many stack items it takes and gives, or rejects the operand. */
  datatype OpImpl =
    | StackRead
    | ConstantRead
    | CallSource
    | StateGet
    | StateSet
    | Other(io: nat -> Option<(nat, nat)>, run: (nat, seq<Word>) -> seq<Word>)

  /** An op gives as many items as its integrity function declares. */
  ghost predicate Honest(impl: OpImpl) {
    impl.Other? ==>
      forall operand: nat, xs: seq<Word> ::
        impl.io(operand).Some? && |xs| == impl.io(operand).value.0 ==>
          |impl.run(operand, xs)| == impl.io(operand).value.1
  }

  /** `s` back to front. */
  function Reverse<T>(s: seq<T>): (r: seq<T>)
    ensures |r| == |s|
    ensures forall i | 0 <= i < |s| :: r[i] == s[|s| - 1 - i]
  {
    seq(|s|, i requires 0 <= i < |s| => s[|s| - 1 - i])
  }
}
