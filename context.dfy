/** `Context`: the record a Function keeps during its forward pass so that
    its backward pass can read the values it saved. */
module Contexts {

  class Context<T> {
    var noGrad: bool
    var savedValues: seq<T>

    /** The dataclass constructor, with its defaults: gradients wanted and
        nothing saved. */
    constructor (noGrad: bool := false, savedValues: seq<T> := [])
      ensures this.noGrad == noGrad && this.savedValues == savedValues
    {
      this.noGrad := noGrad;
      this.savedValues := savedValues;
    }

    /** `save_for_backward(*values)`: does nothing when no gradient is
        wanted, and otherwise replaces the saved values by exactly `values`. */
    method SaveForBackward(values: seq<T>)
      modifies this
      ensures noGrad == old(noGrad)
      ensures savedValues == if old(noGrad) then old(savedValues) else values
    {
      if noGrad {
        return;
      }
      savedValues := values;
    }

    /** The `saved_tensors` property. */
    function SavedTensors(): seq<T>
      reads this
    {
      savedValues
    }
  }

  /** A `Context()` built with the defaults wants gradients and holds
      nothing. */
  method DefaultContext<T>() returns (noGrad: bool, saved: seq<T>)
    ensures !noGrad && saved == []
  {
    var ctx := new Context<T>();
    noGrad, saved := ctx.noGrad, ctx.SavedTensors();
  }

  /** Saving into a fresh `Context(no_grad)` and reading `saved_tensors`
      back: the values come back exactly when gradients are wanted, and
      `no_grad` is still what it was. */
  method SaveThenRead<T>(noGrad: bool, values: seq<T>) returns (stillNoGrad: bool, saved: seq<T>)
    ensures stillNoGrad == noGrad
    ensures saved == if noGrad then [] else values
  {
    var ctx := new Context<T>(noGrad);
    ctx.SaveForBackward(values);
    stillNoGrad, saved := ctx.noGrad, ctx.SavedTensors();
  }

  /** Each save in gradient mode replaces the previous one: the last saved
      values are the ones read back. */
  method SaveTwice<T>(first: seq<T>, second: seq<T>) returns (saved: seq<T>)
    ensures saved == second
  {
    var ctx := new Context<T>();
    ctx.SaveForBackward(first);
    ctx.SaveForBackward(second);
    saved := ctx.SavedTensors();
  }
}
