/**
 * The within-fiber Newton-Raphson step rule `compute_refine_step_amount`
 * nested in `fiber_solver`. Given the alpha coordinate of the current point
 * and of the current tangent, the linear step that would bring alpha to zero
 * is `-xAlpha / zAlpha`; the rule takes that step's direction and the smaller
 * of its length and the caller's own fiber step.
 */
module RefineStep {
  import opened Numeric

  /** The Newton step along the tangent that zeroes alpha to first order. */
  function NewtonStep(xAlpha: real, zAlpha: real): (r: real)
    requires zAlpha != 0.0
    ensures xAlpha + r * zAlpha == 0.0
  {
    -xAlpha / zAlpha
  }

  /**
   * The step to take, paired with the diagnostic data: the Newton step, the
   * caller's fiber step `fiberStep` and its payload `fiberData`.
   */
  function RefineStepAmount<D>(xAlpha: real, zAlpha: real, fiberStep: real, fiberData: D): (r: (real, (real, real, D)))
    requires zAlpha != 0.0
    ensures r.1 == (NewtonStep(xAlpha, zAlpha), fiberStep, fiberData)
  {
    var refine := -xAlpha / zAlpha;
    (Sign(refine) as real * Min(Abs(refine), fiberStep), (refine, fiberStep, fiberData))
  }

  /** The step's length is the smaller of the Newton step's and the fiber step's. */
  lemma StepLengthIsMin<D>(xAlpha: real, zAlpha: real, fiberStep: real, fiberData: D)
    requires zAlpha != 0.0 && fiberStep >= 0.0
    ensures var step := RefineStepAmount(xAlpha, zAlpha, fiberStep, fiberData).0;
      Abs(step) == Min(Abs(NewtonStep(xAlpha, zAlpha)), fiberStep)
      && Abs(step) <= fiberStep && Abs(step) <= Abs(NewtonStep(xAlpha, zAlpha))
  {
  }

  /**
   * The step points the way of the Newton step: it is zero when that step is
   * zero, and otherwise has the Newton step's sign unless the fiber step is 0.
   */
  lemma StepFollowsNewtonDirection<D>(xAlpha: real, zAlpha: real, fiberStep: real, fiberData: D)
    requires zAlpha != 0.0 && fiberStep >= 0.0
    ensures var step := RefineStepAmount(xAlpha, zAlpha, fiberStep, fiberData).0;
      var r := NewtonStep(xAlpha, zAlpha);
      (r == 0.0 ==> step == 0.0)
      && (fiberStep > 0.0 ==> Sign(step) == Sign(r))
      && (fiberStep == 0.0 ==> step == 0.0)
  {
  }

  /**
   * When the fiber step allows it, the step is the full Newton step and the
   * linear prediction of alpha lands exactly on zero.
   */
  lemma FullStepZeroesAlpha<D>(xAlpha: real, zAlpha: real, fiberStep: real, fiberData: D)
    requires zAlpha != 0.0 && fiberStep >= Abs(NewtonStep(xAlpha, zAlpha))
    ensures var step := RefineStepAmount(xAlpha, zAlpha, fiberStep, fiberData).0;
      step == NewtonStep(xAlpha, zAlpha) && xAlpha + step * zAlpha == 0.0
  {
  }

  /**
   * With a non-negative fiber step, the linear prediction of alpha never moves
   * away from zero, and moves strictly closer when alpha and the fiber step
   * are both nonzero.
   */
  lemma StepNeverOvershoots<D>(xAlpha: real, zAlpha: real, fiberStep: real, fiberData: D)
    requires zAlpha != 0.0 && fiberStep >= 0.0
    ensures var step := RefineStepAmount(xAlpha, zAlpha, fiberStep, fiberData).0;
      Abs(xAlpha + step * zAlpha) <= Abs(xAlpha)
      && (xAlpha != 0.0 && fiberStep > 0.0 ==> Abs(xAlpha + step * zAlpha) < Abs(xAlpha))
  {
  }

  /**
   * Nothing guards the sign of the caller's fiber step: a negative one is
   * taken against the Newton direction, and the predicted |alpha| grows.
   */
  lemma NegativeFiberStepReverses<D>(xAlpha: real, zAlpha: real, fiberStep: real, fiberData: D)
    requires zAlpha != 0.0 && fiberStep < 0.0 && xAlpha != 0.0
    ensures var step := RefineStepAmount(xAlpha, zAlpha, fiberStep, fiberData).0;
      step == Sign(NewtonStep(xAlpha, zAlpha)) as real * fiberStep
      && Sign(step) == -Sign(NewtonStep(xAlpha, zAlpha))
      && Abs(xAlpha + step * zAlpha) > Abs(xAlpha)
  {
  }
}
