/** A discrete-time PID controller with a symmetric output limit and an
    anti-windup limit on its integrator (PID.h, PID.cpp). */
module PidControl {
  import LookupTable

  /** Bounds `v` to `[-limit, limit]` the way both clamps of the controller
      do it: first against `limit`, then against `-limit`. */
  function Saturate(v: real, limit: real): (r: real)
    ensures 0.0 <= limit ==> -limit <= r <= limit
    ensures 0.0 <= limit ==> (r == v <==> -limit <= v <= limit)
    ensures r == v || r == limit || r == -limit
  {
    if v > limit then limit
    else if v < -limit then -limit
    else v
  }

  /** `Saturate` moves `v`: it lies above `limit` or below `-limit`. */
  predicate OutOfRange(v: real, limit: real) {
    v > limit || v < -limit
  }

  /** The integrator limit `SetLimits` derives from the output limit and the
      share `authority` of it the integral term may use, scaled back from the
      output domain into the error domain through `ki`. */
  function IntegratorLimit(outputLimit: real, authority: real, ki: real): (r: real)
    requires ki != 0.0
    ensures r * ki == outputLimit * authority
  {
    outputLimit * authority / ki
  }

  /** With a positive `ki`, an integrator kept within the derived limit
      contributes at most `authority` of the output limit to the output. */
  lemma IntegralTermWithinAuthority(outputLimit: real, authority: real, ki: real, iError: real)
    requires 0.0 < ki
    requires -IntegratorLimit(outputLimit, authority, ki) <= iError <= IntegratorLimit(outputLimit, authority, ki)
    ensures -(outputLimit * authority) <= ki * iError <= outputLimit * authority
  {
    var limit := IntegratorLimit(outputLimit, authority, ki);
    assert ki * iError <= ki * limit;
    assert ki * -limit <= ki * iError;
  }

  /** One feedback loop. The whole state is three error terms, three gains,
      two symmetric limits and the integrator saturation flag. */
  class PID {
    var pError: real
    var iError: real
    var dError: real

    var kp: real
    var ki: real
    var kd: real

    /** The output is capped at plus or minus this value. */
    var outputLimit: real
    /** The integrator is capped at plus or minus this value against wind-up. */
    var intErrLimit: real
    var isIntegratorSaturated: bool

    /** The anti-windup bound on the integrator. */
    ghost predicate IntegratorWithinLimit()
      reads this
    {
      -intErrLimit <= iError <= intErrLimit
    }

    /** A new controller is unbounded: both limits are the `INF` sentinel.
        The errors, gains and flag start at zero and false. */
    constructor ()
      ensures outputLimit == LookupTable.INF && intErrLimit == LookupTable.INF
      ensures pError == 0.0 && iError == 0.0 && dError == 0.0
      ensures kp == 0.0 && ki == 0.0 && kd == 0.0
      ensures !isIntegratorSaturated
    {
      pError, iError, dError := 0.0, 0.0, 0.0;
      kp, ki, kd := 0.0, 0.0, 0.0;
      isIntegratorSaturated := false;
      outputLimit := LookupTable.INF;
      intErrLimit := LookupTable.INF;
    }

    /** Sets the three gains and nothing else. */
    method Init(kp: real, ki: real, kd: real)
      modifies this
      ensures this.kp == kp && this.ki == ki && this.kd == kd
      ensures pError == old(pError) && iError == old(iError) && dError == old(dError)
      ensures outputLimit == old(outputLimit) && intErrLimit == old(intErrLimit)
      ensures isIntegratorSaturated == old(isIntegratorSaturated)
    {
      this.kp := kp;
      this.ki := ki;
      this.kd := kd;
    }

    /** Sets the output limit and derives the integrator limit from it and
        the integrator's share `intLim` of the output. */
    method SetLimits(outputLim: real, intLim: real)
      requires ki != 0.0
      modifies this
      ensures kp == old(kp) && ki == old(ki) && kd == old(kd)
      ensures outputLimit == outputLim
      ensures intErrLimit == IntegratorLimit(outputLim, intLim, ki)
      ensures intErrLimit * ki == outputLim * intLim
      ensures pError == old(pError) && iError == old(iError) && dError == old(dError)
      ensures isIntegratorSaturated == old(isIntegratorSaturated)
    {
      outputLimit := outputLim;
      intErrLimit := outputLim * intLim / ki;
    }

    /** Synchronises the dynamic state with the error `cte`: no derivative,
        no integral history. Gains, limits and the flag are kept. */
    method Reset(cte: real)
      modifies this
      ensures dError == 0.0 && iError == 0.0 && pError == cte
      ensures 0.0 <= intErrLimit ==> IntegratorWithinLimit()
      ensures kp == old(kp) && ki == old(ki) && kd == old(kd)
      ensures outputLimit == old(outputLimit) && intErrLimit == old(intErrLimit)
      ensures isIntegratorSaturated == old(isIntegratorSaturated)
    {
      dError := 0.0;
      iError := 0.0;
      pError := cte;
    }

    /** One control cycle of length `dt` with the new error `cte`: the
        derivative is the difference quotient, the integral accumulates
        `cte * dt` and is then clamped, and the flag records whether the
        clamp acted. */
    method UpdateError(dt: real, cte: real)
      requires dt > 0.0
      modifies this
      ensures dError == (cte - old(pError)) / dt
      ensures pError == cte
      ensures iError == Saturate(old(iError) + cte * dt, intErrLimit)
      ensures isIntegratorSaturated <==> OutOfRange(old(iError) + cte * dt, intErrLimit)
      ensures !isIntegratorSaturated ==> iError == old(iError) + cte * dt
      ensures 0.0 <= intErrLimit ==> IntegratorWithinLimit()
      ensures kp == old(kp) && ki == old(ki) && kd == old(kd)
      ensures outputLimit == old(outputLimit) && intErrLimit == old(intErrLimit)
    {
      dError := (cte - pError) / dt;
      iError := iError + cte * dt;
      pError := cte;

      if iError > intErrLimit {
        iError := intErrLimit;
        isIntegratorSaturated := true;
      } else if iError < -intErrLimit {
        iError := -intErrLimit;
        isIntegratorSaturated := true;
      } else {
        isIntegratorSaturated := false;
      }
    }

    /** The negated weighted sum of the error terms, before the output clamp. */
    function RawOutput(): real
      reads this
    {
      -(kp * pError + ki * iError + kd * dError)
    }

    /** The command: the raw output clamped to the output limit. It lies
        within plus or minus `outputLimit` and is the raw output itself
        whenever that is in range. */
    function TotalError(): (r: real)
      reads this
      ensures 0.0 <= outputLimit ==> -outputLimit <= r <= outputLimit
      ensures 0.0 <= outputLimit ==> (r == RawOutput() <==> -outputLimit <= RawOutput() <= outputLimit)
      ensures RawOutput() > outputLimit ==> r == outputLimit
      ensures RawOutput() < -outputLimit && -outputLimit <= outputLimit ==> r == -outputLimit
    {
      Saturate(RawOutput(), outputLimit)
    }
  }
}
