/**
 * The two encodings of a leg's service times in the constraint model. Each leg has a start
 * variable B+ and an arrival variable B-. The absolute encoding stores clock minutes. The
 * relative encoding stores minutes after the earliest time of the window and adds that offset
 * back wherever an absolute time is needed. Big-M is the constant that switches a sequencing
 * row off when its arcs are unused.
 */
module TimeConstraints {
  import opened Timer
  import opened Network

  datatype Encoding = Absolute | Relative

  /** The bounds of one continuous variable. */
  datatype Bounds = Bounds(lb: real, ub: real)

  /** The bounds of a leg's two variables, B+ (start) and B- (arrival). */
  datatype LegVariables = LegVariables(start: Bounds, arrival: Bounds)

  /** Python's int() on a float: truncation toward zero. */
  function Trunc(x: real): (n: int)
    ensures 0.0 <= x ==> n as real <= x < n as real + 1.0
    ensures x < 0.0 ==> n as real - 1.0 < x <= n as real
  {
    if x >= 0.0 then x.Floor else -((-x).Floor)
  }

  /** create_variables: raw window minutes (absolute), or 0 to the window width (relative). */
  function CreateVariables(enc: Encoding, leg: Leg): LegVariables
  {
    match enc
    case Absolute =>
      LegVariables(Bounds(GetInMinutes(leg.earlStart), GetInMinutes(leg.latestStart)),
                   Bounds(GetInMinutes(leg.earlArr), GetInMinutes(leg.latestArr)))
    case Relative =>
      LegVariables(Bounds(0.0, GetInMinutes(leg.latestStart) - GetInMinutes(leg.earlStart)),
                   Bounds(0.0, GetInMinutes(leg.latestArr) - GetInMinutes(leg.earlArr)))
  }

  /** add_value: the offset from a variable to clock minutes, for the start or the arrival. */
  function AddValue(enc: Encoding, leg: Leg, start: bool): (v: real)
    ensures enc == Absolute ==> v == 0.0
  {
    match enc
    case Absolute => 0.0
    case Relative => if start then GetInMinutes(leg.earlStart) else GetInMinutes(leg.earlArr)
  }

  /** The width of the preceding leg's start or arrival window. */
  function MaxRel(prec: Leg, precStart: bool): real
  {
    if precStart then GetInMinutes(prec.latestStart) - GetInMinutes(prec.earlStart)
    else GetInMinutes(prec.latestArr) - GetInMinutes(prec.earlArr)
  }

  /**
   * get_big_m. Absolute: the integer part of the preceding line's end time in minutes.
   * Relative: the preceding window width, plus the travel time and the transfer minutes, plus
   * the part of the preceding offset that exceeds the successor's offset.
   */
  function BigM(enc: Encoding, prec: Leg, precStart: bool, duration: real, sucAbsolute: real, transfer: real): real
  {
    match enc
    case Absolute => Trunc(GetInMinutes(prec.line.endTime)) as real
    case Relative =>
      var over := AddValue(enc, prec, precStart) - sucAbsolute;
      MaxRel(prec, precStart) + duration + transfer + (if 0.0 < over then over else 0.0)
  }

  /** The window of a leg is well-formed: earliest no later than latest, for start and arrival. */
  predicate ValidWindows(leg: Leg)
  {
    GetInMinutes(leg.earlStart) <= GetInMinutes(leg.latestStart) &&
    GetInMinutes(leg.earlArr) <= GetInMinutes(leg.latestArr)
  }

  /**
   * The relative bounds shifted by the relative offset are the absolute bounds, and the
   * absolute offset is 0, so both encodings allow the same clock times.
   */
  lemma RelativeShiftIsAbsolute(leg: Leg)
    ensures var rel := CreateVariables(Relative, leg);
            var abs := CreateVariables(Absolute, leg);
            rel.start.lb == 0.0 && rel.arrival.lb == 0.0 &&
            rel.start.lb + AddValue(Relative, leg, true) == abs.start.lb &&
            rel.start.ub + AddValue(Relative, leg, true) == abs.start.ub &&
            rel.arrival.lb + AddValue(Relative, leg, false) == abs.arrival.lb &&
            rel.arrival.ub + AddValue(Relative, leg, false) == abs.arrival.ub
  {
  }

  /** A value lies between its bounds. */
  predicate Within(b: Bounds, v: real)
  {
    b.lb <= v <= b.ub
  }

  /** The variable a side of a leg uses: B+ for the start, B- for the arrival. */
  function Side(vars: LegVariables, start: bool): Bounds
  {
    if start then vars.start else vars.arrival
  }

  /** The relative variable's value plus the offset is the absolute value, inside the absolute bounds exactly when it is inside the relative ones. */
  lemma RelativeWithinIffAbsolute(leg: Leg, start: bool, b: real)
    ensures Within(Side(CreateVariables(Relative, leg), start), b) <==>
            Within(Side(CreateVariables(Absolute, leg), start), b + AddValue(Relative, leg, start))
  {
  }

  /** With valid windows, a non-negative travel time and non-negative transfer minutes, the relative Big-M is non-negative. */
  lemma RelativeBigMNonNegative(prec: Leg, precStart: bool, duration: real, sucAbsolute: real, transfer: real)
    requires ValidWindows(prec) && 0.0 <= duration && 0.0 <= transfer
    ensures 0.0 <= BigM(Relative, prec, precStart, duration, sucAbsolute, transfer)
  {
  }

  /** The absolute Big-M is the truncated minute total of the preceding line's end. */
  lemma AbsoluteBigMIsEndTime(prec: Leg, precStart: bool, duration: real, sucAbsolute: real, transfer: real)
    requires 0.0 <= GetInMinutes(prec.line.endTime)
    ensures var m := BigM(Absolute, prec, precStart, duration, sucAbsolute, transfer);
            m <= GetInMinutes(prec.line.endTime) < m + 1.0
  {
  }

  /** The service time of a sequencing row: the transfer minutes when the two stops are apart, else 0. */
  function ServiceTime(duration: real, transfer: real): real
  {
    if duration != 0.0 then transfer else 0.0
  }

  /**
   * The sequencing inequality between the `precStart` side of `prec` (variable value bPrec)
   * and the `sucStart` side of `suc` (value bSuc), with `arcs` the sum of the arcs that put
   * the two events in this order:
   *   -M * arcs - bPrec + bSuc >= service - M + duration + offset(prec) - offset(suc).
   */
  predicate SequencingHolds(enc: Encoding, prec: Leg, precStart: bool, suc: Leg, sucStart: bool,
                            duration: real, transfer: real, arcs: real, bPrec: real, bSuc: real)
  {
    var m := BigM(enc, prec, precStart, duration, AddValue(enc, suc, sucStart), transfer);
    - m * arcs - bPrec + bSuc >=
      ServiceTime(duration, transfer) - m + duration + AddValue(enc, prec, precStart) - AddValue(enc, suc, sucStart)
  }

  /**
   * Big-M switches the row off: with every gating arc at 0, the relative sequencing row holds
   * for all values inside the relative bounds.
   */
  lemma RelativeRowOffWhenUnused(prec: Leg, precStart: bool, suc: Leg, sucStart: bool,
                                 duration: real, transfer: real, bPrec: real, bSuc: real)
    requires 0.0 <= duration && 0.0 <= transfer
    requires Within(Side(CreateVariables(Relative, prec), precStart), bPrec)
    requires Within(Side(CreateVariables(Relative, suc), sucStart), bSuc)
    ensures SequencingHolds(Relative, prec, precStart, suc, sucStart, duration, transfer, 0.0, bPrec, bSuc)
  {
  }

  /**
   * With exactly one gating arc at 1, the row says: the successor's clock time is at least
   * the predecessor's clock time plus the travel time plus the service time (either encoding).
   */
  lemma RowOnWhenUsed(enc: Encoding, prec: Leg, precStart: bool, suc: Leg, sucStart: bool,
                      duration: real, transfer: real, bPrec: real, bSuc: real)
    ensures SequencingHolds(enc, prec, precStart, suc, sucStart, duration, transfer, 1.0, bPrec, bSuc) <==>
            bSuc + AddValue(enc, suc, sucStart) >=
              bPrec + AddValue(enc, prec, precStart) + duration + ServiceTime(duration, transfer)
  {
  }
}
