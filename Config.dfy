/** The client's SPEC status classifiers: a value outside the limits is a violation, a value
    inside them but within a tenth of the spec width of either limit is a warning, anything
    else is normal. One classifier yields a CSS class, the other a badge. */
module Config {
  predicate OutOfSpec(value: real, lsl: real, usl: real)
  {
    value < lsl || value > usl
  }

  /** Within the 10% margin at either end of the spec width. */
  predicate NearLimit(value: real, lsl: real, usl: real)
  {
    value < lsl + (usl - lsl) * 0.1 || value > usl - (usl - lsl) * 0.1
  }

  const DangerClass: string := "text-danger"
  const WarningClass: string := "text-warning"
  const SuccessClass: string := "text-success"

  const DangerBadge: string := "<span class=\"badge badge-danger\">SPEC 위반</span>"
  const WarningBadge: string := "<span class=\"badge badge-warning\">주의</span>"
  const SuccessBadge: string := "<span class=\"badge badge-success\">정상</span>"

  /** `UTILS.getStatusClass`. */
  function StatusClass(value: real, lsl: real, usl: real): (r: string)
    ensures r == DangerClass <==> OutOfSpec(value, lsl, usl)
    ensures r == WarningClass <==> !OutOfSpec(value, lsl, usl) && NearLimit(value, lsl, usl)
    ensures r == SuccessClass <==> !OutOfSpec(value, lsl, usl) && !NearLimit(value, lsl, usl)
  {
    if value < lsl || value > usl then DangerClass
    else if value < lsl + (usl - lsl) * 0.1 || value > usl - (usl - lsl) * 0.1 then WarningClass
    else SuccessClass
  }

  /** `UTILS.getStatusBadge`. */
  function StatusBadge(value: real, lsl: real, usl: real): (r: string)
    ensures r == DangerBadge <==> OutOfSpec(value, lsl, usl)
    ensures r == WarningBadge <==> !OutOfSpec(value, lsl, usl) && NearLimit(value, lsl, usl)
    ensures r == SuccessBadge <==> !OutOfSpec(value, lsl, usl) && !NearLimit(value, lsl, usl)
  {
    if value < lsl || value > usl then DangerBadge
    else if value < lsl + (usl - lsl) * 0.1 || value > usl - (usl - lsl) * 0.1 then WarningBadge
    else SuccessBadge
  }

  /** Exactly one of the three outcomes, and the badge always tells the same story as the
      class. */
  lemma BadgeAgreesWithClass(value: real, lsl: real, usl: real)
    ensures StatusClass(value, lsl, usl) in [DangerClass, WarningClass, SuccessClass]
    ensures StatusBadge(value, lsl, usl) ==
      if StatusClass(value, lsl, usl) == DangerClass then DangerBadge
      else if StatusClass(value, lsl, usl) == WarningClass then WarningBadge
      else SuccessBadge
  {
  }

  /** A warning is an in-spec value whose distance to a limit is under a tenth of the width. */
  lemma WarningIsCloseToALimit(value: real, lsl: real, usl: real)
    ensures StatusClass(value, lsl, usl) == WarningClass <==>
      lsl <= value <= usl && (value - lsl < (usl - lsl) / 10.0 || usl - value < (usl - lsl) / 10.0)
  {
  }

  /** A value on a limit is not a violation, and is a warning when the limits are apart. */
  lemma LimitsAreWarnings(lsl: real, usl: real)
    requires lsl < usl
    ensures StatusClass(lsl, lsl, usl) == WarningClass && StatusClass(usl, lsl, usl) == WarningClass
  {
  }

  /** With inverted limits every value is a violation. */
  lemma InvertedLimitsAlwaysDanger(value: real, lsl: real, usl: real)
    requires usl < lsl
    ensures StatusClass(value, lsl, usl) == DangerClass
  {
  }
}
