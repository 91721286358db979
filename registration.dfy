/**
 * The individual look-up form: a name, a birth date bounded by the date
 * picker, and an optional birth time. The ages are computed only when the
 * name is non-empty; otherwise the form reports that a name is required.
 */
module Registration {
  import opened Dates
  import opened Ages

  datatype Option<T> = None | Some(value: T)

  /** The form's one error: "이름을 입력해주세요." (please enter a name). */
  datatype FormError = NameRequired

  datatype Outcome = Computed(ages: Ages) | Rejected(error: FormError)

  /** The date picker's `min_value`; its `max_value` is today. */
  const EarliestBirth: Date := Date(1900, 1, 1)

  /** The dates the picker lets the user choose on the day `today`. */
  predicate InPickerRange(birth: Date, today: Date) {
    NotAfter(EarliestBirth, birth) && NotAfter(birth, today)
  }

  /**
   * Submitting the form. Python's `if name:` is false for the empty string
   * only, so a name of blanks is accepted. The birth time is shown back to
   * the user but takes no part in the ages.
   */
  function Submit(name: string, birth: Date, birthTime: Option<Clock>, today: Date): (r: Outcome)
    ensures r.Rejected? <==> name == ""
    ensures r.Computed? ==> r.ages == CalculateAges(OnDate(birth), today)
  {
    if name != "" then Computed(CalculateAges(OnDate(birth), today)) else Rejected(NameRequired)
  }

  /** Whatever birth time is given, or none, the outcome is the same. */
  lemma BirthTimeIgnored(name: string, birth: Date, t1: Option<Clock>, t2: Option<Clock>, today: Date)
    ensures Submit(name, birth, t1, today) == Submit(name, birth, t2, today)
  {
  }

  /**
   * For any date the picker offers and a non-empty name, ages are computed
   * and lie between 0 and the years since 1900 (international) and between
   * 1 and one more than that (counting).
   */
  lemma PickerAgesInRange(name: string, birth: Date, today: Date)
    requires name != "" && InPickerRange(birth, today)
    ensures Submit(name, birth, None, today).Computed?
    ensures 0 <= Submit(name, birth, None, today).ages.international <= today.year - 1900
    ensures 1 <= Submit(name, birth, None, today).ages.counting <= today.year - 1900 + 1
  {
  }

  /** Submitting on the day of birth gives (0, 1). */
  lemma SubmitOnDayOfBirth(name: string, birth: Date)
    requires name != ""
    ensures Submit(name, birth, None, birth) == Computed(Ages(0, 1))
  {
  }
}
