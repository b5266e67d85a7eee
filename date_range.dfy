/**
 * The from/to date filter that the Orders and Summary pages keep in two
 * state variables, with its automatic correction: moving one bound past the
 * other drags the other along, so that whenever both bounds are set the
 * range is ordered. Bounds compare as strings, as `v > toDate` does.
 */
module DateRange {
  import opened JsText
  import opened ZonedDate
  import opened Calendar

  class RangeFilter {
    var from: string
    var to: string

    /** When both bounds are set, `from <= to` as strings. */
    predicate Ordered()
      reads this
    {
      from != [] && to != [] ==> !LexLess(to, from)
    }

    /**
     * The initial range. The Orders page starts at today to today; the
     * Summary page at today to `addDaysInTZ(today, 1)` (see Summary.DefaultRangeOrdered).
     */
    constructor (from0: string, to0: string)
      ensures from == from0 && to == to0
    {
      from := from0;
      to := to0;
    }

    /** handleFromChange / onChangeFrom. */
    method ChangeFrom(v: string)
      modifies this
      ensures from == v
      ensures to == if old(to) != [] && LexLess(old(to), v) then v else old(to)
      ensures Ordered()
    {
      from := v;
      if to != [] && LexLess(to, v) {
        to := v;
        LexLessIrreflexive(v);
      }
    }

    /** handleToChange / onChangeTo. */
    method ChangeTo(v: string)
      modifies this
      ensures to == v
      ensures from == if old(from) != [] && LexLess(v, old(from)) then v else old(from)
      ensures Ordered()
    {
      to := v;
      if from != [] && LexLess(v, from) {
        from := v;
        LexLessIrreflexive(v);
      }
    }

    /** applyFilter's correction: an inverted range gets `to` set to `from`. */
    method ApplyFilter()
      modifies this
      ensures from == old(from)
      ensures to == if from != [] && old(to) != [] && LexLess(old(to), from) then from else old(to)
      ensures Ordered()
    {
      if from != [] && to != [] && LexLess(to, from) {
        to := from;
        LexLessIrreflexive(from);
      }
    }
  }

  /** On valid date strings, an ordered pair of bounds is an ordered pair of days. */
  lemma OrderedDays(from: string, to: string)
    requires ValidDateString(from) && ValidDateString(to)
    ensures !LexLess(to, from) <==> DayNumber(YmdOf(from)) <= DayNumber(YmdOf(to))
  {
    DateStringOrder(to, from);
  }
}
