/** The stored records. */
module Models {
  import opened Civil

  /** A named configuration value, held as text (`workday`, `break`). The
      database ID of a setting is not modelled: nothing in the core reads it. */
  datatype Setting = Setting(key: string, value: string)

  /** A logged work interval, or (with `off` set and `start == end`) a day off.
      A day with an excluded event is not counted as a workday and has no
      break deducted. */
  datatype Event = Event(id: nat, start: Time, end: Time, excluded: bool, off: bool)
}
