/**
 * The configuration the engine reads (config/user-discounts.php), resolved
 * once into closed enumerations. The source matches strings: an unknown
 * stacking order sorts by priority, any direction other than 'desc' sorts
 * ascending, and any rounding mode other than 'floor' or 'ceil' rounds half up.
 */
module Settings {
  import opened Wrappers
  import opened Rounding

  /** stacking.order */
  datatype SortKey = Priority | AssignedAt | UsageCount

  /** stacking.direction */
  datatype Direction = Desc | Asc

  datatype Config = Config(
    order: SortKey,
    direction: Direction,
    maxPercentage: Option<real>,   // caps.max_percentage (null when unset)
    rounding: RoundingMode,        // caps.rounding
    precision: nat)                // caps.precision

  /** The values the published configuration file sets. */
  const Published := Config(Priority, Desc, Some(50.0), Floor, 2)
}
