/** The reading goal chosen during onboarding (src/types/goal.ts, src/types/mushaf.ts). */
module Goals {
  import opened Wrappers

  datatype MushafType = Madinah604 | IndoPak | Custom
  {
    /** The string form the source stores: 'madinah-604', 'indopak', 'custom'. */
    function Name(): string
    {
      match this
      case Madinah604 => "madinah-604"
      case IndoPak => "indopak"
      case Custom => "custom"
    }
  }

  datatype Mushaf = Mushaf(mushafType: MushafType, totalPages: PositiveInt)

  /** Dates are instants on the local millisecond clock. */
  datatype Goal = Goal(targetDate: int, startDate: int, startPage: int, mushaf: Mushaf)
}
