/** The data model of the café finder: one datatype per entity of types.ts. */
module Types {
  import opened Wrappers

  /** The three noise categories a café can have. */
  datatype NoiseLevel = Calm | Medium | Lively

  /** The documented range of a cozy rating. The data is static and the code never
      checks it, so the range is carried by the type rather than by a run-time test. */
  type CozyScore = n: int | 1 <= n <= 5 witness 1

  /** A catalog entry. Coordinates are degrees; the two hour lists hold
      human-written "HH:MM-HH:MM" ranges. */
  datatype Cafe = Cafe(
    id: int,
    name: string,
    lat: real,
    lng: real,
    area: string,
    hasWifi: bool,
    hasOutlets: bool,
    noiseLevel: NoiseLevel,
    goodForWork: bool,
    goodForFamilies: bool,
    goodForFriends: bool,
    cozyScore: CozyScore,
    bestForWorkHours: seq<string>,
    busiestHours: seq<string>,
    image: string
  )

  /** The mood selector; `Any` means no mood constraint. */
  datatype MoodOption = Any | Calm | Lively | Cozy | Work | Friends | Family

  /** The four time-of-day buckets. */
  datatype TimeOption = Morning | Afternoon | Evening | LateNight

  /** A resolved search anchor: a coordinate plus its display label. */
  datatype Location = Location(lat: real, lng: real, address: string)

  /** The user's current filter choices; an absent search location means
      "no location filter". */
  datatype FilterState = FilterState(mood: MoodOption, time: TimeOption, searchLocation: Option<Location>)

  /** An hour of the day, as `Date.getHours()` returns it. */
  type Hour = h: int | 0 <= h < 24

  /** Great-circle distance in kilometres between (lat1, lon1) and (lat2, lon2).
      Its trigonometric body is not modelled: every property that mentions
      distance holds for any such function. */
  type Distance = (real, real, real, real) -> real
}
