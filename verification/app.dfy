/** The page's filter state machine (App.tsx): the initial time bucket, the
    handlers that replace the filter state, and the effect that recomputes the
    list and clears the selection whenever the filter state changes. A handler
    and the effect it triggers are one atomic step here. */
module App {
  import opened Wrappers
  import opened Types
  import opened Activity
  import opened Filtering

  /** First hour of each bucket of the day and the bucket's length in hours;
      Late Night wraps past midnight. */
  function BucketStart(t: TimeOption): Hour {
    match t
    case Morning => 5
    case Afternoon => 12
    case Evening => 17
    case LateNight => 21
  }

  function BucketLength(t: TimeOption): nat {
    match t
    case Morning => 7
    case Afternoon => 5
    case Evening => 4
    case LateNight => 8
  }

  /** Whether `hour` lies in bucket `t`, counting cyclically from the bucket's
      start. */
  predicate InBucket(hour: Hour, t: TimeOption) {
    (hour - BucketStart(t)) % 24 < BucketLength(t)
  }

  /** `getInitialTime()` for the current hour: the bucket the hour falls in. */
  function GetInitialTime(hour: Hour): (t: TimeOption)
    ensures InBucket(hour, t)
  {
    if 5 <= hour < 12 then Morning
    else if 12 <= hour < 17 then Afternoon
    else if 17 <= hour < 21 then Evening
    else LateNight
  }

  /** The buckets do not overlap, so the bucket found is the only one holding
      the hour. */
  lemma GetInitialTimeUnique(hour: Hour, t: TimeOption)
    ensures GetInitialTime(hour) == t <==> InBucket(hour, t)
  {
  }

  /** The representative hour the busy test uses for a bucket lies in that
      bucket. */
  lemma RepresentativeHourInBucket(t: TimeOption)
    ensures GetInitialTime(RepresentativeHour(t)) == t
  {
  }

  /** A place picked in the address autocomplete; `location` is absent when
      the place has no geometry or the geometry has no location. */
  datatype Place = Place(location: Option<(real, real)>, formattedAddress: Option<string>, name: Option<string>)

  /** JavaScript's `a || fallback` on an optional string: an absent or empty
      string is falsy. */
  function OrElse(a: Option<string>, fallback: string): string
  {
    if a.Some? && |a.value| > 0 then a.value else fallback
  }

  /** The anchor's label: the formatted address, else the name, else "";
      an empty string counts as absent. */
  function PlaceAddress(place: Place): (r: string)
    ensures place.formattedAddress.Some? && |place.formattedAddress.value| > 0 ==>
      r == place.formattedAddress.value
    ensures ((place.formattedAddress.None? || |place.formattedAddress.value| == 0) &&
             place.name.Some? && |place.name.value| > 0) ==> r == place.name.value
    ensures r == "" <==>
      ((place.formattedAddress.None? || |place.formattedAddress.value| == 0) &&
       (place.name.None? || |place.name.value| == 0))
  {
    OrElse(place.formattedAddress, OrElse(place.name, ""))
  }

  /** The page state the model tracks: the filters, the displayed list, the
      selected café and the text of the "Near" input. */
  datatype AppState = AppState(filters: FilterState, filteredCafes: seq<Cafe>,
                               selectedCafeId: Option<int>, locationInput: string)

  /** What the user can do. */
  datatype Event =
    | PlaceChanged(place: Place)
    | InputEdited(text: string)
    | ClearLocation
    | MoodChanged(mood: MoodOption)
    | TimeChanged(time: TimeOption)
    | ResetFilters(hour: Hour)
    | CafeClicked(id: int)

  /** The filters the page starts with: any mood, the current bucket, no
      anchor. */
  function InitialFilters(hour: Hour): FilterState {
    FilterState(Any, GetInitialTime(hour), None)
  }

  /** The first render: the whole catalog, nothing selected, empty input. */
  function Init(catalog: seq<Cafe>, hour: Hour): AppState {
    AppState(InitialFilters(hour), catalog, None, "")
  }

  /** The displayed list is the filter of the catalog by the current filters. */
  predicate Consistent(catalog: seq<Cafe>, dist: Distance, s: AppState) {
    s.filteredCafes == FilterCafes(catalog, s.filters, dist)
  }

  /** `setFilters(f)` followed by the filter effect: a new filter object always
      re-runs the effect, which recomputes the list and clears the selection. */
  function ApplyFilters(catalog: seq<Cafe>, dist: Distance, s: AppState, f: FilterState): AppState
  {
    AppState(f, FilterCafes(catalog, f, dist), None, s.locationInput)
  }

  /** The new filter state an action hands to `setFilters`, or None when the
      action does not call it. Each updater copies the previous state and
      replaces one field; Reset builds a fresh state. */
  function FilterUpdate(f: FilterState, e: Event): (r: Option<FilterState>)
    ensures r.None? <==>
      (e.InputEdited? || e.CafeClicked? || (e.PlaceChanged? && e.place.location.None?))
    ensures r.Some? && !e.ResetFilters? ==>
      (r.value.mood == f.mood || e.MoodChanged?) &&
      (r.value.time == f.time || e.TimeChanged?) &&
      (r.value.searchLocation == f.searchLocation || e.PlaceChanged? || e.ClearLocation?)
  {
    match e
    case PlaceChanged(place) =>
      (match place.location
       case None => None
       case Some((lat, lng)) => Some(f.(searchLocation := Some(Location(lat, lng, PlaceAddress(place))))))
    case InputEdited(_) => None
    case ClearLocation => Some(f.(searchLocation := None))
    case MoodChanged(mood) => Some(f.(mood := mood))
    case TimeChanged(time) => Some(f.(time := time))
    case ResetFilters(hour) => Some(InitialFilters(hour))
    case CafeClicked(_) => None
  }

  /** The "Near" input text after an action: a picked place shows its name,
      Clear empties it, typing sets it; Reset leaves it alone. */
  function InputUpdate(input: string, e: Event): (r: string)
    ensures r != input ==> e.PlaceChanged? || e.InputEdited? || e.ClearLocation?
    ensures e.InputEdited? ==> r == e.text
  {
    match e
    case PlaceChanged(place) => if place.location.Some? then OrElse(place.name, "") else input
    case InputEdited(text) => text
    case ClearLocation => ""
    case _ => input
  }

  /** One user action: its filter update, if any, followed by the filter
      effect; otherwise the selection change of a click. */
  function Step(catalog: seq<Cafe>, dist: Distance, s: AppState, e: Event): (r: AppState)
    ensures FilterUpdate(s.filters, e).Some? ==>
      Consistent(catalog, dist, r) && r.selectedCafeId.None?
    ensures FilterUpdate(s.filters, e).None? ==>
      r.filters == s.filters && r.filteredCafes == s.filteredCafes
  {
    var input := InputUpdate(s.locationInput, e);
    match FilterUpdate(s.filters, e)
    case Some(f) => ApplyFilters(catalog, dist, s, f).(locationInput := input)
    case None =>
      var selected := if e.CafeClicked? then Some(e.id) else s.selectedCafeId;
      s.(selectedCafeId := selected, locationInput := input)
  }

  /** A sequence of user actions, first to last. */
  function Run(catalog: seq<Cafe>, dist: Distance, s: AppState, events: seq<Event>): AppState
    decreases |events|
  {
    if |events| == 0 then s
    else Run(catalog, dist, Step(catalog, dist, s, events[0]), events[1..])
  }

  /** The first render already shows the filtered catalog. */
  lemma InitConsistent(catalog: seq<Cafe>, dist: Distance, hour: Hour)
    ensures Consistent(catalog, dist, Init(catalog, hour))
  {
  }

  /** Every action keeps the displayed list in step with the filters. */
  lemma StepConsistent(catalog: seq<Cafe>, dist: Distance, s: AppState, e: Event)
    requires Consistent(catalog, dist, s)
    ensures Consistent(catalog, dist, Step(catalog, dist, s, e))
  {
  }

  lemma {:induction false} RunConsistent(catalog: seq<Cafe>, dist: Distance, s: AppState, events: seq<Event>)
    requires Consistent(catalog, dist, s)
    ensures Consistent(catalog, dist, Run(catalog, dist, s, events))
    decreases |events|
  {
    if |events| > 0 {
      StepConsistent(catalog, dist, s, events[0]);
      RunConsistent(catalog, dist, Step(catalog, dist, s, events[0]), events[1..]);
    }
  }

  /** Whatever the user does from the first render, the list shown is the
      filter of the catalog by the filters shown. */
  lemma ReachableConsistent(catalog: seq<Cafe>, dist: Distance, hour: Hour, events: seq<Event>)
    ensures Consistent(catalog, dist, Run(catalog, dist, Init(catalog, hour), events))
  {
    InitConsistent(catalog, dist, hour);
    RunConsistent(catalog, dist, Init(catalog, hour), events);
  }

  /** The mood control replaces only the mood and keeps the input text. */
  lemma MoodChangeOwnField(catalog: seq<Cafe>, dist: Distance, s: AppState, mood: MoodOption)
    ensures Step(catalog, dist, s, MoodChanged(mood)).filters == s.filters.(mood := mood)
    ensures Step(catalog, dist, s, MoodChanged(mood)).locationInput == s.locationInput
  {
  }

  /** A place without a location is ignored. */
  lemma PlaceWithoutLocationIgnored(catalog: seq<Cafe>, dist: Distance, s: AppState, place: Place)
    requires place.location.None?
    ensures Step(catalog, dist, s, PlaceChanged(place)) == s
  {
  }

  /** A picked place becomes the anchor, labelled by its address, and the
      input shows its name. */
  lemma PlaceBecomesAnchor(catalog: seq<Cafe>, dist: Distance, s: AppState, place: Place, lat: real, lng: real)
    requires place.location == Some((lat, lng))
    ensures Step(catalog, dist, s, PlaceChanged(place)).filters ==
      s.filters.(searchLocation := Some(Location(lat, lng, PlaceAddress(place))))
    ensures Step(catalog, dist, s, PlaceChanged(place)).locationInput == OrElse(place.name, "")
  {
  }

  /** The time control replaces only the bucket, and leaves the list as it was
      (the bucket affects the cards' labels, not the filtering), though the
      selection is still cleared. */
  lemma TimeChangeKeepsList(catalog: seq<Cafe>, dist: Distance, s: AppState, time: TimeOption)
    requires Consistent(catalog, dist, s)
    ensures Step(catalog, dist, s, TimeChanged(time)).filters == s.filters.(time := time)
    ensures Step(catalog, dist, s, TimeChanged(time)).filteredCafes == s.filteredCafes
    ensures Step(catalog, dist, s, TimeChanged(time)).selectedCafeId == None
  {
    FilterCafesIgnoresTime(catalog, s.filters, time, dist);
  }

  /** Clearing removes only the anchor, only widens the list, and empties the
      input. */
  lemma ClearLocationWidens(catalog: seq<Cafe>, dist: Distance, s: AppState)
    requires Consistent(catalog, dist, s)
    ensures Step(catalog, dist, s, ClearLocation).filters == s.filters.(searchLocation := None)
    ensures IsSubsequence(s.filteredCafes, Step(catalog, dist, s, ClearLocation).filteredCafes)
    ensures Step(catalog, dist, s, ClearLocation).locationInput == ""
  {
    LocationNarrows(catalog, s.filters, dist);
  }

  /** Reset shows the whole catalog with the filters of a first render at the
      same hour; unlike Clear it leaves the input text as it was. */
  lemma ResetShowsCatalog(catalog: seq<Cafe>, dist: Distance, s: AppState, hour: Hour)
    ensures Step(catalog, dist, s, ResetFilters(hour)).filteredCafes == catalog
    ensures Step(catalog, dist, s, ResetFilters(hour)).filters == Init(catalog, hour).filters
    ensures Step(catalog, dist, s, ResetFilters(hour)).locationInput == s.locationInput
  {
  }

  /** Actions that touch neither the filters nor the selection: editing the
      input text, and a place without a location. */
  predicate Quiet(e: Event) {
    e.InputEdited? || (e.PlaceChanged? && e.place.location.None?)
  }

  /** Every action that touches the filters clears the selection, a click
      selects the clicked café, and the quiet actions change neither. */
  lemma SelectionAfterStep(catalog: seq<Cafe>, dist: Distance, s: AppState, e: Event)
    ensures e.CafeClicked? ==> Step(catalog, dist, s, e).selectedCafeId == Some(e.id)
    ensures Quiet(e) ==> Step(catalog, dist, s, e).selectedCafeId == s.selectedCafeId
    ensures !e.CafeClicked? && !Quiet(e) ==> Step(catalog, dist, s, e).selectedCafeId == None
    ensures e.CafeClicked? || Quiet(e) ==> Step(catalog, dist, s, e).filters == s.filters
  {
  }

  /** The selection after a run is the café of the run's last action when
      that is a click followed only by quiet actions; with no such click it is
      the selection the run started from, and only if every action was quiet. */
  lemma {:induction false} SelectionIsLastClick(catalog: seq<Cafe>, dist: Distance, s: AppState,
                                                events: seq<Event>, id: int)
    requires Run(catalog, dist, s, events).selectedCafeId == Some(id)
    ensures
      || (exists i :: 0 <= i < |events| && events[i] == CafeClicked(id) &&
            forall j :: i < j < |events| ==> Quiet(events[j]))
      || (s.selectedCafeId == Some(id) && forall j :: 0 <= j < |events| ==> Quiet(events[j]))
    decreases |events|
  {
    if |events| > 0 {
      var e, rest := events[0], events[1..];
      var s1 := Step(catalog, dist, s, e);
      assert forall j :: 0 < j < |events| ==> events[j] == rest[j - 1];
      SelectionAfterStep(catalog, dist, s, e);
      SelectionIsLastClick(catalog, dist, s1, rest, id);
      if exists i :: 0 <= i < |rest| && rest[i] == CafeClicked(id) &&
           forall j :: i < j < |rest| ==> Quiet(rest[j]) {
        var i :| 0 <= i < |rest| && rest[i] == CafeClicked(id) &&
          forall j :: i < j < |rest| ==> Quiet(rest[j]);
        assert events[i + 1] == CafeClicked(id);
      } else if e.CafeClicked? {
        assert events[0] == CafeClicked(id);
      } else {
        assert Quiet(e);
        assert Quiet(events[0]);
      }
    }
  }

  /** From the first render, a café is selected only because it was clicked,
      with nothing but quiet actions after the click. */
  lemma SelectionNeedsClick(catalog: seq<Cafe>, dist: Distance, hour: Hour, events: seq<Event>, id: int)
    requires Run(catalog, dist, Init(catalog, hour), events).selectedCafeId == Some(id)
    ensures exists i ::
      0 <= i < |events| && events[i] == CafeClicked(id) && forall j :: i < j < |events| ==> Quiet(events[j])
  {
    SelectionIsLastClick(catalog, dist, Init(catalog, hour), events, id);
  }

  /** The selected café, if any, is one of the cafés shown. */
  predicate SelectionShown(s: AppState) {
    s.selectedCafeId.Some? ==>
      exists i :: 0 <= i < |s.filteredCafes| && s.filteredCafes[i].id == s.selectedCafeId.value
  }

  /** A click can only land on a café card the list shows. */
  predicate ClickShown(s: AppState, e: Event) {
    e.CafeClicked? ==> exists i :: 0 <= i < |s.filteredCafes| && s.filteredCafes[i].id == e.id
  }

  /** Every click of a run lands on a café shown at that moment. */
  predicate ClicksShown(catalog: seq<Cafe>, dist: Distance, s: AppState, events: seq<Event>)
    decreases |events|
  {
    |events| == 0 ||
    (ClickShown(s, events[0]) && ClicksShown(catalog, dist, Step(catalog, dist, s, events[0]), events[1..]))
  }

  /** An action whose click, if any, is on a shown café keeps the selection
      among the cafés shown: a filter change clears it, and the other actions
      keep the list. */
  lemma StepKeepsSelectionShown(catalog: seq<Cafe>, dist: Distance, s: AppState, e: Event)
    requires SelectionShown(s) && ClickShown(s, e)
    ensures SelectionShown(Step(catalog, dist, s, e))
  {
  }

  /** The same over a run whose clicks are all on shown cafés. */
  lemma {:induction false} RunKeepsSelectionShown(catalog: seq<Cafe>, dist: Distance, s: AppState,
                                                  events: seq<Event>)
    requires SelectionShown(s) && ClicksShown(catalog, dist, s, events)
    ensures SelectionShown(Run(catalog, dist, s, events))
    decreases |events|
  {
    if |events| > 0 {
      StepKeepsSelectionShown(catalog, dist, s, events[0]);
      RunKeepsSelectionShown(catalog, dist, Step(catalog, dist, s, events[0]), events[1..]);
    }
  }

  /** From the first render, with clicks only on cards the page shows, the
      selected café is always one of the cafés shown. */
  lemma ReachableSelectionShown(catalog: seq<Cafe>, dist: Distance, hour: Hour, events: seq<Event>)
    requires ClicksShown(catalog, dist, Init(catalog, hour), events)
    ensures SelectionShown(Run(catalog, dist, Init(catalog, hour), events))
  {
    RunKeepsSelectionShown(catalog, dist, Init(catalog, hour), events);
  }
}
