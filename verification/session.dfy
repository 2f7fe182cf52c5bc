/** The shared page state of script.js: the animation flag, the speed
    taken from the slider, the list of pending timers, the performance
    counters, opening and closing the visualization modal, the name and
    complexity tables and the comparison panel. */
module Session {
  import opened Wrappers
  import Registry

  /** `performanceMetrics`. */
  datatype Metrics = Metrics(operations: int, comparisons: int, startTime: int, endTime: int)

  /** The counters as the page starts them and as opening a visualization
      resets them. */
  const ZeroMetrics := Metrics(0, 0, 0, 0)

  /** The globals: `isAnimating`, `animationSpeed`, `animationTimeouts`
      (timer handles), `currentVisualization` and `performanceMetrics`. */
  datatype Page = Page(animating: bool, speed: int, timeouts: seq<int>, current: string, metrics: Metrics)

  /** `updateSpeedFromSlider()` with the slider present: the delay between
      animation steps is `1100 - value`, so a higher slider value means a
      shorter delay, and the slider value can be read back from it. */
  function SpeedFromSlider(p: Page, value: int): (r: Page)
    ensures r.speed + value == 1100
    ensures r == p.(speed := r.speed)
  {
    p.(speed := 1100 - value)
  }

  /** Moving the slider further right strictly shortens the delay. */
  lemma FasterSliderShorterDelay(p: Page, v1: int, v2: int)
    requires v1 < v2
    ensures SpeedFromSlider(p, v2).speed < SpeedFromSlider(p, v1).speed
  {
  }

  /** `clearAllTimeouts()`: every pending timer is cancelled (returned
      here, in the order they were scheduled) and the list is emptied. */
  function ClearAllTimeouts(p: Page): (r: (Page, seq<int>))
    ensures r.0.timeouts == [] && r.1 == p.timeouts
    ensures r.0 == p.(timeouts := [])
  {
    (p.(timeouts := []), p.timeouts)
  }

  /** `closeModal()` with the modal present: timers cancelled, animation
      flag cleared, no current visualization; without the modal nothing
      happens. */
  function CloseModal(p: Page, modalPresent: bool): (r: (Page, seq<int>))
    ensures modalPresent ==>
      !r.0.animating && r.0.timeouts == [] && r.0.current == "" && r.1 == p.timeouts
    ensures modalPresent ==> r.0.speed == p.speed && r.0.metrics == p.metrics
    ensures !modalPresent ==> r == (p, [])
  {
    if modalPresent then
      var (cleared, cancelled) := ClearAllTimeouts(p);
      (cleared.(animating := false, current := ""), cancelled)
    else (p, [])
  }

  /** Closing the modal twice is closing it once. */
  lemma CloseModalIdempotent(p: Page)
    ensures CloseModal(CloseModal(p, true).0, true) == (CloseModal(p, true).0, [])
  {
  }

  /** What opening a visualization shows: nothing (the modal's elements
      are missing), "Registry Not Available", "Algorithm Not Found", the
      loading error box, or the visualization. */
  datatype Opened = Skipped | NoRegistry | NotFound | InitFailed | Shown

  /** `openVisualization(id)`: with the modal's elements present the
      counters are reset; then the module is looked up, and one without
      `init` counts as not found. */
  function OpenVisualization(p: Page, elementsPresent: bool, registry: Option<Registry.Registry>, id: string)
    : (r: (Page, Opened))
    ensures !elementsPresent <==> r.1.Skipped?
    ensures !elementsPresent ==> r.0 == p
    ensures elementsPresent ==> r.0 == p.(metrics := ZeroMetrics)
  {
    if !elementsPresent then (p, Skipped)
    else
      var q := p.(metrics := ZeroMetrics);
      match registry
      case None => (q, NoRegistry)
      case Some(reg) =>
        match Registry.Get(reg, id)
        case None => (q, NotFound)
        case Some(m) =>
          if m.init.None? then (q, NotFound)
          else if m.init.value.throws then (q, InitFailed)
          else (q, Shown)
  }

  /** With the page and registry in place, the visualization is shown
      exactly when the registry's `initializeAlgorithm` would succeed, and
      the not-found page appears exactly when there is no module with
      `init` for the id. */
  lemma OpenAgreesWithRegistry(p: Page, reg: Registry.Registry, id: string)
    ensures OpenVisualization(p, true, Some(reg), id).1 == Shown <==> Registry.InitializeAlgorithm(reg, id)
    ensures OpenVisualization(p, true, Some(reg), id).1 == NotFound <==>
      Registry.Get(reg, id).None? || Registry.Get(reg, id).value.init.None?
  {
  }

  /** After a run of registrations, the not-found page appears exactly for
      an id no registration was accepted for. */
  lemma OpenAfterRegistrations(p: Page, rs: seq<(string, Registry.Module)>, id: string)
    ensures OpenVisualization(p, true, Some(Registry.RegisterAll(Registry.Empty(), rs)), id).1 == NotFound
      <==> Registry.LastFor(rs, id).None?
  {
    Registry.RunGet(rs, id);
    Registry.LastForRegistrable(rs, id);
  }

  // ---------------------------------------------------------------------
  // The comparison panel.

  const Names: Registry.Table<string> := [
    ("bubble-sort", "Bubble Sort"), ("merge-sort", "Merge Sort"),
    ("quick-sort", "Quick Sort"), ("binary-search", "Binary Search")]

  const TimeComplexities: Registry.Table<string> := [
    ("bubble-sort", "O(n²)"), ("merge-sort", "O(n log n)"),
    ("quick-sort", "O(n log n)"), ("binary-search", "O(log n)")]

  const SpaceComplexities: Registry.Table<string> := [
    ("bubble-sort", "O(1)"), ("merge-sort", "O(n)"),
    ("quick-sort", "O(log n)"), ("binary-search", "O(1)")]

  const Stabilities: Registry.Table<string> := [
    ("bubble-sort", "Stable"), ("merge-sort", "Stable"),
    ("quick-sort", "Unstable"), ("binary-search", "N/A")]

  /** The ids the four tables know. */
  const KnownIds: seq<string> := ["bubble-sort", "merge-sort", "quick-sort", "binary-search"]

  /** `getAlgorithmName`, `getTimeComplexity`, `getSpaceComplexity`,
      `getStability`. */
  function AlgorithmName(id: string): string { Registry.LookupOr(Names, id, id) }
  function TimeComplexity(id: string): string { Registry.LookupOr(TimeComplexities, id, "N/A") }
  function SpaceComplexity(id: string): string { Registry.LookupOr(SpaceComplexities, id, "N/A") }
  function Stability(id: string): string { Registry.LookupOr(Stabilities, id, "N/A") }

  /** The four tables know the same four ids. */
  lemma TablesKeys()
    ensures Registry.Keys(Names) == KnownIds && Registry.Keys(TimeComplexities) == KnownIds
    ensures Registry.Keys(SpaceComplexities) == KnownIds && Registry.Keys(Stabilities) == KnownIds
  {
  }

  /** For an id the tables do not know, the name is the id itself and
      every complexity cell reads "N/A"; a known id gets a name of its
      own. */
  lemma UnknownIdDefaults(id: string)
    ensures id !in KnownIds ==>
      AlgorithmName(id) == id && TimeComplexity(id) == "N/A"
      && SpaceComplexity(id) == "N/A" && Stability(id) == "N/A"
    ensures id in KnownIds ==> Registry.Lookup(Names, id) == Some(AlgorithmName(id))
  {
    TablesKeys();
  }

  /** One side of the comparison panel. */
  datatype Column = Column(name: string, time: string, space: string, stability: string)

  /** The column shown for `id`. */
  function ColumnFor(id: string): Column {
    Column(AlgorithmName(id), TimeComplexity(id), SpaceComplexity(id), Stability(id))
  }

  /** `startComparison()`: the same algorithm on both sides is refused
      with a warning and nothing is rendered; otherwise both columns are
      shown, the first selection on the left. */
  function StartComparison(algo1: string, algo2: string): (r: Option<(Column, Column)>)
    ensures r.None? <==> algo1 == algo2
    ensures r.Some? ==> r.value.0.name == AlgorithmName(algo1) && r.value.1.name == AlgorithmName(algo2)
    ensures r.Some? ==> r.value == (ColumnFor(algo1), ColumnFor(algo2))
  {
    if algo1 == algo2 then None else Some((ColumnFor(algo1), ColumnFor(algo2)))
  }

  /** Swapping the two selections swaps the two columns. */
  lemma ComparisonSymmetric(algo1: string, algo2: string)
    requires algo1 != algo2
    ensures StartComparison(algo2, algo1) ==
      Some((StartComparison(algo1, algo2).value.1, StartComparison(algo1, algo2).value.0))
  {
  }
}
