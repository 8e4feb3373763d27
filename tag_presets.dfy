/** The tag preset registry (frontend/src/store/annotationStore.ts:45-127, 223-226): a map
    from category id to a label and an ordered list of tag names. Each mutator either
    yields the new map, which the store then also persists, or `None` when the source
    returns the state unchanged and writes nothing. */
module TagPresets {
  import opened Wrappers

  /** A category: its display label (`label` in the source) and its tag names. */
  datatype Category = Category(title: string, tags: seq<string>)

  type PresetMap = map<string, Category>

  /** No category lists a tag name twice. */
  predicate NoDuplicateNames(m: PresetMap) {
    forall k :: k in m ==> forall i, j :: 0 <= i < j < |m[k].tags| ==> m[k].tags[i] != m[k].tags[j]
  }

  /** `addCategory(id, title)`: an empty category under `id`, replacing any entry there. */
  function AddCategory(m: PresetMap, id: string, title: string): (r: PresetMap)
    ensures r.Keys == m.Keys + {id}
    ensures r[id] == Category(title, [])
    ensures forall k :: k in m && k != id ==> r[k] == m[k]
  {
    m[id := Category(title, [])]
  }

  /** `removeCategory(id)`: drops that key and only that key. */
  function RemoveCategory(m: PresetMap, id: string): (r: PresetMap)
    ensures r.Keys == m.Keys - {id}
    ensures forall k :: k in r ==> r[k] == m[k]
  {
    map k | k in m && k != id :: m[k]
  }

  /** `addPresetTag(categoryId, name)`: `None` for a missing category or a name already
      listed; otherwise the category with `name` appended at the end. */
  function AddPresetTag(m: PresetMap, categoryId: string, name: string): (r: Option<PresetMap>)
    ensures r.None? <==> categoryId !in m || name in m[categoryId].tags
    ensures r.Some? ==> r.value.Keys == m.Keys
    ensures r.Some? ==> r.value[categoryId].title == m[categoryId].title
    ensures r.Some? ==> r.value[categoryId].tags == m[categoryId].tags + [name]
    ensures r.Some? ==> forall k :: k in m && k != categoryId ==> r.value[k] == m[k]
  {
    if categoryId !in m then None
    else
      var c := m[categoryId];
      if name in c.tags then None
      else Some(m[categoryId := c.(tags := c.tags + [name])])
  }

  /** `tags.filter(t => t !== name)`. */
  function WithoutName(tags: seq<string>, name: string): (r: seq<string>)
    ensures |r| <= |tags|
    ensures name !in r
    ensures forall t :: t in r <==> t in tags && t != name
  {
    if tags == [] then []
    else
      var rest := WithoutName(tags[1..], name);
      assert tags == [tags[0]] + tags[1..];
      if tags[0] == name then rest else [tags[0]] + rest
  }

  lemma {:induction false} WithoutAbsentName(tags: seq<string>, name: string)
    requires name !in tags
    ensures WithoutName(tags, name) == tags
  {
    if tags != [] {
      assert tags == [tags[0]] + tags[1..];
      WithoutAbsentName(tags[1..], name);
    }
  }

  lemma {:induction false} WithoutAppendedName(tags: seq<string>, name: string)
    requires name !in tags
    ensures WithoutName(tags + [name], name) == tags
  {
    if tags == [] {
      assert [] + [name] == [name];
    } else {
      assert tags == [tags[0]] + tags[1..];
      assert (tags + [name])[1..] == tags[1..] + [name];
      WithoutAppendedName(tags[1..], name);
    }
  }

  /** `removePresetTag(categoryId, name)`: `None` for a missing category; otherwise every
      occurrence of `name` is filtered out of that category, which keeps its label. */
  function RemovePresetTag(m: PresetMap, categoryId: string, name: string): (r: Option<PresetMap>)
    ensures r.None? <==> categoryId !in m
    ensures r.Some? ==> r.value.Keys == m.Keys
    ensures r.Some? ==> r.value[categoryId].title == m[categoryId].title
    ensures r.Some? ==> name !in r.value[categoryId].tags
    ensures r.Some? ==> forall t :: t in r.value[categoryId].tags <==> t in m[categoryId].tags && t != name
    ensures r.Some? ==> forall k :: k in m && k != categoryId ==> r.value[k] == m[k]
  {
    if categoryId !in m then None
    else
      var c := m[categoryId];
      Some(m[categoryId := c.(tags := WithoutName(c.tags, name))])
  }

  /** Removing a name that was just added gives back the original registry. */
  lemma RemoveAfterAddRestores(m: PresetMap, categoryId: string, name: string)
    requires AddPresetTag(m, categoryId, name).Some?
    ensures RemovePresetTag(AddPresetTag(m, categoryId, name).value, categoryId, name) == Some(m)
  {
    var c := m[categoryId];
    WithoutAppendedName(c.tags, name);
    var added := AddPresetTag(m, categoryId, name).value;
    assert added[categoryId] == c.(tags := c.tags + [name]);
    var back := RemovePresetTag(added, categoryId, name).value;
    assert back[categoryId] == c;
    assert back.Keys == m.Keys;
    assert forall k :: k in m ==> back[k] == m[k];
    assert back == m;
  }

  /** A second `addPresetTag` of the same name is a no-op. */
  lemma AddPresetTagTwiceIsNoOp(m: PresetMap, categoryId: string, name: string)
    requires AddPresetTag(m, categoryId, name).Some?
    ensures AddPresetTag(AddPresetTag(m, categoryId, name).value, categoryId, name).None?
  {
    var t := AddPresetTag(m, categoryId, name).value[categoryId].tags;
    assert t[|t| - 1] == name;
  }

  /** Removing a name that is not listed changes no tag list. */
  lemma RemoveAbsentNameKeepsTags(m: PresetMap, categoryId: string, name: string)
    requires categoryId in m && name !in m[categoryId].tags
    ensures RemovePresetTag(m, categoryId, name) == Some(m)
  {
    WithoutAbsentName(m[categoryId].tags, name);
    var r := RemovePresetTag(m, categoryId, name).value;
    assert r[categoryId] == m[categoryId];
    assert r.Keys == m.Keys;
    assert forall k :: k in m ==> r[k] == m[k];
    assert r == m;
  }

  /** The registry never gains a duplicate tag name through its mutators. */
  lemma MutatorsKeepNamesUnique(m: PresetMap, categoryId: string, id: string, title: string, name: string)
    requires NoDuplicateNames(m)
    ensures NoDuplicateNames(AddCategory(m, id, title))
    ensures NoDuplicateNames(RemoveCategory(m, id))
    ensures AddPresetTag(m, categoryId, name).Some? ==> NoDuplicateNames(AddPresetTag(m, categoryId, name).value)
  {
    var a := AddPresetTag(m, categoryId, name);
    if a.Some? {
      var t := m[categoryId].tags;
      var u := a.value[categoryId].tags;
      assert u == t + [name];
      forall i, j | 0 <= i < j < |u| ensures u[i] != u[j] {
        if j == |t| {
          assert u[i] == t[i];
        } else {
          assert u[i] == t[i] && u[j] == t[j];
        }
      }
    }
  }

  /** Removing a category that was just created gives back the original registry. */
  lemma RemoveAfterAddCategoryRestores(m: PresetMap, id: string, title: string)
    requires id !in m
    ensures RemoveCategory(AddCategory(m, id, title), id) == m
  {
  }

  // ---------------------------------------------------------------------------
  // The decision cascade of initializePresets

  const PitchKey := "pitch"
  const ResultKey := "result"
  const PitchLabel := "球種"
  const ResultLabel := "結果"
  const FallbackPitchTags := ["ストレート", "カーブ", "スライダー"]
  const FallbackResultTags := ["ヒット", "アウト", "三振"]

  /** What `fetch('/preset_tags.json')` gave: the two optional lists, or a failure
      (network error, unparsable body). */
  datatype FetchOutcome = Fetched(pitchTags: Option<seq<string>>, resultTags: Option<seq<string>>) | FetchFailed

  /** The two-category registry the cascade installs. */
  function Defaults(pitchTags: seq<string>, resultTags: seq<string>): (r: PresetMap)
    ensures r.Keys == {PitchKey, ResultKey}
    ensures r[PitchKey] == Category(PitchLabel, pitchTags)
    ensures r[ResultKey] == Category(ResultLabel, resultTags)
  {
    map[PitchKey := Category(PitchLabel, pitchTags), ResultKey := Category(ResultLabel, resultTags)]
  }

  /** Whether the stored registry counts as absent: missing, or an empty object. */
  predicate StoredEmpty(stored: Option<PresetMap>) {
    stored.None? || stored.value == map[]
  }

  /** `initializePresets()`, given the stored registry, the two legacy lists and the fetch
      outcome: `None` when a non-empty registry is already stored; otherwise the registry
      to install (and persist): from the legacy lists if either exists, else from the
      fetched lists, else the built-in fallback. */
  function InitialPresets(stored: Option<PresetMap>, legacyPitch: Option<seq<string>>,
                          legacyResult: Option<seq<string>>, fetched: FetchOutcome): (r: Option<PresetMap>)
    ensures r.None? <==> !StoredEmpty(stored)
    ensures r.Some? ==> r.value.Keys == {PitchKey, ResultKey}
    ensures r.Some? && (legacyPitch.Some? || legacyResult.Some?) ==>
              r.value[PitchKey].tags == legacyPitch.GetOr([]) && r.value[ResultKey].tags == legacyResult.GetOr([])
    ensures r.Some? && legacyPitch.None? && legacyResult.None? && fetched.Fetched? ==>
              r.value[PitchKey].tags == fetched.pitchTags.GetOr([]) && r.value[ResultKey].tags == fetched.resultTags.GetOr([])
    ensures r.Some? && legacyPitch.None? && legacyResult.None? && fetched.FetchFailed? ==>
              r.value == Defaults(FallbackPitchTags, FallbackResultTags)
  {
    if !StoredEmpty(stored) then None
    else if legacyPitch.Some? || legacyResult.Some? then
      Some(Defaults(legacyPitch.GetOr([]), legacyResult.GetOr([])))
    else
      match fetched
      case Fetched(p, q) => Some(Defaults(p.GetOr([]), q.GetOr([])))
      case FetchFailed => Some(Defaults(FallbackPitchTags, FallbackResultTags))
  }

  /** The cascade installs at most once: once its result is stored, a later run — whatever
      the legacy lists and the fetch give — changes nothing. */
  lemma InitializeOnce(stored: Option<PresetMap>, lp: Option<seq<string>>, lr: Option<seq<string>>, f: FetchOutcome,
                       lp2: Option<seq<string>>, lr2: Option<seq<string>>, f2: FetchOutcome)
    requires InitialPresets(stored, lp, lr, f).Some?
    ensures InitialPresets(Some(InitialPresets(stored, lp, lr, f).value), lp2, lr2, f2).None?
  {
    var m := InitialPresets(stored, lp, lr, f).value;
    assert PitchKey in m;
  }
}
