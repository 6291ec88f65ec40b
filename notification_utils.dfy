/** The notification-preference helpers of the notifications app: lookups in
    normalized preference lists, batching, the notifications-tray check, the
    course-wide filter, the notification-type visibility map and the
    forum-role filter.

    Waffle flags, database queries and the global notification-type registry
    are parameters: booleans, a predicate over course ids, sequences of
    course ids and role names, and a sequence of registry entries. */
module NotificationUtils {
  import opened Outcomes
  import opened PreferenceData

  // ---------------------------------------------------------------------
  // Lookups in normalized preference lists
  // ---------------------------------------------------------------------

  /** `entry.get(field) == s`: the field is present and holds the string `s`. */
  predicate FieldIs(entry: Entry, field: string, s: string)
  {
    field in entry && entry[field] == Str(s)
  }

  /** The first app in `apps` whose `name` is `appName`, or `None`. */
  method FindAppInNormalizedApps(appName: string, apps: seq<Entry>) returns (r: Option<Entry>)
    ensures r.None? <==> forall i :: 0 <= i < |apps| ==> !FieldIs(apps[i], "name", appName)
    ensures r.Some? ==>
      exists i :: 0 <= i < |apps| && apps[i] == r.value && FieldIs(apps[i], "name", appName) &&
        forall j :: 0 <= j < i ==> !FieldIs(apps[j], "name", appName)
  {
    for i := 0 to |apps|
      invariant forall j :: 0 <= j < i ==> !FieldIs(apps[j], "name", appName)
    {
      if FieldIs(apps[i], "name", appName) {
        return Some(apps[i]);
      }
    }
    return None;
  }

  /** Both lookup keys of a normalized preference match. */
  predicate PrefMatches(pref: Entry, prefName: string, appName: string)
  {
    FieldIs(pref, "name", prefName) && FieldIs(pref, "app_name", appName)
  }

  /** The first preference in `prefs` whose `name` is `prefName` and whose
      `app_name` is `appName`, or `None`. */
  method FindPrefInNormalizedPrefs(prefName: string, appName: string, prefs: seq<Entry>)
    returns (r: Option<Entry>)
    ensures r.None? <==> forall i :: 0 <= i < |prefs| ==> !PrefMatches(prefs[i], prefName, appName)
    ensures r.Some? ==>
      exists i :: 0 <= i < |prefs| && prefs[i] == r.value && PrefMatches(prefs[i], prefName, appName) &&
        forall j :: 0 <= j < i ==> !PrefMatches(prefs[j], prefName, appName)
  {
    for i := 0 to |prefs|
      invariant forall j :: 0 <= j < i ==> !PrefMatches(prefs[j], prefName, appName)
    {
      if PrefMatches(prefs[i], prefName, appName) {
        return Some(prefs[i]);
      }
    }
    return None;
  }

  // ---------------------------------------------------------------------
  // Notifications tray
  // ---------------------------------------------------------------------

  /** Whether the notifications tray is shown: `activeCourseIds` are the
      course ids of the user's active enrollments and `trayEnabled` is the
      per-course tray flag. */
  method GetShowNotificationsTray(activeCourseIds: seq<string>, trayEnabled: string -> bool)
    returns (show: bool)
    ensures show <==> exists i :: 0 <= i < |activeCourseIds| && trayEnabled(activeCourseIds[i])
  {
    show := false;
    var i := 0;
    while i < |activeCourseIds|
      invariant 0 <= i <= |activeCourseIds|
      invariant forall j :: 0 <= j < i ==> !trayEnabled(activeCourseIds[j])
    {
      if trayEnabled(activeCourseIds[i]) {
        show := true;
        break;
      }
      i := i + 1;
    }
  }

  // ---------------------------------------------------------------------
  // Batching
  // ---------------------------------------------------------------------

  /** The message `range()` raises for a zero step. */
  const RangeStepZero: string := "range() arg 3 must not be zero"

  function Min(a: int, b: int): int
  {
    if a < b then a else b
  }

  /** The batches laid end to end. */
  function Concat<T>(batches: seq<seq<T>>): seq<T>
  {
    if batches == [] then [] else Concat(batches[..|batches| - 1]) + batches[|batches| - 1]
  }

  /** `batches` splits `items` into consecutive slices: every slice but the
      last holds exactly `size` items, the last is non-empty and holds at
      most `size`, and there are ceil(|items| / size) of them. */
  ghost predicate IsBatching<T>(items: seq<T>, batches: seq<seq<T>>, size: int)
    requires size > 0
  {
    && Concat(batches) == items
    && (forall i :: 0 <= i < |batches| - 1 ==> |batches[i]| == size)
    && (batches != [] ==> 0 < |batches[|batches| - 1]| <= size)
    && |batches| == (|items| + size - 1) / size
  }

  lemma ConcatSnoc<T>(batches: seq<seq<T>>, batch: seq<T>)
    ensures Concat(batches + [batch]) == Concat(batches) + batch
  {
    assert (batches + [batch])[..|batches|] == batches;
  }

  lemma MulMonotone(a: int, b: int, c: int)
    requires a <= b && c > 0
    ensures a * c <= b * c
  {
    assert b * c - a * c == (b - a) * c;
  }

  /** A count k with (k - 1) * size < n <= k * size is ceil(n / size). */
  lemma CeilingCount(n: nat, size: int, k: nat)
    requires size > 0
    requires (k - 1) * size < n <= k * size
    ensures k == (n + size - 1) / size
  {
    var q := (n + size - 1) / size;
    assert k * size <= n + size - 1 < (k + 1) * size;
    assert q * size <= n + size - 1 < (q + 1) * size;
    if q < k {
      MulMonotone(q + 1, k, size);
      assert false;
    } else if q > k {
      MulMonotone(k + 1, q, size);
      assert false;
    }
  }

  /** Batch `i` is the slice of `items` starting at `i * size`, cut off
      after `size` items or at the end. */
  ghost predicate SlicesOf<T>(items: seq<T>, batches: seq<seq<T>>, size: int)
    requires size > 0
  {
    forall i :: 0 <= i < |batches| ==>
      i * size <= |items| && batches[i] == items[i * size .. Min(i * size + size, |items|)]
  }

  lemma SlicesOfSnoc<T>(items: seq<T>, batches: seq<seq<T>>, size: int, index: int)
    requires size > 0 && SlicesOf(items, batches, size)
    requires index == |batches| * size <= |items|
    ensures SlicesOf(items, batches + [items[index .. Min(index + size, |items|)]], size)
  {
    var next := batches + [items[index .. Min(index + size, |items|)]];
    forall i | 0 <= i < |next|
      ensures i * size <= |items| && next[i] == items[i * size .. Min(i * size + size, |items|)]
    {
      if i < |batches| {
        assert next[i] == batches[i];
      } else {
        assert i == |batches|;
      }
    }
  }

  /** Laid end to end, the first `m` slices give the first `m * size`
      items (or all of them). */
  lemma {:induction false} ConcatSlices<T>(items: seq<T>, batches: seq<seq<T>>, size: int, m: nat)
    requires size > 0 && SlicesOf(items, batches, size)
    requires m <= |batches|
    ensures Concat(batches[..m]) == items[..Min(m * size, |items|)]
  {
    if m > 0 {
      ConcatSlices(items, batches, size, m - 1);
      assert batches[..m] == batches[..m - 1] + [batches[m - 1]];
      ConcatSnoc(batches[..m - 1], batches[m - 1]);
      assert (m - 1) * size + size == m * size;
      assert (m - 1) * size <= |items|;
      assert items[..Min((m - 1) * size, |items|)] + batches[m - 1] == items[..Min(m * size, |items|)];
    }
  }

  /** Slices that reach the end of `items`, the last of them non-empty, are
      a batching of `items`. */
  lemma SlicesOfIsBatching<T>(items: seq<T>, batches: seq<seq<T>>, size: int)
    requires size > 0 && SlicesOf(items, batches, size)
    requires (|batches| - 1) * size < |items| <= |batches| * size
    ensures IsBatching(items, batches, size)
  {
    ConcatSlices(items, batches, size, |batches|);
    assert batches[..|batches|] == batches;
    forall i | 0 <= i < |batches| - 1
      ensures |batches[i]| == size
    {
      MulMonotone(i + 1, |batches| - 1, size);
      assert i * size + size == (i + 1) * size;
      assert Min(i * size + size, |items|) == i * size + size;
    }
    if batches != [] {
      var last := |batches| - 1;
      assert last * size < |items|;
      assert batches[last] == items[last * size .. Min(last * size + size, |items|)];
    }
    CeilingCount(|items|, size, |batches|);
  }

  /** The state of the batching loop after `|batches|` slices, with `index`
      the start of the next one. */
  ghost predicate BatchLoop<T>(items: seq<T>, batches: seq<seq<T>>, size: int, index: int)
  {
    && size > 0
    && index == |batches| * size
    && (batches != [] ==> index - size < |items|)
    && SlicesOf(items, batches, size)
  }

  lemma BatchLoopStep<T>(items: seq<T>, batches: seq<seq<T>>, size: int, index: int)
    requires BatchLoop(items, batches, size, index) && index < |items|
    ensures BatchLoop(items, batches + [items[index .. Min(index + size, |items|)]], size, index + size)
  {
    SlicesOfSnoc(items, batches, size, index);
    assert (|batches| + 1) * size == index + size;
  }

  lemma BatchLoopDone<T>(items: seq<T>, batches: seq<seq<T>>, size: int, index: int)
    requires BatchLoop(items, batches, size, index) && index >= |items|
    ensures SlicesOf(items, batches, size) && IsBatching(items, batches, size)
  {
    assert (|batches| - 1) * size == index - size;
    SlicesOfIsBatching(items, batches, size);
  }

  /** The slices `get_list_in_batches` yields. A zero batch size makes
      `range()` raise; a negative one yields nothing. */
  method GetListInBatches<T>(items: seq<T>, batchSize: int) returns (r: Result<seq<seq<T>>>)
    ensures r.Err? <==> batchSize == 0
    ensures r.Err? ==> r.error == ValueError(RangeStepZero)
    ensures batchSize < 0 ==> r == Ok([])
    ensures batchSize > 0 ==> r.Ok? && SlicesOf(items, r.value, batchSize)
    ensures batchSize > 0 ==> r.Ok? && IsBatching(items, r.value, batchSize)
  {
    if batchSize == 0 {
      return Err(ValueError(RangeStepZero));
    } else if batchSize < 0 {
      return Ok([]);
    }
    var batches: seq<seq<T>> := [];
    var index := 0;
    while index < |items|
      invariant BatchLoop(items, batches, batchSize, index)
      decreases |items| - index
    {
      BatchLoopStep(items, batches, batchSize, index);
      batches := batches + [items[index .. Min(index + batchSize, |items|)]];
      index := index + batchSize;
    }
    BatchLoopDone(items, batches, batchSize, index);
    return Ok(batches);
  }

  // ---------------------------------------------------------------------
  // Removing notification types from every app
  // ---------------------------------------------------------------------

  /** The app with the keys `ks` removed from its `notification_types`;
      an app without `notification_types` is left alone. */
  function WithoutTypes(app: AppPrefs, ks: set<string>): AppPrefs
  {
    match app.notificationTypes
    case None => app
    case Some(types) => app.(notificationTypes := Some(types - ks))
  }

  /** Every app of the config with the keys `ks` removed from its types. */
  function FilterApps(apps: map<string, AppPrefs>, ks: set<string>): map<string, AppPrefs>
  {
    map k | k in apps :: WithoutTypes(apps[k], ks)
  }

  /** The config after the loop over apps has dealt with the first `i` keys
      of `order`. */
  function FilteredUpTo(order: seq<string>, apps: map<string, AppPrefs>, ks: set<string>, i: nat)
    : map<string, AppPrefs>
    requires i <= |order|
  {
    map k | k in apps :: if k in order[..i] then WithoutTypes(apps[k], ks) else apps[k]
  }

  lemma FilteredUpToStep(order: seq<string>, apps: map<string, AppPrefs>, ks: set<string>, i: nat)
    requires KeysInOrder(order, apps)
    requires i < |order|
    ensures order[i] in apps
    ensures FilteredUpTo(order, apps, ks, i)[order[i]] == apps[order[i]]
    ensures FilteredUpTo(order, apps, ks, i + 1) ==
            FilteredUpTo(order, apps, ks, i)[order[i] := WithoutTypes(apps[order[i]], ks)]
  {
    assert order[..i + 1] == order[..i] + [order[i]];
    assert order[i] !in order[..i] by {
      forall j | 0 <= j < i ensures order[..i][j] != order[i] {
        assert order[..i][j] == order[j];
      }
    }
  }

  lemma FilteredUpToAll(order: seq<string>, apps: map<string, AppPrefs>, ks: set<string>)
    requires KeysInOrder(order, apps)
    ensures FilteredUpTo(order, apps, ks, |order|) == FilterApps(apps, ks)
  {
    assert order[..|order|] == order;
  }

  lemma FilteredUpToKeysInOrder(order: seq<string>, apps: map<string, AppPrefs>, ks: set<string>, i: nat)
    requires KeysInOrder(order, apps) && i <= |order|
    ensures KeysInOrder(order, FilteredUpTo(order, apps, ks, i))
  {
    assert FilteredUpTo(order, apps, ks, i).Keys == apps.Keys;
  }

  /** For a key `t` outside `ks`, presence and value agree in both maps. */
  ghost predicate SameOutside(before: map<string, Value>, after: map<string, Value>, ks: set<string>)
  {
    forall t :: t !in ks ==> (t in after <==> t in before) && (t in after ==> after[t] == before[t])
  }

  // ---------------------------------------------------------------------
  // Course-wide filter
  // ---------------------------------------------------------------------

  const NewDiscussionPost: string := "new_discussion_post"
  const NewQuestionPost: string := "new_question_post"
  const ContentReported: string := "content_reported"

  /** The notification types hidden when course-wide notifications are off;
      `content_reported` is among them unless reported-content
      notifications are on. */
  function CourseWideTypes(reportedEnabled: bool): (r: seq<string>)
    ensures |r| == if reportedEnabled then 2 else 3
    ensures r[..2] == [NewDiscussionPost, NewQuestionPost]
    ensures ContentReported in r <==> !reportedEnabled
  {
    [NewDiscussionPost, NewQuestionPost] + if reportedEnabled then [] else [ContentReported]
  }

  function CourseWideSet(reportedEnabled: bool): set<string>
  {
    set t | t in CourseWideTypes(reportedEnabled)
  }

  /** The config after a successful course-wide filter. */
  function CourseWideFiltered(apps: map<string, AppPrefs>, reportedEnabled: bool): map<string, AppPrefs>
  {
    FilterApps(apps, CourseWideSet(reportedEnabled))
  }

  /** What the course-wide filter does to each app: the discussion and
      question post types are gone, `content_reported` is gone unless
      reported-content notifications are on, and no other key at any level
      changes. */
  lemma CourseWideFilteredEffect(apps: map<string, AppPrefs>, reportedEnabled: bool)
    ensures CourseWideFiltered(apps, reportedEnabled).Keys == apps.Keys
    ensures forall k :: k in apps && apps[k].notificationTypes.None? ==>
      CourseWideFiltered(apps, reportedEnabled)[k] == apps[k]
    ensures forall k :: k in apps && apps[k].notificationTypes.Some? ==>
      var after := CourseWideFiltered(apps, reportedEnabled)[k];
      && after.otherSettings == apps[k].otherSettings
      && after.notificationTypes.Some?
      && NewDiscussionPost !in after.notificationTypes.value
      && NewQuestionPost !in after.notificationTypes.value
      && (ContentReported in after.notificationTypes.value <==>
            reportedEnabled && ContentReported in apps[k].notificationTypes.value)
      && SameOutside(apps[k].notificationTypes.value, after.notificationTypes.value,
                     CourseWideSet(reportedEnabled))
  {
  }

  /** Every app has `notification_types`. */
  ghost predicate AllHaveTypes(apps: map<string, AppPrefs>)
  {
    forall k :: k in apps ==> apps[k].notificationTypes.Some?
  }

  lemma HaveTypesInOrder(order: seq<string>, apps: map<string, AppPrefs>)
    requires KeysInOrder(order, apps)
    requires forall j :: 0 <= j < |order| ==> apps[order[j]].notificationTypes.Some?
    ensures AllHaveTypes(apps)
  {
    forall k | k in apps
      ensures apps[k].notificationTypes.Some?
    {
      var j :| 0 <= j < |order| && order[j] == k;
    }
  }

  /** The loop over apps stops at `order[i]`: the first app without
      `notification_types`. */
  ghost predicate FirstLacking(order: seq<string>, apps: map<string, AppPrefs>, i: int)
  {
    && KeysInOrder(order, apps)
    && 0 <= i < |order|
    && apps[order[i]].notificationTypes.None?
    && forall j :: 0 <= j < i ==> apps[order[j]].notificationTypes.Some?
  }

  /** The inner loop of the course-wide filter: pop each listed type that
      is present. */
  method PopCourseWideTypes(types: map<string, Value>, courseWideTypes: seq<string>)
    returns (remaining: map<string, Value>)
    ensures forall t :: t in remaining <==> t in types && t !in courseWideTypes
    ensures forall t :: t in remaining ==> remaining[t] == types[t]
  {
    remaining := types;
    for i := 0 to |courseWideTypes|
      invariant forall t :: t in remaining <==> t in types && t !in courseWideTypes[..i]
      invariant forall t :: t in remaining ==> remaining[t] == types[t]
    {
      assert courseWideTypes[..i + 1] == courseWideTypes[..i] + [courseWideTypes[i]];
      if courseWideTypes[i] in remaining {
        remaining := remaining - {courseWideTypes[i]};
      }
    }
    assert courseWideTypes[..|courseWideTypes|] == courseWideTypes;
  }

  /** `filter_course_wide_preferences` on the preference config. With the
      course-wide flag on nothing happens; otherwise every app loses the
      course-wide types, and an app without `notification_types` raises a
      KeyError after the apps before it were filtered. */
  method FilterCourseWidePreferences(coursewideEnabled: bool, reportedEnabled: bool,
                                     config: PreferenceConfig)
    returns (outcome: Outcome)
    requires config.Valid()
    modifies config
    ensures config.Valid() && config.order == old(config.order)
    ensures coursewideEnabled ==> outcome == Pass && config.apps == old(config.apps)
    ensures !coursewideEnabled ==> (outcome.Pass? <==> AllHaveTypes(old(config.apps)))
    ensures !coursewideEnabled && outcome.Pass? ==>
      config.apps == CourseWideFiltered(old(config.apps), reportedEnabled)
    ensures !coursewideEnabled && outcome.Fail? ==>
      && outcome.error == KeyError(NotificationTypesKey)
      && exists i :: FirstLacking(config.order, old(config.apps), i) &&
           config.apps == FilteredUpTo(config.order, old(config.apps), CourseWideSet(reportedEnabled), i)
  {
    if coursewideEnabled {
      return Pass;
    }
    var courseWideTypes := CourseWideTypes(reportedEnabled);
    ghost var ks := CourseWideSet(reportedEnabled);
    ghost var before := config.apps;
    var order := config.order;
    var apps := config.apps;
    var i := 0;
    while i < |order|
      invariant 0 <= i <= |order|
      invariant KeysInOrder(order, before)
      invariant forall j :: 0 <= j < i ==> before[order[j]].notificationTypes.Some?
      invariant apps == FilteredUpTo(order, before, ks, i)
      invariant config.order == order && config.apps == before
    {
      var key := order[i];
      FilteredUpToStep(order, before, ks, i);
      var app := apps[key];
      if app.notificationTypes.None? {
        assert FirstLacking(order, before, i);
        assert key in before && before[key].notificationTypes.None?;
        FilteredUpToKeysInOrder(order, before, ks, i);
        config.apps := apps;
        return Fail(KeyError(NotificationTypesKey));
      }
      var remaining := PopCourseWideTypes(app.notificationTypes.value, courseWideTypes);
      assert remaining == app.notificationTypes.value - ks;
      assert WithoutTypes(app, ks) == app.(notificationTypes := Some(remaining));
      apps := apps[key := app.(notificationTypes := Some(remaining))];
      i := i + 1;
    }
    FilteredUpToAll(order, before, ks);
    FilteredUpToKeysInOrder(order, before, ks, i);
    HaveTypesInOrder(order, before);
    assert apps == CourseWideFiltered(before, reportedEnabled);
    config.apps := apps;
    return Pass;
  }

  // ---------------------------------------------------------------------
  // Visibility settings of notification types
  // ---------------------------------------------------------------------

  /** Registry entry name to its `visible_to` roles, for the entries with a
      non-empty `visible_to`, built in registry order (a later entry of the
      same name replaces an earlier one). */
  function VisibilitySettings(registry: seq<NotificationType>): map<string, seq<string>>
  {
    if registry == [] then map[]
    else
      var settings := VisibilitySettings(registry[..|registry| - 1]);
      var last := registry[|registry| - 1];
      if last.visibleTo != [] then settings[last.name := last.visibleTo] else settings
  }

  /** `registry[i]` is the last entry named `name` with a non-empty
      `visible_to`. */
  ghost predicate LastVisibleEntry(registry: seq<NotificationType>, name: string, i: int)
  {
    && 0 <= i < |registry|
    && registry[i].name == name
    && registry[i].visibleTo != []
    && forall j :: i < j < |registry| && registry[j].name == name ==> registry[j].visibleTo == []
  }

  lemma {:induction false} VisibilitySettingsKeys(registry: seq<NotificationType>, name: string)
    ensures name in VisibilitySettings(registry) <==>
      exists i :: 0 <= i < |registry| && registry[i].name == name && registry[i].visibleTo != []
  {
    if registry != [] {
      var prefix := registry[..|registry| - 1];
      VisibilitySettingsKeys(prefix, name);
      if name in VisibilitySettings(prefix) {
        var i :| 0 <= i < |prefix| && prefix[i].name == name && prefix[i].visibleTo != [];
        assert registry[i] == prefix[i];
      }
      if exists i :: 0 <= i < |registry| && registry[i].name == name && registry[i].visibleTo != [] {
        var i :| 0 <= i < |registry| && registry[i].name == name && registry[i].visibleTo != [];
        if i < |prefix| {
          assert prefix[i] == registry[i];
        }
      }
    }
  }

  lemma {:induction false} VisibilitySettingsValue(registry: seq<NotificationType>, name: string)
    requires name in VisibilitySettings(registry)
    ensures exists i ::
      LastVisibleEntry(registry, name, i) && VisibilitySettings(registry)[name] == registry[i].visibleTo
  {
    var prefix := registry[..|registry| - 1];
    var last := registry[|registry| - 1];
    if last.visibleTo != [] && last.name == name {
      assert LastVisibleEntry(registry, name, |registry| - 1);
    } else {
      VisibilitySettingsValue(prefix, name);
      var i :| LastVisibleEntry(prefix, name, i) && VisibilitySettings(prefix)[name] == prefix[i].visibleTo;
      assert registry[i] == prefix[i];
      forall j | i < j < |registry| && registry[j].name == name
        ensures registry[j].visibleTo == []
      {
        if j < |prefix| {
          assert prefix[j] == registry[j];
        }
      }
      assert LastVisibleEntry(registry, name, i);
    }
  }

  /** With distinct names, every entry with a non-empty `visible_to` is
      mapped from its name to exactly that list. */
  lemma VisibilitySettingsOfDistinctNames(registry: seq<NotificationType>, i: int)
    requires forall a, b :: 0 <= a < b < |registry| ==> registry[a].name != registry[b].name
    requires 0 <= i < |registry| && registry[i].visibleTo != []
    ensures registry[i].name in VisibilitySettings(registry)
    ensures VisibilitySettings(registry)[registry[i].name] == registry[i].visibleTo
  {
    VisibilitySettingsKeys(registry, registry[i].name);
    VisibilitySettingsValue(registry, registry[i].name);
  }

  /** `get_notification_types_with_visibility_settings` over the registry's
      entries in iteration order. */
  method GetNotificationTypesWithVisibilitySettings(registry: seq<NotificationType>)
    returns (settings: map<string, seq<string>>)
    ensures settings == VisibilitySettings(registry)
  {
    settings := map[];
    for i := 0 to |registry|
      invariant settings == VisibilitySettings(registry[..i])
    {
      assert registry[..i + 1][..i] == registry[..i];
      var notificationType := registry[i];
      if notificationType.visibleTo != [] {
        settings := settings[notificationType.name := notificationType.visibleTo];
      }
    }
    assert registry[..|registry|] == registry;
  }

  // ---------------------------------------------------------------------
  // Forum-role filter
  // ---------------------------------------------------------------------

  /** Some role of `visibleTo` is one of the user's forum roles. */
  predicate Visible(visibleTo: seq<string>, roles: seq<string>)
  {
    exists r :: r in visibleTo && r in roles
  }

  /** The types of the visibility map the user's roles cannot see. */
  function HiddenTypes(visibility: map<string, seq<string>>, roles: seq<string>): set<string>
  {
    set t | t in visibility && !Visible(visibility[t], roles)
  }

  /** The role loop: is some role of `visibleTo` among the user's roles? */
  method IsVisibleTo(visibleTo: seq<string>, roles: seq<string>) returns (visible: bool)
    ensures visible <==> Visible(visibleTo, roles)
  {
    for i := 0 to |visibleTo|
      invariant forall j :: 0 <= j < i ==> visibleTo[j] !in roles
    {
      if visibleTo[i] in roles {
        return true;
      }
    }
    return false;
  }

  /** `after` is `before` with some of the keys `ks` popped. */
  predicate PartlyRemoved(before: map<string, Value>, after: map<string, Value>, ks: set<string>)
  {
    && (forall t :: t in after ==> t in before && after[t] == before[t])
    && (forall t :: t in before && t !in after ==> t in ks)
  }

  /** The loop over the visibility map for one app: pop every hidden type,
      raising a KeyError on the first one the app lacks. The map's
      iteration order is left open. */
  method PopHiddenTypes(types: map<string, Value>, visibility: map<string, seq<string>>,
                        roles: seq<string>)
    returns (remaining: map<string, Value>, outcome: Outcome)
    ensures outcome.Pass? <==> HiddenTypes(visibility, roles) <= types.Keys
    ensures outcome.Pass? ==> remaining == types - HiddenTypes(visibility, roles)
    ensures outcome.Fail? ==>
      && outcome.error.KeyError?
      && outcome.error.key in HiddenTypes(visibility, roles)
      && outcome.error.key !in types
      && PartlyRemoved(types, remaining, HiddenTypes(visibility, roles))
  {
    ghost var hidden := HiddenTypes(visibility, roles);
    remaining := types;
    var pending := visibility.Keys;
    while pending != {}
      invariant pending <= visibility.Keys
      invariant forall t :: t in hidden && t !in pending ==> t in types
      invariant remaining == types - (hidden - pending)
      decreases |pending|
    {
      var t :| t in pending;
      pending := pending - {t};
      var visible := IsVisibleTo(visibility[t], roles);
      if !visible {
        assert t in hidden;
        if t !in remaining {
          return remaining, Fail(KeyError(t));
        }
        remaining := remaining - {t};
      }
    }
    return remaining, Pass;
  }

  /** One app after the visibility loop raised a KeyError for `missing`:
      the app has types, `missing` is hidden and absent from them, and the
      app has lost some hidden types and nothing else. */
  ghost predicate StuckApp(before: AppPrefs, after: AppPrefs, hidden: set<string>, missing: string)
  {
    && before.notificationTypes.Some?
    && missing in hidden
    && missing !in before.notificationTypes.value
    && after.otherSettings == before.otherSettings
    && after.notificationTypes.Some?
    && PartlyRemoved(before.notificationTypes.value, after.notificationTypes.value, hidden)
  }

  /** The app has every key of `ks` among its types, or has no types. */
  ghost predicate Covers(app: AppPrefs, ks: set<string>)
  {
    app.notificationTypes.Some? ==> ks <= app.notificationTypes.value.Keys
  }

  /** The body of the forum-role filter for one app: an app with
      `notification_types` loses its hidden types, or raises a KeyError
      for one it lacks; an app without them is left alone. */
  method FilterAppTypes(app: AppPrefs, visibility: map<string, seq<string>>, roles: seq<string>)
    returns (filtered: AppPrefs, outcome: Outcome)
    ensures outcome.Pass? <==> Covers(app, HiddenTypes(visibility, roles))
    ensures outcome.Pass? ==> filtered == WithoutTypes(app, HiddenTypes(visibility, roles))
    ensures outcome.Fail? ==>
      outcome.error.KeyError? && StuckApp(app, filtered, HiddenTypes(visibility, roles), outcome.error.key)
  {
    if app.notificationTypes.None? {
      return app, Pass;
    }
    var remaining, popOutcome := PopHiddenTypes(app.notificationTypes.value, visibility, roles);
    return app.(notificationTypes := Some(remaining)), popOutcome;
  }

  /** The config after a successful forum-role filter. */
  function VisibleFiltered(apps: map<string, AppPrefs>, visibility: map<string, seq<string>>,
                           roles: seq<string>)
    : map<string, AppPrefs>
  {
    FilterApps(apps, HiddenTypes(visibility, roles))
  }

  /** What the forum-role filter does to each app: a type of the visibility
      map stays iff one of its roles is the user's, every type that is not
      hidden keeps its value, and apps without `notification_types` are
      untouched. */
  lemma VisibleFilteredEffect(apps: map<string, AppPrefs>, visibility: map<string, seq<string>>,
                              roles: seq<string>)
    ensures VisibleFiltered(apps, visibility, roles).Keys == apps.Keys
    ensures forall k :: k in apps && apps[k].notificationTypes.None? ==>
      VisibleFiltered(apps, visibility, roles)[k] == apps[k]
    ensures forall k :: k in apps && apps[k].notificationTypes.Some? ==>
      var after := VisibleFiltered(apps, visibility, roles)[k];
      && after.otherSettings == apps[k].otherSettings
      && after.notificationTypes.Some?
      && (forall t :: t in visibility ==>
            (t in after.notificationTypes.value <==>
               t in apps[k].notificationTypes.value && Visible(visibility[t], roles)))
      && SameOutside(apps[k].notificationTypes.value, after.notificationTypes.value,
                     HiddenTypes(visibility, roles))
  {
  }

  ghost predicate AllCover(apps: map<string, AppPrefs>, ks: set<string>)
  {
    forall k :: k in apps ==> Covers(apps[k], ks)
  }

  lemma CoverInOrder(order: seq<string>, apps: map<string, AppPrefs>, ks: set<string>)
    requires KeysInOrder(order, apps)
    requires forall j :: 0 <= j < |order| ==> Covers(apps[order[j]], ks)
    ensures AllCover(apps, ks)
  {
    forall k | k in apps
      ensures Covers(apps[k], ks)
    {
      var j :| 0 <= j < |order| && order[j] == k;
    }
  }

  /** The forum-role filter stopped at `order[i]` with a KeyError for
      `missing`: the apps before it are filtered, the apps after it are
      untouched, and `order[i]` itself has lost some hidden types. */
  ghost predicate StoppedAt(order: seq<string>, before: map<string, AppPrefs>,
                            after: map<string, AppPrefs>, hidden: set<string>, i: int, missing: string)
  {
    && KeysInOrder(order, before)
    && 0 <= i < |order|
    && (forall j :: 0 <= j < i ==> Covers(before[order[j]], hidden))
    && order[i] in after
    && after == FilteredUpTo(order, before, hidden, i)[order[i] := after[order[i]]]
    && StuckApp(before[order[i]], after[order[i]], hidden, missing)
  }

  lemma VisibleFilteredInOrder(order: seq<string>, before: map<string, AppPrefs>,
                               visibility: map<string, seq<string>>, roles: seq<string>)
    requires KeysInOrder(order, before)
    ensures FilteredUpTo(order, before, HiddenTypes(visibility, roles), |order|)
            == VisibleFiltered(before, visibility, roles)
  {
    FilteredUpToAll(order, before, HiddenTypes(visibility, roles));
  }

  lemma StoppedAtIntro(order: seq<string>, before: map<string, AppPrefs>, hidden: set<string>,
                       i: nat, filtered: AppPrefs, missing: string)
    requires KeysInOrder(order, before) && i < |order|
    requires forall j :: 0 <= j < i ==> Covers(before[order[j]], hidden)
    requires StuckApp(before[order[i]], filtered, hidden, missing)
    ensures StoppedAt(order, before, FilteredUpTo(order, before, hidden, i)[order[i] := filtered],
                      hidden, i, missing)
  {
  }

  /** `filter_out_visible_notifications` on the preference config: every app
      with `notification_types` loses the types its user's roles cannot see;
      an app lacking one of those types raises a KeyError. */
  method FilterOutVisibleNotifications(config: PreferenceConfig,
                                       visibility: map<string, seq<string>>, roles: seq<string>)
    returns (outcome: Outcome)
    requires config.Valid()
    modifies config
    ensures config.Valid() && config.order == old(config.order)
    ensures outcome.Pass? <==> AllCover(old(config.apps), HiddenTypes(visibility, roles))
    ensures outcome.Pass? ==> config.apps == VisibleFiltered(old(config.apps), visibility, roles)
    ensures outcome.Fail? ==>
      && outcome.error.KeyError?
      && exists i :: StoppedAt(config.order, old(config.apps), config.apps,
                               HiddenTypes(visibility, roles), i, outcome.error.key)
  {
    ghost var hidden := HiddenTypes(visibility, roles);
    ghost var before := config.apps;
    var order := config.order;
    var apps := config.apps;
    var i := 0;
    while i < |order|
      invariant 0 <= i <= |order|
      invariant KeysInOrder(order, before)
      invariant forall j :: 0 <= j < i ==> Covers(before[order[j]], hidden)
      invariant apps == FilteredUpTo(order, before, hidden, i)
      invariant config.order == order
    {
      var key := order[i];
      FilteredUpToStep(order, before, hidden, i);
      var filtered, appOutcome := FilterAppTypes(apps[key], visibility, roles);
      apps := apps[key := filtered];
      if appOutcome.Fail? {
        StoppedAtIntro(order, before, hidden, i, filtered, appOutcome.error.key);
        FilteredUpToKeysInOrder(order, before, hidden, i);
        assert key in before && !Covers(before[key], hidden);
        config.apps := apps;
        return appOutcome;
      }
      i := i + 1;
    }
    VisibleFilteredInOrder(order, before, visibility, roles);
    FilteredUpToKeysInOrder(order, before, hidden, i);
    CoverInOrder(order, before, hidden);
    config.apps := apps;
    return Pass;
  }

  /** `remove_preferences_with_no_access`: the forum-role filter with the
      visibility map built from the registry. `roles` are the user's forum
      roles in the preferences' course. */
  method RemovePreferencesWithNoAccess(config: PreferenceConfig, roles: seq<string>,
                                       registry: seq<NotificationType>)
    returns (outcome: Outcome)
    requires config.Valid()
    modifies config
    ensures config.Valid() && config.order == old(config.order)
    ensures outcome.Pass? <==>
      AllCover(old(config.apps), HiddenTypes(VisibilitySettings(registry), roles))
    ensures outcome.Pass? ==>
      config.apps == VisibleFiltered(old(config.apps), VisibilitySettings(registry), roles)
    ensures outcome.Fail? ==>
      && outcome.error.KeyError?
      && exists i :: StoppedAt(config.order, old(config.apps), config.apps,
                               HiddenTypes(VisibilitySettings(registry), roles), i, outcome.error.key)
  {
    var visibility := GetNotificationTypesWithVisibilitySettings(registry);
    outcome := FilterOutVisibleNotifications(config, visibility, roles);
  }

  // ---------------------------------------------------------------------
  // Properties of the filters
  // ---------------------------------------------------------------------

  /** Removing the same keys twice is removing them once. */
  lemma FilterAppsIdempotent(apps: map<string, AppPrefs>, ks: set<string>)
    ensures FilterApps(FilterApps(apps, ks), ks) == FilterApps(apps, ks)
  {
    forall k | k in apps
      ensures WithoutTypes(WithoutTypes(apps[k], ks), ks) == WithoutTypes(apps[k], ks)
    {
      if apps[k].notificationTypes.Some? {
        var types := apps[k].notificationTypes.value;
        assert (types - ks) - ks == types - ks;
      }
    }
  }

  /** Filtering course-wide types a second time changes nothing, and the
      second run cannot fail where the first succeeded. */
  lemma CourseWideFilterIdempotent(apps: map<string, AppPrefs>, reportedEnabled: bool)
    ensures CourseWideFiltered(CourseWideFiltered(apps, reportedEnabled), reportedEnabled)
            == CourseWideFiltered(apps, reportedEnabled)
    ensures AllHaveTypes(apps) ==> AllHaveTypes(CourseWideFiltered(apps, reportedEnabled))
  {
    FilterAppsIdempotent(apps, CourseWideSet(reportedEnabled));
  }

  /** When no app holds any course-wide type, the course-wide filter leaves
      the config as it was: the presence check makes a missing key a no-op. */
  lemma CourseWideAbsentIsNoop(apps: map<string, AppPrefs>, reportedEnabled: bool)
    requires forall k :: k in apps && apps[k].notificationTypes.Some? ==>
      forall t :: t in CourseWideTypes(reportedEnabled) ==> t !in apps[k].notificationTypes.value
    ensures CourseWideFiltered(apps, reportedEnabled) == apps
  {
    var ks := CourseWideSet(reportedEnabled);
    forall k | k in apps
      ensures WithoutTypes(apps[k], ks) == apps[k]
    {
      if apps[k].notificationTypes.Some? {
        var types := apps[k].notificationTypes.value;
        assert types - ks == types;
      }
    }
  }

  /** The forum-role filter is not repeatable: once it has removed a hidden
      type from an app, running it again with the same map and roles finds
      that type missing, so the second run raises a KeyError. */
  lemma VisibleFilterFailsOnRepeat(apps: map<string, AppPrefs>,
                                   visibility: map<string, seq<string>>, roles: seq<string>)
    requires HiddenTypes(visibility, roles) != {}
    requires exists k :: k in apps && apps[k].notificationTypes.Some?
    ensures !AllCover(VisibleFiltered(apps, visibility, roles), HiddenTypes(visibility, roles))
  {
    var hidden := HiddenTypes(visibility, roles);
    var k :| k in apps && apps[k].notificationTypes.Some?;
    var t :| t in hidden;
    var after := VisibleFiltered(apps, visibility, roles);
    assert t !in after[k].notificationTypes.value;
    assert !Covers(after[k], hidden);
  }
}
