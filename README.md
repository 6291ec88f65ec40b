# Notification-preference helpers of the Open edX notifications app

This project models, in Dafny, the helper functions of the notifications app in
`openedx/core/djangoapps/notifications/utils.py`, and proves their properties.
These helpers do the following:

- find an app or a preference in the normalized preference lists;
- decide whether the notifications tray is shown;
- split a list into batches;
- strip the course-wide notification types from a user's preference config;
- build the map from notification type to the forum roles that may see it;
- strip from the preference config the types the user's forum roles cannot see.

The model has three modules:

- `Outcomes` (`outcomes.dfy`) holds `Option`, `Result`, `Outcome` and the
  Python exceptions the helpers raise (`KeyError`, `ValueError`).
- `PreferenceData` (`preference_data.dfy`) holds the shapes of the data:
  - a JSON-like `Value`;
  - one app's preferences (`AppPrefs`): its optional `notification_types`
    dictionary and its other settings;
  - a registry entry (`NotificationType`);
  - the class `PreferenceConfig`. This is the mutable
    `notification_preference_config` dictionary. It keeps the keys in
    insertion order (`order`) beside the key-to-app map (`apps`).
- `NotificationUtils` (`notification_utils.dfy`) holds the operations.

The modelling choices are:

- The loops of the source are methods with loop invariants. Each is proved
  against a predicate or a specification function.
- The two filters mutate the config in place. They are methods on
  `PreferenceConfig` with `modifies` clauses.
- What the filters compute is stated by the functions `CourseWideFiltered` and
  `VisibleFiltered`, and the lemmas about those functions.
- A Python exception becomes an `Outcome` or `Result`. On an exception the
  model states exactly which apps were already changed, because the source
  mutates the dictionaries before the exception escapes.
- Waffle flags, database queries and the global notification-type registry are
  parameters of the model:
  - the course-wide and reported-content flags are booleans;
  - the tray flag is a predicate over course ids;
  - the user's active enrollments and forum roles are sequences of strings;
  - the registry is the sequence of its entries in iteration order.

## Model

| member | source | states |
|---|---|---|
| NotificationUtils.FindAppInNormalizedApps | openedx/core/djangoapps/notifications/utils.py:14-21 | The result is `None` iff no element's `name` equals the app name. Otherwise it is an element of the list whose `name` matches, and no earlier element matches. |
| NotificationUtils.FindPrefInNormalizedPrefs | openedx/core/djangoapps/notifications/utils.py:24-31 | The result is `None` iff no element matches both `name` and `app_name`. Otherwise it is an element of the list matching both, and no earlier element matches both. |
| NotificationUtils.GetShowNotificationsTray | openedx/core/djangoapps/notifications/utils.py:38-49 | The tray is shown iff the tray flag is on for some course id of the user's active enrollments. |
| NotificationUtils.GetListInBatches | openedx/core/djangoapps/notifications/utils.py:52-58 | A zero batch size raises `ValueError` (the `range()` step), and only a zero size fails. A negative size yields no batches. A positive size yields consecutive slices `items[i*size .. i*size+size]`. Laid end to end they give back the input. Every batch but the last has exactly `size` items, the last is non-empty with at most `size`, and there are ceil(len/size) batches. |
| NotificationUtils.ConcatSlices | openedx/core/djangoapps/notifications/utils.py:57-58 | Concatenating the first `m` slices gives the input's first `m*size` items (or all of them). |
| NotificationUtils.SlicesOfIsBatching | openedx/core/djangoapps/notifications/utils.py:56-58 | Slices that reach the end of the input, the last non-empty, form a batching: the concatenation, the lengths and the ceiling count. |
| NotificationUtils.CeilingCount | openedx/core/djangoapps/notifications/utils.py:57 | A count `k` with `(k-1)*size < n <= k*size` is the number of steps of `range(0, n, size)`, that is ceil(n/size). |
| NotificationUtils.CourseWideTypes | openedx/core/djangoapps/notifications/utils.py:68-71 | The course-wide types start with `new_discussion_post` and `new_question_post`, in that order. `content_reported` is among them iff the reported-content flag is off, appended as a third entry. |
| NotificationUtils.CourseWideFilteredEffect | openedx/core/djangoapps/notifications/utils.py:68-78 | After the course-wide filter the config has the same apps. Each app keeps its other settings. `new_discussion_post` and `new_question_post` are absent. `content_reported` stays iff the reported-content flag is on and it was there. Every other notification type keeps its presence and value. |
| NotificationUtils.PopCourseWideTypes | openedx/core/djangoapps/notifications/utils.py:76-78 | A type remains iff it was present and is not course-wide. Every remaining type keeps its value. The presence check makes an absent type a no-op. |
| NotificationUtils.FilterCourseWidePreferences | openedx/core/djangoapps/notifications/utils.py:61-79 | With the course-wide flag on, the config is unchanged. Otherwise the filter succeeds iff every app has `notification_types`, and then the config becomes `CourseWideFiltered`. Otherwise it raises `KeyError('notification_types')` at the first app in key order without them, after the apps before it were filtered and with the apps from it on untouched. The key order is kept. |
| NotificationUtils.CourseWideFilterIdempotent | openedx/core/djangoapps/notifications/utils.py:73-78 | Filtering the course-wide types a second time changes nothing. A config on which the filter succeeds still lets it succeed afterwards. |
| NotificationUtils.CourseWideAbsentIsNoop | openedx/core/djangoapps/notifications/utils.py:77-78 | When no app holds any course-wide type, the filter leaves the config exactly as it was. |
| NotificationUtils.FilterAppsIdempotent | openedx/core/djangoapps/notifications/utils.py:74-78 | Removing the same types from every app twice is the same as removing them once. |
| NotificationUtils.VisibilitySettingsKeys | openedx/core/djangoapps/notifications/utils.py:102-107 | A name is a key of the visibility map iff some registry entry of that name has a non-empty `visible_to`. |
| NotificationUtils.VisibilitySettingsValue | openedx/core/djangoapps/notifications/utils.py:103-105 | A name is mapped to the `visible_to` of the last registry entry of that name with a non-empty `visible_to`. |
| NotificationUtils.VisibilitySettingsOfDistinctNames | openedx/core/djangoapps/notifications/utils.py:103-105 | When registry names are distinct, every entry with a non-empty `visible_to` is mapped from its name to exactly that list. |
| NotificationUtils.GetNotificationTypesWithVisibilitySettings | openedx/core/djangoapps/notifications/utils.py:94-107 | The loop over the registry builds exactly `VisibilitySettings(registry)`, whose keys and values the three lemmas above characterize. |
| NotificationUtils.IsVisibleTo | openedx/core/djangoapps/notifications/utils.py:128-132 | The role loop answers true iff some role of `visible_to` is among the user's forum roles. |
| NotificationUtils.PopHiddenTypes | openedx/core/djangoapps/notifications/utils.py:127-136 | It succeeds iff every hidden type (every type in the visibility map none of whose roles the user has) is present. It then leaves exactly the present types minus the hidden ones. Otherwise it raises `KeyError` for a hidden type that is absent, having popped only hidden types. |
| NotificationUtils.FilterAppTypes | openedx/core/djangoapps/notifications/utils.py:125-136 | An app without `notification_types` is left alone. An app with them either loses exactly its hidden types, when it has all of them, or raises `KeyError` for a missing hidden type with only hidden types popped and its other settings unchanged. |
| NotificationUtils.VisibleFilteredEffect | openedx/core/djangoapps/notifications/utils.py:124-137 | After the forum-role filter the config has the same apps. Apps without `notification_types` are unchanged. In the others, a type of the visibility map stays iff one of its roles is the user's. Every type that is not hidden, in the map or outside it, keeps its presence and value. The other settings are unchanged. |
| NotificationUtils.FilterOutVisibleNotifications | openedx/core/djangoapps/notifications/utils.py:110-137 | The filter succeeds iff every app with `notification_types` holds every hidden type, and then the config becomes `VisibleFiltered`. Otherwise it raises `KeyError` for a hidden type missing from the first failing app in key order. The apps before that app are filtered, the apps after it are untouched, and it has lost some hidden types. The key order is kept. |
| NotificationUtils.VisibleFilterFailsOnRepeat | openedx/core/djangoapps/notifications/utils.py:133-136 | When some type is hidden and some app has `notification_types`, running the forum-role filter again on its own result raises `KeyError`, because `pop` has no default. |
| NotificationUtils.RemovePreferencesWithNoAccess | openedx/core/djangoapps/notifications/utils.py:140-156 | The forum-role filter with the visibility map built from the registry: the same success condition, result and failure state as `FilterOutVisibleNotifications`, over `VisibilitySettings(registry)`. |

## Left out

- NotificationUtils.FilterOutVisibleNotifications: on a `KeyError` the model names some hidden type missing from the failing app, and a partial removal of hidden types from it. It does not name the exact type the source reports, because the iteration order of the visibility dictionary is not modelled.
- NotificationUtils.PopHiddenTypes: the same weakening as above, for one app.
- NotificationUtils.FilterAppTypes: the same weakening as above, for one app.
- NotificationUtils.RemovePreferencesWithNoAccess: the same weakening as above. It also does not model the lookup of `notification_preference_config` and `course_id` in the outer preferences dictionary (a `KeyError` when they are missing). The config and the roles are passed in directly.
- NotificationUtils.FilterCourseWidePreferences: takes the `notification_preference_config` dictionary directly. The lookup of that key in the outer preferences dictionary, and its `KeyError` when the key is missing, are not modelled. Returning the same preferences object is modelled as changing the config in place.
- NotificationUtils.GetListInBatches: the source is a lazy generator, so its `ValueError` for a zero batch size surfaces at the first iteration rather than at the call. The model returns all batches at once. A non-integer batch size is not modelled.
- NotificationUtils.GetShowNotificationsTray: the `CourseEnrollment` query is replaced by the sequence of course ids it returns, and `SHOW_NOTIFICATIONS_TRAY.is_enabled` by a predicate.
- NotificationUtils.GetNotificationTypesWithVisibilitySettings: the `@request_cached` decorator and the deferred import of `COURSE_NOTIFICATION_TYPES` are not modelled. The registry is a parameter, as its values in iteration order. Only `name` and `visible_to` of each entry are modelled. A missing or `None` `visible_to` is represented as the empty list, since the source treats both as falsy.
- `get_user_forum_roles` is a database query. It is not modelled, and its result is the `roles` parameter.
- Waffle flags (`ENABLE_COURSEWIDE_NOTIFICATIONS`, `ENABLE_REPORTED_CONTENT_NOTIFICATIONS`, `SHOW_NOTIFICATIONS_TRAY`) are not modelled. They are booleans or a predicate.
- Dynamic typing is not modelled. `notification_types`, when present, is assumed to be a dictionary; a non-dictionary value there would raise a different exception in the source. Names and roles are compared as strings.
- Aliasing between nested dictionaries shared by several apps is not modelled. Each app's preferences are a value.
- The clipboard-paste integration tests and the `toggles.py` flag declaration hold no logic of this component and are not part of this model.
