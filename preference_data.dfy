/** The data the notification helpers work on: preference entries, per-app
    preference records, the notification-type registry and the mutable
    per-course preference configuration. */
module PreferenceData {
  import opened Outcomes

  /** A JSON-like value, as stored inside the preference dictionaries. */
  datatype Value =
    | Null
    | Bool(b: bool)
    | Int(i: int)
    | Str(s: string)
    | List(items: seq<Value>)
    | Dict(entries: map<string, Value>)

  /** A flat, normalized preference entry (a dict with keys such as `name`
      and `app_name`). */
  type Entry = map<string, Value>

  /** The key under which an app's per-type preferences live. */
  const NotificationTypesKey: string := "notification_types"

  /** The preferences of one notification app. `notificationTypes` is the
      dict stored under `notification_types` (absent when the app has none);
      `otherSettings` holds every other key of the app's dict. */
  datatype AppPrefs = AppPrefs(
    notificationTypes: Option<map<string, Value>>,
    otherSettings: map<string, Value>)

  /** One entry of the course notification-type registry. An absent or
      `None` `visible_to` is represented by the empty sequence, which the
      helpers treat exactly like an empty list. */
  datatype NotificationType = NotificationType(name: string, visibleTo: seq<string>)

  /** No key occurs twice in the order of a dict. */
  predicate Distinct(order: seq<string>)
  {
    forall i, j :: 0 <= i < j < |order| ==> order[i] != order[j]
  }

  /** `order` lists the keys of `apps` exactly once each: a Python dict's
      insertion order. */
  ghost predicate KeysInOrder(order: seq<string>, apps: map<string, AppPrefs>)
  {
    && (forall k :: k in apps <==> k in order)
    && Distinct(order)
  }

  /** The `notification_preference_config` dict of a user's course
      preferences: app name to app preferences, iterated in insertion order.
      The filters mutate it in place. */
  class PreferenceConfig {
    var order: seq<string>
    var apps: map<string, AppPrefs>

    ghost predicate Valid()
      reads this
    {
      KeysInOrder(order, apps)
    }

    constructor (order: seq<string>, apps: map<string, AppPrefs>)
      requires KeysInOrder(order, apps)
      ensures Valid()
      ensures this.order == order && this.apps == apps
    {
      this.order := order;
      this.apps := apps;
    }
  }
}
