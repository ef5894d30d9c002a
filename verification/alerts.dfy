/**
 * The alert subscription page (alerts.php): subscribe to a topic, creating
 * the subscriber on first use; unsubscribe; change an alert's frequency;
 * list a subscriber's alerts; and suggest the most common case types as
 * topics.
 */
module Alerts {
  import opened Wrappers
  import opened Text
  import opened Sql
  import opened Schema
  import opened Escape

  /**
   * The posted form. `email` is FILTER_VALIDATE_EMAIL's verdict on the field
   * (`None` when it is absent or not an address) and `alertId` is
   * FILTER_VALIDATE_INT's; the other fields are as posted (`None` when absent).
   */
  datatype Form = Form(
    action: Option<string>,
    email: Option<string>,
    name: Option<string>,
    topic: Option<string>,
    frequency: Option<string>,
    alertId: Option<int>)

  /** The messages the page shows; `Subscribed` carries the topic as the message spells it. */
  datatype Notice =
    | MissingFields
    | InvalidAlertId
    | Subscribed(topic: string)
    | Unsubscribed
    | Updated

  /** The store after the POST, the error shown and the success message shown. */
  datatype Outcome = Outcome(db: Db, error: Option<Notice>, success: Option<Notice>)

  /** One row of the listing: the subscriber's columns and the alert's. */
  datatype Listed = Listed(user: User, alert: Alert)

  const TopicLimit := 10

  function NoticeText(n: Notice): string {
    match n
    case MissingFields => "Please fill in all required fields"
    case InvalidAlertId => "Invalid alert ID"
    case Subscribed(topic) => "Successfully subscribed to alerts for: " + topic
    case Unsubscribed => "Successfully unsubscribed from alert"
    case Updated => "Successfully updated alert frequency"
  }

  /** The value the `frequency` column stores for each frequency. */
  function FrequencyName(f: Frequency): string {
    match f
    case Daily => "daily"
    case Weekly => "weekly"
    case Monthly => "monthly"
  }

  /** The `frequency` field as the page reads it: one of the three names, anything else weekly. */
  function ParseFrequency(raw: Option<string>): (f: Frequency)
    ensures forall g :: raw == Some(FrequencyName(g)) ==> f == g
    ensures (forall g :: raw != Some(FrequencyName(g))) ==> f == Weekly
  {
    assert FrequencyName(Daily) == "daily" && FrequencyName(Monthly) == "monthly";
    if raw == Some("daily") then Daily
    else if raw == Some("monthly") then Monthly
    else Weekly
  }

  /** A posted text field after sanitizeInput; an absent field reads as "". */
  function Field(strip: string -> string, raw: Option<string>): string {
    SanitizeInput(strip, raw.GetOr(""))
  }

  /** The check `!$email || !$name || !$topic` fails: every field holds a value PHP treats as true. */
  predicate Filled(email: Option<string>, name: string, topic: string) {
    email.Some? && !PhpEmpty(email.value) && !PhpEmpty(name) && !PhpEmpty(topic)
  }

  /** `SELECT id FROM users WHERE email = ?` then `fetch()`: the first subscriber with that address. */
  function UserByEmail(db: Db, email: string): (r: Option<User>)
    ensures r.Some? ==> r.value in db.users && r.value.email == email
    ensures r.None? <==> forall u :: u in db.users ==> u.email != email
  {
    First(db.users, (u: User) => u.email == email)
  }

  /** Only the two tables the page writes, and their counters, differ between `a` and `b`. */
  predicate OnlyAlertTablesDiffer(a: Db, b: Db) {
    a.sentences == b.sentences && a.classifications == b.classifications
    && a.analyses == b.analyses && a.comparisons == b.comparisons
  }

  /**
   * The `subscribe` action. `now` is the `created_at` the store gives the new
   * row. A missing address, name or topic stores nothing; otherwise the
   * subscriber with that address is reused, or created with the next user id,
   * and one alert is appended for them.
   */
  function Subscribe(db: Db, strip: string -> string, form: Form, now: int): (r: Outcome)
    ensures var name := Field(strip, form.name);
            var topic := Field(strip, form.topic);
            !Filled(form.email, name, topic) ==> r == Outcome(db, Some(MissingFields), None)
    ensures var name := Field(strip, form.name);
            var topic := Field(strip, form.topic);
            Filled(form.email, name, topic) ==>
              && OnlyAlertTablesDiffer(db, r.db)
              && r.error.None? && r.success == Some(Subscribed(HtmlSpecialChars(topic)))
              && |r.db.alerts| == |db.alerts| + 1 && r.db.alerts[..|db.alerts|] == db.alerts
              && r.db.alerts[|db.alerts|] == Alert(db.nextAlertId, r.db.alerts[|db.alerts|].userId, topic, ParseFrequency(form.frequency), now)
              && r.db.nextAlertId == db.nextAlertId + 1
              && (exists u :: u in r.db.users && u.email == form.email.value && u.id == r.db.alerts[|db.alerts|].userId)
              && (UserByEmail(db, form.email.value).Some? ==> r.db.users == db.users && r.db.nextUserId == db.nextUserId)
              && (UserByEmail(db, form.email.value).None? ==>
                    r.db.users == db.users + [User(db.nextUserId, form.email.value, name)] && r.db.nextUserId == db.nextUserId + 1)
  {
    var name := Field(strip, form.name);
    var topic := Field(strip, form.topic);
    if !Filled(form.email, name, topic) then Outcome(db, Some(MissingFields), None)
    else
      var email := form.email.value;
      var existing := UserByEmail(db, email);
      var created := User(db.nextUserId, email, name);
      var users := if existing.Some? then db.users else db.users + [created];
      var owner := if existing.Some? then existing.value else created;
      assert owner in users;
      var alert := Alert(db.nextAlertId, owner.id, topic, ParseFrequency(form.frequency), now);
      var stored := db.(users := users, alerts := db.alerts + [alert],
                        nextUserId := if existing.Some? then db.nextUserId else db.nextUserId + 1,
                        nextAlertId := db.nextAlertId + 1);
      assert stored.alerts[..|db.alerts|] == db.alerts;
      Outcome(stored, None, Some(Subscribed(HtmlSpecialChars(topic))))
  }

  /** The `unsubscribe` action: with a valid id, every alert with that id is deleted, whoever it belongs to. */
  function Unsubscribe(db: Db, alertId: Option<int>): (r: Outcome)
    ensures InvalidId(alertId) ==> r == Outcome(db, Some(InvalidAlertId), None)
    ensures !InvalidId(alertId) ==>
              && r.error.None? && r.success == Some(Unsubscribed)
              && r.db == db.(alerts := r.db.alerts)
              && (forall a :: a in r.db.alerts ==> a in db.alerts && a.id != alertId.value)
              && (forall a :: a in db.alerts && a.id != alertId.value ==> a in r.db.alerts)
  {
    if InvalidId(alertId) then Outcome(db, Some(InvalidAlertId), None)
    else Outcome(db.(alerts := Filter(db.alerts, (a: Alert) => a.id != alertId.value)), None, Some(Unsubscribed))
  }

  /** Every alert with id `id` set to frequency `f`. */
  function SetFrequency(alerts: seq<Alert>, id: int, f: Frequency): (r: seq<Alert>)
    ensures |r| == |alerts|
    ensures forall k :: 0 <= k < |alerts| ==>
              r[k].id == alerts[k].id && r[k].userId == alerts[k].userId && r[k].topic == alerts[k].topic && r[k].createdAt == alerts[k].createdAt
    ensures forall k :: 0 <= k < |alerts| ==> r[k].frequency == if alerts[k].id == id then f else alerts[k].frequency
  {
    seq(|alerts|, k requires 0 <= k < |alerts| => if alerts[k].id == id then alerts[k].(frequency := f) else alerts[k])
  }

  /**
   * The `update` action: with a valid id, every alert with that id gets the
   * posted frequency (weekly when it is not one of the three); nothing else
   * changes.
   */
  function Update(db: Db, alertId: Option<int>, frequency: Option<string>): (r: Outcome)
    ensures InvalidId(alertId) ==> r == Outcome(db, Some(InvalidAlertId), None)
    ensures r.db == db.(alerts := r.db.alerts) && |r.db.alerts| == |db.alerts|
    ensures !InvalidId(alertId) ==>
              forall k :: 0 <= k < |db.alerts| ==>
                && r.db.alerts[k] == db.alerts[k].(frequency := r.db.alerts[k].frequency)
                && (r.db.alerts[k].frequency == ParseFrequency(frequency) || db.alerts[k].id != alertId.value)
                && (db.alerts[k].id != alertId.value ==> r.db.alerts[k] == db.alerts[k])
    ensures !InvalidId(alertId) ==>
              r.error.None? && r.success == Some(Updated)
              && r.db == db.(alerts := SetFrequency(db.alerts, alertId.value, ParseFrequency(frequency)))
  {
    if InvalidId(alertId) then Outcome(db, Some(InvalidAlertId), None)
    else Outcome(db.(alerts := SetFrequency(db.alerts, alertId.value, ParseFrequency(frequency))), None, Some(Updated))
  }

  /** A POST: the action named by the `action` field; no action, or an unknown one, changes nothing and shows nothing. */
  function HandlePost(db: Db, strip: string -> string, form: Form, now: int): (r: Outcome)
    ensures form.action == Some("subscribe") ==> r == Subscribe(db, strip, form, now)
    ensures form.action == Some("unsubscribe") ==> r == Unsubscribe(db, form.alertId)
    ensures form.action == Some("update") ==> r == Update(db, form.alertId, form.frequency)
    ensures form.action !in {Some("subscribe"), Some("unsubscribe"), Some("update")} ==> r == Outcome(db, None, None)
  {
    if form.action == Some("subscribe") then Subscribe(db, strip, form, now)
    else if form.action == Some("unsubscribe") then Unsubscribe(db, form.alertId)
    else if form.action == Some("update") then Update(db, form.alertId, form.frequency)
    else Outcome(db, None, None)
  }

  /**
   * Whatever is posted, the page writes only the subscriber and alert
   * tables: subscribers are never changed or removed and at most one is
   * added, at most one alert is added, an error leaves the store as it was,
   * and the page shows nothing exactly when the action is missing or
   * unknown.
   */
  lemma PostTouchesOnlyAlertTables(db: Db, strip: string -> string, form: Form, now: int)
    ensures var r := HandlePost(db, strip, form, now);
            && OnlyAlertTablesDiffer(db, r.db)
            && |db.users| <= |r.db.users| <= |db.users| + 1 && r.db.users[..|db.users|] == db.users
            && |r.db.alerts| <= |db.alerts| + 1
            && (r.error.Some? ==> r.db == db && r.success.None?)
            && (r.error.None? && r.success.None? <==> form.action !in {Some("subscribe"), Some("unsubscribe"), Some("update")})
  {
    if form.action == Some("subscribe") {
      var r := Subscribe(db, strip, form, now);
      if r.error.None? {
        assert r.db.users[..|db.users|] == db.users by {
          if |r.db.users| > |db.users| {
            assert r.db.users == db.users + [User(db.nextUserId, form.email.value, Field(strip, form.name))];
          }
        }
      }
    }
  }

  function CreatedAt(row: Listed): int {
    row.alert.createdAt
  }

  /** The subscriber condition `u.email = ?`. */
  function HasEmail(email: string): User -> bool {
    (u: User) => u.email == email
  }

  /** The join condition `a.user_id = u.id`. */
  predicate Owns(u: User, a: Alert) {
    a.userId == u.id
  }

  /** `FROM users WHERE email = ?`: the subscribers with that address, each as often as stored. */
  function Owners(db: Db, email: string): (r: seq<User>)
    ensures forall u :: u in r <==> u in db.users && u.email == email
    ensures forall u :: multiset(r)[u] == if u.email == email then multiset(db.users)[u] else 0
  {
    var r := Filter(db.users, HasEmail(email));
    forall u ensures multiset(r)[u] == if u.email == email then multiset(db.users)[u] else 0 {
      FilterCount(db.users, HasEmail(email), u);
    }
    r
  }

  /** `JOIN alerts a ON a.user_id = u.id` on the subscribers with that address: each (subscriber, alert) pair once per stored copy of the two rows. */
  function OwnedAlerts(db: Db, email: string): (r: seq<(User, Alert)>)
    ensures forall row :: row in r <==> row.0 in db.users && row.0.email == email && row.1 in db.alerts && Owns(row.0, row.1)
    ensures forall u, a :: multiset(r)[(u, a)]
                           == if u.email == email && Owns(u, a) then Product(multiset(db.users)[u], multiset(db.alerts)[a]) else 0
  {
    var owners := Owners(db, email);
    var r := InnerJoin(owners, db.alerts, Owns);
    ListingCounts(db, email, owners, r);
    r
  }

  /** How often the join produces each pair, from how often it stores the subscriber and the alert. */
  lemma ListingCounts(db: Db, email: string, owners: seq<User>, pairs: seq<(User, Alert)>)
    requires forall u :: multiset(owners)[u] == if u.email == email then multiset(db.users)[u] else 0
    requires forall row :: row in pairs ==> Owns(row.0, row.1)
    requires forall u, a :: Owns(u, a) ==> multiset(pairs)[(u, a)] == Product(multiset(owners)[u], multiset(db.alerts)[a])
    ensures forall u, a :: multiset(pairs)[(u, a)]
                           == if u.email == email && Owns(u, a) then Product(multiset(db.users)[u], multiset(db.alerts)[a]) else 0
  {
    forall u, a ensures multiset(pairs)[(u, a)]
                        == if u.email == email && Owns(u, a) then Product(multiset(db.users)[u], multiset(db.alerts)[a]) else 0
    {
      if !Owns(u, a) {
        assert (u, a) !in pairs;
      }
    }
  }

  /**
   * The listing for the `email` query parameter after FILTER_VALIDATE_EMAIL:
   * every alert of every subscriber with that address, once for each stored
   * copy of the two rows, newest first; nothing when the address is missing
   * or invalid.
   */
  function Listing(db: Db, email: Option<string>): (r: seq<Listed>)
    ensures email.None? || PhpEmpty(email.value) ==> r == []
    ensures forall row :: row in r ==>
              row.user in db.users && row.user.email == email.value && row.alert in db.alerts && row.alert.userId == row.user.id
    ensures email.Some? && !PhpEmpty(email.value) ==> forall u, a :: u in db.users && u.email == email.value && a in db.alerts && a.userId == u.id ==> Listed(u, a) in r
    ensures email.Some? && !PhpEmpty(email.value) ==>
              forall u, a :: multiset(r)[Listed(u, a)]
                             == if u.email == email.value && a.userId == u.id then Product(multiset(db.users)[u], multiset(db.alerts)[a]) else 0
    ensures SortedDesc(r, CreatedAt)
  {
    if email.None? || PhpEmpty(email.value) then []
    else
      var pairs := OwnedAlerts(db, email.value);
      var rows := AsListed(pairs);
      var r := SortDesc(rows, CreatedAt);
      SortedKeepsRows(rows, r);
      r
  }

  /** The joined pairs as listing rows, in order. */
  function AsListed(pairs: seq<(User, Alert)>): (r: seq<Listed>)
    ensures forall row :: row in r <==> (row.user, row.alert) in pairs
    ensures forall u, a :: multiset(r)[Listed(u, a)] == multiset(pairs)[(u, a)]
    decreases |pairs|
  {
    if pairs == [] then []
    else
      assert pairs == [pairs[0]] + pairs[1..];
      [Listed(pairs[0].0, pairs[0].1)] + AsListed(pairs[1..])
  }

  lemma SortedKeepsRows<T>(xs: seq<T>, ys: seq<T>)
    requires multiset(ys) == multiset(xs)
    ensures forall x :: x in ys <==> x in xs
  {
    forall x ensures x in ys <==> x in xs {
      assert x in ys <==> x in multiset(ys);
      assert x in xs <==> x in multiset(xs);
    }
  }

  /** The case type of every classification, in storage order. */
  function CaseTypes(db: Db): (r: seq<string>)
    ensures |r| == |db.classifications|
    ensures forall k :: 0 <= k < |r| ==> r[k] == db.classifications[k].caseType
  {
    seq(|db.classifications|, k requires 0 <= k < |db.classifications| => db.classifications[k].caseType)
  }

  function Count(p: (string, nat)): int {
    p.1
  }

  /**
   * The suggested topics: the case types with the most classifications, up
   * to ten, most common first, each with its count and each listed once; a
   * case type left out is no more common than any listed one.
   */
  function PopularTopics(db: Db): (r: seq<(string, nat)>)
    ensures |r| <= TopicLimit
    ensures forall p :: p in r ==> p.0 in CaseTypes(db) && p.1 == multiset(CaseTypes(db))[p.0]
    ensures forall i, j :: 0 <= i < j < |r| ==> r[i].0 != r[j].0
    ensures SortedDesc(r, Count)
    ensures forall t :: t in CaseTypes(db) && (forall p :: p in r ==> p.0 != t) ==>
              |r| == TopicLimit && forall p :: p in r ==> multiset(CaseTypes(db))[t] <= p.1
  {
    var types := CaseTypes(db);
    var r := TopBy(GroupCount(types), Count, TopicLimit);
    KeptTopicsAreCounted(types, r);
    KeptTopicsAreDistinct(types, r);
    LeftOutTopicsAreRarer(types, r);
    r
  }

  lemma KeptTopicsAreCounted(types: seq<string>, r: seq<(string, nat)>)
    requires r == TopBy(GroupCount(types), Count, TopicLimit)
    ensures forall p :: p in r ==> p.0 in types && p.1 == multiset(types)[p.0]
  {
    forall p | p in r ensures p in GroupCount(types) {
      TopByKeepsInputRows(GroupCount(types), Count, TopicLimit, p);
    }
  }

  lemma KeptTopicsAreDistinct(types: seq<string>, r: seq<(string, nat)>)
    requires r == TopBy(GroupCount(types), Count, TopicLimit)
    ensures forall i, j :: 0 <= i < j < |r| ==> r[i].0 != r[j].0
  {
    DistinctKeysKept(GroupCount(types), r, (p: (string, nat)) => p.0);
  }

  lemma LeftOutTopicsAreRarer(types: seq<string>, r: seq<(string, nat)>)
    requires r == TopBy(GroupCount(types), Count, TopicLimit)
    ensures forall t :: t in types && (forall p :: p in r ==> p.0 != t) ==>
              |r| == TopicLimit && forall p :: p in r ==> multiset(types)[t] <= p.1
  {
    forall t | t in types && (forall p :: p in r ==> p.0 != t)
      ensures |r| == TopicLimit && forall p :: p in r ==> multiset(types)[t] <= p.1
    {
      TopicLeftOut(types, r, t);
    }
  }

  lemma TopicLeftOut(types: seq<string>, r: seq<(string, nat)>, t: string)
    requires r == TopBy(GroupCount(types), Count, TopicLimit)
    requires t in types && forall p :: p in r ==> p.0 != t
    ensures |r| == TopicLimit && forall p :: p in r ==> multiset(types)[t] <= p.1
  {
    var c := (t, multiset(types)[t]);
    assert c in GroupCount(types);
    TopByLeftOut(GroupCount(types), Count, TopicLimit, c);
  }

  /** After a subscription, the listing for the address shows the new alert with its topic and frequency. */
  lemma SubscriptionIsListed(db: Db, strip: string -> string, form: Form, now: int)
    requires Filled(form.email, Field(strip, form.name), Field(strip, form.topic))
    ensures var r := Subscribe(db, strip, form, now);
            exists row :: row in Listing(r.db, form.email) && row.alert.id == db.nextAlertId
              && row.alert.topic == Field(strip, form.topic) && row.alert.frequency == ParseFrequency(form.frequency)
  {
    var r := Subscribe(db, strip, form, now);
    var alert := r.db.alerts[|db.alerts|];
    assert alert in r.db.alerts;
    var u :| u in r.db.users && u.email == form.email.value && u.id == alert.userId;
    assert Listed(u, alert) in Listing(r.db, form.email);
  }

  /** A second subscription with the same address creates no second subscriber. */
  lemma SubscriberIsReused(db: Db, strip: string -> string, form: Form, again: Form, now: int, later: int)
    requires Filled(form.email, Field(strip, form.name), Field(strip, form.topic))
    requires again.email == form.email
    ensures var first := Subscribe(db, strip, form, now);
            var second := Subscribe(first.db, strip, again, later);
            second.db.users == first.db.users && second.db.nextUserId == first.db.nextUserId
  {
    var first := Subscribe(db, strip, form, now);
    var u :| u in first.db.users && u.email == form.email.value && u.id == first.db.alerts[|db.alerts|].userId;
    assert UserByEmail(first.db, form.email.value).Some?;
  }

  /** An unsubscribed alert is gone from every listing. */
  lemma UnsubscribedAlertIsNotListed(db: Db, alertId: Option<int>, email: Option<string>)
    requires !InvalidId(alertId)
    ensures forall row :: row in Listing(Unsubscribe(db, alertId).db, email) ==> row.alert.id != alertId.value
  {
  }

  /** Unsubscribing twice from the same id leaves the store as unsubscribing once. */
  lemma UnsubscribeIsIdempotent(db: Db, alertId: Option<int>)
    ensures Unsubscribe(Unsubscribe(db, alertId).db, alertId).db == Unsubscribe(db, alertId).db
  {
    if !InvalidId(alertId) {
      FilterIdempotent(db.alerts, (a: Alert) => a.id != alertId.value);
    }
  }

  /**
   * Neither action checks that the id names an alert: for an id no alert
   * has, the store is unchanged and the success message is shown all the same.
   */
  lemma UnknownIdStillSucceeds(db: Db, alertId: Option<int>, frequency: Option<string>)
    requires !InvalidId(alertId)
    requires forall a :: a in db.alerts ==> a.id != alertId.value
    ensures Unsubscribe(db, alertId) == Outcome(db, None, Some(Unsubscribed))
    ensures Update(db, alertId, frequency) == Outcome(db, None, Some(Updated))
  {
    FilterKeepsAll(db.alerts, (a: Alert) => a.id != alertId.value);
    var updated := SetFrequency(db.alerts, alertId.value, ParseFrequency(frequency));
    assert updated == db.alerts by {
      forall k | 0 <= k < |db.alerts| ensures updated[k] == db.alerts[k] {
        assert db.alerts[k] in db.alerts;
      }
    }
  }

  /** Setting the same frequency again changes nothing. */
  lemma UpdateIsIdempotent(db: Db, alertId: Option<int>, frequency: Option<string>)
    ensures Update(Update(db, alertId, frequency).db, alertId, frequency).db == Update(db, alertId, frequency).db
  {
    if !InvalidId(alertId) {
      var f := ParseFrequency(frequency);
      var once := SetFrequency(db.alerts, alertId.value, f);
      var twice := SetFrequency(once, alertId.value, f);
      assert twice == once by {
        forall k | 0 <= k < |once| ensures twice[k] == once[k] {
        }
      }
    }
  }

  /** After an update, every listed row for that alert shows the new frequency. */
  lemma UpdatedAlertIsListedWithFrequency(db: Db, alertId: Option<int>, frequency: Option<string>, email: Option<string>)
    requires !InvalidId(alertId)
    ensures forall row :: row in Listing(Update(db, alertId, frequency).db, email) && row.alert.id == alertId.value ==>
              row.alert.frequency == ParseFrequency(frequency)
  {
    var alerts := Update(db, alertId, frequency).db.alerts;
    forall row | row in Listing(Update(db, alertId, frequency).db, email) && row.alert.id == alertId.value
      ensures row.alert.frequency == ParseFrequency(frequency)
    {
      var k :| 0 <= k < |alerts| && alerts[k] == row.alert;
    }
  }

  /**
   * The page prints the success message without escaping it, so a browser
   * decodes it once: what it shows for the topic is the topic as stored,
   * which sanitizeInput has already escaped.
   */
  lemma ConfirmationShowsStoredTopic(db: Db, strip: string -> string, form: Form, now: int)
    requires Filled(form.email, Field(strip, form.name), Field(strip, form.topic))
    ensures var r := Subscribe(db, strip, form, now);
            r.success.Some? && r.success.value.Subscribed? && Unescape(r.success.value.topic) == r.db.alerts[|db.alerts|].topic
  {
    UnescapeInvertsHtmlSpecialChars(Field(strip, form.topic));
  }
}
