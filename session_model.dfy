/**
 * The session record of src/model/session.js: construction, the DynamoDB
 * item mapping in both directions, the validity test and the JSON view.
 */
module SessionModel {
  import opened Wrappers
  import opened JsValues

  /** The eight fields of a Session; `connectionTime` is the ISO instant of construction. */
  datatype Session = Session(
    email: Value, connectionTime: string, ip: Value, city: Value,
    timezone: Value, country: Value, latitude: Value, longitude: Value)

  /** The stored item: partition key `id`, sort key `connection_time`, and the six other attributes. */
  datatype Item = Item(
    id: Value, connection_time: string, ip: Value, city: Value,
    timezone: Value, country: Value, latitude: Value, longitude: Value)

  /** The message of the TypeError thrown when reading `.latitude` of a missing coordinates object. */
  function CoordinatesTypeError(coordinates: Value): string
    requires coordinates.Undefined? || coordinates.Null?
  {
    "Cannot read properties of " + (if coordinates.Undefined? then "undefined" else "null") + " (reading 'latitude')"
  }

  /**
   * `new Session(email, ip, city, timezone, country, coordinates)` at the
   * instant `now`: a TypeError when `coordinates` is undefined or null.
   */
  function NewSession(email: Value, ip: Value, city: Value, timezone: Value, country: Value,
                      coordinates: Value, now: string): (r: Result<Session, string>)
    ensures r.Failure? <==> coordinates.Undefined? || coordinates.Null?
    ensures r.Success? ==>
      && r.value.email == email && r.value.connectionTime == now && r.value.ip == ip
      && r.value.city == city && r.value.timezone == timezone && r.value.country == country
      && r.value.latitude == Get(coordinates, "latitude") && r.value.longitude == Get(coordinates, "longitude")
  {
    if coordinates.Undefined? || coordinates.Null? then Failure(CoordinatesTypeError(coordinates))
    else Success(Session(email, now, ip, city, timezone, country,
                         Get(coordinates, "latitude"), Get(coordinates, "longitude")))
  }

  /**
   * `isValid()` exactly as written: `!!(email && connectionTime && ip && city)`
   * followed by `&& timezone && country && latitude && longitude`, which
   * yields the first falsy operand or the longitude.
   */
  function IsValid(s: Session): (v: Value)
    ensures Truthy(v) <==>
      && Truthy(s.email) && s.connectionTime != [] && Truthy(s.ip) && Truthy(s.city)
      && Truthy(s.timezone) && Truthy(s.country) && Truthy(s.latitude) && Truthy(s.longitude)
  {
    var head := Bool(Truthy(And(And(And(s.email, Str(s.connectionTime)), s.ip), s.city)));
    And(And(And(And(head, s.timezone), s.country), s.latitude), s.longitude)
  }

  /** `toDynamoItem` */
  function ToDynamoItem(s: Session): (item: Item)
    ensures item.id == s.email && item.connection_time == s.connectionTime
    ensures item.ip == s.ip && item.city == s.city && item.timezone == s.timezone && item.country == s.country
    ensures item.latitude == s.latitude && item.longitude == s.longitude
  {
    Item(s.email, s.connectionTime, s.ip, s.city, s.timezone, s.country, s.latitude, s.longitude)
  }

  /**
   * `fromDynamoItem` as written: seven arguments go to a six-parameter
   * constructor, so every field after the email shifts by one, the country
   * takes the place of the coordinates object and the coordinates object
   * itself is dropped; the new session gets the current instant.
   */
  function FromDynamoItem(item: Item, now: string): (r: Result<Session, string>)
    ensures r.Failure? <==> item.country.Undefined? || item.country.Null?
    ensures r.Success? ==>
      && r.value.email == item.id && r.value.connectionTime == now
      && r.value.ip == Str(item.connection_time) && r.value.city == item.ip
      && r.value.timezone == item.city && r.value.country == item.timezone
      && r.value.latitude == Get(item.country, "latitude") && r.value.longitude == Get(item.country, "longitude")
  {
    NewSession(item.id, Str(item.connection_time), item.ip, item.city, item.timezone, item.country, now)
  }

  /** The mapping that `fromDynamoItem` evidently intends: each attribute back to its own field, stored time kept. */
  function FromDynamoItemFixed(item: Item): (s: Session)
    ensures ToDynamoItem(s) == item
  {
    Session(item.id, item.connection_time, item.ip, item.city, item.timezone, item.country, item.latitude, item.longitude)
  }

  /** `toJSON`: the same fields, with the two coordinates regrouped under `coordinates`. */
  function ToJSON(s: Session): (json: Value)
    ensures Get(json, "email") == s.email && Get(json, "connectionTime") == Str(s.connectionTime)
    ensures Get(json, "ip") == s.ip && Get(json, "city") == s.city
    ensures Get(json, "timezone") == s.timezone && Get(json, "country") == s.country
    ensures Get(Get(json, "coordinates"), "latitude") == s.latitude
    ensures Get(Get(json, "coordinates"), "longitude") == s.longitude
  {
    Obj(map[
      "email" := s.email, "connectionTime" := Str(s.connectionTime), "ip" := s.ip, "city" := s.city,
      "timezone" := s.timezone, "country" := s.country,
      "coordinates" := Obj(map["latitude" := s.latitude, "longitude" := s.longitude])])
  }

  /** The corrected mapping inverts `toDynamoItem`. */
  lemma FixedRoundTrip(s: Session)
    ensures FromDynamoItemFixed(ToDynamoItem(s)) == s
  {
  }

  /**
   * The mapping as written does not: the stored time lands in `ip`, the ip
   * in `city`, and, since a string country has no `latitude` property, the
   * rebuilt session has no coordinates and is never valid.
   */
  lemma FromDynamoItemShifts(s: Session, now: string)
    requires s.country.Str?
    ensures FromDynamoItem(ToDynamoItem(s), now).Success?
    ensures var r := FromDynamoItem(ToDynamoItem(s), now).value;
      && r.ip == Str(s.connectionTime) && r.city == s.ip && r.timezone == s.city && r.country == s.timezone
      && r.latitude == Undefined && r.longitude == Undefined && r.connectionTime == now
      && !Truthy(IsValid(r))
  {
  }

  /** A concrete valid session that the as-written mapping does not give back. */
  lemma FromDynamoItemIsNotInverse()
    ensures var s := Session(Str("a@b.co"), "2024-01-01T00:00:00.000Z", Str("1.2.3.4"), Str("Bogota"),
                             Str("America/Bogota"), Str("Colombia"), Num(4.6), Num(-74.1));
      && Truthy(IsValid(s))
      && FromDynamoItem(ToDynamoItem(s), s.connectionTime) != Success(s)
  {
    var s := Session(Str("a@b.co"), "2024-01-01T00:00:00.000Z", Str("1.2.3.4"), Str("Bogota"),
                     Str("America/Bogota"), Str("Colombia"), Num(4.6), Num(-74.1));
    FromDynamoItemShifts(s, s.connectionTime);
  }

  /** `toJSON` keeps every field: two sessions with the same JSON are the same session. */
  lemma ToJSONInjective(a: Session, b: Session)
    requires ToJSON(a) == ToJSON(b)
    ensures a == b
  {
    var fa, fb := ToJSON(a).fields, ToJSON(b).fields;
    assert fa["email"] == a.email && fb["email"] == b.email;
    assert fa["connectionTime"] == Str(a.connectionTime) && fb["connectionTime"] == Str(b.connectionTime);
    assert fa["ip"] == a.ip && fb["ip"] == b.ip;
    assert fa["city"] == a.city && fb["city"] == b.city;
    assert fa["timezone"] == a.timezone && fb["timezone"] == b.timezone;
    assert fa["country"] == a.country && fb["country"] == b.country;
    assert fa["coordinates"].fields["latitude"] == a.latitude && fb["coordinates"].fields["latitude"] == b.latitude;
    assert fa["coordinates"].fields["longitude"] == a.longitude && fb["coordinates"].fields["longitude"] == b.longitude;
  }

  /** A coordinate of 0 makes a session invalid, so a session at (0, 0) can never be saved. */
  lemma ZeroCoordinateIsInvalid(s: Session)
    requires s.latitude == Num(0.0) || s.longitude == Num(0.0)
    ensures !Truthy(IsValid(s))
  {
  }
}
