/**
 * The field checks of src/helpers/auxiliaryMethods.js: `isValidString`,
 * the email pattern, `validateInput` (which collects one message per failing
 * field, in a fixed order), `getStringFromJson` and the message built by
 * `handleError`.
 */
module InputValidators {
  import opened Wrappers
  import opened Text
  import opened JsValues
  import opened IpValidators

  // ---------------------------------------------------------------------
  // isValidString, handleError, getStringFromJson
  // ---------------------------------------------------------------------

  /** `isValidString`: truthy exactly for a string whose trim is not empty. */
  predicate IsValidString(v: Value) {
    Truthy(v) && v.Str? && JsTrim(v.s) != []
  }

  /** A string fails `isValidString` exactly when it is made only of whitespace. */
  lemma IsValidStringIff(v: Value)
    ensures IsValidString(v) <==> v.Str? && !AllJsWhitespace(v.s)
  {
    if v.Str? {
      JsTrimEmptyIff(v.s);
    }
  }

  /** The message of the Error that `handleError` builds. */
  function HandleError(operation: string, cause: string): (message: string)
    ensures StartsWith(message, "Error in " + operation + ": ")
    ensures |message| == |"Error in " + operation + ": "| + |cause|
    ensures message[|"Error in " + operation + ": "|..] == cause
  {
    "Error in " + operation + ": " + cause
  }

  /** For one operation, the message determines the cause it wraps. */
  lemma HandleErrorKeepsCause(operation: string, cause1: string, cause2: string)
    requires HandleError(operation, cause1) == HandleError(operation, cause2)
    ensures cause1 == cause2
  {
    var prefix := "Error in " + operation + ": ";
    assert HandleError(operation, cause1)[|prefix|..] == cause1;
    assert HandleError(operation, cause2)[|prefix|..] == cause2;
  }

  /**
   * `getStringFromJson(node, field)`: `node?.[field]?.toString() ?? null`.
   * A missing node, a missing field or a null field give `null` (`None`);
   * `numberText` is `Number.prototype.toString`, which is not modelled.
   */
  function GetStringFromJson(node: Value, field: string, numberText: real -> string): (r: Option<string>)
    ensures r.None? <==> Get(node, field).Undefined? || Get(node, field).Null?
    ensures Get(node, field).Str? ==> r == Some(Get(node, field).s)
  {
    match Get(node, field)
    case Undefined => None
    case Null => None
    case Bool(b) => Some(if b then "true" else "false")
    case Num(x) => Some(numberText(x))
    case NaN => Some("NaN")
    case Str(s) => Some(s)
    case Obj(_) => Some("[object Object]")
  }

  // ---------------------------------------------------------------------
  // The email pattern /^[^\s@]+@[^\s@]+\.[^\s@]+$/
  // ---------------------------------------------------------------------

  /** `[^\s@]` */
  predicate EmailChar(c: char) {
    c != '@' && !IsJsWhitespace(c)
  }

  /** The text after the '@': `[^\s@]+\.[^\s@]+`, a dot with something on both sides. */
  predicate DomainShape(d: string) {
    exists p :: 0 < p < |d| - 1 && d[p] == '.'
  }

  /** What the email regex matches. */
  predicate EmailShape(s: string) {
    exists at :: 0 < at < |s| && s[at] == '@' && DomainShape(s[at + 1..])
      && forall i :: 0 <= i < |s| && i != at ==> EmailChar(s[i])
  }

  lemma EmailExamples()
    ensures EmailShape("a@b.co")
    ensures !EmailShape("a@b")
    ensures !EmailShape("a b@c.de")
  {
    var good := "a@b.co";
    assert good[2..][1] == '.';
    assert good[1] == '@';
    var noDot := "a@b";
    forall at | 0 < at < |noDot| && noDot[at] == '@' ensures !DomainShape(noDot[at + 1..]) {
      assert at == 1;
      assert |noDot[at + 1..]| == 1;
    }
    var spaced := "a b@c.de";
    assert IsJsWhitespace(spaced[1]) && spaced[1] != '@';
  }

  /** There is exactly one '@', so the local part and domain are determined by the address. */
  lemma EmailHasOneAt(s: string, at1: nat, at2: nat)
    requires EmailShape(s)
    requires at1 < |s| && s[at1] == '@' && at2 < |s| && s[at2] == '@'
    ensures at1 == at2
  {
  }

  // ---------------------------------------------------------------------
  // validateInput
  // ---------------------------------------------------------------------

  const EmailRequired := "Email is required"
  const EmailInvalid := "Invalid email format"
  const IpRequired := "IP is required"
  const IpInvalid := "Invalid IP format"
  const CityRequired := "City is required"
  const TimezoneRequired := "Timezone is required"
  const CountryRequired := "Country is required"
  const LocalTimeRequired := "Local time is required"
  const LatitudeRequired := "Latitude is required"
  const LatitudeRange := "Latitude must be between -90 and 90"
  const LongitudeRequired := "Longitude is required"
  const LongitudeRange := "Longitude must be between -180 and 180"

  /** The result object `{ isValid, errors }`. */
  datatype Validation = Validation(isValid: bool, errors: seq<string>)

  /** The message the email field contributes, if any. */
  function EmailErrors(email: Value): seq<string> {
    if !IsValidString(email) then [EmailRequired]
    else if !EmailShape(JsTrim(email.s)) then [EmailInvalid]
    else []
  }

  function IpErrors(ip: Value): seq<string> {
    if !IsValidString(ip) then [IpRequired]
    else if !IpAccepted(ip) then [IpInvalid]
    else []
  }

  function RequiredErrors(v: Value, message: string): seq<string> {
    if IsValidString(v) then [] else [message]
  }

  /**
   * A coordinate: required, then `parseFloat` (`None` for NaN) must give a
   * value within [-bound, bound].
   */
  function CoordinateErrors(v: Value, parseFloat: string -> Option<real>, bound: real,
                            required: string, range: string): seq<string>
  {
    if !IsValidString(v) then [required]
    else
      var n := parseFloat(v.s);
      if n.None? || n.value < -bound || n.value > bound then [range] else []
  }

  /** The messages `validateInput` collects, in its order: email, ip, city, timezone, country, local time, latitude, longitude. */
  function InputErrors(email: Value, ip: Value, city: Value, country: Value, localtime: Value,
                       timezone: Value, latitude: Value, longitude: Value,
                       parseFloat: string -> Option<real>): seq<string>
  {
    EmailErrors(email) + IpErrors(ip)
    + RequiredErrors(city, CityRequired) + RequiredErrors(timezone, TimezoneRequired)
    + RequiredErrors(country, CountryRequired) + RequiredErrors(localtime, LocalTimeRequired)
    + CoordinateErrors(latitude, parseFloat, 90.0, LatitudeRequired, LatitudeRange)
    + CoordinateErrors(longitude, parseFloat, 180.0, LongitudeRequired, LongitudeRange)
  }

  /** The email block of `validateInput`: "required" when blank, else the pattern test on the trimmed text. */
  method PushEmailErrors(errors: seq<string>, email: Value) returns (pushed: seq<string>)
    ensures pushed == errors + EmailErrors(email)
  {
    pushed := errors;
    if !IsValidString(email) {
      pushed := pushed + [EmailRequired];
    } else if !EmailShape(JsTrim(email.s)) {
      pushed := pushed + [EmailInvalid];
    }
  }

  /** The ip block: "required" when blank, else `isValidIP`. */
  method PushIpErrors(errors: seq<string>, ip: Value) returns (pushed: seq<string>)
    ensures pushed == errors + IpErrors(ip)
  {
    pushed := errors;
    if !IsValidString(ip) {
      pushed := pushed + [IpRequired];
    } else {
      var ok := IsValidIP(ip);
      if !ok {
        pushed := pushed + [IpInvalid];
      }
    }
  }

  /** `if (!isValidString(v)) errors.push(message)` */
  method PushIfMissing(errors: seq<string>, v: Value, message: string) returns (pushed: seq<string>)
    ensures pushed == errors + RequiredErrors(v, message)
  {
    pushed := errors;
    if !IsValidString(v) {
      pushed := pushed + [message];
    }
  }

  /** A coordinate block: "required" when blank, else the range message when the parse is NaN or out of range. */
  method PushCoordinateErrors(errors: seq<string>, v: Value, parseFloat: string -> Option<real>, bound: real,
                              required: string, range: string)
    returns (pushed: seq<string>)
    ensures pushed == errors + CoordinateErrors(v, parseFloat, bound, required, range)
  {
    pushed := errors;
    if !IsValidString(v) {
      pushed := pushed + [required];
    } else {
      var n := parseFloat(v.s);
      if n.None? || n.value < -bound || n.value > bound {
        pushed := pushed + [range];
      }
    }
  }

  /** `validateInput`: every field is checked, each failing field pushes one message. */
  method ValidateInput(email: Value, ip: Value, city: Value, country: Value, localtime: Value,
                       timezone: Value, latitude: Value, longitude: Value,
                       parseFloat: string -> Option<real>)
    returns (result: Validation)
    ensures result.errors == InputErrors(email, ip, city, country, localtime, timezone, latitude, longitude, parseFloat)
    ensures result.isValid <==> result.errors == []
  {
    var errors: seq<string> := [];
    errors := PushEmailErrors(errors, email);
    assert errors == EmailErrors(email);
    errors := PushIpErrors(errors, ip);
    errors := PushIfMissing(errors, city, CityRequired);
    errors := PushIfMissing(errors, timezone, TimezoneRequired);
    errors := PushIfMissing(errors, country, CountryRequired);
    errors := PushIfMissing(errors, localtime, LocalTimeRequired);
    errors := PushCoordinateErrors(errors, latitude, parseFloat, 90.0, LatitudeRequired, LatitudeRange);
    errors := PushCoordinateErrors(errors, longitude, parseFloat, 180.0, LongitudeRequired, LongitudeRange);
    result := Validation(errors == [], errors);
  }

  /** Every field passes its own check. */
  predicate FieldsOk(email: Value, ip: Value, city: Value, country: Value, localtime: Value,
                     timezone: Value, latitude: Value, longitude: Value,
                     parseFloat: string -> Option<real>)
  {
    && IsValidString(email) && EmailShape(JsTrim(email.s))
    && IpAccepted(ip)
    && IsValidString(city) && IsValidString(timezone) && IsValidString(country) && IsValidString(localtime)
    && IsValidString(latitude) && parseFloat(latitude.s).Some? && -90.0 <= parseFloat(latitude.s).value <= 90.0
    && IsValidString(longitude) && parseFloat(longitude.s).Some? && -180.0 <= parseFloat(longitude.s).value <= 180.0
  }

  lemma IpAcceptedIsValidString(ip: Value)
    requires IpAccepted(ip)
    ensures IsValidString(ip)
  {
    assert Split([], ".") == [[]];
  }

  /** No short-circuit: at most one message per field, so at most eight. */
  lemma AtMostEightErrors(email: Value, ip: Value, city: Value, country: Value, localtime: Value,
                          timezone: Value, latitude: Value, longitude: Value,
                          parseFloat: string -> Option<real>)
    ensures |InputErrors(email, ip, city, country, localtime, timezone, latitude, longitude, parseFloat)| <= 8
  {
  }

  /** The input is valid exactly when every field passes its own check. */
  lemma ValidIffFieldsOk(email: Value, ip: Value, city: Value, country: Value, localtime: Value,
                         timezone: Value, latitude: Value, longitude: Value,
                         parseFloat: string -> Option<real>)
    ensures InputErrors(email, ip, city, country, localtime, timezone, latitude, longitude, parseFloat) == []
            <==> FieldsOk(email, ip, city, country, localtime, timezone, latitude, longitude, parseFloat)
  {
    if IpAccepted(ip) {
      IpAcceptedIsValidString(ip);
    }
  }

  /** The fields are checked independently: the city message appears exactly when the city fails, whatever the others are. */
  lemma CityMessageIff(email: Value, ip: Value, city: Value, country: Value, localtime: Value,
                       timezone: Value, latitude: Value, longitude: Value,
                       parseFloat: string -> Option<real>)
    ensures CityRequired in InputErrors(email, ip, city, country, localtime, timezone, latitude, longitude, parseFloat)
            <==> !IsValidString(city)
  {
    assert CityRequired !in EmailErrors(email);
    assert CityRequired !in IpErrors(ip);
    assert CityRequired !in RequiredErrors(timezone, TimezoneRequired);
    assert CityRequired !in RequiredErrors(country, CountryRequired);
    assert CityRequired !in RequiredErrors(localtime, LocalTimeRequired);
    assert CityRequired !in CoordinateErrors(latitude, parseFloat, 90.0, LatitudeRequired, LatitudeRange);
    assert CityRequired !in CoordinateErrors(longitude, parseFloat, 180.0, LongitudeRequired, LongitudeRange);
  }

  /** A NaN or out-of-range latitude yields the range message, never the "required" one. */
  lemma LatitudeMessages(v: Value, parseFloat: string -> Option<real>)
    ensures CoordinateErrors(v, parseFloat, 90.0, LatitudeRequired, LatitudeRange) == []
            <==> IsValidString(v) && parseFloat(v.s).Some? && -90.0 <= parseFloat(v.s).value <= 90.0
    ensures IsValidString(v) && parseFloat(v.s).None?
            ==> CoordinateErrors(v, parseFloat, 90.0, LatitudeRequired, LatitudeRange) == [LatitudeRange]
  {
  }

  /** With the six location fields left undefined the input can never be valid. */
  lemma EmailAndIpAloneNeverValid(email: Value, ip: Value, parseFloat: string -> Option<real>)
    ensures InputErrors(email, ip, Undefined, Undefined, Undefined, Undefined, Undefined, Undefined, parseFloat) != []
    ensures CityRequired in InputErrors(email, ip, Undefined, Undefined, Undefined, Undefined, Undefined, Undefined, parseFloat)
  {
    CityMessageIff(email, ip, Undefined, Undefined, Undefined, Undefined, Undefined, Undefined, parseFloat);
  }
}
