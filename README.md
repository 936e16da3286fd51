# save-session-lambda in Dafny

This project models the logic of the save-session Lambda. The Lambda decrypts a
user's e-mail, validates it together with the client IP, asks a geolocation
service where the IP is, stores the session in a DynamoDB table keyed by
(`id`, `connection_time`), and keeps at most five sessions per user. The
system exists as a JavaScript implementation and two Java revisions
(`session` and `savesession`). All three are modelled:

- **Validators.**
  - The JavaScript `isValidString`, `isValidIP`, `isValidIPv4Simple`,
    `isValidIPv6Simple`, `validateGroups` and `validateInput`, together with
    `getStringFromJson` and the message that `handleError` builds
    (`InputValidators`, `IpValidators`, with string primitives in `Text` and
    JavaScript values in `JsValues`).
  - The Java `getStringFromJson`, `getAndValidateParams` and
    `isValidIpFormat` (`JavaHelpers`). The two Java helper files have the
    same text for the last two, so they are modelled once. Lemmas place the
    Java IP test beside the JavaScript one.
- **Geolocation.**
  - The DTO `GeolocalizationResponse` (`GeolocationResponse`).
  - The JavaScript retry loop `getLocationInfo` (`CityService`).
  - The two Java `getCity` loops (`JavaCity`).
  - All three loops share the "first settling attempt out of four" shape in
    `Retry`. Each network reply is an oracle argument: `upstream(i)` is the
    reply to attempt i+1.
- **Session record.** The JavaScript `Session` class: construction, the
  DynamoDB item mapping in both directions, `isValid` and `toJSON`
  (`SessionModel`).
- **Store and trim policies.**
  - The table is a map from partition key to a map from sort key to item
    (`Store`). The two trim policies are functions over it.
  - The JavaScript repository (`JsDynamoRepository`) and the two Java
    repositories (`JavaSessionRepository`, `JavaSaveSessionRepository`,
    sharing `JavaSessionTable`) are classes that hold the table. Their
    methods update it in place.
  - Each SDK call that can fail receives its failure through a `Faults`
    record.
- **Service.** The JavaScript `SessionService.saveSession`
  (`JsSessionService`) is modelled twice: as written, and as evidently
  intended (see Findings).

The main properties proved are:

- The IPv4 check accepts exactly the dotted quads of 0..255 without leading
  zeros.
- The IPv6 check accepts RFC 4291's full form and "::"/"::1". It differs
  from section 2.2 of RFC 4291 both ways. It is looser in that it also
  accepts a stray third colon, `a:::b`. It is stricter in that it rejects
  the mixed form x:x:x:x:x:x:d.d.d.d (for example "::ffff:192.0.2.1"),
  because '.' is neither a hex digit nor a colon.
- The Java IPv4 pattern is the JavaScript test without the leading-zero
  rule. Both IPv6 patterns, and trimming, give concrete disagreements.
- `validateInput` reports one message per failing field, in a fixed order,
  and is valid exactly when every field passes.
- Each retry loop makes at most four requests, and the first usable reply
  wins. The JavaScript loop never throws. A Java exception ends the loop at
  once, while a non-200 status is retried.
- The returned Java city is never blank.
- Deleting the oldest session removes exactly the least sort key, and
  nothing else changes.
- Write-then-trim keeps a user at five sessions or fewer, and keeps the
  newest session.
- The `savesession` revision counts before it writes. Its cap is therefore
  six, and from five stored sessions the two Java revisions end with five
  and six.
- A 0 coordinate makes a session invalid, so the (0, 0) fallback location
  can never be stored.

## Model

| member | source | states |
|---|---|---|
| InputValidators.IsValidStringIff | src/helpers/auxiliaryMethods.js:26-28 | a value passes `isValidString` exactly when it is a string that is not made only of whitespace |
| InputValidators.IsValidString | src/helpers/auxiliaryMethods.js:26-28 | truthy, a string, and not empty once trimmed; `IsValidStringIff` characterises it as "not only whitespace" |
| InputValidators.HandleError | src/helpers/auxiliaryMethods.js:45-50 | the message is "Error in <operation>: " followed by exactly the cause |
| InputValidators.HandleErrorKeepsCause | src/helpers/auxiliaryMethods.js:45-50 | for one operation, the message determines the cause it wraps |
| InputValidators.GetStringFromJson | src/helpers/auxiliaryMethods.js:11-19 | null exactly when the node or field is missing or null; a string field comes back unchanged |
| InputValidators.EmailExamples | src/helpers/auxiliaryMethods.js:172-173 | the e-mail pattern accepts "a@b.co" and rejects "a@b" and an address with a space |
| InputValidators.EmailHasOneAt | src/helpers/auxiliaryMethods.js:172 | an accepted address has exactly one '@' |
| InputValidators.PushEmailErrors | src/helpers/auxiliaryMethods.js:167-176 | appends "Email is required" for a missing or blank e-mail, else "Invalid email format" when the trimmed text fails the pattern, else nothing |
| InputValidators.PushIpErrors | src/helpers/auxiliaryMethods.js:178-185 | appends "IP is required" for a missing or blank ip, else "Invalid IP format" when `isValidIP` rejects it |
| InputValidators.PushIfMissing | src/helpers/auxiliaryMethods.js:187-205 | appends the field's message exactly when the field fails `isValidString` |
| InputValidators.PushCoordinateErrors | src/helpers/auxiliaryMethods.js:207-226 | appends the "required" message for a blank coordinate, else the range message when the parse is NaN or outside the inclusive bound |
| InputValidators.ValidateInput | src/helpers/auxiliaryMethods.js:162-231 | the errors are the per-field messages in the order e-mail, ip, city, timezone, country, local time, latitude, longitude; `isValid` holds exactly when there are none |
| InputValidators.AtMostEightErrors | src/helpers/auxiliaryMethods.js:162-231 | no field contributes more than one message, so there are at most eight |
| InputValidators.ValidIffFieldsOk | src/helpers/auxiliaryMethods.js:162-231 | the input is valid exactly when every field passes its own check |
| InputValidators.CityMessageIff | src/helpers/auxiliaryMethods.js:187-190 | the city message appears exactly when the city fails, whatever the other fields are |
| InputValidators.LatitudeMessages | src/helpers/auxiliaryMethods.js:207-216 | latitude passes exactly when it parses into [-90, 90]; a NaN parse gives the range message, not the "required" one |
| InputValidators.IpAcceptedIsValidString | src/helpers/auxiliaryMethods.js:57-63 | an ip that `isValidIP` accepts is a non-blank string |
| InputValidators.EmailAndIpAloneNeverValid | src/services/sessionService.js:35-36 | with the six location arguments undefined, `validateInput` is never valid and always reports the city |
| IpValidators.IsValidIPv4Simple | src/helpers/auxiliaryMethods.js:70-89 | the loop with early returns answers true exactly for the four-octet shape with every octet free of leading zeros and at most 255 |
| IpValidators.IsIPv4 | src/helpers/auxiliaryMethods.js:70-89 | the regex shape (four dot-separated groups of 1-3 digits) and the loop's per-octet test; `DottedQuadIsIPv4` and `IPv4IsDottedQuad` show it is exactly the canonical dotted quads of 0..255 |
| IpValidators.DottedQuadIsIPv4 | src/helpers/auxiliaryMethods.js:70-89 | every dotted quad of numbers 0..255 in shortest decimal form is accepted |
| IpValidators.IPv4IsDottedQuad | src/helpers/auxiliaryMethods.js:70-89 | every accepted address is the dotted quad of its own octet values, each at most 255 |
| IpValidators.IPv4AcceptsZeros | src/helpers/auxiliaryMethods.js:70-89 | "0.0.0.0" is accepted |
| IpValidators.IPv4RejectsLargeOctet | src/helpers/auxiliaryMethods.js:84-85 | "256.1.1.1" is rejected |
| IpValidators.IPv4RejectsLeadingZero | src/helpers/auxiliaryMethods.js:81 | "01.1.1.1" is rejected |
| IpValidators.IPv6AcceptsLoopback | src/helpers/auxiliaryMethods.js:98 | "::1" is accepted |
| IpValidators.IPv6RejectsForeignCharacter | src/helpers/auxiliaryMethods.js:101 | any character other than a hex digit or a colon rejects the address |
| IpValidators.IPv6RejectsLoneOuterColon | src/helpers/auxiliaryMethods.js:104-107 | a single leading or trailing colon rejects the address |
| IpValidators.ValidateGroups | src/helpers/auxiliaryMethods.js:125-148 | with "::", at most seven groups from the pieces before and after the first "::", each empty or 1-4 hex digits; without, exactly eight such groups; see the two group-count lemmas and `FullGroupsAcceptedIffEight` |
| IpValidators.IsValidIPv6Simple | src/helpers/auxiliaryMethods.js:96-118 | an accepted address is non-empty and made only of hex digits and colons |
| IpValidators.TwoOccurrencesCounted | src/helpers/auxiliaryMethods.js:114 | the global match counts two separate "::" as two |
| IpValidators.IPv6RejectsTwoCompressions | src/helpers/auxiliaryMethods.js:113-115 | two separate "::" reject the address |
| IpValidators.IPv6RejectsTwoCompressionsExample | src/helpers/auxiliaryMethods.js:113-115 | "1::2::3" is rejected |
| IpValidators.IPv6UncompressedNeedsEightGroups | src/helpers/auxiliaryMethods.js:137-141 | without "::", anything other than exactly eight groups is rejected |
| IpValidators.IPv6CompressedAtMostSevenGroups | src/helpers/auxiliaryMethods.js:128-136 | with "::", more than seven explicit groups are rejected |
| IpValidators.EightFullGroupsAccepted | src/helpers/auxiliaryMethods.js:96-148 | the full form of section 2.2 of RFC 4291 (eight groups of 1-4 hex digits) is accepted |
| IpValidators.FullGroupsAcceptedIffEight | src/helpers/auxiliaryMethods.js:125-148 | full groups joined by single colons are accepted exactly when there are eight |
| IpValidators.IPv6RejectsEmbeddedIPv4 | src/helpers/auxiliaryMethods.js:101 | the RFC 4291 mixed form "::ffff:192.0.2.1" is rejected, because of its '.' |
| IpValidators.IPv6AcceptsTripleColon | src/helpers/auxiliaryMethods.js:96-148 | ":::" is accepted, which RFC 4291 does not allow |
| IpValidators.TripleColonBetweenGroupsAccepted | src/helpers/auxiliaryMethods.js:114-147 | any two full groups around ":::" are accepted: one "::" is counted and the stray colon leaves a tolerated empty group |
| IpValidators.IsValidIP | src/helpers/auxiliaryMethods.js:57-63 | true exactly for a non-empty string whose trimmed text passes the IPv4 or the IPv6 check |
| GeolocationResponse.FromApiResponse | src/dto/geolocalizationResponse.js:10-24 | each of ip, isp, location and risk is the payload's field when truthy, else '' (ip) or {} (the other three); isp, location and risk are always truthy |
| GeolocationResponse.GetCity | src/dto/geolocalizationResponse.js:30-32 | the location's city when truthy, else the not-available constant; never falsy |
| GeolocationResponse.GetCountry | src/dto/geolocalizationResponse.js:38-40 | the location's country when truthy, else the not-available constant; never falsy |
| GeolocationResponse.GetTimezone | src/dto/geolocalizationResponse.js:47-49 | the location's time zone when truthy, else the not-available constant; never falsy |
| GeolocationResponse.GetConnectionTime | src/dto/geolocalizationResponse.js:55-57 | the location's local time when truthy, else the current instant |
| GeolocationResponse.GetCoordinates | src/dto/geolocalizationResponse.js:63-68 | each coordinate is the location's value when truthy, else 0, independently of the other |
| GeolocationResponse.GetLocationData | src/dto/geolocalizationResponse.js:82-90 | city, country and time zone are never falsy; the time is the location's or `now`; each coordinate is truthy exactly when the location's is |
| GeolocationResponse.FullLocationKept | src/dto/geolocalizationResponse.js:82-90 | a location with all six fields set is passed through unchanged, coordinates regrouped |
| GeolocationResponse.IsValid | src/dto/geolocalizationResponse.js:74-76 | a usable DTO has a truthy ip and a location that is a non-empty object or a non-empty string |
| GeolocationResponse.ToJSON | src/dto/geolocalizationResponse.js:96-103 | the constructor rebuilds, from the JSON, every DTO it can have built itself |
| GeolocationResponse.IsValidFromPayload | src/dto/geolocalizationResponse.js:74-76 | a payload is usable exactly when it has a truthy ip and a location with at least one key |
| GeolocationResponse.NoPayloadIsInvalid | src/dto/geolocalizationResponse.js:10-15 | an undefined or null payload gives an unusable DTO |
| GeolocationResponse.EmptyLocationDefaults | src/dto/geolocalizationResponse.js:82-90 | an empty location gives the three not-available constants, the current instant and (0, 0) |
| GeolocationResponse.ToJSONRoundTrip | src/dto/geolocalizationResponse.js:96-103 | rebuilding a DTO from its own JSON gives the same DTO |
| GeolocationResponse.IsFromDatacenter | src/dto/geolocalizationResponse.js:117-119 | truthy exactly when `is_datacenter` is truthy |
| GeolocationResponse.IsUsingProxy | src/dto/geolocalizationResponse.js:125-127 | the value is one of the three flags |
| GeolocationResponse.IsUsingProxyIff | src/dto/geolocalizationResponse.js:125-127 | proxy use is reported exactly when a VPN, proxy or Tor flag is truthy |
| GeolocationResponse.NoRiskNoFlags | src/dto/geolocalizationResponse.js:117-127 | without risk information the connection is neither a proxy nor a datacenter |
| Retry.FirstHit | src/services/cityService.js:25-51 | the first attempt below the bound that settles, or the bound; nothing before it settles |
| Retry.FirstHitIs | src/services/cityService.js:25-51 | the first hit is the attempt at which something first settles |
| Retry.FirstHitDependsOnPrefix | src/services/cityService.js:25-51 | two oracles that agree up to the first hit have the same first hit |
| CityService.LocationInfoOutcome | src/services/cityService.js:22-54 | 1 to 4 requests; every reply before the last is unusable; a usable last reply gives its location data, otherwise the default after four requests |
| CityService.DefaultLocationInfo | src/services/cityService.js:82-93 | the not-available city, country and time zone, the current instant and coordinates (0, 0) |
| CityService.GetLocationInfo | src/services/cityService.js:22-54 | the loop's result and request count are those of the first usable reply among four, else the default after four requests; 1 to 4 requests, and it never throws |
| CityService.GetGeolocalizationResponse | src/services/cityService.js:61-75 | the DTO exactly when the single reply is usable, else null |
| CityService.FirstUsableWins | src/services/cityService.js:25-41 | the first usable reply is returned after exactly that many requests |
| CityService.SuccessOnThirdAttempt | src/services/cityService.js:25-51 | a thrown request, then an incomplete payload, then a usable reply give the third reply after three requests |
| CityService.AllAttemptsFail | src/services/cityService.js:25-53 | four failures give the default after four requests |
| CityService.OutcomeDependsOnRequestedReplies | src/services/cityService.js:25-54 | the result depends only on the replies actually requested |
| CityService.DefaultIsEmptyPayload | src/services/cityService.js:82-93 | the default is what the DTO's getters give for a missing payload |
| CityService.ServicesAgreeOnFirstReply | src/services/cityService.js:61-75 | when the first reply is usable, both services return the same location |
| SessionModel.NewSession | src/model/session.js:7-16 | a TypeError exactly when the coordinates are undefined or null; otherwise each field comes from its own argument, with the instant of construction |
| SessionModel.IsValid | src/model/session.js:60-69 | truthy exactly when all eight fields are truthy |
| SessionModel.ZeroCoordinateIsInvalid | src/model/session.js:60-69 | a session with a 0 coordinate is invalid |
| SessionModel.ToDynamoItem | src/model/session.js:22-34 | each field goes to its attribute, with the e-mail as `id` and the instant as `connection_time` |
| SessionModel.FromDynamoItem | src/model/session.js:41-54 | as written: a TypeError exactly when the stored country is undefined or null; otherwise the stored time becomes the ip, the ip the city, the city the time zone, the time zone the country, the coordinates are read from the country, and the time is `now` |
| SessionModel.FromDynamoItemShifts | src/model/session.js:41-54 | as written, every field after the e-mail shifts by one, the coordinates are lost and the result is invalid |
| SessionModel.FromDynamoItemIsNotInverse | src/model/session.js:41-54 | a concrete valid session that the as-written mapping does not give back |
| SessionModel.FromDynamoItemFixed | src/model/session.js:41-54 | the intended mapping is inverted by `toDynamoItem` |
| SessionModel.FixedRoundTrip | src/model/session.js:22-54 | the intended mapping inverts `toDynamoItem` |
| SessionModel.ToJSONInjective | src/model/session.js:94-107 | `toJSON` keeps every field: equal JSON means equal sessions |
| SessionModel.ToJSON | src/model/session.js:94-107 | each field is readable under its own name, the coordinates under `coordinates` |
| Store.First | src/repository/dynamoRepository.js:116-135 | a query with limit 1 finds no key exactly for an empty partition, else the least (or greatest) sort key |
| Store.Put | src/repository/dynamoRepository.js:42-47 | a put replaces exactly one key of one partition and leaves every other partition unchanged |
| Store.PutCount | src/repository/dynamoRepository.js:42-47 | a put adds one item, or none when the key already existed |
| Store.Delete | src/repository/dynamoRepository.js:95-104 | a delete removes exactly one key of one partition and leaves every other partition unchanged |
| Store.DeleteOldestExact | src/repository/dynamoRepository.js:87-109 | deleting the oldest removes exactly the least sort key: the count drops by one, every remaining key is later, and other partitions are unchanged |
| Store.WriteThenTrim | src/services/sessionService.js:46-62 | write, then delete the oldest once when the partition holds more than five; its properties are `WriteThenTrimKeepsCap` and `WriteThenTrimKeepsNewest` |
| Store.CountThenWriteThenTrim | src/main/java/com/colombia/eps/savesession/repository/DynamoRepository.java:47-56 | count, write, then delete the oldest once when the earlier count was over five; its properties are `CountThenWriteThenTrimKeepsSix` and `PoliciesDifferAtFive` |
| Store.WriteThenTrimKeepsCap | src/services/sessionService.js:46-62 | write-then-trim never lets a partition grow past five, or past its old size if it was already over |
| Store.WriteThenTrimKeepsNewest | src/services/sessionService.js:46-62 | a session later than every stored one survives the trim |
| Store.CountThenWriteThenTrimKeepsSix | src/main/java/com/colombia/eps/savesession/repository/DynamoRepository.java:47-56 | counting before writing keeps a partition at six or fewer, and five plus a new key stays six |
| Store.PoliciesDifferAtFive | src/main/java/com/colombia/eps/savesession/repository/DynamoRepository.java:47-56 | from five items, a new key leaves five under write-then-trim and six under count-then-write-then-trim |
| JsDynamoRepository.SaveSessionResult | src/repository/dynamoRepository.js:31-53 | every failure is wrapped as "Error in saveSession: ..."; a missing coordinates object gives its TypeError; a written item is valid and maps back to the new session |
| JsDynamoRepository.SaveSessionSucceedsIff | src/repository/dynamoRepository.js:31-53 | a session is written exactly when the coordinates exist, every field is truthy and the put does not fail |
| JsDynamoRepository.InvalidSessionMessage | src/repository/dynamoRepository.js:34-38 | an invalid session is refused with "Session data is invalid" before any write |
| JsDynamoRepository.OldestSessionResult | src/repository/dynamoRepository.js:116-135 | an error exactly when the query fails; null exactly for an empty partition; otherwise an item of the partition with the least sort key |
| JsDynamoRepository.DeleteOldestOutcome | src/repository/dynamoRepository.js:87-109 | passes exactly when the query succeeds and the delete either does not happen or does not fail; a failed query is wrapped twice, a failed delete once |
| JsDynamoRepository.DynamoRepository.constructor | src/repository/dynamoRepository.js:11-19 | the repository holds the table name and the table |
| JsDynamoRepository.DynamoRepository.Create | src/repository/dynamoRepository.js:11-19 | construction fails with the environment-variable message exactly when the table name is missing or empty |
| JsDynamoRepository.DynamoRepository.SaveSession | src/repository/dynamoRepository.js:31-53 | on failure the table is unchanged; on success it is the old table with exactly the new item put |
| JsDynamoRepository.DynamoRepository.CountSessionsById | src/repository/dynamoRepository.js:60-81 | the number of items in the partition, or the wrapped error |
| JsDynamoRepository.DynamoRepository.GetOldestSession | src/repository/dynamoRepository.js:116-135 | the result of `OldestSessionResult` on the current table |
| JsDynamoRepository.DynamoRepository.DeleteOldestSession | src/repository/dynamoRepository.js:87-109 | on success the table loses exactly its oldest item for the user; on failure it is unchanged |
| JsSessionService.EmailAndIpErrors | src/helpers/auxiliaryMethods.js:167-185 | at most two messages, and none exactly when the e-mail is a non-blank string whose trimmed text matches the pattern and `isValidIP` accepts the ip |
| JsSessionService.StoreFlow | src/services/sessionService.js:46-62 | passes exactly when the save, the count and any needed trim succeed; then the table is write-then-trim of the new item; a failure leaves the old table or the table with only the write |
| JsSessionService.SessionService.constructor | src/services/sessionService.js:12-16 | the service holds the given repository |
| JsSessionService.SessionService.SaveSessionAsWritten | src/services/sessionService.js:24-81 | a falsy e-mail gives the 400 answer; a decryption failure rejects with a ReferenceError; otherwise it resolves to undefined without storing |
| JsSessionService.SessionService.StoreAndTrim | src/services/sessionService.js:46-62 | the outcome and new table are those of `StoreFlow` |
| JsSessionService.SessionService.SaveSession | src/services/sessionService.js:24-81 | never rejects; the 400 and 500 answers leave the table unchanged; invalid input gives undefined; otherwise the table and answer follow `StoreFlow` on the located session |
| JsSessionService.GeolocationFailureStoresNothing | src/services/sessionService.js:42-53 | when every lookup fails, the (0, 0) default makes the session invalid and nothing is written |
| JsSessionService.StoreFlowKeepsCap | src/services/sessionService.js:46-62 | a completed save keeps the user at five sessions or fewer (or not above the old count) and leaves other users alone |
| JsSessionService.StoreFlowKeepsNewSession | src/services/sessionService.js:46-62 | a completed save keeps the session just written, under the user's id and valid |
| JavaHelpers.Field | src/main/java/com/colombia/eps/session/helper/AuxiliaryMethods.java:51 | a field exactly for an object node that has it |
| JavaHelpers.AsText | src/main/java/com/colombia/eps/session/helper/AuxiliaryMethods.java:53 | a string node's text is itself; arrays and objects give the empty text |
| JavaHelpers.GetStringFromJson | src/main/java/com/colombia/eps/session/helper/AuxiliaryMethods.java:50-60 | the field's text unless the field is missing, null or blank after `trim`; `GetStringFromJsonSpec` states it |
| JavaHelpers.JavaTrimFacts | src/main/java/com/colombia/eps/savesession/helper/AuxiliaryMethods.java:15 | trimming keeps a visible character visible and an all-whitespace text blank |
| JavaHelpers.GetStringFromJsonSpec | src/main/java/com/colombia/eps/session/helper/AuxiliaryMethods.java:50-60 | empty for a missing or null field and for all-whitespace text; the untrimmed text when it holds a visible character; never blank |
| JavaHelpers.ParamRequired | src/main/java/com/colombia/eps/savesession/helper/Constants.java:11 | the message embeds the parameter name at a fixed position |
| JavaHelpers.ParamRequiredInjective | src/main/java/com/colombia/eps/savesession/helper/Constants.java:11 | different parameters give different messages |
| JavaHelpers.GetAndValidateParams | src/main/java/com/colombia/eps/session/helper/AuxiliaryMethods.java:33-39 | the non-blank field value exactly when the lookup finds one, else the "required" message for that parameter |
| JavaHelpers.IsValidIpFormat | src/main/java/com/colombia/eps/session/helper/AuxiliaryMethods.java:63-76 | null and "" are rejected; a string is accepted exactly when it matches the IPv4 or the IPv6 pattern |
| JavaHelpers.JavaOctetIff | src/main/java/com/colombia/eps/session/helper/AuxiliaryMethods.java:69 | the octet pattern accepts exactly 1 to 3 digits with value at most 255, leading zeros included |
| JavaHelpers.JavaIPv4 | src/main/java/com/colombia/eps/savesession/helper/AuxiliaryMethods.java:30-31 | four dot-separated groups, each matching the octet pattern; `JavaIPv4Iff` relates it to the JavaScript test |
| JavaHelpers.JavaIPv6 | src/main/java/com/colombia/eps/savesession/helper/AuxiliaryMethods.java:34 | eight groups of 1-4 hex digits, "::1" or "::"; `JavaIPv6IsJsIPv6` shows the JavaScript check accepts all of them |
| JavaHelpers.OctetAgreement | src/main/java/com/colombia/eps/session/helper/AuxiliaryMethods.java:69 | per octet, the JavaScript test is the Java pattern plus the leading-zero rule |
| JavaHelpers.JavaIPv4Iff | src/main/java/com/colombia/eps/savesession/helper/AuxiliaryMethods.java:30-31 | the Java IPv4 pattern is the JavaScript IPv4 test without the leading-zero rule, in both directions |
| JavaHelpers.JoinedOctetsAccepted | src/main/java/com/colombia/eps/session/helper/AuxiliaryMethods.java:69-70 | four pattern octets joined with dots are accepted |
| JavaHelpers.LeadingZeroDisagreement | src/main/java/com/colombia/eps/session/helper/AuxiliaryMethods.java:69-70 | Java accepts "01.1.1.1", which JavaScript rejects |
| JavaHelpers.JavaIPv6IsJsIPv6 | src/main/java/com/colombia/eps/savesession/helper/AuxiliaryMethods.java:34 | every address the Java IPv6 pattern accepts, JavaScript accepts too |
| JavaHelpers.CompressedPairAccepted | src/helpers/auxiliaryMethods.js:125-148 | two full groups around "::" pass the JavaScript check |
| JavaHelpers.CompressedPairRejectedByJava | src/main/java/com/colombia/eps/session/helper/AuxiliaryMethods.java:73-75 | two full groups around "::" fail both Java patterns |
| JavaHelpers.CompressionDisagreement | src/main/java/com/colombia/eps/savesession/helper/AuxiliaryMethods.java:34-36 | "fe80::1" is accepted by JavaScript and rejected by Java |
| JavaHelpers.JavaRejectsForeignFirstChar | src/main/java/com/colombia/eps/session/helper/AuxiliaryMethods.java:75 | Java does not trim: a first character that is neither a hex digit nor a colon fails both patterns |
| JavaHelpers.PaddingDisagreement | src/helpers/auxiliaryMethods.js:57-63 | an accepted IPv4 address with a leading space passes the JavaScript check (which trims) and fails the Java one |
| JavaCity.ReadBodyCity | src/main/java/com/colombia/eps/session/service/City.java:33-43 | a reply aborts exactly when its body does not parse or lacks `status`; a settled city is the `city` field or the not-available constant, never blank |
| JavaCity.ReadBody | src/main/java/com/colombia/eps/session/service/City.java:33-43 | an unparsed body or a missing `status` aborts, "success" settles on the city or the constant, any other status retries; `ReadBodyCity` states it |
| JavaCity.CityOutcome | src/main/java/com/colombia/eps/session/service/City.java:22-53 | 1 to 4 requests, all but the last retried, and the city is the last reply's city or the not-available constant |
| JavaCity.HttpStep | src/main/java/com/colombia/eps/session/service/City.java:28-44 | a failed request aborts, and a non-200 status is retried |
| JavaCity.GetCityOverHttp | src/main/java/com/colombia/eps/session/service/City.java:22-53 | the loop's city and request count are `CityOutcome` of its replies |
| JavaCity.RestStep | src/main/java/com/colombia/eps/savesession/service/City.java:40-56 | a failed REST call aborts |
| JavaCity.GetCityOverRestClient | src/main/java/com/colombia/eps/savesession/service/City.java:35-62 | the loop's city and request count are `CityOutcome` of its replies |
| JavaCity.FirstSuccessWins | src/main/java/com/colombia/eps/session/service/City.java:37-38 | the first successful reply gives its city after exactly that many requests |
| JavaCity.ExceptionStopsRetrying | src/main/java/com/colombia/eps/savesession/service/City.java:57-61 | an exception ends the loop with the not-available constant, whatever later replies would be |
| JavaCity.FourRetriesGiveNotAvailable | src/main/java/com/colombia/eps/session/service/City.java:25-46 | four retried replies give the not-available constant after four requests |
| JavaCity.CityNeverBlank | src/main/java/com/colombia/eps/session/service/City.java:22-53 | if no settled city is blank, the result is not blank |
| JavaCity.HttpCityNeverBlank | src/main/java/com/colombia/eps/session/service/City.java:22-53 | the HTTP revision never returns a blank city |
| JavaCity.RestCityNeverBlank | src/main/java/com/colombia/eps/savesession/service/City.java:35-62 | the REST revision never returns a blank city |
| JavaCity.NetworkErrorIsNotRetried | src/main/java/com/colombia/eps/session/service/City.java:48-52 | a failed first request gives up after one request |
| JavaCity.ErrorStatusIsRetried | src/main/java/com/colombia/eps/session/service/City.java:33-44 | a non-200 response uses one attempt and the loop goes on to a later success |
| JavaCity.RevisionsAgreeOnOkResponses | src/main/java/com/colombia/eps/savesession/service/City.java:35-62 | on the same 200 bodies, both revisions give the same city after the same number of requests |
| JavaSessionTable.QueryFirst | src/main/java/com/colombia/eps/session/repository/DynamoRepository.java:118-135 | empty exactly for an empty partition; otherwise a stored bean of that user, first in the requested order |
| JavaSessionTable.DeleteQueriedIsDeleteOldest | src/main/java/com/colombia/eps/session/repository/DynamoRepository.java:101-116 | deleting the bean the ascending query returns, by its own keys, deletes the oldest |
| JavaSessionTable.SameSecondReplaces | src/main/java/com/colombia/eps/savesession/service/SessionService.java:29-30 | a second save within the same second replaces the first and the count does not grow |
| JavaSessionRepository.WriteCountTrim | src/main/java/com/colombia/eps/session/repository/DynamoRepository.java:45-61 | passes exactly when the write, the count and any needed trim succeed, and then the table is write-then-trim; a failed write changes nothing and is `SaveSessionInTableException`; a later failure keeps the write and is the count or delete exception |
| JavaSessionRepository.DynamoRepository.constructor | src/main/java/com/colombia/eps/session/repository/DynamoRepository.java:31-43 | the repository holds the given table |
| JavaSessionRepository.DynamoRepository.SaveSession | src/main/java/com/colombia/eps/session/repository/DynamoRepository.java:45-61 | the outcome and new table are those of `WriteCountTrim` |
| JavaSessionRepository.DynamoRepository.SaveInTable | src/main/java/com/colombia/eps/session/repository/DynamoRepository.java:63-80 | a failed save throws `SaveSessionInTableException` and writes nothing; otherwise exactly the new bean is put |
| JavaSessionRepository.DynamoRepository.CountSessionsById | src/main/java/com/colombia/eps/session/repository/DynamoRepository.java:82-99 | the number of beans under the hash key, or `CountSessionByIdException` |
| JavaSessionRepository.DynamoRepository.DeleteOldestSession | src/main/java/com/colombia/eps/session/repository/DynamoRepository.java:101-116 | fails exactly when the query fails or a found bean cannot be deleted, always as `DeleteOldestSessionException` with the table unchanged; otherwise exactly the oldest bean is gone |
| JavaSessionRepository.DynamoRepository.GetSession | src/main/java/com/colombia/eps/session/repository/DynamoRepository.java:118-135 | `GetOldestSessionException` exactly when the query fails; empty exactly for an empty partition; otherwise the user's bean stored under the first sort key in the requested order |
| JavaSessionRepository.QueryFailureSurfacesAsDeleteFailure | src/main/java/com/colombia/eps/session/repository/DynamoRepository.java:101-116 | `GetOldestSessionException` never reaches the caller; a failed query during a trim surfaces as `DeleteOldestSessionException` |
| JavaSessionRepository.NoProcessException | src/main/java/com/colombia/eps/session/repository/DynamoRepository.java:56-60 | `SaveSessionProcessException` is never thrown |
| JavaSessionRepository.SaveKeepsCap | src/main/java/com/colombia/eps/session/repository/DynamoRepository.java:48-55 | a completed save keeps the user at five sessions or fewer (or not above the old count) and leaves other users alone |
| JavaSessionRepository.SaveKeepsNewSession | src/main/java/com/colombia/eps/session/repository/DynamoRepository.java:48-55 | a completed save keeps the new bean when its timestamp is later than every stored one |
| JavaSaveSessionRepository.CountWriteTrim | src/main/java/com/colombia/eps/savesession/repository/DynamoRepository.java:47-61 | passes exactly when the count, the write and any needed trim succeed, with the trim decided by the count taken before the write; then the table is count-then-write-then-trim; every failure is `SaveSessionProcessException`; a failed count or write changes nothing |
| JavaSaveSessionRepository.DynamoRepository.constructor | src/main/java/com/colombia/eps/savesession/repository/DynamoRepository.java:33-45 | the repository holds the given table |
| JavaSaveSessionRepository.DynamoRepository.SaveSession | src/main/java/com/colombia/eps/savesession/repository/DynamoRepository.java:47-61 | the outcome and new table are those of `CountWriteTrim` |
| JavaSaveSessionRepository.DynamoRepository.SaveInTable | src/main/java/com/colombia/eps/savesession/repository/DynamoRepository.java:63-80 | a failed put throws `SaveSessionInTableException` and writes nothing; otherwise exactly the new bean is put |
| JavaSaveSessionRepository.DynamoRepository.CountSessionsById | src/main/java/com/colombia/eps/savesession/repository/DynamoRepository.java:82-103 | the number of beans under the partition key, or `CountSessionByIdException` |
| JavaSaveSessionRepository.DynamoRepository.DeleteOldestSession | src/main/java/com/colombia/eps/savesession/repository/DynamoRepository.java:105-119 | fails exactly when the query fails or a found bean cannot be deleted, with the table unchanged; otherwise exactly the oldest bean is gone |
| JavaSaveSessionRepository.DynamoRepository.GetSession | src/main/java/com/colombia/eps/savesession/repository/DynamoRepository.java:121-140 | `GetOldestSessionException` exactly when the query fails; empty exactly for an empty partition; otherwise the user's bean with the least sort key |
| JavaSaveSessionRepository.CountFailureWritesNothing | src/main/java/com/colombia/eps/savesession/repository/DynamoRepository.java:49-51 | a failed count throws before anything is written |
| JavaSaveSessionRepository.SaveKeepsSix | src/main/java/com/colombia/eps/savesession/repository/DynamoRepository.java:49-56 | a completed save keeps a user at six sessions or fewer, and five plus a new one stay six |
| JavaSaveSessionRepository.FailedTrimExceedsSix | src/main/java/com/colombia/eps/savesession/repository/DynamoRepository.java:52-59 | a failed delete leaves the write in place: a user at six reaches seven |
| JavaSaveSessionRepository.RevisionsDisagreeAtFive | src/main/java/com/colombia/eps/savesession/repository/DynamoRepository.java:47-61 | from five sessions and a new key with no failures, the `session` revision ends with five and this one with six |
| JavaSaveSessionRepository.RevisionsAgreeBelowLimit | src/main/java/com/colombia/eps/savesession/repository/DynamoRepository.java:47-61 | below five sessions the two Java revisions give the same outcome and table |

## Left out

- Decryption (`CryptoService.decrypt`, AES-256-GCM in src/helpers/crypto.js) is a foreign call into Node's crypto. It is a parameter `decrypt` that may fail.
- The HTTP and REST calls (`_makeGeolocationRequest`, `getApiCityResponse`, `GeolocationRestClient`) and their timeouts are oracle arguments. Jackson's `readTree` is folded into them: a reply carries its body already parsed, or `None` when parsing throws.
- Clocks (`new Date()`, `getCurrentTimestamp`, `LocalDateTime.now()`) are a `now` parameter. Their text formats are not modelled.
- `parseFloat` and `Number.prototype.toString` are floating-point operations. They are parameters, and only the inclusive range checks are modelled.
- InputValidators.GetStringFromJson: the text of a number field comes from the `numberText` parameter, so the contract says nothing about it.
- InputValidators.GetStringFromJson: only the own properties of plain objects are modelled. Inherited names (`toString`, `constructor`, `__proto__`) read as missing (None) in the model, while the source finds a function or object there and returns its text. The same holds for a string node's index and `length` properties.
- Logging (console, SLF4J and JBoss loggers) is not modelled. This covers the `toString` methods of `Session`, `GeolocalizationResponse` and the Java beans, the `message` lookup on a failed Java status (whose only effect is a log line), and `handleError`'s console output; only its message is modelled.
- `Thread.currentThread().interrupt()` in the Java `getCity` catch blocks only sets a flag for later code, which is not part of this model.
- The Java repositories' `init` methods and configuration (table name from the environment, DynamoDBMapper and enhanced-client setup) are not modelled. The table is the class's `table` field.
- JsDynamoRepository.DynamoRepository.CountSessionsById: `result.Count` of one `QueryCommand` counts one page only. The model counts the whole partition, which is the same for partitions under DynamoDB's 1 MB page.
- JavaSaveSessionRepository.DynamoRepository.CountSessionsById: `QueryResponse.count()` of one page only, with the same consequence.
- A `mapper.save` of an existing key is modelled as a replacing put.
- Concurrent invocations for the same user are not modelled. Count-then-delete is not atomic, and the properties assume a single writer.
- The promises of the JavaScript code are modelled as sequential completions.
- The request handlers and transport (index.js, LambdaSession.java, SaveSessionLambda.java, SessionFunction.java), `parseJson` and `getHeaders` of the Java `session` helper, and savesession/service/SessionService.java are not part of this model.
- src/main/java/com/colombia/eps/helper/AuxiliaryMethods.java is not part of this model. It does not compile: its package line and its references to `context` and `createResponse` are undefined.
- The `Constants.java` of the `session` revision is not part of this model. `MSG_ERROR_WITH_PARAM` uses the text of the `savesession` constants.

## Findings

| source | as written | input that shows it | evidently intended | confidence | as-written member | corrected member |
|---|---|---|---|---|---|---|
| src/services/sessionService.js:35 | `validateInput(email, ip)` passes two of eight arguments, so city, time zone, country, local time and coordinates are undefined and validation always fails; `saveSession` resolves to undefined and never stores a session | any decryptable e-mail with any ip | validate the e-mail and ip only, then locate, store and trim | high (not executed) | JsSessionService.SessionService.SaveSessionAsWritten | JsSessionService.SessionService.SaveSession |
| src/services/sessionService.js:72-80 | the catch block reads `dataValidations`, a `const` of the try block that is not in scope there, so every caught error becomes a ReferenceError and the promise rejects | a decryption failure | answer `{ success: false, statusCode: 500, message }` with the caught error's message | high (not executed) | JsSessionService.SessionService.SaveSessionAsWritten | JsSessionService.SessionService.SaveSession |
| src/model/session.js:41-54 | `fromDynamoItem` passes seven arguments to the six-parameter constructor: each field after the e-mail shifts by one, the coordinates are lost and the construction time replaces the stored one | the session in `FromDynamoItemIsNotInverse` | each attribute back to its own field, with the stored time kept, inverting `toDynamoItem` | high (not executed) | SessionModel.FromDynamoItemIsNotInverse | SessionModel.FixedRoundTrip |
