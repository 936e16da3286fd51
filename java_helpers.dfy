/**
 * The helpers shared by both Java revisions, `session/helper/AuxiliaryMethods.java`
 * and `savesession/helper/AuxiliaryMethods.java`, whose `getStringFromJson`
 * and `isValidIpFormat` are the same text: a blank-aware lookup in a
 * Jackson tree and a regular-expression IP test. The lemmas set the Java
 * IP test beside the JavaScript one.
 */
module JavaHelpers {
  import opened Wrappers
  import opened Text
  import opened JsValues
  import opened IpValidators

  /** A Jackson `JsonNode`; a number keeps the text Jackson prints for it. */
  datatype Json = JNull | JBool(b: bool) | JNumber(text: string) | JString(s: string)
                | JArray(items: seq<Json>) | JObject(fields: map<string, Json>)

  /** `node.get(name)`: the field of an object node; Java null for a missing field or a node that is not an object. */
  function Field(node: Json, name: string): (r: Option<Json>)
    ensures r.Some? <==> node.JObject? && name in node.fields
  {
    if node.JObject? && name in node.fields then Some(node.fields[name]) else None
  }

  /** `asText()`: a scalar's text; arrays and objects give the empty string. */
  function AsText(node: Json): (text: string)
    ensures node.JString? ==> text == node.s
    ensures node.JArray? || node.JObject? ==> text == []
  {
    match node
    case JNull => "null"
    case JBool(b) => if b then "true" else "false"
    case JNumber(text) => text
    case JString(s) => s
    case JArray(_) => ""
    case JObject(_) => ""
  }

  /** Java's trim only removes characters up to U+0020, so a visible character stays, and an all-whitespace text stays blank. */
  lemma JavaTrimFacts(s: string)
    ensures (forall i :: 0 <= i < |s| ==> IsJavaWhitespace(s[i])) ==> JavaIsBlank(JavaTrim(s))
    ensures (exists i :: 0 <= i < |s| && s[i] > ' ' && !IsJavaWhitespace(s[i])) ==> !JavaIsBlank(JavaTrim(s))
    ensures !JavaIsBlank(JavaTrim(s)) ==> !JavaIsBlank(s)
  {
    var start := JavaTrimStart(s);
    JavaTrimStartSpec(s);
    var k := |s| - |start|;
    var t := JavaTrimEnd(start);
    JavaTrimEndSpec(start);
    assert JavaTrim(s) == t;
    forall j | 0 <= j < |t| ensures t[j] == s[k + j] {
      assert t[j] == start[j];
    }
    if i :| 0 <= i < |s| && s[i] > ' ' && !IsJavaWhitespace(s[i]) {
      assert k <= i;
      assert start[i - k] == s[i];
      assert i - k < |t|;
      assert !IsJavaWhitespace(t[i - k]);
    }
    if !JavaIsBlank(t) {
      var j :| 0 <= j < |t| && !IsJavaWhitespace(t[j]);
      assert !IsJavaWhitespace(s[k + j]);
    }
  }

  /**
   * `getStringFromJson`: empty for a missing field, a JSON null, or a text
   * that is blank once trimmed; otherwise the text itself, untrimmed.
   */
  function GetStringFromJson(node: Json, fieldName: string): Option<string> {
    match Field(node, fieldName)
    case None => None
    case Some(field) =>
      if field.JNull? then None
      else
        var fieldValue := AsText(field);
        if JavaIsBlank(JavaTrim(fieldValue)) then None else Some(fieldValue)
  }

  /**
   * What `getStringFromJson` gives: nothing for a missing field or a JSON
   * null, nothing for an all-whitespace text, the text itself when it holds
   * a visible character, and never a blank string.
   */
  lemma GetStringFromJsonSpec(node: Json, fieldName: string)
    ensures var r := GetStringFromJson(node, fieldName);
      && (Field(node, fieldName).None? || Field(node, fieldName).value.JNull? ==> r.None?)
      && (r.Some? ==> r.value == AsText(Field(node, fieldName).value) && !JavaIsBlank(r.value))
      && (Field(node, fieldName).Some? ==>
            var text := AsText(Field(node, fieldName).value);
            && ((forall i :: 0 <= i < |text| ==> IsJavaWhitespace(text[i])) ==> r.None?)
            && ((!Field(node, fieldName).value.JNull? && exists i :: 0 <= i < |text| && text[i] > ' ' && !IsJavaWhitespace(text[i]))
                ==> r == Some(text)))
  {
    if Field(node, fieldName).Some? {
      JavaTrimFacts(AsText(Field(node, fieldName).value));
    }
  }

  /** `MSG_ERROR_WITH_PARAM` formatted with the parameter name. */
  function ParamRequired(param: string): (message: string)
    ensures |message| == |param| + 23 && message[10..10 + |param|] == param
  {
    "Parámetro " + param + " es requerido"
  }

  /** The message names its parameter: different parameters give different messages. */
  lemma ParamRequiredInjective(p1: string, p2: string)
    requires ParamRequired(p1) == ParamRequired(p2)
    ensures p1 == p2
  {
    assert |p1| == |ParamRequired(p1)| - 23 == |p2|;
  }

  /**
   * `getAndValidateParams`: the field's value, or a GetAndValidateException
   * carrying the message of the GetValueParamException it caught.
   */
  function GetAndValidateParams(bodyJson: Json, param: string): (r: Result<string, string>)
    ensures r.Success? <==> GetStringFromJson(bodyJson, param).Some?
    ensures r.Success? ==> r.value == GetStringFromJson(bodyJson, param).value && !JavaIsBlank(r.value)
    ensures r.Failure? ==> r.error == ParamRequired(param)
  {
    GetStringFromJsonSpec(bodyJson, param);
    match GetStringFromJson(bodyJson, param)
    case Some(value) => Success(value)
    case None => Failure(ParamRequired(param))
  }

  // ---------------------------------------------------------------------
  // isValidIpFormat
  // ---------------------------------------------------------------------

  /** A whole-string match of `25[0-5]|2[0-4]\d|[01]?\d\d?`. */
  predicate JavaOctet(o: string) {
    || (|o| == 3 && o[0] == '2' && o[1] == '5' && '0' <= o[2] <= '5')
    || (|o| == 3 && o[0] == '2' && '0' <= o[1] <= '4' && IsDigit(o[2]))
    || (|o| == 3 && (o[0] == '0' || o[0] == '1') && IsDigit(o[1]) && IsDigit(o[2]))
    || (1 <= |o| <= 2 && AllDigits(o))
  }

  /** `^(octet\.){3}octet$`: no octet holds a dot, so this is four dot-separated octets. */
  predicate JavaIPv4(s: string) {
    var octets := Split(s, ".");
    |octets| == 4 && forall i :: 0 <= i < 4 ==> JavaOctet(octets[i])
  }

  /** `^([0-9a-fA-F]{1,4}:){7}[0-9a-fA-F]{1,4}$|^::1$|^::$` */
  predicate JavaIPv6(s: string) {
    EightFullGroups(s) || s == "::1" || s == "::"
  }

  /** `isValidIpFormat`: null and the empty string are rejected, then either pattern must match the whole string. */
  function IsValidIpFormat(ip: Option<string>): (valid: bool)
    ensures ip.None? || ip.value == [] ==> !valid
    ensures valid ==> JavaIPv4(ip.value) || JavaIPv6(ip.value)
    ensures ip.Some? && (JavaIPv4(ip.value) || JavaIPv6(ip.value)) ==> valid
  {
    if ip.None? || ip.value == [] then false
    else JavaIPv4(ip.value) || JavaIPv6(ip.value)
  }

  lemma ThreeDigitValue(o: string)
    requires |o| == 3 && AllDigits(o)
    ensures DecimalValue(o) == 100 * DigitValue(o[0]) + 10 * DigitValue(o[1]) + DigitValue(o[2])
  {
    var p := o[..2];
    assert p[..1] == o[..1] && p[1] == o[1];
    assert o[..1][..0] == [];
    assert DecimalValue(o[..1]) == DigitValue(o[0]);
    assert DecimalValue(p) == 10 * DigitValue(o[0]) + DigitValue(o[1]);
    assert DecimalValue(o) == 10 * DecimalValue(p) + DigitValue(o[2]);
  }

  lemma TwoDigitValue(o: string)
    requires |o| == 2 && AllDigits(o)
    ensures DecimalValue(o) == 10 * DigitValue(o[0]) + DigitValue(o[1])
  {
    assert o[..1][..0] == [];
    assert DecimalValue(o[..1]) == DigitValue(o[0]);
    assert DecimalValue(o) == 10 * DecimalValue(o[..1]) + DigitValue(o[1]);
  }

  /** The octet pattern accepts exactly the one-to-three-digit numbers up to 255, leading zeros included. */
  lemma JavaOctetIff(o: string)
    ensures JavaOctet(o) <==> OctetShape(o) && DecimalValue(o) <= 255
  {
    if |o| == 3 && AllDigits(o) {
      ThreeDigitValue(o);
    } else if |o| == 2 && AllDigits(o) {
      TwoDigitValue(o);
    }
  }

  /** The leading-zero rule of the JavaScript loop. */
  predicate NoLeadingZero(o: string) {
    !(|o| > 1 && o[0] == '0')
  }

  /** Per octet, the JavaScript test is the Java pattern plus the leading-zero rule. */
  lemma OctetAgreement(o: string)
    ensures (OctetShape(o) && OctetOk(o)) <==> (JavaOctet(o) && NoLeadingZero(o))
  {
    JavaOctetIff(o);
  }

  /** The Java IPv4 test is the JavaScript one without the leading-zero rule. */
  lemma JavaIPv4Iff(s: string)
    ensures IsIPv4(s) ==> JavaIPv4(s)
    ensures IsIPv4(s) ==> forall i :: 0 <= i < 4 ==> NoLeadingZero(Split(s, ".")[i])
    ensures JavaIPv4(s) && (forall i :: 0 <= i < 4 ==> NoLeadingZero(Split(s, ".")[i])) ==> IsIPv4(s)
  {
    var octets := Split(s, ".");
    if |octets| == 4 {
      forall i | 0 <= i < 4
        ensures (OctetShape(octets[i]) && OctetOk(octets[i])) <==> (JavaOctet(octets[i]) && NoLeadingZero(octets[i]))
      {
        OctetAgreement(octets[i]);
      }
      if IsIPv4(s) {
        assert forall i :: 0 <= i < 4 ==> OctetShape(octets[i]) && OctetOk(octets[i]);
        assert forall i :: 0 <= i < 4 ==> JavaOctet(octets[i]) && NoLeadingZero(octets[i]);
      }
      if JavaIPv4(s) && forall i :: 0 <= i < 4 ==> NoLeadingZero(octets[i]) {
        assert forall i :: 0 <= i < 4 ==> OctetShape(octets[i]) && OctetOk(octets[i]);
        assert DottedQuadShape(s);
      }
    }
  }

  /** Four dot-free octets of the Java pattern, joined with dots, pass the Java IPv4 pattern. */
  lemma JoinedOctetsAccepted(parts: seq<string>)
    requires |parts| == 4
    requires forall i :: 0 <= i < 4 ==> NoChar(parts[i], '.') && JavaOctet(parts[i])
    ensures IsValidIpFormat(Some(Join(parts, '.')))
  {
    SplitJoin(parts, '.');
    assert |Join(parts, '.')| >= |parts[0]| > 0;
  }

  /** So Java accepts "01.1.1.1", which JavaScript rejects. */
  lemma LeadingZeroDisagreement()
    ensures IsValidIpFormat(Some("01.1.1.1")) && !IsIPv4("01.1.1.1")
  {
    var parts := ["01", "1", "1", "1"];
    assert JavaOctet(parts[0]) && JavaOctet(parts[1]);
    JoinedOctetsAccepted(parts);
    assert Join(parts, '.') == "01.1.1.1";
    IPv4RejectsLeadingZero();
  }

  /** Every address the Java IPv6 pattern accepts, JavaScript accepts too. */
  lemma JavaIPv6IsJsIPv6(s: string)
    requires JavaIPv6(s)
    ensures IsValidIPv6Simple(s)
  {
    if EightFullGroups(s) {
      EightFullGroupsAccepted(s);
    }
  }

  /** Two groups around one "::" pass the JavaScript check. */
  lemma CompressedPairAccepted(a: string, b: string)
    requires FullGroup(a) && FullGroup(b)
    ensures IsValidIPv6Simple(a + "::" + b)
  {
    var u := a + "::" + b;
    FirstCompressionAfterGroup(a, b);
    GroupHasNoCompression(b);
    assert u[..|a|] == a && u[|a| + 2..] == b;
    assert Split(u, "::") == [a] + Split(b, "::");
    assert Occurrences(u, "::") == 1 + Occurrences(b, "::");
    assert NoChar(a, ':') && NoChar(b, ':');
    FindNoChar(a, ':');
    FindNoChar(b, ':');
    assert CompressedGroups(u) == [a, b];
    assert u[0] == a[0] && u[|u| - 1] == b[|b| - 1];
    assert HexOrColon(u);
  }

  /** ...and fail both Java patterns. */
  lemma CompressedPairRejectedByJava(a: string, b: string)
    requires FullGroup(a) && FullGroup(b)
    ensures !IsValidIpFormat(Some(a + "::" + b))
  {
    var u := a + "::" + b;
    assert u[|a|..|a| + 2] == [':', ':'];
    DoubleSeparatorGivesEmptyPiece(u, ':', |a|);
    var groups := Split(u, ":");
    if |groups| == 8 {
      var k :| 0 <= k < |groups| && groups[k] == [];
      assert !FullGroup(groups[k]);
    }
    assert NoChar(u, '.') by {
      forall i | 0 <= i < |u| ensures u[i] != '.' {
        if i < |a| { assert u[i] == a[i]; }
        else if i >= |a| + 2 { assert u[i] == b[i - |a| - 2]; }
      }
    }
    FindNoChar(u, '.');
    assert u[|a|] == ':';
    assert !JavaOctet(u);
  }

  /** But a compressed address other than "::" and "::1" is rejected by Java and accepted by JavaScript. */
  lemma CompressionDisagreement()
    ensures IsValidIPv6Simple("fe80::1") && !IsValidIpFormat(Some("fe80::1"))
  {
    assert "fe80" + "::" + "1" == "fe80::1";
    CompressedPairAccepted("fe80", "1");
    CompressedPairRejectedByJava("fe80", "1");
  }

  lemma {:induction false} SplitFirstIsPrefix(s: string, sep: string)
    requires sep != []
    ensures |Split(s, sep)[0]| <= |s| && Split(s, sep)[0] == s[..|Split(s, sep)[0]|]
  {
    match Find(s, sep, 0)
    case None =>
    case Some(i) =>
  }

  /** A first character that is neither a hex digit nor a colon fails both patterns: Java does not trim, so " 1.2.3.4" is rejected. */
  lemma JavaRejectsForeignFirstChar(s: string)
    requires |s| > 0 && !IsHexDigit(s[0]) && s[0] != ':'
    ensures !IsValidIpFormat(Some(s))
  {
    SplitFirstIsPrefix(s, ".");
    SplitFirstIsPrefix(s, ":");
    var octet := Split(s, ".")[0];
    var group := Split(s, ":")[0];
    if |octet| > 0 {
      assert octet[0] == s[0];
    }
    if |group| > 0 {
      assert group[0] == s[0];
    }
    assert !JavaOctet(octet);
    assert !FullGroup(group);
  }

  /** The first and last characters of a join are those of its first and last pieces. */
  lemma {:induction false} JoinEnds(parts: seq<string>, c: char)
    requires |parts| >= 1 && forall i :: 0 <= i < |parts| ==> parts[i] != []
    ensures |Join(parts, c)| > 0
    ensures Join(parts, c)[0] == parts[0][0]
    ensures Join(parts, c)[|Join(parts, c)| - 1] == parts[|parts| - 1][|parts[|parts| - 1]| - 1]
  {
    if |parts| > 1 {
      JoinEnds(parts[1..], c);
      assert Join(parts, c) == parts[0] + [c] + Join(parts[1..], c);
    }
  }

  /** An address JavaScript's IPv4 check accepts starts and ends with a digit. */
  lemma IPv4EndsWithDigits(s: string)
    requires IsIPv4(s)
    ensures |s| > 0 && IsDigit(s[0]) && IsDigit(s[|s| - 1])
  {
    var octets := Split(s, ".");
    JoinSplit(s, '.');
    JoinEnds(octets, '.');
    assert IsDigit(octets[0][0]) && IsDigit(octets[3][|octets[3]| - 1]);
  }

  /**
   * A padded address: JavaScript trims before testing, so an address with a
   * leading space passes there, while Java, which does not trim, rejects it.
   */
  lemma PaddingDisagreement(s: string)
    requires IsIPv4(s)
    ensures IpAccepted(Str(" " + s)) && !IsValidIpFormat(Some(" " + s))
  {
    IPv4EndsWithDigits(s);
    var padded := " " + s;
    assert padded[1..] == s;
    assert JsTrimStart(padded) == JsTrimStart(s) == s;
    assert JsTrimEnd(s) == s;
    JavaRejectsForeignFirstChar(padded);
  }
}
