/**
 * The IP address checks of src/helpers/auxiliaryMethods.js: `isValidIP`,
 * `isValidIPv4Simple`, `isValidIPv6Simple` and `validateGroups`.
 */
module IpValidators {
  import opened Wrappers
  import opened Text
  import opened JsValues

  // ---------------------------------------------------------------------
  // IPv4
  // ---------------------------------------------------------------------

  /** One group of the regex `^\d{1,3}\.\d{1,3}\.\d{1,3}\.\d{1,3}$`. */
  predicate OctetShape(o: string) {
    1 <= |o| <= 3 && AllDigits(o)
  }

  /**
   * The regex test: since a digit is never a dot, a string matches exactly
   * when splitting it at its dots gives four groups of one to three digits.
   */
  predicate DottedQuadShape(s: string) {
    var octets := Split(s, ".");
    |octets| == 4 && forall i :: 0 <= i < 4 ==> OctetShape(octets[i])
  }

  /** The per-octet test of the loop: no leading zero unless the octet is "0", value at most 255. */
  predicate OctetOk(o: string)
    requires OctetShape(o)
  {
    !(|o| > 1 && o[0] == '0') && DecimalValue(o) <= 255
  }

  /** What `isValidIPv4Simple` accepts. */
  predicate IsIPv4(s: string) {
    DottedQuadShape(s) && forall i :: 0 <= i < 4 ==> OctetOk(Split(s, ".")[i])
  }

  /** `isValidIPv4Simple`: the regex test, then a walk over the octets that returns at the first bad one. */
  method IsValidIPv4Simple(ip: string) returns (valid: bool)
    ensures valid <==> IsIPv4(ip)
  {
    if !DottedQuadShape(ip) {
      return false;
    }
    var octets := Split(ip, ".");
    for i := 0 to |octets|
      invariant forall j :: 0 <= j < i ==> OctetOk(octets[j])
    {
      var octet := octets[i];
      if |octet| > 1 && octet[0] == '0' {
        return false;
      }
      var num := DecimalValue(octet);
      if num > 255 {
        return false;
      }
    }
    return true;
  }

  /** The dotted-quad rendering of four numbers, each in shortest decimal form. */
  function Dotted(a: nat, b: nat, c: nat, d: nat): string {
    Join([DecimalText(a), DecimalText(b), DecimalText(c), DecimalText(d)], '.')
  }

  lemma DecimalTextHasNoDot(n: nat)
    ensures NoChar(DecimalText(n), '.')
  {
  }

  /** Every dotted quad of numbers 0..255 written without leading zeros is accepted. */
  lemma DottedQuadIsIPv4(a: nat, b: nat, c: nat, d: nat)
    requires a <= 255 && b <= 255 && c <= 255 && d <= 255
    ensures IsIPv4(Dotted(a, b, c, d))
  {
    var parts := [DecimalText(a), DecimalText(b), DecimalText(c), DecimalText(d)];
    DecimalTextHasNoDot(a); DecimalTextHasNoDot(b); DecimalTextHasNoDot(c); DecimalTextHasNoDot(d);
    SplitJoin(parts, '.');
    DecimalTextShort(a); DecimalTextShort(b); DecimalTextShort(c); DecimalTextShort(d);
    DecimalTextCanonical(a); DecimalTextCanonical(b); DecimalTextCanonical(c); DecimalTextCanonical(d);
    DecimalTextValue(a); DecimalTextValue(b); DecimalTextValue(c); DecimalTextValue(d);
  }

  /** ...and nothing else is: an accepted address is the dotted quad of its own octet values. */
  lemma IPv4IsDottedQuad(s: string)
    requires IsIPv4(s)
    ensures var o := Split(s, ".");
            s == Dotted(DecimalValue(o[0]), DecimalValue(o[1]), DecimalValue(o[2]), DecimalValue(o[3]))
            && DecimalValue(o[0]) <= 255 && DecimalValue(o[1]) <= 255
            && DecimalValue(o[2]) <= 255 && DecimalValue(o[3]) <= 255
  {
    var o := Split(s, ".");
    assert OctetOk(o[0]) && OctetOk(o[1]) && OctetOk(o[2]) && OctetOk(o[3]);
    CanonicalRoundTrip(o[0]); CanonicalRoundTrip(o[1]); CanonicalRoundTrip(o[2]); CanonicalRoundTrip(o[3]);
    JoinSplit(s, '.');
    assert o == [o[0], o[1], o[2], o[3]];
  }

  lemma IPv4AcceptsZeros()
    ensures IsIPv4("0.0.0.0")
  {
    DottedQuadIsIPv4(0, 0, 0, 0);
    assert Dotted(0, 0, 0, 0) == "0.0.0.0";
  }

  /** The first octet is everything before the first dot. */
  lemma FirstOctet(s: string, k: nat)
    requires k < |s| && s[k] == '.' && NoChar(s[..k], '.')
    ensures Split(s, ".")[0] == s[..k]
  {
    FindChar(s, '.', k);
  }

  lemma DecimalValue256()
    ensures DecimalValue("256") == 256
  {
    assert "256"[..2] == "25";
    assert "25"[..1] == "2";
  }

  /** An octet above 255 is rejected. */
  lemma IPv4RejectsLargeOctet()
    ensures !IsIPv4("256.1.1.1")
  {
    var s := "256.1.1.1";
    FirstOctet(s, 3);
    assert s[..3] == "256";
    DecimalValue256();
  }

  /** A leading zero is rejected. */
  lemma IPv4RejectsLeadingZero()
    ensures !IsIPv4("01.1.1.1")
  {
    var s := "01.1.1.1";
    FirstOctet(s, 2);
    assert s[..2] == "01";
  }

  // ---------------------------------------------------------------------
  // IPv6
  // ---------------------------------------------------------------------

  /** `/^[0-9a-fA-F:]+$/` */
  predicate HexOrColon(s: string) {
    |s| >= 1 && forall i :: 0 <= i < |s| ==> IsHexDigit(s[i]) || s[i] == ':'
  }

  /** The per-group test of `validateGroups`: empty, or `/^[0-9a-fA-F]{1,4}$/`. */
  predicate GroupOk(g: string) {
    g == [] || (|g| <= 4 && AllHex(g))
  }

  predicate GroupsOk(groups: seq<string>) {
    forall i :: 0 <= i < |groups| ==> GroupOk(groups[i])
  }

  /**
   * The groups `validateGroups` sees around a "::": the colon-separated
   * groups of the text before the first "::" and of the text between it
   * and the next "::" (later pieces are ignored), an empty side giving none.
   */
  function CompressedGroups(ip: string): seq<string>
    requires Contains(ip, "::")
  {
    var parts := Split(ip, "::");
    var left := if parts[0] != [] then Split(parts[0], ":") else [];
    var right := if parts[1] != [] then Split(parts[1], ":") else [];
    left + right
  }

  /** `validateGroups` */
  predicate ValidateGroups(ip: string) {
    if Contains(ip, "::") then
      var groups := CompressedGroups(ip);
      |groups| <= 7 && GroupsOk(groups)
    else
      var groups := Split(ip, ":");
      |groups| == 8 && GroupsOk(groups)
  }

  /** `isValidIPv6Simple` */
  predicate IsValidIPv6Simple(ip: string)
    ensures IsValidIPv6Simple(ip) ==> HexOrColon(ip)
  {
    if ip == "::" || ip == "::1" then true
    else if !HexOrColon(ip) then false
    else if (StartsWith(ip, ":") && !StartsWith(ip, "::")) || (EndsWith(ip, ":") && !EndsWith(ip, "::")) then false
    else if !ValidateGroups(ip) then false
    else Occurrences(ip, "::") <= 1
  }

  /** Any character other than a hex digit or a colon rejects the address. */
  lemma IPv6RejectsForeignCharacter(ip: string, i: nat)
    requires i < |ip| && !IsHexDigit(ip[i]) && ip[i] != ':'
    ensures !IsValidIPv6Simple(ip)
  {
  }

  /** A single leading or trailing colon rejects the address. */
  lemma IPv6RejectsLoneOuterColon(ip: string)
    requires (StartsWith(ip, ":") && !StartsWith(ip, "::")) || (EndsWith(ip, ":") && !EndsWith(ip, "::"))
    ensures !IsValidIPv6Simple(ip)
  {
  }

  lemma {:induction false} OccursGivesOccurrence(s: string, sep: string, j: nat)
    requires sep != [] && OccursAt(s, sep, j)
    ensures Occurrences(s, sep) >= 1
  {
  }

  /** Two non-overlapping occurrences of a separator are both counted by a global match. */
  lemma TwoOccurrencesCounted(s: string, sep: string, i: nat, j: nat)
    requires sep != [] && OccursAt(s, sep, i) && OccursAt(s, sep, j) && i + |sep| <= j
    ensures Occurrences(s, sep) >= 2
  {
    var a := Find(s, sep, 0).value;
    var rest := s[a + |sep|..];
    assert a <= i;
    assert rest[j - a - |sep|..j - a] == s[j..j + |sep|];
    OccursGivesOccurrence(rest, sep, j - a - |sep|);
  }

  /** Two separate "::" compressions reject the address. */
  lemma IPv6RejectsTwoCompressions(ip: string, i: nat, j: nat)
    requires OccursAt(ip, "::", i) && OccursAt(ip, "::", j) && i + 2 <= j
    ensures !IsValidIPv6Simple(ip)
  {
    TwoOccurrencesCounted(ip, "::", i, j);
  }

  /** Without a "::", anything other than exactly eight groups is rejected. */
  lemma IPv6UncompressedNeedsEightGroups(ip: string)
    requires ip != "::" && ip != "::1" && !Contains(ip, "::") && |Split(ip, ":")| != 8
    ensures !IsValidIPv6Simple(ip)
  {
  }

  /** With a "::", more than seven explicit groups are rejected. */
  lemma IPv6CompressedAtMostSevenGroups(ip: string)
    requires ip != "::" && ip != "::1" && Contains(ip, "::") && |CompressedGroups(ip)| > 7
    ensures !IsValidIPv6Simple(ip)
  {
  }

  // The preferred text form of section 2.2 of RFC 4291: eight groups of one
  // to four hex digits separated by single colons.

  predicate FullGroup(g: string) {
    1 <= |g| <= 4 && AllHex(g)
  }

  predicate EightFullGroups(s: string) {
    var groups := Split(s, ":");
    |groups| == 8 && forall i :: 0 <= i < 8 ==> FullGroup(groups[i])
  }

  lemma {:induction false} LeadingSeparatorGivesEmptyPiece(s: string, c: char)
    requires |s| >= 1 && s[0] == c
    ensures Split(s, [c])[0] == []
  {
    FindChar(s, c, 0);
  }

  lemma {:induction false} TrailingSeparatorGivesEmptyPiece(s: string, c: char)
    requires |s| >= 1 && s[|s| - 1] == c
    ensures Split(s, [c])[|Split(s, [c])| - 1] == []
    decreases |s|
  {
    assert OccursAt(s, [c], |s| - 1) by { assert s[|s| - 1..|s|] == [c]; }
    match Find(s, [c], 0)
    case Some(k) =>
      var rest := s[k + 1..];
      assert Split(s, [c]) == [s[..k]] + Split(rest, [c]);
      if |rest| == 0 {
        assert Split(rest, [c]) == [rest];
      } else {
        assert rest[|rest| - 1] == c;
        TrailingSeparatorGivesEmptyPiece(rest, c);
      }
  }

  lemma {:induction false} DoubleSeparatorGivesEmptyPiece(s: string, c: char, p: nat)
    requires OccursAt(s, [c, c], p)
    ensures [] in Split(s, [c])
    decreases |s|
  {
    assert s[p..p + 2] == [c, c];
    assert s[p] == c && s[p + 1] == c;
    assert OccursAt(s, [c], p) by { assert s[p..p + 1] == [c]; }
    match Find(s, [c], 0)
    case Some(k) =>
      var rest := s[k + 1..];
      assert Split(s, [c]) == [s[..k]] + Split(rest, [c]);
      if k == p {
        LeadingSeparatorGivesEmptyPiece(rest, c);
        assert Split(s, [c])[1] == [];
      } else {
        assert rest[p - k - 1..p - k + 1] == s[p..p + 2];
        DoubleSeparatorGivesEmptyPiece(rest, c, p - k - 1);
      }
  }

  lemma {:induction false} JoinHexOrColon(parts: seq<string>)
    requires |parts| >= 1 && forall i :: 0 <= i < |parts| ==> FullGroup(parts[i])
    ensures HexOrColon(Join(parts, ':'))
  {
    if |parts| > 1 {
      JoinHexOrColon(parts[1..]);
      var s := Join(parts, ':');
      assert s == parts[0] + [':'] + Join(parts[1..], ':');
      forall i | 0 <= i < |s| ensures IsHexDigit(s[i]) || s[i] == ':' {
        if i < |parts[0]| {
          assert s[i] == parts[0][i];
        } else if i > |parts[0]| {
          assert s[i] == Join(parts[1..], ':')[i - |parts[0]| - 1];
        }
      }
    }
  }

  /** Where splitting at single colons leaves no empty group, there is no "::". */
  lemma NoEmptyGroupNoCompression(s: string)
    requires [] !in Split(s, ":")
    ensures !Contains(s, "::")
  {
    forall j: nat ensures !OccursAt(s, "::", j) {
      if OccursAt(s, "::", j) {
        DoubleSeparatorGivesEmptyPiece(s, ':', j);
        assert false;
      }
    }
  }

  /** Eight full groups: only hex digits and colons, no colon at either end, and no "::". */
  lemma EightFullGroupsShape(ip: string)
    requires EightFullGroups(ip)
    ensures HexOrColon(ip) && ip[0] != ':' && ip[|ip| - 1] != ':' && !Contains(ip, "::")
  {
    var groups := Split(ip, ":");
    JoinSplit(ip, ':');
    JoinHexOrColon(groups);
    if ip[0] == ':' {
      LeadingSeparatorGivesEmptyPiece(ip, ':');
      assert false;
    }
    if ip[|ip| - 1] == ':' {
      TrailingSeparatorGivesEmptyPiece(ip, ':');
      assert false;
    }
    NoEmptyGroupNoCompression(ip);
  }

  /** The full eight-group form is accepted (and so the check does cover RFC 4291's preferred form). */
  lemma EightFullGroupsAccepted(ip: string)
    requires EightFullGroups(ip)
    ensures IsValidIPv6Simple(ip)
  {
    EightFullGroupsShape(ip);
    assert !StartsWith(ip, ":") && !EndsWith(ip, ":");
    assert ValidateGroups(ip);
    assert Occurrences(ip, "::") == 0;
  }

  lemma IPv6AcceptsLoopback()
    ensures IsValidIPv6Simple("::1")
  {
  }

  /** Full groups joined by single colons are accepted exactly when there are eight of them. */
  lemma FullGroupsAcceptedIffEight(groups: seq<string>)
    requires |groups| >= 1 && forall i :: 0 <= i < |groups| ==> FullGroup(groups[i])
    ensures IsValidIPv6Simple(Join(groups, ':')) <==> |groups| == 8
  {
    var ip := Join(groups, ':');
    forall i | 0 <= i < |groups| ensures NoChar(groups[i], ':') {
    }
    SplitJoin(groups, ':');
    NoEmptyGroupNoCompression(ip);
    assert Contains("::", "::") && Contains("::1", "::");
    if |groups| == 8 {
      EightFullGroupsAccepted(ip);
    } else {
      IPv6UncompressedNeedsEightGroups(ip);
    }
  }

  lemma IPv6RejectsTwoCompressionsExample()
    ensures !IsValidIPv6Simple("1::2::3")
  {
    IPv6RejectsTwoCompressions("1::2::3", 1, 4);
  }

  /**
   * The check is stricter than section 2.2 of RFC 4291: the mixed form with
   * a dotted IPv4 tail is rejected, since '.' is not a hex digit or a colon.
   */
  lemma IPv6RejectsEmbeddedIPv4()
    ensures !IsValidIPv6Simple("::ffff:192.0.2.1")
  {
    IPv6RejectsForeignCharacter("::ffff:192.0.2.1", 10);
  }

  /**
   * The check is looser than RFC 4291: a run of three colons passes, because
   * the global match counts "::" only once in ":::" and the stray colon
   * yields empty groups, which are tolerated.
   */
  lemma IPv6AcceptsTripleColon()
    ensures IsValidIPv6Simple(":::")
  {
    var t := ":::";
    assert t[0..2] == "::";
    assert t[2..] == ":";
    assert Split(t, "::") == [[]] + Split(":", "::");
    assert Split(":", ":") == [[]] + Split([], ":");
    assert Occurrences(t, "::") == 1 + Occurrences(":", "::");
  }

  lemma FirstCompressionAfterGroup(a: string, b: string)
    requires FullGroup(a)
    ensures Find(a + "::" + b, "::", 0) == Some(|a|)
  {
    var u := a + "::" + b;
    forall j | 0 <= j < |a| ensures !OccursAt(u, "::", j) {
      assert u[j] == a[j] && IsHexDigit(a[j]);
      if j + 2 <= |u| {
        assert u[j..j + 2][0] == u[j];
      }
    }
    assert u[|a|..|a| + 2] == "::";
    assert OccursAt(u, "::", |a|);
  }

  lemma GroupHasNoCompression(g: string)
    requires FullGroup(g)
    ensures Find(g, "::", 0) == None
  {
    forall j: nat ensures !OccursAt(g, "::", j) {
      if j + 2 <= |g| {
        assert g[j..j + 2][0] == g[j];
      }
    }
  }

  /** A colon followed by a full group holds no "::" and splits at its colon into an empty group and the group. */
  lemma ColonThenGroup(b: string)
    requires FullGroup(b)
    ensures Find(":" + b, "::", 0) == None
    ensures Split(":" + b, ":") == [[], b]
  {
    var r := ":" + b;
    forall j: nat ensures !OccursAt(r, "::", j) {
      if j + 2 <= |r| {
        assert r[j..j + 2][1] == r[j + 1] == b[j];
      }
    }
    assert r[0..1] == ":";
    assert Find(r, ":", 0) == Some(0);
    assert r[1..] == b;
    FindNoChar(b, ':');
  }

  lemma TripleColonSplit(a: string, b: string)
    requires FullGroup(a) && FullGroup(b)
    ensures Contains(a + ":::" + b, "::")
    ensures Split(a + ":::" + b, "::") == [a, ":" + b]
    ensures Occurrences(a + ":::" + b, "::") == 1
  {
    var rest := ":" + b;
    var u := a + "::" + rest;
    assert u == a + ":::" + b;
    FirstCompressionAfterGroup(a, rest);
    ColonThenGroup(b);
    assert u[..|a|] == a && u[|a| + 2..] == rest;
    assert Split(u, "::") == [a] + Split(rest, "::");
    assert Occurrences(u, "::") == 1 + Occurrences(rest, "::");
  }

  lemma TripleColonPieces(a: string, b: string)
    requires FullGroup(a) && FullGroup(b)
    ensures Contains(a + ":::" + b, "::")
    ensures Occurrences(a + ":::" + b, "::") == 1
    ensures CompressedGroups(a + ":::" + b) == [a, [], b]
  {
    TripleColonSplit(a, b);
    ColonThenGroup(b);
    FindNoChar(a, ':');
  }

  lemma TripleColonChars(a: string, b: string)
    requires FullGroup(a) && FullGroup(b)
    ensures var u := a + ":::" + b; HexOrColon(u) && u[0] != ':' && u[|u| - 1] != ':'
  {
    var u := a + ":::" + b;
    assert u[0] == a[0] && u[|u| - 1] == b[|b| - 1];
    forall i | 0 <= i < |u| ensures IsHexDigit(u[i]) || u[i] == ':' {
      if i < |a| { assert u[i] == a[i]; }
      else if i >= |a| + 3 { assert u[i] == b[i - |a| - 3]; }
    }
  }

  /**
   * Two groups around ":::" pass: the global match counts one "::", and the
   * stray colon leaves an empty group, which `validateGroups` tolerates.
   */
  lemma TripleColonBetweenGroupsAccepted(a: string, b: string)
    requires FullGroup(a) && FullGroup(b)
    ensures IsValidIPv6Simple(a + ":::" + b)
  {
    var u := a + ":::" + b;
    TripleColonPieces(a, b);
    TripleColonChars(a, b);
    assert !StartsWith(u, ":") && !EndsWith(u, ":");
    assert GroupsOk(CompressedGroups(u));
  }

  // ---------------------------------------------------------------------
  // isValidIP
  // ---------------------------------------------------------------------

  /** What `isValidIP` accepts: a non-empty string whose trimmed text is an IPv4 or IPv6 address. */
  predicate IpAccepted(ip: Value) {
    ip.Str? && ip.s != [] && (IsIPv4(JsTrim(ip.s)) || IsValidIPv6Simple(JsTrim(ip.s)))
  }

  /** `isValidIP` */
  method IsValidIP(ip: Value) returns (valid: bool)
    ensures valid <==> IpAccepted(ip)
  {
    if !Truthy(ip) || !ip.Str? {
      return false;
    }
    var trimmed := JsTrim(ip.s);
    var v4 := IsValidIPv4Simple(trimmed);
    valid := v4 || IsValidIPv6Simple(trimmed);
  }
}
