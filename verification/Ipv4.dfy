/** The IPv4 settings a profile may be given, and their normal form. */
module Ipv4 {
  import opened Wrappers
  import opened Unicode
  import opened WhiteSpace
  import opened Decimals
  import opened Splitting

  const SLASH: CodeUnit := 0x2F
  const DOT: CodeUnit := 0x2E
  const COMMA: CodeUnit := 0x2C

  predicate AllDigits(s: Text) { forall i :: 0 <= i < |s| ==> IsDigit(s[i]) }

  predicate IsOctet(s: Text) { 1 <= |s| <= 3 && AllDigits(s) && Decimal(s, |s|) <= 255 }

  predicate IsPrefixLength(s: Text) { 1 <= |s| <= 2 && AllDigits(s) && Decimal(s, |s|) <= 32 }

  predicate IsAddress(value: Text, requirePrefix: bool) {
    var pieces := SplitOn(value, SLASH);
    && |pieces| <= 2 && (requirePrefix ==> |pieces| == 2)
    && (var octets := SplitOn(pieces[0], DOT);
        |octets| == 4 && forall i :: 0 <= i < 4 ==> IsOctet(octets[i]))
    && (|pieces| == 1 || IsPrefixLength(pieces[1]))
  }

  predicate AllPrefixed(addresses: seq<Text>) { forall i :: 0 <= i < |addresses| ==> IsAddress(addresses[i], true) }

  /** A host address, without a prefix length. */
  predicate IsHost(value: Text) { SLASH !in value && IsAddress(value, false) }

  predicate AllHosts(addresses: seq<Text>) { forall i :: 0 <= i < |addresses| ==> IsHost(addresses[i]) }

  predicate IsSeparator(u: CodeUnit) { IsWhite(u) || u == COMMA }

  function WordLength(s: Text): (n: nat)
    ensures n <= |s| && (forall i :: 0 <= i < n ==> !IsSeparator(s[i])) && (n < |s| ==> IsSeparator(s[n]))
  {
    if s == [] || IsSeparator(s[0]) then 0 else 1 + WordLength(s[1..])
  }

  /** The non-empty pieces between runs of white space and commas. */
  function IpList(s: Text): (words: seq<Text>)
    ensures forall i :: 0 <= i < |words| ==> words[i] != []
    decreases |s|
  {
    if s == [] then []
    else if IsSeparator(s[0]) then IpList(s[1..])
    else [s[..WordLength(s)]] + IpList(s[WordLength(s)..])
  }

  datatype Method = Auto | Manual | Disabled | OtherMethod

  datatype Config = Config(method_: Method, addresses: seq<Text>, gateway: Text, dns: seq<Text>, ignoreAutoDns: bool)

  /** An absent text argument is the empty text. */
  function Ipv4Config(method_: Method, address: Text, gateway: Text, dns: Text): Option<Config> {
    if method_.OtherMethod? then None
    else
      var addresses := if method_.Manual? then IpList(address) else [];
      var dnsList := if method_.Disabled? then [] else IpList(dns);
      var route := if method_.Manual? then Trim(gateway) else [];
      if (method_.Manual? && addresses == []) || !AllPrefixed(addresses) then None
      else if (route != [] && !IsHost(route)) || !AllHosts(dnsList) then None
      else Some(Config(method_, addresses, route, dnsList, dnsList != []))
  }

  /** Field by field; equal lists have equal JSON. */
  predicate SameIpv4(left: Option<Config>, right: Option<Config>) {
    && left.Some? && right.Some?
    && left.value.method_ == right.value.method_ && left.value.gateway == right.value.gateway
    && left.value.ignoreAutoDns == right.value.ignoreAutoDns
    && left.value.addresses == right.value.addresses && left.value.dns == right.value.dns
  }

  // ---- Normal form ----

  predicate NoSeparator(s: Text) { forall i :: 0 <= i < |s| ==> !IsSeparator(s[i]) }

  predicate AllSeparators(s: Text) { forall i :: 0 <= i < |s| ==> IsSeparator(s[i]) }

  /** Words written one after the other, each followed by separators; only the last may have none. */
  function Spaced(words: seq<Text>, gaps: seq<Text>): Text
    requires |gaps| == |words|
  {
    if words == [] then [] else words[0] + gaps[0] + Spaced(words[1..], gaps[1..])
  }

  ghost predicate Gaps(gaps: seq<Text>) {
    forall i :: 0 <= i < |gaps| ==> AllSeparators(gaps[i]) && (i < |gaps| - 1 ==> gaps[i] != [])
  }

  lemma {:induction false} SeparatorsAreSkipped(gap: Text, rest: Text)
    requires AllSeparators(gap)
    ensures IpList(gap + rest) == IpList(rest)
  {
    if gap == [] {
      assert gap + rest == rest;
    } else {
      assert (gap + rest)[1..] == gap[1..] + rest;
      SeparatorsAreSkipped(gap[1..], rest);
    }
  }

  lemma {:induction false} WordEnds(word: Text, rest: Text)
    requires NoSeparator(word) && (rest == [] || IsSeparator(rest[0]))
    ensures WordLength(word + rest) == |word|
  {
    if word == [] {
      assert word + rest == rest;
    } else {
      assert (word + rest)[1..] == word[1..] + rest;
      WordEnds(word[1..], rest);
    }
  }

  /** Splitting undoes spacing. */
  lemma {:induction false} ListUndoesSpacing(words: seq<Text>, gaps: seq<Text>)
    requires |gaps| == |words| && Gaps(gaps)
    requires forall i :: 0 <= i < |words| ==> words[i] != [] && NoSeparator(words[i])
    ensures IpList(Spaced(words, gaps)) == words
  {
    if words == [] {
    } else {
      hide IsSeparator, WordLength;
      var more := Spaced(words[1..], gaps[1..]);
      ListUndoesSpacing(words[1..], gaps[1..]);
      SeparatorsAreSkipped(gaps[0], more);
      var tail := gaps[0] + more;
      WordEnds(words[0], tail);
      var s := words[0] + gaps[0] + more;
      assert s == words[0] + tail;
      assert s[0] == words[0][0] && s[..|words[0]|] == words[0] && s[|words[0]|..] == tail;
    }
  }

  /** The units a valid address is made of. */
  predicate IsAddressUnit(u: CodeUnit) { 0x30 <= u <= 0x39 || u == DOT || u == SLASH }

  lemma {:induction false} JoinedUnits(pieces: seq<Text>, separator: CodeUnit)
    requires pieces != [] && IsAddressUnit(separator)
    requires forall i :: 0 <= i < |pieces| ==> forall k :: 0 <= k < |pieces[i]| ==> IsAddressUnit(pieces[i][k])
    ensures forall k :: 0 <= k < |Join(pieces, separator)| ==> IsAddressUnit(Join(pieces, separator)[k])
  {
    if |pieces| == 1 {
    } else {
      JoinedUnits(pieces[1..], separator);
    }
  }

  lemma AddressUnits(value: Text, requirePrefix: bool)
    requires IsAddress(value, requirePrefix)
    ensures forall k :: 0 <= k < |value| ==> IsAddressUnit(value[k])
    ensures value != [] && NoSeparator(value)
  {
    var pieces := SplitOn(value, SLASH);
    var octets := SplitOn(pieces[0], DOT);
    JoinUndoesSplit(value, SLASH);
    JoinUndoesSplit(pieces[0], DOT);
    forall i | 0 <= i < 4 ensures forall k :: 0 <= k < |octets[i]| ==> IsAddressUnit(octets[i][k]) {
      assert IsOctet(octets[i]);
    }
    JoinedUnits(octets, DOT);
    JoinedUnits(pieces, SLASH);
    forall k | 0 <= k < |value| ensures !IsSeparator(value[k]) {
      assert IsAddressUnit(value[k]);
    }
  }

  /**
   * An accepted configuration is a normal form: writing its addresses and servers out with any
   * separators and reading them again gives the same configuration.
   */
  lemma ConfigIsNormalForm(method_: Method, address: Text, gateway: Text, dns: Text, addressGaps: seq<Text>,
                           dnsGaps: seq<Text>)
    requires var c := Ipv4Config(method_, address, gateway, dns);
             && c.Some? && |addressGaps| == |c.value.addresses| && |dnsGaps| == |c.value.dns| && Gaps(addressGaps)
                  && Gaps(dnsGaps)
    ensures var c := Ipv4Config(method_, address, gateway, dns).value;
            var again := Ipv4Config(c.method_, Spaced(c.addresses, addressGaps), c.gateway, Spaced(c.dns, dnsGaps));
            again == Some(c) && SameIpv4(again, Some(c))
  {
    hide IsAddress, Gaps, Spaced, IpList, Trim, NoSeparator;
    var c := Ipv4Config(method_, address, gateway, dns).value;
    assert AllPrefixed(c.addresses) && AllHosts(c.dns);
    forall i | 0 <= i < |c.addresses| ensures c.addresses[i] != [] && NoSeparator(c.addresses[i]) {
      AddressUnits(c.addresses[i], true);
    }
    forall i | 0 <= i < |c.dns| ensures c.dns[i] != [] && NoSeparator(c.dns[i]) {
      AddressUnits(c.dns[i], false);
    }
    ListUndoesSpacing(c.addresses, addressGaps);
    ListUndoesSpacing(c.dns, dnsGaps);
    hide AllPrefixed, AllHosts, IsHost;
    TrimTwice(gateway);
    TrimNothing();
  }

  lemma TrimNothing()
    ensures Trim([]) == []
  {}

  ghost predicate IsDottedQuad(value: Text) {
    exists octets: seq<Text> ::
      |octets| == 4 && (forall i :: 0 <= i < 4 ==> IsOctet(octets[i])) && value == Join(octets, DOT)
  }

  /** A host address is exactly four octets joined by dots. */
  lemma HostsAreDottedQuads(value: Text)
    ensures IsHost(value) <==> IsDottedQuad(value)
  {
    if IsHost(value) {
      NoSlash(value);
      JoinUndoesSplit(value, DOT);
      assert |SplitOn(value, DOT)| == 4;
    }
    if IsDottedQuad(value) {
      var octets: seq<Text> :| |octets| == 4 && (forall i :: 0 <= i < 4 ==> IsOctet(octets[i]))
        && value == Join(octets, DOT);
      SplitUndoesJoin(octets, DOT);
      QuadHasNoSlash(octets);
      NoSlash(value);
    }
  }

  lemma NoSlash(value: Text)
    requires SLASH !in value
    ensures SplitOn(value, SLASH) == [value]
  {
    SplitPrefix(value, [], SLASH);
    assert value + [] == value;
  }

  lemma {:induction false} QuadHasNoSlash(octets: seq<Text>)
    requires octets != [] && forall i :: 0 <= i < |octets| ==> IsOctet(octets[i])
    ensures SLASH !in Join(octets, DOT)
  {
    assert IsOctet(octets[0]);
    if |octets| == 1 {
    } else {
      QuadHasNoSlash(octets[1..]);
    }
  }

  // ---- Which configurations are accepted ----

  /** One to three decimal digits of at most 255. */
  predicate IsDottedOctet(s: Text) {
    && 1 <= |s| <= 3 && (forall i :: 0 <= i < |s| ==> 0x30 <= s[i] <= 0x39)
    && (|s| == 3 ==> (s[0] - 0x30) * 100 + (s[1] - 0x30) * 10 + (s[2] - 0x30) <= 255)
  }

  lemma OctetsAre(s: Text)
    ensures IsOctet(s) <==> IsDottedOctet(s)
  {
    if 1 <= |s| <= 3 && AllDigits(s) {
      assert Decimal(s, 0) == 0 && Decimal(s, 1) == s[0] - 0x30;
      if |s| >= 2 {
        assert Decimal(s, 2) == Decimal(s, 1) * 10 + (s[1] - 0x30);
      }
      if |s| == 3 {
        assert Decimal(s, 3) == Decimal(s, 2) * 10 + (s[2] - 0x30);
      }
    }
  }

  /** One or two decimal digits of at most 32. */
  predicate IsLength(s: Text) {
    && 1 <= |s| <= 2 && (forall i :: 0 <= i < |s| ==> 0x30 <= s[i] <= 0x39)
    && (|s| == 2 ==> (s[0] - 0x30) * 10 + (s[1] - 0x30) <= 32)
  }

  lemma LengthsAre(s: Text)
    ensures IsPrefixLength(s) <==> IsLength(s)
  {
    if 1 <= |s| <= 2 && AllDigits(s) {
      assert Decimal(s, 0) == 0 && Decimal(s, 1) == s[0] - 0x30;
      if |s| == 2 {
        assert Decimal(s, 2) == Decimal(s, 1) * 10 + (s[1] - 0x30);
      }
    }
  }

  /** Four octets joined by dots, a slash and a prefix length. */
  ghost predicate IsNetwork(value: Text) {
    exists host: Text, length: Text :: IsDottedQuad(host) && IsLength(length) && value == host + [0x2F] + length
  }

  lemma NetworksAre(value: Text)
    ensures IsAddress(value, true) <==> IsNetwork(value)
  {
    hide IsDottedQuad, IsPrefixLength, IsLength;
    if IsAddress(value, true) {
      NetworkSplits(value);
    }
    if IsNetwork(value) {
      var host: Text, length: Text :| IsDottedQuad(host) && IsLength(length) && value == host + [0x2F] + length;
      NetworkJoins(host, length);
    }
  }

  lemma NetworkSplits(value: Text)
    requires IsAddress(value, true)
    ensures IsNetwork(value)
  {
    hide IsOctet, IsDottedQuad, IsPrefixLength, IsLength;
    var pieces := SplitOn(value, SLASH);
    JoinUndoesSplit(value, SLASH);
    assert Join(pieces[1..], SLASH) == pieces[1];
    assert value == pieces[0] + [0x2F] + pieces[1];
    JoinUndoesSplit(pieces[0], DOT);
    QuadIsQuad(SplitOn(pieces[0], DOT), pieces[0]);
    LengthsAre(pieces[1]);
  }

  lemma QuadIsQuad(octets: seq<Text>, value: Text)
    requires |octets| == 4 && (forall i :: 0 <= i < 4 ==> IsOctet(octets[i])) && value == Join(octets, DOT)
    ensures IsDottedQuad(value)
  {}

  lemma NetworkJoins(host: Text, length: Text)
    requires IsDottedQuad(host) && IsLength(length)
    ensures IsAddress(host + [0x2F] + length, true)
  {
    var value := host + [0x2F] + length;
    HostsAreDottedQuads(host);
    NoSlash(host);
    LengthsAre(length);
    NoSlash(length);
    SplitUndoesJoin([host, length], SLASH);
    assert [host, length][1..] == [length];
    assert Join([host, length], SLASH) == value;
  }

  /** A text whose words, between separators, are these. */
  ghost predicate Lists(s: Text, words: seq<Text>) {
    && (forall i :: 0 <= i < |words| ==> words[i] != [] && NoSeparator(words[i]))
    && exists lead: Text, gaps: seq<Text> ::
         AllSeparators(lead) && |gaps| == |words| && Gaps(gaps) && s == lead + Spaced(words, gaps)
  }

  /** Reading a list finds exactly the words it lists. */
  lemma ListsExactly(s: Text, words: seq<Text>)
    ensures IpList(s) == words <==> Lists(s, words)
  {
    hide IpList, Spaced;
    if Lists(s, words) {
      var lead: Text, gaps: seq<Text> :| AllSeparators(lead) && |gaps| == |words| && Gaps(gaps)
        && s == lead + Spaced(words, gaps);
      SeparatorsAreSkipped(lead, Spaced(words, gaps));
      ListUndoesSpacing(words, gaps);
    }
    if IpList(s) == words {
      var lead, gaps := ListIsSpaced(s);
    }
  }

  /** How many separators a text starts with. */
  function LeadLength(s: Text): (n: nat)
    ensures n <= |s| && AllSeparators(s[..n]) && (n < |s| ==> !IsSeparator(s[n]))
  {
    if s == [] || !IsSeparator(s[0]) then 0
    else
      var n := LeadLength(s[1..]);
      assert s[..n + 1] == [s[0]] + s[1..][..n];
      n + 1
  }

  lemma {:induction false} ListIsSpaced(s: Text) returns (lead: Text, gaps: seq<Text>)
    ensures AllSeparators(lead) && |gaps| == |IpList(s)| && Gaps(gaps) && s == lead + Spaced(IpList(s), gaps)
    ensures forall i :: 0 <= i < |IpList(s)| ==> NoSeparator(IpList(s)[i])
    ensures s != [] && IsSeparator(s[0]) ==> lead != []
    decreases |s|, 1
  {
    hide IsSeparator, WordLength, LeadLength, Spaced;
    if s == [] {
      lead, gaps := [], [];
      NothingSpaced();
    } else {
      var n := LeadLength(s);
      lead := s[..n];
      var rest := s[n..];
      assert s == lead + rest;
      SeparatorsAreSkipped(lead, rest);
      if rest == [] {
        gaps := [];
        NothingSpaced();
      } else {
        gaps := WordsAreSpaced(rest);
      }
    }
  }

  lemma NothingSpaced()
    ensures Spaced([], []) == []
  {}

  lemma {:induction false} WordsAreSpaced(s: Text) returns (gaps: seq<Text>)
    requires s != [] && !IsSeparator(s[0])
    ensures |gaps| == |IpList(s)| && Gaps(gaps) && s == Spaced(IpList(s), gaps)
    ensures forall i :: 0 <= i < |IpList(s)| ==> NoSeparator(IpList(s)[i])
    decreases |s|, 0
  {
    hide IsSeparator, Spaced;
    var n := WordLength(s);
    var word, tail := s[..n], s[n..];
    WordIsNotEmpty(s);
    var lead, more := ListIsSpaced(tail);
    gaps := [lead] + more;
    var words := IpList(s);
    assert words == [word] + IpList(tail);
    assert |gaps| > 1 ==> |IpList(tail)| > 0;
    SpacedStep(words, gaps);
    assert s == word + tail;
    assert word + lead + Spaced(IpList(tail), more) == word + (lead + Spaced(IpList(tail), more));
  }

  lemma WordIsNotEmpty(s: Text)
    requires s != [] && !IsSeparator(s[0])
    ensures WordLength(s) > 0
  {}

  lemma SpacedStep(words: seq<Text>, gaps: seq<Text>)
    requires words != [] && |gaps| == |words|
    ensures Spaced(words, gaps) == words[0] + gaps[0] + Spaced(words[1..], gaps[1..])
  {}

  lemma SeparatorsAre(u: CodeUnit)
    ensures IsSeparator(u) <==> u == 0x2C || u in WHITE_UNITS
  {
    hide IsWhite, WHITE_UNITS;
    WhiteUnitsAre(u);
  }

  /**
   * Which configuration the texts of a form give, if any. A manual one has networks and perhaps a gateway, the
   * others have none; a disabled one has no servers, and the automatic ones are ignored exactly if some are given.
   */
  ghost predicate Configures(c: Config, method_: Method, address: Text, gateway: Text, dns: Text) {
    && c.method_ == method_ && !method_.OtherMethod?
    && (if method_.Manual? then
          && Lists(address, c.addresses) && c.addresses != []
          && (forall i :: 0 <= i < |c.addresses| ==> IsNetwork(c.addresses[i]))
          && c.gateway == Trim(gateway) && (c.gateway != [] ==> IsDottedQuad(c.gateway))
        else c.addresses == [] && c.gateway == [])
    && (if method_.Disabled? then c.dns == []
        else Lists(dns, c.dns) && forall i :: 0 <= i < |c.dns| ==> IsDottedQuad(c.dns[i]))
    && (c.ignoreAutoDns <==> c.dns != [])
  }

  lemma ConfiguresExactly(method_: Method, address: Text, gateway: Text, dns: Text, c: Config)
    ensures Ipv4Config(method_, address, gateway, dns) == Some(c) <==> Configures(c, method_, address, gateway, dns)
  {
    hide IpList, Lists, IsNetwork, IsDottedQuad, IsAddress, IsHost, Trim;
    ListsExactly(address, c.addresses);
    ListsExactly(dns, c.dns);
    forall value ensures IsHost(value) <==> IsDottedQuad(value) { HostsAreDottedQuads(value); }
    forall value ensures IsAddress(value, true) <==> IsNetwork(value) { NetworksAre(value); }
    forall words ensures Lists(address, words) <==> IpList(address) == words { ListsExactly(address, words); }
    forall words ensures Lists(dns, words) <==> IpList(dns) == words { ListsExactly(dns, words); }
  }

  /** Two configurations are the same exactly when all their fields are. */
  lemma SameIpv4Exactly(left: Option<Config>, right: Option<Config>)
    ensures SameIpv4(left, right) <==> left.Some? && left == right
  {}
}
