/** The receiving side of the Viola test API: interface indexes, resource names and manifests. */
module Receiver {
  import opened Wrappers
  import opened Text
  import opened Viola
  import Normalization
  import Seqs

  // ---------- Interface indexes ----------

  /** The largest 64-bit signed integer, beyond which the parser reports an error. */
  const MAX_INT := 0x7FFF_FFFF_FFFF_FFFF

  const PREFIX := "multinic"

  /** The index in a name of the form "multinic" followed by decimal digits, white space around it ignored. */
  function ParseInterfaceNameIndex(name: string): Option<int> {
    var t := TrimSpace(name);
    if |t| > |PREFIX| && t[..|PREFIX|] == PREFIX && AllDigits(t[|PREFIX|..]) && Value(t[|PREFIX|..]) <= MAX_INT
    then Some(Value(t[|PREFIX|..]))
    else None
  }

  lemma NameParts(i: nat)
    ensures var name := InterfaceName(i);
            && |name| > |PREFIX| && name[..|PREFIX|] == PREFIX && name[|PREFIX|..] == Decimal(i)
            && TrimSpace(name) == name
  {
  }

  /** Parsing a generated interface name gives its index back, over the whole range of the type and not
      beyond it. */
  lemma IndexRoundTrip(i: nat)
    ensures ParseInterfaceNameIndex(InterfaceName(i)) == if i <= MAX_INT then Some(i) else None
  {
    NameParts(i);
    DecimalRoundTrip(i);
  }

  /** The name carries this index: "multinic" and one or more decimal digits, white space around them ignored. */
  ghost predicate CarriesIndex(name: string, v: int) {
    exists digits: string :: digits != "" && AllDigits(digits) && TrimSpace(name) == PREFIX + digits
                             && v == Value(digits) <= MAX_INT
  }

  /** Exactly such names have an index; leading zeros do not matter. */
  lemma ParseMeaning(name: string, v: int)
    ensures ParseInterfaceNameIndex(name) == Some(v) <==> CarriesIndex(name, v)
  {
    var t := TrimSpace(name);
    if ParseInterfaceNameIndex(name) == Some(v) {
      assert t == PREFIX + t[|PREFIX|..];
    }
    if digits: string :| digits != "" && AllDigits(digits) && t == PREFIX + digits && v == Value(digits) <= MAX_INT {
      assert t[..|PREFIX|] == PREFIX && t[|PREFIX|..] == digits;
    }
  }

  // ---------- The wire ----------

  /** One interface in the posted JSON: a field left out when it has its zero value is `None`. */
  datatype WireInterface = WireInterface(id: Option<int>, name: Option<string>, mac: string, address: Option<string>,
                                         cidr: Option<string>, mtu: Option<int>)

  function NonZero(x: int): Option<int> {
    if x == 0 then None else Some(x)
  }

  function NonEmpty(s: string): Option<string> {
    if s == "" then None else Some(s)
  }

  /** What the receiver can see of a posted interface. */
  function ToWire(iface: NodeInterface): WireInterface {
    WireInterface(NonZero(iface.id), NonEmpty(iface.name), iface.mac, NonEmpty(iface.address), NonEmpty(iface.cidr),
                  NonZero(iface.mtu))
  }

  datatype ManifestInterface =
    ManifestInterface(id: int, name: string, mac: string, address: string, cidr: string, mtu: int)

  /** A missing field reads as its zero value. */
  function FromWire(w: WireInterface): ManifestInterface {
    ManifestInterface(w.id.GetOr(0), w.name.GetOr(""), w.mac, w.address.GetOr(""), w.cidr.GetOr(""), w.mtu.GetOr(0))
  }

  /** The index in the name, when there is one, overrides the posted ID. */
  function Indexed(w: WireInterface): ManifestInterface {
    var iface := FromWire(w);
    iface.(id := ParseInterfaceNameIndex(iface.name).GetOr(iface.id))
  }

  const TO_WIRE: NodeInterface -> WireInterface := (iface: NodeInterface) => ToWire(iface)
  const INDEXED: WireInterface -> ManifestInterface := (w: WireInterface) => Indexed(w)

  datatype WireNode = WireNode(nodeName: string, instanceID: string, interfaces: seq<WireInterface>)

  /** The labels "multinic.io/node-name", "multinic.io/instance-id" and "multinic.io/provider-id". */
  datatype Labels = Labels(nodeName: string, instanceID: Option<string>, providerID: Option<string>)

  datatype Manifest = Manifest(name: string, labels: Labels, nodeName: string, instanceID: string,
                               interfaces: seq<ManifestInterface>)

  function LabelFor(value: string): Option<string> {
    if value != "" then Some(SanitizeLabel(value)) else None
  }

  function LabelsFor(cfg: WireNode, providerID: string): Labels {
    Labels(SanitizeLabel(cfg.nodeName), LabelFor(cfg.instanceID), LabelFor(providerID))
  }

  function ManifestFor(cfg: WireNode, providerID: string): Manifest {
    Manifest(SanitizeName(cfg.nodeName), LabelsFor(cfg, providerID), cfg.nodeName, cfg.instanceID,
             Seqs.Map(INDEXED, cfg.interfaces))
  }

  method IndexInterfaces(wire: seq<WireInterface>) returns (interfaces: seq<ManifestInterface>)
    ensures interfaces == Seqs.Map(INDEXED, wire)
  {
    interfaces := [];
    for i := 0 to |wire|
      invariant interfaces == Seqs.Map(INDEXED, wire[..i])
    {
      Seqs.MapSnoc(INDEXED, wire, i);
      var iface := FromWire(wire[i]);
      var nameID := ParseInterfaceNameIndex(iface.name);
      if nameID.Some? {
        iface := iface.(id := nameID.value);
      }
      interfaces := interfaces + [iface];
    }
    assert wire[..|wire|] == wire;
  }

  method BuildOne(cfg: WireNode, providerID: string) returns (m: Manifest)
    ensures m == ManifestWith(providerID)(cfg)
  {
    var name := SanitizeName(cfg.nodeName);
    var labels := LabelsFor(cfg, providerID);
    var interfaces := IndexInterfaces(cfg.interfaces);
    m := Manifest(name, labels, cfg.nodeName, cfg.instanceID, interfaces);
  }

  function ManifestWith(providerID: string): WireNode -> Manifest {
    cfg => ManifestFor(cfg, providerID)
  }

  const UNNAMED: WireNode -> bool := (cfg: WireNode) => TrimSpace(cfg.nodeName) == ""

  /** Some node has a blank name. */
  ghost predicate SomeUnnamed(configs: seq<WireNode>) {
    exists i :: 0 <= i < |configs| && TrimSpace(configs[i].nodeName) == ""
  }

  lemma UnnamedMeaning(configs: seq<WireNode>)
    ensures Seqs.Filter(UNNAMED, configs) != [] <==> SomeUnnamed(configs)
  {
    var r := Seqs.Filter(UNNAMED, configs);
    if r != [] {
      assert r[0] in r;
    }
    if i :| 0 <= i < |configs| && TrimSpace(configs[i].nodeName) == "" {
      Seqs.FilterMember(UNNAMED, configs, configs[i]);
    }
  }

  /** One manifest per posted node, unless one of them has a blank name: then the whole request fails. */
  method BuildManifest(configs: seq<WireNode>, providerID: string) returns (docs: Option<seq<Manifest>>)
    ensures docs == if Seqs.Filter(UNNAMED, configs) != [] then None
                    else Some(Seqs.Map(ManifestWith(providerID), configs))
    ensures docs.None? <==> SomeUnnamed(configs)
  {
    UnnamedMeaning(configs);
    var out: seq<Manifest> := [];
    for i := 0 to |configs|
      invariant Seqs.Filter(UNNAMED, configs[..i]) == []
      invariant out == Seqs.Map(ManifestWith(providerID), configs[..i])
    {
      Seqs.FilterSnoc(UNNAMED, configs, i);
      if TrimSpace(configs[i].nodeName) == "" {
        Seqs.FilterPrefix(UNNAMED, configs, i + 1);
        return None;
      }
      Seqs.MapSnoc(ManifestWith(providerID), configs, i);
      var m := BuildOne(configs[i], providerID);
      out := out + [m];
    }
    assert configs[..|configs|] == configs;
    docs := Some(out);
  }

  /** The name alone decides the ID: whatever ID was posted or dropped, a generated name restores its index. */
  lemma NameRestoresID(w: WireInterface, i: nat)
    requires i <= MAX_INT && w.name == Some(InterfaceName(i))
    ensures Indexed(w).id == i
  {
    IndexRoundTrip(i);
  }

  /** Without an index in its name an interface keeps its posted ID, which is 0 when none was posted. */
  lemma OtherNamesKeepID(w: WireInterface)
    requires forall v :: !CarriesIndex(w.name.GetOr(""), v)
    ensures w.id.Some? ==> Indexed(w).id == w.id.value
    ensures w.id.None? ==> Indexed(w).id == 0
  {
    var parsed := ParseInterfaceNameIndex(w.name.GetOr(""));
    if parsed.Some? {
      ParseMeaning(w.name.GetOr(""), parsed.value);
    }
  }

  /** Everything but the ID is what was posted. */
  lemma ManifestMeaning(cfg: WireNode, providerID: string)
    ensures var m := ManifestFor(cfg, providerID);
            && m.nodeName == cfg.nodeName && m.instanceID == cfg.instanceID && |m.interfaces| == |cfg.interfaces|
            && m.name == SanitizeName(cfg.nodeName) && m.labels.nodeName == SanitizeLabel(cfg.nodeName)
            && (m.labels.instanceID.Some? <==> cfg.instanceID != "")
            && (m.labels.instanceID.Some? ==> m.labels.instanceID.value == SanitizeLabel(cfg.instanceID))
            && (m.labels.providerID.Some? <==> providerID != "")
            && (m.labels.providerID.Some? ==> m.labels.providerID.value == SanitizeLabel(providerID))
            && forall i :: 0 <= i < |m.interfaces| ==>
                 var w, iface := cfg.interfaces[i], m.interfaces[i];
                 && iface.mac == w.mac && iface.name == w.name.GetOr("") && iface.address == w.address.GetOr("")
                 && iface.cidr == w.cidr.GetOr("") && iface.mtu == w.mtu.GetOr(0)
  {
  }

  /** The manifest of a normalized node carries its interfaces in order, each with its index as the ID, though
      index 0 is left out on the wire. */
  lemma ManifestCarriesNormalForm(node: NodeConfig, providerID: string)
    requires |node.interfaces| <= MAX_INT
    ensures var n := Normalization.Normalize(node);
            var m := ManifestFor(WireNode(n.nodeName, n.instanceID, Seqs.Map(TO_WIRE, n.interfaces)), providerID);
            && |m.interfaces| == |node.interfaces|
            && forall i :: 0 <= i < |m.interfaces| ==>
                 m.interfaces[i] == ManifestInterface(i, InterfaceName(i), n.interfaces[i].mac, n.interfaces[i].address,
                                                      n.interfaces[i].cidr, n.interfaces[i].mtu)
  {
    Normalization.NormalFormProperties(node);
    var n := Normalization.Normalize(node);
    forall i | 0 <= i < |n.interfaces|
      ensures Indexed(ToWire(n.interfaces[i])) ==
              ManifestInterface(i, InterfaceName(i), n.interfaces[i].mac, n.interfaces[i].address, n.interfaces[i].cidr,
                                n.interfaces[i].mtu)
    {
      NameRestoresID(ToWire(n.interfaces[i]), i);
    }
  }

  // ---------- Names and labels ----------

  /** Go's lower-casing, as far as it can be told apart here: the ASCII letters and the two other characters
      whose lower case is ASCII. Every other character stays outside both alphabets. */
  function Lower(c: char): char {
    if 'A' <= c <= 'Z' then c + 32 as char
    else if c == '\U{212A}' then 'k'
    else if c == '\U{0130}' then 'i'
    else c
  }

  predicate IsNameChar(c: char) {
    'a' <= c <= 'z' || '0' <= c <= '9' || c == '.' || c == '-'
  }

  const LOWER: char -> char := c => Lower(c)
  const NAME_CHAR: char -> bool := c => IsNameChar(c)
  const LABEL_CHAR: char -> bool := c => IsNameChar(c) || c == '_'
  const DASH_OR_DOT: char -> bool := c => c == '-' || c == '.'

  /** Every maximal run of characters outside the alphabet becomes one '-'. */
  function Squashed(s: string, ok: char -> bool): string {
    if s == "" then ""
    else
      var init, last := s[..|s| - 1], s[|s| - 1];
      var r := Squashed(init, ok);
      if ok(last) then r + [last]
      else if init != "" && !ok(init[|init| - 1]) then r
      else r + "-"
  }

  function Sanitized(value: string, ok: char -> bool, limit: nat, fallback: string): string {
    var lowered: string := Seqs.Map(LOWER, TrimSpace(value));
    var trimmed := Trim(Squashed(lowered, ok), DASH_OR_DOT);
    var v := if trimmed == "" then fallback else trimmed;
    if |v| > limit then
      var cut := Trim(v[..limit], DASH_OR_DOT);
      if cut == "" then fallback else cut
    else v
  }

  function SanitizeName(value: string): string {
    Sanitized(value, NAME_CHAR, 253, "node")
  }

  function SanitizeLabel(value: string): string {
    Sanitized(value, LABEL_CHAR, 63, "unknown")
  }

  predicate AllIn(s: string, ok: char -> bool) {
    forall i :: 0 <= i < |s| ==> ok(s[i])
  }

  /** Non-empty, within the limit, over the alphabet, with no '-' or '.' at either end. */
  predicate Clean(s: string, ok: char -> bool, limit: nat) {
    s != "" && |s| <= limit && AllIn(s, ok) && CleanEnds(s, DASH_OR_DOT)
  }

  /** An alphabet of this receiver: it has '-', no white space and no upper-case character. */
  ghost predicate Alphabet(ok: char -> bool) {
    ok('-') && forall c :: ok(c) ==> !IsSpace(c) && Lower(c) == c
  }

  lemma BothAreAlphabets()
    ensures Alphabet(NAME_CHAR) && Alphabet(LABEL_CHAR)
  {
  }

  lemma {:induction false} SquashedMeaning(s: string, ok: char -> bool)
    requires ok('-')
    ensures AllIn(Squashed(s, ok), ok)
    ensures AllIn(s, ok) ==> Squashed(s, ok) == s
  {
    if s == "" {
    } else {
      SquashedMeaning(s[..|s| - 1], ok);
      assert s == s[..|s| - 1] + [s[|s| - 1]];
    }
  }

  predicate NoneIn(s: string, ok: char -> bool) {
    forall i :: 0 <= i < |s| ==> !ok(s[i])
  }

  lemma {:induction false} SquashedGap(s: string, gap: string, ok: char -> bool)
    requires s == "" || ok(s[|s| - 1])
    requires gap != "" && NoneIn(gap, ok)
    ensures Squashed(s + gap, ok) == Squashed(s, ok) + "-"
  {
    var init := gap[..|gap| - 1];
    assert (s + gap)[..|s + gap| - 1] == s + init;
    if init == "" {
      assert s + init == s;
    } else {
      SquashedGap(s, init, ok);
    }
  }

  lemma SquashedSnoc(s: string, c: char, ok: char -> bool)
    ensures Squashed(s + [c], ok) ==
            if ok(c) then Squashed(s, ok) + [c]
            else if s != "" && !ok(s[|s| - 1]) then Squashed(s, ok) else Squashed(s, ok) + "-"
  {
    assert (s + [c])[..|s|] == s;
  }

  lemma Appended(whole: string, front: string, middle: string, tail: string)
    requires whole == front + middle
    ensures whole + tail == front + (middle + tail)
  {
  }

  lemma LastOfJoined(s: string, init: string)
    requires init != ""
    ensures s + init != "" && (s + init)[|s + init| - 1] == init[|init| - 1]
  {
  }

  lemma LastSplit(s: string, rest: string)
    requires rest != ""
    ensures var init, last := rest[..|rest| - 1], rest[|rest| - 1];
            rest == init + [last] && s + rest == s + init + [last]
  {
  }

  lemma OneMoreSquashed(s: string, init: string, last: char, ok: char -> bool)
    requires init == "" ==> ok(last)
    requires Squashed(s + init, ok) == Squashed(s, ok) + Squashed(init, ok)
    ensures Squashed(s + init + [last], ok) == Squashed(s, ok) + Squashed(init + [last], ok)
  {
    SquashedSnoc(init, last, ok);
    SquashedSnoc(s + init, last, ok);
    if ok(last) {
      Appended(Squashed(s + init, ok), Squashed(s, ok), Squashed(init, ok), [last]);
    } else {
      LastOfJoined(s, init);
      Appended(Squashed(s + init, ok), Squashed(s, ok), Squashed(init, ok), "-");
    }
  }

  lemma {:induction false} SquashedRest(s: string, rest: string, ok: char -> bool)
    requires rest == "" || ok(rest[0])
    ensures Squashed(s + rest, ok) == Squashed(s, ok) + Squashed(rest, ok)
  {
    if rest == "" {
      assert s + rest == s;
    } else {
      var init, last := rest[..|rest| - 1], rest[|rest| - 1];
      SquashedRest(s, init, ok);
      OneMoreSquashed(s, init, last, ok);
      LastSplit(s, rest);
    }
  }

  /** A run of characters outside the alphabet becomes one '-', whatever its length, wherever it stands; what is
      before and after it is squashed by itself. */
  lemma SquashedRun(before: string, gap: string, after: string, ok: char -> bool)
    requires before == "" || ok(before[|before| - 1])
    requires gap != "" && NoneIn(gap, ok)
    requires after == "" || ok(after[0])
    ensures Squashed(before + gap + after, ok) == Squashed(before, ok) + "-" + Squashed(after, ok)
  {
    SquashedGap(before, gap, ok);
    SquashedRest(before + gap, after, ok);
  }

  /** Lower-casing moves an upper-case letter to its place among the lower-case ones and leaves what has no case. */
  lemma LowerMeaning(c: char)
    ensures 'A' <= c <= 'Z' ==> 'a' <= Lower(c) <= 'z' && Lower(c) as int - 'a' as int == c as int - 'A' as int
    ensures c < 'A' || 'Z' < c < '\U{0080}' ==> Lower(c) == c
  {
  }

  /** What sanitizing does to a value: the trimmed, lower-cased value is squashed and stripped of '-' and '.' at its
      ends; when nothing is left the fallback stands in, when it fits it is the result, and when it is too long the
      result is the head of it up to the limit without '-' and '.' at its end. */
  lemma SanitizedMeaning(value: string, ok: char -> bool, limit: nat, fallback: string)
    requires Clean(fallback, ok, limit)
    ensures var lowered: string := Seqs.Map(LOWER, TrimSpace(value));
            var v, r := Trim(Squashed(lowered, ok), DASH_OR_DOT), Sanitized(value, ok, limit, fallback);
            && (v == "" ==> r == fallback)
            && (0 < |v| <= limit ==> r == v)
            && (|v| > limit ==> r != "" && r <= v[..limit] && forall i :: |r| <= i < limit ==> DASH_OR_DOT(v[i]))
  {
    var lowered: string := Seqs.Map(LOWER, TrimSpace(value));
    var v := Trim(Squashed(lowered, ok), DASH_OR_DOT);
    TrimMeaning(Squashed(lowered, ok), DASH_OR_DOT);
    if |v| > limit {
      HeadOfClean(v, limit);
    }
  }

  lemma HeadOfClean(v: string, limit: nat)
    requires v != "" && CleanEnds(v, DASH_OR_DOT) && 0 < limit < |v|
    ensures var r := Trim(v[..limit], DASH_OR_DOT);
            r != "" && r <= v[..limit] && forall i :: |r| <= i < limit ==> DASH_OR_DOT(v[i])
  {
    var s := v[..limit];
    TruncationKeepsHead(v, limit);
    TrimMeaning(s, DASH_OR_DOT);
    var i, j :| 0 <= i <= j <= |s| && Trim(s, DASH_OR_DOT) == s[i..j]
                && (forall k :: 0 <= k < i || j <= k < |s| ==> DASH_OR_DOT(s[k]));
    assert i == 0 by {
      assert !DASH_OR_DOT(s[0]);
    }
  }

  lemma TrimKeepsAlphabet(s: string, ok: char -> bool, cut: char -> bool)
    requires AllIn(s, ok)
    ensures AllIn(Trim(s, cut), ok) && |Trim(s, cut)| <= |s| && CleanEnds(Trim(s, cut), cut)
  {
    TrimMeaning(s, cut);
    var i, j :| 0 <= i <= j <= |s| && Trim(s, cut) == s[i..j] && (forall k :: 0 <= k < i || j <= k < |s| ==> cut(s[k]));
  }

  /** Cutting a clean string short leaves something: the second fallback is never used. */
  lemma TruncationKeepsHead(v: string, limit: nat)
    requires v != "" && CleanEnds(v, DASH_OR_DOT) && 0 < limit < |v|
    ensures Trim(v[..limit], DASH_OR_DOT) != ""
  {
    var s := v[..limit];
    TrimMeaning(s, DASH_OR_DOT);
    assert !DASH_OR_DOT(s[0]);
    var i, j :| 0 <= i <= j <= |s| && Trim(s, DASH_OR_DOT) == s[i..j]
                && (forall k :: 0 <= k < i || j <= k < |s| ==> DASH_OR_DOT(s[k]));
  }

  lemma SanitizedIsClean(value: string, ok: char -> bool, limit: nat, fallback: string)
    requires Alphabet(ok) && Clean(fallback, ok, limit)
    ensures Clean(Sanitized(value, ok, limit, fallback), ok, limit)
  {
    var lowered: string := Seqs.Map(LOWER, TrimSpace(value));
    SquashedMeaning(lowered, ok);
    TrimKeepsAlphabet(Squashed(lowered, ok), ok, DASH_OR_DOT);
    var trimmed := Trim(Squashed(lowered, ok), DASH_OR_DOT);
    if |trimmed| > limit {
      TrimKeepsAlphabet(trimmed[..limit], ok, DASH_OR_DOT);
      TruncationKeepsHead(trimmed, limit);
    }
  }

  lemma CleanIsFixed(s: string, ok: char -> bool, limit: nat, fallback: string)
    requires Alphabet(ok) && Clean(s, ok, limit)
    ensures Sanitized(s, ok, limit, fallback) == s
  {
    TrimMeaning(s, SPACE);
    assert TrimSpace(s) == s;
    forall i | 0 <= i < |s| ensures LOWER(s[i]) == s[i] {
      assert ok(s[i]);
    }
    assert Seqs.Map(LOWER, s) == s;
    SquashedMeaning(s, ok);
    TrimMeaning(s, DASH_OR_DOT);
  }

  const LOWER_CASE := "abcdefghijklmnopqrstuvwxyz"
  const DIGITS := "0123456789"

  lemma LettersSpelled(c: char)
    ensures 'a' <= c <= 'z' <==> c in LOWER_CASE
  {
    assert 'a' <= c <= 'z' ==> LOWER_CASE[c as int - 'a' as int] == c;
  }

  lemma DigitsSpelled(c: char)
    ensures '0' <= c <= '9' <==> c in DIGITS
  {
    assert '0' <= c <= '9' ==> DIGITS[c as int - '0' as int] == c;
  }

  /** The characters of names and of labels one by one. */
  lemma NameCharsSpelled(c: char)
    ensures NAME_CHAR(c) <==> c in LOWER_CASE || c in DIGITS || c == '.' || c == '-'
    ensures LABEL_CHAR(c) <==> c in LOWER_CASE || c in DIGITS || c == '.' || c == '-' || c == '_'
  {
    LettersSpelled(c);
    DigitsSpelled(c);
  }

  /** A blank name or label has a stand-in. */
  lemma BlankValues(value: string)
    requires TrimSpace(value) == ""
    ensures SanitizeName(value) == "node" && SanitizeLabel(value) == "unknown"
  {
    TrimMeaning("", DASH_OR_DOT);
  }

  /** Resource names are always clean; the strings left alone are exactly the clean ones, so sanitizing is
      idempotent and keeps distinct clean names distinct. */
  lemma NamesAreNormalForms(value: string)
    ensures Clean(SanitizeName(value), NAME_CHAR, 253)
    ensures SanitizeName(value) == value <==> Clean(value, NAME_CHAR, 253)
    ensures SanitizeName(SanitizeName(value)) == SanitizeName(value)
  {
    BothAreAlphabets();
    SanitizedIsClean(value, NAME_CHAR, 253, "node");
    CleanIsFixed(SanitizeName(value), NAME_CHAR, 253, "node");
    if Clean(value, NAME_CHAR, 253) {
      CleanIsFixed(value, NAME_CHAR, 253, "node");
    }
  }

  /** The same for label values. */
  lemma LabelsAreNormalForms(value: string)
    ensures Clean(SanitizeLabel(value), LABEL_CHAR, 63)
    ensures SanitizeLabel(value) == value <==> Clean(value, LABEL_CHAR, 63)
    ensures SanitizeLabel(SanitizeLabel(value)) == SanitizeLabel(value)
  {
    BothAreAlphabets();
    SanitizedIsClean(value, LABEL_CHAR, 63, "unknown");
    CleanIsFixed(SanitizeLabel(value), LABEL_CHAR, 63, "unknown");
    if Clean(value, LABEL_CHAR, 63) {
      CleanIsFixed(value, LABEL_CHAR, 63, "unknown");
    }
  }
}
