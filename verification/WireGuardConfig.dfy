/** WireGuardConfig.swift: the parser of configuration files and the matching printer. */
module WireGuardConfig {
  import opened ConfigText

  datatype Interface = Interface(privateKey: string, address: seq<string>, dns: seq<string>,
                                 mtu: Option<int>, listenPort: Option<int>)

  datatype Peer = Peer(publicKey: string, presharedKey: Option<string>, endpoint: Option<string>,
                       allowedIPs: seq<string>, persistentKeepalive: Option<int>)

  datatype Config = Config(interface: Interface, peers: seq<Peer>)

  datatype ConfigError = MissingPrivateKey | MissingPeer

  datatype Result = Ok(config: Config) | Err(error: ConfigError)

  datatype Section = NoSection | InterfaceSection | PeerSection

  /** The temporary storage for the peer being parsed. */
  datatype Draft = Draft(publicKey: Option<string>, presharedKey: Option<string>, endpoint: Option<string>,
                         allowedIPs: seq<string>, persistentKeepalive: Option<int>)

  const NO_DRAFT: Draft := Draft(None, None, None, [], None)

  /** The variables of the parser. */
  datatype State = State(section: Section, draft: Draft, peers: seq<Peer>, privateKey: Option<string>,
                         addresses: seq<string>, dns: seq<string>, mtu: Option<int>, listenPort: Option<int>)

  const START: State := State(NoSection, NO_DRAFT, [], None, [], [], None, None)

  // ---------------------------------------------------------------- the parts of a line

  /** lowercased(), as far as a comparison with a name of ASCII letters can tell: the only
      other character that becomes such a letter is the Kelvin sign. */
  function Lower(c: char): char {
    if 'A' <= c <= 'Z' then ((c as int) + 32) as char else if c == '\U{212A}' then 'k' else c
  }

  lemma LowerCharacters(c: char)
    ensures var upper, lower := "ABCDEFGHIJKLMNOPQRSTUVWXYZ", "abcdefghijklmnopqrstuvwxyz";
      (forall i :: 0 <= i < 26 ==> Lower(upper[i]) == lower[i]) && Lower('\U{212A}') == 'k'
      && (c !in upper && c != '\U{212A}' ==> Lower(c) == c)
  {
    var upper := "ABCDEFGHIJKLMNOPQRSTUVWXYZ";
    if 'A' <= c <= 'Z' { assert upper[c as int - 'A' as int] == c; }
  }

  function Lowercased(s: string): (r: string)
    ensures |r| == |s| && forall i :: 0 <= i < |s| ==> r[i] == Lower(s[i])
  {
    seq(|s|, i requires 0 <= i < |s| => Lower(s[i]))
  }

  predicate Contains(s: string, c: char) {
    IndexOf(s, c) < |s|
  }

  /** A default suffix for an address without one. */
  function NormalizeCIDR(addr: string): string {
    if Contains(addr, '/') then addr
    else if Contains(addr, ':') then addr + "/128"
    else addr + "/32"
  }

  function NormalizeAll(items: seq<string>): (r: seq<string>)
    ensures |r| == |items| && forall i :: 0 <= i < |r| ==> r[i] == NormalizeCIDR(items[i])
  {
    seq(|items|, i requires 0 <= i < |items| => NormalizeCIDR(items[i]))
  }

  function ParseList(value: string): seq<string> {
    TrimAll(Split(value))
  }

  function ParseAddresses(value: string): seq<string> {
    NormalizeAll(ParseList(value))
  }

  // ---------------------------------------------------------------- parsing

  function FinalizePeer(draft: Draft): (r: Option<Peer>) {
    if draft.publicKey.None? then None
    else Some(Peer(draft.publicKey.value, draft.presharedKey, draft.endpoint, draft.allowedIPs,
      draft.persistentKeepalive))
  }

  function SavePeer(peers: seq<Peer>, draft: Draft): seq<Peer> {
    match FinalizePeer(draft)
    case None => peers
    case Some(peer) => peers + [peer]
  }

  function StartSection(st: State, section: Section): State {
    st.(section := section, draft := NO_DRAFT, peers := SavePeer(st.peers, st.draft))
  }

  function AssignInterface(st: State, key: string, value: string): State {
    if key == "privatekey" then st.(privateKey := Some(value))
    else if key == "address" then st.(addresses := st.addresses + ParseAddresses(value))
    else if key == "dns" then st.(dns := st.dns + ParseList(value))
    else if key == "mtu" then st.(mtu := ParseInt(value))
    else if key == "listenport" then st.(listenPort := ParseInt(value))
    else st
  }

  function AssignPeer(d: Draft, key: string, value: string): Draft {
    if key == "publickey" then d.(publicKey := Some(value))
    else if key == "presharedkey" then d.(presharedKey := Some(value))
    else if key == "endpoint" then d.(endpoint := Some(value))
    else if key == "allowedips" then d.(allowedIPs := ParseAddresses(value))
    else if key == "persistentkeepalive" then d.(persistentKeepalive := ParseInt(value))
    else d
  }

  function Assign(st: State, key: string, value: string): State {
    match st.section
    case InterfaceSection => AssignInterface(st, key, value)
    case PeerSection => st.(draft := AssignPeer(st.draft, key, value))
    case NoSection => st
  }

  /** The effect of one line. */
  function Step(st: State, line: string): State {
    var trimmed := Trim(line);
    if trimmed == "" || trimmed[0] == '#' then st
    else if Lowercased(trimmed) == "[interface]" then StartSection(st, InterfaceSection)
    else if Lowercased(trimmed) == "[peer]" then StartSection(st, PeerSection)
    else
      var i := IndexOf(trimmed, '=');
      if i == |trimmed| then st
      else Assign(st, Lowercased(Trim(trimmed[..i])), Trim(trimmed[i + 1..]))
  }

  function Fold(st: State, lines: seq<string>): State
    decreases |lines|
  {
    if lines == [] then st else Step(Fold(st, lines[..|lines| - 1]), lines[|lines| - 1])
  }

  function Finish(st: State): Result {
    var peers := SavePeer(st.peers, st.draft);
    if st.privateKey.None? then Err(MissingPrivateKey)
    else if peers == [] then Err(MissingPeer)
    else Ok(Config(Interface(st.privateKey.value, st.addresses, st.dns, st.mtu, st.listenPort), peers))
  }

  /** What parse(from:) returns. */
  function Parsed(text: string): Result {
    Finish(Fold(START, Lines(text)))
  }

  /** parse(from:) */
  method Parse(text: string) returns (r: Result)
    ensures r == Parsed(text)
  {
    hide Lowercased, Trim, IndexOf, ParseAddresses, ParseList, ParseInt, SavePeer, AssignPeer;
    var lines := Lines(text);
    var peers: seq<Peer>, currentSection, draft := [], NoSection, NO_DRAFT;
    var privateKey: Option<string>, mtu: Option<int>, listenPort: Option<int> := None, None, None;
    var addresses: seq<string>, dnsServers: seq<string> := [], [];
    var n := 0;
    while n < |lines|
      invariant n <= |lines|
      invariant (State(currentSection, draft, peers, privateKey, addresses, dnsServers, mtu, listenPort)
                 == Fold(START, lines[..n]))
    {
      ghost var st := Fold(START, lines[..n]);
      var trimmed := Trim(lines[n]);
      assert lines[..n + 1][..n] == lines[..n];
      n := n + 1;
      if trimmed == "" || trimmed[0] == '#' { continue; }
      if Lowercased(trimmed) == "[interface]" {
        peers, currentSection, draft := SavePeer(peers, draft), InterfaceSection, NO_DRAFT;
        continue;
      }
      if Lowercased(trimmed) == "[peer]" {
        peers, currentSection, draft := SavePeer(peers, draft), PeerSection, NO_DRAFT;
        continue;
      }
      var equalsIndex := IndexOf(trimmed, '=');
      if equalsIndex == |trimmed| { continue; }
      var key, value := Lowercased(Trim(trimmed[..equalsIndex])), Trim(trimmed[equalsIndex + 1..]);
      match currentSection
      case InterfaceSection =>
        if key == "privatekey" { privateKey := Some(value); }
        else if key == "address" { addresses := addresses + ParseAddresses(value); }
        else if key == "dns" { dnsServers := dnsServers + ParseList(value); }
        else if key == "mtu" { mtu := ParseInt(value); }
        else if key == "listenport" { listenPort := ParseInt(value); }
      case PeerSection =>
        draft := AssignPeer(draft, key, value);
      case NoSection =>
    }
    assert lines[..|lines|] == lines;
    peers := SavePeer(peers, draft);
    if privateKey.None? { return Err(MissingPrivateKey); }
    if peers == [] { return Err(MissingPeer); }
    return Ok(Config(Interface(privateKey.value, addresses, dnsServers, mtu, listenPort), peers));
  }

  // ---------------------------------------------------------------- printing

  function Entry(name: string, value: string): string {
    name + " = " + value
  }

  function Optional(name: string, value: Option<string>): seq<string> {
    if value.None? then [] else [Entry(name, value.value)]
  }

  function ListEntry(name: string, items: seq<string>): seq<string> {
    if items == [] then [] else [Entry(name, JoinItems(items))]
  }

  function NumberEntry(name: string, n: Option<int>): seq<string> {
    if n.None? then [] else [Entry(name, PrintInt(n.value))]
  }

  function InterfaceLines(i: Interface): seq<string> {
    ["[Interface]", Entry("PrivateKey", i.privateKey)] + ListEntry("Address", i.address) + ListEntry("DNS", i.dns)
    + NumberEntry("MTU", i.mtu) + NumberEntry("ListenPort", i.listenPort)
  }

  function PeerLines(p: Peer): seq<string> {
    ["", "[Peer]", Entry("PublicKey", p.publicKey)] + Optional("PresharedKey", p.presharedKey)
    + ListEntry("AllowedIPs", p.allowedIPs) + Optional("Endpoint", p.endpoint)
    + NumberEntry("PersistentKeepalive", p.persistentKeepalive)
  }

  function PeersLines(peers: seq<Peer>): seq<string> {
    if peers == [] then [] else PeersLines(peers[..|peers| - 1]) + PeerLines(peers[|peers| - 1])
  }

  function PrintedLines(c: Config): (r: seq<string>)
    ensures r != []
  {
    InterfaceLines(c.interface) + PeersLines(c.peers)
  }

  function Printed(c: Config): string {
    JoinLines(PrintedLines(c))
  }

  method AppendOptional(lines: seq<string>, name: string, value: Option<string>) returns (r: seq<string>)
    ensures r == lines + Optional(name, value)
  {
    r := lines;
    if value.Some? { r := r + [Entry(name, value.value)]; }
  }

  method AppendList(lines: seq<string>, name: string, items: seq<string>) returns (r: seq<string>)
    ensures r == lines + ListEntry(name, items)
  {
    r := lines;
    if items != [] { r := r + [Entry(name, JoinItems(items))]; }
  }

  method AppendNumber(lines: seq<string>, name: string, n: Option<int>) returns (r: seq<string>)
    ensures r == lines + NumberEntry(name, n)
  {
    r := lines;
    if n.Some? { r := r + [Entry(name, PrintInt(n.value))]; }
  }

  /** toWgQuickConfig() */
  method ToWgQuickConfig(c: Config) returns (text: string)
    ensures text == Printed(c)
  {
    hide Entry, Optional, ListEntry, NumberEntry;
    var i := c.interface;
    var lines := ["[Interface]", Entry("PrivateKey", i.privateKey)];
    lines := AppendList(lines, "Address", i.address);
    lines := AppendList(lines, "DNS", i.dns);
    lines := AppendNumber(lines, "MTU", i.mtu);
    lines := AppendNumber(lines, "ListenPort", i.listenPort);
    var n := 0;
    while n < |c.peers|
      invariant n <= |c.peers| && lines == InterfaceLines(i) + PeersLines(c.peers[..n])
    {
      lines := AppendPeer(lines, c.peers[n]);
      assert c.peers[..n + 1][..n] == c.peers[..n];
      n := n + 1;
    }
    assert c.peers[..|c.peers|] == c.peers;
    text := JoinLines(lines);
  }

  method AppendPeer(lines: seq<string>, peer: Peer) returns (r: seq<string>)
    ensures r == lines + PeerLines(peer)
  {
    hide Entry, Optional, ListEntry, NumberEntry;
    r := ["", "[Peer]", Entry("PublicKey", peer.publicKey)];
    r := AppendOptional(r, "PresharedKey", peer.presharedKey);
    r := AppendList(r, "AllowedIPs", peer.allowedIPs);
    r := AppendOptional(r, "Endpoint", peer.endpoint);
    r := AppendNumber(r, "PersistentKeepalive", peer.persistentKeepalive);
    r := lines + r;
  }

  // ---------------------------------------------------------------- what a parsed configuration looks like

  /** A value as it comes out of a line. */
  predicate Clean(s: string) {
    Trimmed(s) && OneLine(s)
  }

  predicate CleanItem(s: string) {
    Clean(s) && NoComma(s)
  }

  predicate CleanAddress(s: string) {
    CleanItem(s) && Contains(s, '/')
  }

  predicate CleanOption(s: Option<string>) {
    s.Some? ==> Clean(s.value)
  }

  predicate IntOption(n: Option<int>) {
    n.Some? ==> IsInt(n.value)
  }

  predicate CleanPeer(p: Peer) {
    Clean(p.publicKey) && CleanOption(p.presharedKey) && CleanOption(p.endpoint)
    && (forall a <- p.allowedIPs :: CleanAddress(a)) && IntOption(p.persistentKeepalive)
  }

  predicate CleanConfig(c: Config) {
    var i := c.interface;
    Clean(i.privateKey) && (forall a <- i.address :: CleanAddress(a)) && (forall d <- i.dns :: CleanItem(d))
    && IntOption(i.mtu) && IntOption(i.listenPort) && c.peers != [] && forall p <- c.peers :: CleanPeer(p)
  }

  predicate CleanDraft(d: Draft) {
    CleanOption(d.publicKey) && CleanOption(d.presharedKey) && CleanOption(d.endpoint)
    && (forall a <- d.allowedIPs :: CleanAddress(a)) && IntOption(d.persistentKeepalive)
  }

  predicate CleanState(st: State) {
    CleanDraft(st.draft) && (forall p <- st.peers :: CleanPeer(p)) && CleanOption(st.privateKey)
    && (forall a <- st.addresses :: CleanAddress(a)) && (forall d <- st.dns :: CleanItem(d))
    && IntOption(st.mtu) && IntOption(st.listenPort)
  }

  lemma OneLineSlice(s: string, i: nat, j: nat)
    requires i <= j <= |s| && OneLine(s)
    ensures OneLine(s[i..j])
  {
  }

  lemma TrimOneLine(s: string)
    requires OneLine(s)
    ensures Clean(Trim(s))
  {
    var i, j := TrimSlice(s);
  }

  lemma TrimItem(s: string)
    requires OneLine(s) && NoComma(s)
    ensures CleanItem(Trim(s))
  {
    var i, j := TrimSlice(s);
  }

  lemma {:induction false} SplitOneLine(s: string)
    requires OneLine(s)
    ensures forall p <- Split(s) :: OneLine(p)
    decreases |s|
  {
    var i := IndexOf(s, ',');
    if i < |s| { SplitOneLine(s[i + 1..]); }
  }

  lemma ListClean(value: string)
    requires OneLine(value)
    ensures forall d <- ParseList(value) :: CleanItem(d)
  {
    SplitOneLine(value);
    var pieces := Split(value);
    forall k | 0 <= k < |pieces| ensures CleanItem(TrimAll(pieces)[k]) {
      assert pieces[k] in pieces;
      TrimItem(pieces[k]);
    }
  }

  lemma NormalizedClean(item: string)
    requires CleanItem(item)
    ensures CleanAddress(NormalizeCIDR(item))
  {
    var r := NormalizeCIDR(item);
    if !Contains(item, '/') {
      assert r[|item|] == '/';
      assert IndexOf(r, '/') < |r|;
      assert OneLine("/32") && OneLine("/128") && NoComma("/32") && NoComma("/128");
      if item == "" { assert r[0] == '/'; } else { assert r[0] == item[0]; }
    }
  }

  lemma AddressesClean(value: string)
    requires OneLine(value)
    ensures forall a <- ParseAddresses(value) :: CleanAddress(a)
  {
    hide NormalizeCIDR, CleanItem, CleanAddress, Split;
    ListClean(value);
    var items := ParseList(value);
    forall k | 0 <= k < |items| ensures CleanAddress(NormalizeAll(items)[k]) {
      assert items[k] in items;
      NormalizedClean(items[k]);
    }
  }

  lemma SaveClean(peers: seq<Peer>, draft: Draft)
    requires (forall p <- peers :: CleanPeer(p)) && CleanDraft(draft)
    ensures forall p <- SavePeer(peers, draft) :: CleanPeer(p)
  {
  }

  lemma AssignClean(st: State, key: string, value: string)
    requires CleanState(st) && Clean(value)
    ensures CleanState(Assign(st, key, value))
  {
    hide CleanAddress, CleanItem, ParseAddresses, ParseList, AssignPeer, CleanDraft, CleanPeer;
    AddressesClean(value);
    ListClean(value);
    AssignPeerClean(st.draft, key, value);
  }

  lemma AssignPeerClean(d: Draft, key: string, value: string)
    requires CleanDraft(d) && Clean(value)
    ensures CleanDraft(AssignPeer(d, key, value))
  {
    hide CleanAddress, ParseAddresses;
    AddressesClean(value);
  }

  lemma StepClean(st: State, line: string)
    requires CleanState(st) && OneLine(line)
    ensures CleanState(Step(st, line))
  {
    hide CleanPeer, CleanDraft, Lowercased, Assign;
    TrimOneLine(line);
    var t := Trim(line);
    SaveClean(st.peers, st.draft);
    assert CleanDraft(NO_DRAFT) by { NoDraftClean(); }
    var i := IndexOf(t, '=');
    if i < |t| {
      OneLineSlice(t, i + 1, |t|);
      TrimOneLine(t[i + 1..]);
      AssignClean(st, Lowercased(Trim(t[..i])), Trim(t[i + 1..]));
    }
  }

  lemma NoDraftClean()
    ensures CleanDraft(NO_DRAFT)
  {
  }

  lemma {:induction false} FoldClean(st: State, lines: seq<string>)
    requires CleanState(st) && forall line <- lines :: OneLine(line)
    ensures CleanState(Fold(st, lines))
    decreases |lines|
  {
    hide Step, CleanState;
    if lines != [] {
      FoldClean(st, lines[..|lines| - 1]);
      StepClean(Fold(st, lines[..|lines| - 1]), lines[|lines| - 1]);
    }
  }

  /** What the parser accepts is clean: trimmed single-line values, addresses with a suffix,
      list items without commas, numbers of 64 bits, and at least one peer. */
  lemma ParsedIsClean(text: string)
    requires Parsed(text).Ok?
    ensures CleanConfig(Parsed(text).config)
  {
    hide Fold, CleanPeer, CleanDraft;
    NoDraftClean();
    FoldClean(START, Lines(text));
    var st := Fold(START, Lines(text));
    SaveClean(st.peers, st.draft);
  }

  // ---------------------------------------------------------------- reading an entry back

  /** A name of a key: letters that are neither white space nor signs the parser looks for. */
  predicate Name(name: string, key: string) {
    name != "" && name[0] != '#' && name[0] != '[' && Lowercased(name) == key
    && forall i :: 0 <= i < |name| ==> !IsWhite(name[i]) && name[i] != '='
  }

  /** Trimming keeps what is not white space. */
  lemma NotCut(s: string, i: nat, j: nat, k: nat)
    requires i <= j <= |s| && k < |s| && !IsWhite(s[k])
    requires forall n :: 0 <= n < i || j <= n < |s| ==> IsWhite(s[n])
    ensures i <= k < j
  {
  }

  /** Where the equals sign and the value of an entry end up after trimming the line. */
  lemma EntryTrimmed(name: string, key: string, value: string) returns (j: nat)
    requires Name(name, key)
    ensures |name| + 1 < j <= |Entry(name, value)| && Trim(Entry(name, value)) == Entry(name, value)[..j]
    ensures forall k :: j <= k < |Entry(name, value)| ==> IsWhite(Entry(name, value)[k])
  {
    hide Lowercased;
    var line := Entry(name, value);
    assert line[|name| + 1] == '=' && line[0] == name[0];
    var i;
    i, j := TrimSlice(line);
    NotCut(line, i, j, 0);
    NotCut(line, i, j, |name| + 1);
    assert line[0..j] == line[..j];
  }

  lemma EntryStep(st: State, name: string, key: string, value: string)
    requires Name(name, key)
    ensures Step(st, Entry(name, value)) == Assign(st, key, Trim(value))
  {
    hide Assign, Trim, IndexOf, Lowercased;
    var line := Entry(name, value);
    var at := |name| + 1;
    var j := EntryTrimmed(name, key, value);
    var t := Trim(line);
    assert t == line[..j] && t[0] == name[0];
    NotAHeader(t);
    assert line[..at + 1] == name + " " + "=";
    assert t[..at] == "" + name + " " && t[at] == '=';
    EqualsSign(t, name);
    assert Trimmed(name) && Blank("") && Blank(" ");
    TrimAround("", name, " ");
    assert line[at + 1..] == " " + value;
    ValueBehind(line, value, at, j);
    assert t[at + 1..] == line[at + 1..j];
  }

  lemma EqualsSign(t: string, name: string)
    requires |name| + 1 < |t| && t[..|name| + 1] == "" + name + " " && t[|name| + 1] == '='
    requires forall i :: 0 <= i < |name| ==> name[i] != '='
    ensures IndexOf(t, '=') == |name| + 1
  {
    forall k | 0 <= k < |name| + 1 ensures t[k] != '=' {
      assert t[k] == t[..|name| + 1][k];
    }
    IndexOfIs(t, '=', |name| + 1);
  }

  lemma NotAHeader(t: string)
    requires t != "" && t[0] != '['
    ensures Lowercased(t) != "[interface]" && Lowercased(t) != "[peer]"
  {
    assert Lowercased(t)[0] != '[';
  }

  lemma ValueBehind(line: string, value: string, at: nat, j: nat)
    requires at + 1 <= j <= |line| && line[at + 1..] == " " + value
    requires forall k :: j <= k < |line| ==> IsWhite(line[k])
    ensures Trim(line[at + 1..j]) == Trim(value)
  {
    assert line[at + 1..] == line[at + 1..j] + line[j..];
    TrimTail(line[at + 1..j], line[j..]);
    TrimLeft(" ", value);
  }

  lemma InterfaceNames()
    ensures Name("PrivateKey", "privatekey") && Name("Address", "address") && Name("DNS", "dns")
    ensures Name("MTU", "mtu") && Name("ListenPort", "listenport")
  {
    assert Lowercased("PrivateKey") == "privatekey";
    assert Lowercased("Address") == "address";
    assert Lowercased("DNS") == "dns";
    assert Lowercased("MTU") == "mtu";
    assert Lowercased("ListenPort") == "listenport";
  }

  lemma PeerNames()
    ensures Name("PublicKey", "publickey") && Name("PresharedKey", "presharedkey")
  {
    assert Lowercased("PublicKey") == "publickey";
    assert Lowercased("PresharedKey") == "presharedkey";
  }

  lemma MorePeerNames()
    ensures Name("AllowedIPs", "allowedips") && Name("Endpoint", "endpoint")
  {
    assert Lowercased("AllowedIPs") == "allowedips";
    assert Lowercased("Endpoint") == "endpoint";
  }

  lemma KeepaliveName()
    ensures Name("PersistentKeepalive", "persistentkeepalive")
  {
    assert Lowercased("PersistentKeepalive") == "persistentkeepalive";
  }

  lemma HeaderSteps(st: State)
    ensures Step(st, "[Interface]") == StartSection(st, InterfaceSection)
    ensures Step(st, "[Peer]") == StartSection(st, PeerSection)
    ensures Step(st, "") == st
  {
    TrimIdentity("[Interface]");
    TrimIdentity("[Peer]");
    assert Lowercased("[Interface]") == "[interface]";
    assert Lowercased("[Peer]") == "[peer]";
  }

  lemma {:induction false} FoldAppend(st: State, a: seq<string>, b: seq<string>)
    ensures Fold(st, a + b) == Fold(Fold(st, a), b)
    decreases |b|
  {
    hide Step;
    if b == [] {
      assert a + b == a;
    } else {
      var n := |b| - 1;
      assert (a + b)[..|a + b| - 1] == a + b[..n];
      FoldAppend(st, a, b[..n]);
    }
  }

  lemma FoldOne(st: State, line: string)
    ensures Fold(st, [line]) == Step(st, line)
  {
    hide Step;
    assert [line][..0] == [];
  }

  // ---------------------------------------------------------------- lists

  /** The first and the last entry are not blank. */
  predicate Printable(items: seq<string>) {
    items == [] || (items[0] != "" && items[|items| - 1] != "")
  }

  lemma ListReadBack(items: seq<string>)
    requires items != [] && Printable(items) && forall x <- items :: CleanItem(x)
    ensures ParseList(Trim(JoinItems(items))) == items
  {
    hide Split, Trim, TrimAll;
    var s, rest := JoinItems(items), items[1..];
    assert items[0] in items && items[|items| - 1] in items;
    assert forall y <- rest :: y in items;
    if rest == [] {
      assert s == items[0];
    } else {
      RestEnds(rest);
      assert rest[|rest| - 1] == items[|items| - 1];
    }
    TrimIdentity(s);
    SplitJoined(items[0], rest);
    PiecesReadBack(items);
  }

  lemma PiecesReadBack(items: seq<string>)
    requires items != [] && forall x <- items :: CleanItem(x)
    ensures TrimAll([items[0]] + Indented(items[1..])) == items
  {
    hide Trim;
    var pieces := [items[0]] + Indented(items[1..]);
    forall k | 0 <= k < |items| ensures Trim(pieces[k]) == items[k] {
      assert items[k] in items;
      TrimIdentity(items[k]);
      if k > 0 {
        assert pieces[k] == " " + items[k];
        TrimLeft(" ", items[k]);
      }
    }
  }

  /** A blank first or last entry is lost. */
  lemma BlankEndsAreLost(items: seq<string>)
    requires !Printable(items) && forall x <- items :: CleanItem(x)
    ensures |ParseList(Trim(JoinItems(items)))| < |items|
  {
    hide Split;
    var s, rest := JoinItems(items), items[1..];
    assert items[0] in items && items[|items| - 1] in items;
    assert forall y <- rest :: y in items;
    CommasOfRest(rest);
    CommasAppend(items[0], Rest(rest));
    NoCommas(items[0]);
    var i, j := TrimSlice(s);
    var t := Trim(s);
    TrimKeepsCommas(s, i, j);
    PieceCount(t);
    if rest == [] {
      assert s == "";
    } else {
      RestEnds(rest);
      assert rest[|rest| - 1] == items[|items| - 1];
      if items[0] == "" {
        assert s[0] == ',';
        NotCut(s, i, j, 0);
        assert t[0] == ',';
      } else {
        var n := |s| - 2;
        assert s[n] == ',' && s[n + 1] == ' ';
        NotCut(s, i, j, n);
        assert t[|t| - 1] == s[j - 1];
        assert j == n + 1;
        assert t[|t| - 1] == s[n];
      }
    }
  }

  lemma TrimKeepsCommas(s: string, i: nat, j: nat)
    requires i <= j <= |s| && forall k :: 0 <= k < i || j <= k < |s| ==> IsWhite(s[k])
    ensures Commas(s[i..j]) == Commas(s)
  {
    hide Commas, IsWhite;
    assert s == s[..i] + (s[i..j] + s[j..]);
    CommasAppend(s[..i], s[i..j] + s[j..]);
    CommasAppend(s[i..j], s[j..]);
    BlankHasNoCommas(s[..i]);
    BlankHasNoCommas(s[j..]);
  }

  lemma BlankHasNoCommas(s: string)
    requires Blank(s)
    ensures Commas(s) == 0
  {
    hide Commas;
    NoCommas(s);
  }

  lemma AddressesReadBack(items: seq<string>)
    requires items != [] && forall a <- items :: CleanAddress(a)
    ensures ParseAddresses(Trim(JoinItems(items))) == items
  {
    assert items[0] in items && items[|items| - 1] in items;
    assert forall x <- items :: CleanItem(x);
    ListReadBack(items);
    forall k | 0 <= k < |items| ensures NormalizeCIDR(items[k]) == items[k] {
      assert items[k] in items;
    }
  }

  // ---------------------------------------------------------------- round trip

  lemma FoldOptional(st: State, name: string, key: string, v: Option<string>)
    requires Name(name, key) && CleanOption(v)
    ensures Fold(st, Optional(name, v)) == if v.None? then st else Assign(st, key, v.value)
  {
    hide Step, Assign;
    if v.Some? {
      FoldOne(st, Entry(name, v.value));
      EntryStep(st, name, key, v.value);
      TrimIdentity(v.value);
    }
  }

  lemma FoldList(st: State, name: string, key: string, items: seq<string>)
    requires Name(name, key)
    ensures Fold(st, ListEntry(name, items)) == if items == [] then st else Assign(st, key, Trim(JoinItems(items)))
  {
    hide Step, Assign;
    if items != [] {
      FoldOne(st, Entry(name, JoinItems(items)));
      EntryStep(st, name, key, JoinItems(items));
    }
  }

  lemma FoldNumber(st: State, name: string, key: string, n: Option<int>)
    requires Name(name, key)
    ensures Fold(st, NumberEntry(name, n)) == if n.None? then st else Assign(st, key, PrintInt(n.value))
  {
    hide Step, Assign;
    if n.Some? {
      FoldOne(st, Entry(name, PrintInt(n.value)));
      EntryStep(st, name, key, PrintInt(n.value));
      PrintIntClean(n.value);
      TrimIdentity(PrintInt(n.value));
    }
  }

  /** What becomes of the DNS entries. */
  function DnsBack(dns: seq<string>): seq<string> {
    if dns == [] then [] else ParseList(Trim(JoinItems(dns)))
  }

  lemma AddressLine(st: State, items: seq<string>)
    requires st.section == InterfaceSection && st.addresses == [] && forall a <- items :: CleanAddress(a)
    ensures Fold(st, ListEntry("Address", items)) == st.(addresses := items)
  {
    hide CleanAddress, ParseAddresses;
    InterfaceNames();
    FoldList(st, "Address", "address", items);
    if items != [] { AddressesReadBack(items); }
  }

  lemma DnsLine(st: State, items: seq<string>)
    requires st.section == InterfaceSection && st.dns == []
    ensures Fold(st, ListEntry("DNS", items)) == st.(dns := DnsBack(items))
  {
    hide ParseList;
    InterfaceNames();
    FoldList(st, "DNS", "dns", items);
  }

  lemma MtuLine(st: State, n: Option<int>)
    requires st.section == InterfaceSection && st.mtu == None && IntOption(n)
    ensures Fold(st, NumberEntry("MTU", n)) == st.(mtu := n)
  {
    hide ParseInt;
    InterfaceNames();
    FoldNumber(st, "MTU", "mtu", n);
    if n.Some? { ParsePrintInt(n.value); }
  }

  lemma PortLine(st: State, n: Option<int>)
    requires st.section == InterfaceSection && st.listenPort == None && IntOption(n)
    ensures Fold(st, NumberEntry("ListenPort", n)) == st.(listenPort := n)
  {
    hide ParseInt;
    InterfaceNames();
    FoldNumber(st, "ListenPort", "listenport", n);
    if n.Some? { ParsePrintInt(n.value); }
  }

  lemma KeyLines(key: string)
    requires Clean(key)
    ensures (Fold(START, ["[Interface]", Entry("PrivateKey", key)])
             == START.(section := InterfaceSection, privateKey := Some(key)))
  {
    hide Step, Entry;
    var lines := ["[Interface]", Entry("PrivateKey", key)];
    assert lines[..1] == ["[Interface]"];
    FoldOne(START, "[Interface]");
    HeaderSteps(START);
    var st := StartSection(START, InterfaceSection);
    InterfaceNames();
    EntryStep(st, "PrivateKey", "privatekey", key);
    TrimIdentity(key);
  }

  /** The interface part of a printed configuration. */
  lemma InterfaceReadBack(i: Interface)
    requires Clean(i.privateKey) && (forall a <- i.address :: CleanAddress(a)) && IntOption(i.mtu)
      && IntOption(i.listenPort)
    ensures (Fold(START, InterfaceLines(i))
             == State(InterfaceSection, NO_DRAFT, [], Some(i.privateKey), i.address, DnsBack(i.dns), i.mtu,
               i.listenPort))
  {
    hide Fold, Clean, CleanAddress, ListEntry, NumberEntry, Entry, DnsBack;
    var l0 := ["[Interface]", Entry("PrivateKey", i.privateKey)];
    var l1 := l0 + ListEntry("Address", i.address);
    var l2 := l1 + ListEntry("DNS", i.dns);
    var l3 := l2 + NumberEntry("MTU", i.mtu);
    KeyLines(i.privateKey);
    FoldAppend(START, l0, ListEntry("Address", i.address));
    AddressLine(Fold(START, l0), i.address);
    FoldAppend(START, l1, ListEntry("DNS", i.dns));
    DnsLine(Fold(START, l1), i.dns);
    FoldAppend(START, l2, NumberEntry("MTU", i.mtu));
    MtuLine(Fold(START, l2), i.mtu);
    FoldAppend(START, l3, NumberEntry("ListenPort", i.listenPort));
    PortLine(Fold(START, l3), i.listenPort);
  }

  function DraftOf(p: Peer): Draft {
    Draft(Some(p.publicKey), p.presharedKey, p.endpoint, p.allowedIPs, p.persistentKeepalive)
  }

  lemma PublicKeyLines(st: State, key: string)
    requires Clean(key)
    ensures (Fold(st, ["", "[Peer]", Entry("PublicKey", key)])
             == StartSection(st, PeerSection).(draft := NO_DRAFT.(publicKey := Some(key))))
  {
    hide Step, Entry;
    var lines := ["", "[Peer]", Entry("PublicKey", key)];
    assert lines[..2] == ["", "[Peer]"] && lines[..2][..1] == [""];
    FoldOne(st, "");
    HeaderSteps(st);
    PeerNames();
    EntryStep(StartSection(st, PeerSection), "PublicKey", "publickey", key);
    TrimIdentity(key);
  }

  lemma PresharedLine(st: State, v: Option<string>)
    requires st.section == PeerSection && st.draft.presharedKey == None && CleanOption(v)
    ensures Fold(st, Optional("PresharedKey", v)) == st.(draft := st.draft.(presharedKey := v))
  {
    PeerNames();
    FoldOptional(st, "PresharedKey", "presharedkey", v);
  }

  lemma AllowedLine(st: State, items: seq<string>)
    requires st.section == PeerSection && st.draft.allowedIPs == [] && forall a <- items :: CleanAddress(a)
    ensures Fold(st, ListEntry("AllowedIPs", items)) == st.(draft := st.draft.(allowedIPs := items))
  {
    hide CleanAddress, ParseAddresses;
    MorePeerNames();
    FoldList(st, "AllowedIPs", "allowedips", items);
    if items != [] { AddressesReadBack(items); }
  }

  lemma EndpointLine(st: State, v: Option<string>)
    requires st.section == PeerSection && st.draft.endpoint == None && CleanOption(v)
    ensures Fold(st, Optional("Endpoint", v)) == st.(draft := st.draft.(endpoint := v))
  {
    MorePeerNames();
    FoldOptional(st, "Endpoint", "endpoint", v);
  }

  lemma KeepaliveLine(st: State, n: Option<int>)
    requires st.section == PeerSection && st.draft.persistentKeepalive == None && IntOption(n)
    ensures Fold(st, NumberEntry("PersistentKeepalive", n)) == st.(draft := st.draft.(persistentKeepalive := n))
  {
    hide ParseInt;
    KeepaliveName();
    FoldNumber(st, "PersistentKeepalive", "persistentkeepalive", n);
    if n.Some? { ParsePrintInt(n.value); }
  }

  /** The lines of a peer store the previous one and leave the peer in the draft. */
  lemma PeerReadBack(st: State, p: Peer)
    requires CleanPeer(p)
    ensures Fold(st, PeerLines(p)) == StartSection(st, PeerSection).(draft := DraftOf(p))
  {
    hide Fold, Clean, CleanAddress, ListEntry, NumberEntry, Entry, Optional;
    var l0 := ["", "[Peer]", Entry("PublicKey", p.publicKey)];
    var l1 := l0 + Optional("PresharedKey", p.presharedKey);
    var l2 := l1 + ListEntry("AllowedIPs", p.allowedIPs);
    var l3 := l2 + Optional("Endpoint", p.endpoint);
    PublicKeyLines(st, p.publicKey);
    FoldAppend(st, l0, Optional("PresharedKey", p.presharedKey));
    PresharedLine(Fold(st, l0), p.presharedKey);
    FoldAppend(st, l1, ListEntry("AllowedIPs", p.allowedIPs));
    AllowedLine(Fold(st, l1), p.allowedIPs);
    FoldAppend(st, l2, Optional("Endpoint", p.endpoint));
    EndpointLine(Fold(st, l2), p.endpoint);
    FoldAppend(st, l3, NumberEntry("PersistentKeepalive", p.persistentKeepalive));
    KeepaliveLine(Fold(st, l3), p.persistentKeepalive);
  }

  lemma {:induction false} PeersReadBack(st: State, peers: seq<Peer>)
    requires st.draft == NO_DRAFT && st.peers == [] && forall p <- peers :: CleanPeer(p)
    ensures var r := Fold(st, PeersLines(peers));
      r == st.(section := r.section, draft := r.draft, peers := r.peers) && SavePeer(r.peers, r.draft) == peers
    decreases |peers|
  {
    hide CleanPeer, PeerLines, Step;
    if peers != [] {
      var n := |peers| - 1;
      PeersReadBack(st, peers[..n]);
      FoldAppend(st, PeersLines(peers[..n]), PeerLines(peers[n]));
      PeerReadBack(Fold(st, PeersLines(peers[..n])), peers[n]);
      assert peers == peers[..n] + [peers[n]];
    }
  }

  // ---------------------------------------------------------------- every printed line is one line

  lemma {:induction false} RestOneLine(items: seq<string>)
    requires forall x <- items :: OneLine(x)
    ensures OneLine(Rest(items))
    decreases |items|
  {
    if items != [] {
      assert items[0] in items;
      RestOneLine(items[1..]);
    }
  }

  lemma EntryOneLine(name: string, value: string)
    requires OneLine(name) && OneLine(value)
    ensures OneLine(Entry(name, value))
  {
  }

  lemma ListOneLine(name: string, items: seq<string>)
    requires OneLine(name) && forall x <- items :: OneLine(x)
    ensures forall line <- ListEntry(name, items) :: OneLine(line)
  {
    hide Entry;
    if items != [] {
      assert items[0] in items;
      RestOneLine(items[1..]);
      EntryOneLine(name, JoinItems(items));
    }
  }

  lemma NumberOneLine(name: string, n: Option<int>)
    requires OneLine(name)
    ensures forall line <- NumberEntry(name, n) :: OneLine(line)
  {
    hide Entry;
    if n.Some? {
      PrintIntClean(n.value);
      EntryOneLine(name, PrintInt(n.value));
    }
  }

  lemma OptionalOneLine(name: string, v: Option<string>)
    requires OneLine(name) && CleanOption(v)
    ensures forall line <- Optional(name, v) :: OneLine(line)
  {
    hide Entry;
    if v.Some? { EntryOneLine(name, v.value); }
  }

  lemma InterfaceOneLine(i: Interface)
    requires Clean(i.privateKey) && (forall a <- i.address :: OneLine(a)) && forall d <- i.dns :: OneLine(d)
    ensures forall line <- InterfaceLines(i) :: OneLine(line)
  {
    hide Entry, ListEntry, NumberEntry;
    EntryOneLine("PrivateKey", i.privateKey);
    ListOneLine("Address", i.address);
    ListOneLine("DNS", i.dns);
    NumberOneLine("MTU", i.mtu);
    NumberOneLine("ListenPort", i.listenPort);
  }

  lemma PeerOneLine(p: Peer)
    requires CleanPeer(p)
    ensures forall line <- PeerLines(p) :: OneLine(line)
  {
    hide Entry, ListEntry, NumberEntry, Optional;
    EntryOneLine("PublicKey", p.publicKey);
    OptionalOneLine("PresharedKey", p.presharedKey);
    ListOneLine("AllowedIPs", p.allowedIPs);
    OptionalOneLine("Endpoint", p.endpoint);
    NumberOneLine("PersistentKeepalive", p.persistentKeepalive);
  }

  lemma {:induction false} PeersOneLine(peers: seq<Peer>)
    requires forall p <- peers :: CleanPeer(p)
    ensures forall line <- PeersLines(peers) :: OneLine(line)
    decreases |peers|
  {
    hide CleanPeer, PeerLines, OneLine;
    if peers != [] {
      PeersOneLine(peers[..|peers| - 1]);
      PeerOneLine(peers[|peers| - 1]);
    }
  }

  // ---------------------------------------------------------------- main results

  /** Reading a printed configuration gives it back but for the DNS entries. */
  lemma PrintedReadBack(c: Config)
    requires CleanConfig(c)
    ensures Parsed(Printed(c)) == Ok(c.(interface := c.interface.(dns := DnsBack(c.interface.dns))))
  {
    hide CleanPeer, InterfaceLines, PeersLines, Fold, DnsBack, Lines, JoinLines;
    var i := c.interface;
    InterfaceOneLine(i);
    PeersOneLine(c.peers);
    LinesOfJoin(PrintedLines(c));
    FoldAppend(START, InterfaceLines(i), PeersLines(c.peers));
    InterfaceReadBack(i);
    PeersReadBack(Fold(START, InterfaceLines(i)), c.peers);
  }

  /** The round trip of a configuration that the parser returned: it succeeds exactly when the
      first and the last DNS entry are not blank, or there are none. */
  lemma RoundTrip(text: string)
    requires Parsed(text).Ok?
    ensures var c := Parsed(text).config;
      Parsed(Printed(c)) == Parsed(text) <==> Printable(c.interface.dns)
  {
    hide CleanPeer, CleanAddress, Printed, ParseList, Finish, Fold, Lines, CleanItem;
    var c := Parsed(text).config;
    ParsedIsClean(text);
    PrintedReadBack(c);
    var dns := c.interface.dns;
    assert forall d <- dns :: CleanItem(d) by { DnsClean(c); }
    if dns != [] {
      if Printable(dns) { ListReadBack(dns); } else { BlankEndsAreLost(dns); }
    }
  }

  lemma DnsClean(c: Config)
    requires CleanConfig(c)
    ensures forall d <- c.interface.dns :: CleanItem(d)
  {
    hide CleanItem;
  }

  /** Any clean configuration, parsed or built otherwise, reads back unchanged. */
  lemma CleanRoundTrip(c: Config)
    requires CleanConfig(c) && Printable(c.interface.dns)
    ensures Parsed(Printed(c)) == Ok(c)
  {
    hide CleanPeer, CleanAddress, Printed, ParseList, CleanItem, Parsed;
    PrintedReadBack(c);
    DnsClean(c);
    if c.interface.dns != [] { ListReadBack(c.interface.dns); }
  }

  /** A list whose last piece is blank. */
  const EXAMPLE_LINES: seq<string> :=
    ["[Interface]", Entry("PrivateKey", "k"), Entry("DNS", "a, ,"), "", "[Peer]", Entry("PublicKey", "p")]

  lemma ExampleSplit()
    ensures Split("a, ,") == ["a", " "]
  {
    hide IndexOf;
    var s := "a, ,";
    IndexOfIs(s, ',', 1);
    assert s[..1] == "a" && s[2..] == " ,";
    IndexOfIs(" ,", ',', 1);
    assert " ,"[..1] == " " && " ,"[2..] == "";
    assert IndexOf("", ',') == 0 && Split("") == [];
    assert Split(" ,") == [" "];
  }

  lemma ExampleList()
    ensures Trim("a, ,") == "a, ," && ParseList("a, ,") == ["a", ""]
  {
    hide Split, Trim;
    ExampleSplit();
    TrimIdentity("a, ,");
    TrimIdentity("a");
    TrimAround(" ", "", "");
    assert " " + "" + "" == " ";
  }

  lemma ExampleFold()
    ensures Fold(START, EXAMPLE_LINES) ==
      State(PeerSection, DraftOf(Peer("p", None, None, [], None)), [], Some("k"), [], ["a", ""], None, None)
  {
    hide Fold, Step, ParseList, Trim, Split;
    hide Entry;
    var l0, l1 := ["[Interface]", Entry("PrivateKey", "k")], [Entry("DNS", "a, ,")];
    var peer := Peer("p", None, None, [], None);
    KeyLines("k");
    FoldAppend(START, l0, l1);
    FoldOne(Fold(START, l0), l1[0]);
    InterfaceNames();
    EntryStep(Fold(START, l0), "DNS", "dns", "a, ,");
    ExampleList();
    FoldAppend(START, l0 + l1, PeerLines(peer));
    PeerReadBack(Fold(START, l0 + l1), peer);
    assert EXAMPLE_LINES == l0 + l1 + PeerLines(peer);
  }

  /** A text the parser accepts and whose printed form reads back differently. */
  lemma BlankDnsExample()
    ensures Parsed(JoinLines(EXAMPLE_LINES)).Ok?
    ensures Parsed(Printed(Parsed(JoinLines(EXAMPLE_LINES)).config)) != Parsed(JoinLines(EXAMPLE_LINES))
  {
    hide Fold, Lines, Printed;
    assert forall line <- EXAMPLE_LINES :: OneLine(line);
    LinesOfJoin(EXAMPLE_LINES);
    ExampleFold();
    RoundTrip(JoinLines(EXAMPLE_LINES));
  }
}
