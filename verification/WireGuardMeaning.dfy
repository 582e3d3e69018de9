/** What a configuration text means, field by field, without the parser's variables: which line
    sets a value, which lines add to a list, and where a peer begins and ends. */
module WireGuardMeaning {
  import opened ConfigText
  import opened WireGuardConfig

  // ---------------------------------------------------------------- lines

  datatype Line = Header(section: Section) | Assignment(key: string, value: string) | Other

  ghost function ReadLine(line: string): Line {
    var t := Trim(line);
    if t == "" || t[0] == '#' then Other
    else if Lowercased(t) == "[interface]" then Header(InterfaceSection)
    else if Lowercased(t) == "[peer]" then Header(PeerSection)
    else if '=' !in t then Other
    else
      var i := IndexOf(t, '=');
      Assignment(Lowercased(Trim(t[..i])), Trim(t[i + 1..]))
  }

  /** The section in force behind the lines: that of the last header. */
  ghost function SectionAfter(lines: seq<string>): Section
    decreases |lines|
  {
    if lines == [] then NoSection
    else
      var l := ReadLine(lines[|lines| - 1]);
      if l.Header? then l.section else SectionAfter(lines[..|lines| - 1])
  }

  // ---------------------------------------------------------------- the interface

  /** Line l assigns to the key in the given section. */
  ghost predicate Assigns(l: Line, current: Section, section: Section, key: string) {
    l.Assignment? && current == section && l.key == key
  }

  /** The value of the last line that assigns to the key in an interface section. */
  ghost function LastValue(lines: seq<string>, key: string): Option<string>
    decreases |lines|
  {
    if lines == [] then None
    else
      var before, l := lines[..|lines| - 1], ReadLine(lines[|lines| - 1]);
      if Assigns(l, SectionAfter(before), InterfaceSection, key) then Some(l.value) else LastValue(before, key)
  }

  /** The items of all these lines, in order. */
  ghost function AllItems(lines: seq<string>, key: string): seq<string>
    decreases |lines|
  {
    if lines == [] then []
    else
      var before, l := lines[..|lines| - 1], ReadLine(lines[|lines| - 1]);
      AllItems(before, key)
      + if Assigns(l, SectionAfter(before), InterfaceSection, key) then Items(l.value) else []
  }

  /** The items of a comma list. */
  ghost function Items(value: string): seq<string> {
    TrimAll(Split(value))
  }

  /** An address with its suffix: as it is if it has one, otherwise that of a single host. */
  ghost function WithSuffix(a: string): string {
    a + if '/' in a then "" else if ':' in a then "/128" else "/32"
  }

  ghost function WithSuffixes(items: seq<string>): (r: seq<string>)
    ensures |r| == |items| && forall i :: 0 <= i < |r| ==> r[i] == WithSuffix(items[i])
  {
    seq(|items|, i requires 0 <= i < |items| => WithSuffix(items[i]))
  }

  ghost function Number(v: Option<string>): Option<int> {
    if v.None? then None else ParseInt(v.value)
  }

  // ---------------------------------------------------------------- peers

  /** The value of the last line that assigns to the key since the last header, if that began a
      peer. */
  ghost function PeerValue(lines: seq<string>, key: string): Option<string>
    decreases |lines|
  {
    if lines == [] || ReadLine(lines[|lines| - 1]).Header? then None
    else
      var before, l := lines[..|lines| - 1], ReadLine(lines[|lines| - 1]);
      if Assigns(l, SectionAfter(before), PeerSection, key) then Some(l.value) else PeerValue(before, key)
  }

  /** The peer in progress behind the lines; one without public key is none. */
  ghost function PeerAfter(lines: seq<string>): seq<Peer> {
    var allowed := PeerValue(lines, "allowedips");
    if PeerValue(lines, "publickey").None? then []
    else [Peer(PeerValue(lines, "publickey").value, PeerValue(lines, "presharedkey"), PeerValue(lines, "endpoint"),
               if allowed.None? then [] else WithSuffixes(Items(allowed.value)),
               Number(PeerValue(lines, "persistentkeepalive")))]
  }

  /** The peers that a header ended. */
  ghost function PeersEnded(lines: seq<string>): seq<Peer>
    decreases |lines|
  {
    if lines == [] then []
    else
      var before := lines[..|lines| - 1];
      PeersEnded(before) + if ReadLine(lines[|lines| - 1]).Header? then PeerAfter(before) else []
  }

  // ---------------------------------------------------------------- the configuration

  ghost function Meaning(lines: seq<string>): Result {
    var key, peers := LastValue(lines, "privatekey"), PeersEnded(lines) + PeerAfter(lines);
    if key.None? then Err(MissingPrivateKey)
    else if peers == [] then Err(MissingPeer)
    else
      Ok(Config(Interface(key.value, WithSuffixes(AllItems(lines, "address")), AllItems(lines, "dns"),
                          Number(LastValue(lines, "mtu")), Number(LastValue(lines, "listenport"))), peers))
  }

  lemma SuffixAdded(a: string)
    ensures NormalizeCIDR(a) == WithSuffix(a)
    ensures NormalizeCIDR(a) == (if '/' in a then a else if ':' in a then a + "/128" else a + "/32")
  {
    assert forall c: char :: Contains(a, c) <==> c in a by {
      forall c: char ensures Contains(a, c) <==> c in a { ContainsIs(a, c); }
    }
  }

  lemma ContainsIs(s: string, c: char)
    ensures Contains(s, c) <==> c in s
  {
  }

  lemma AddressesMeant(value: string)
    ensures ParseAddresses(value) == WithSuffixes(Items(value))
  {
    hide NormalizeCIDR, WithSuffix;
    var items := ParseList(value);
    forall i | 0 <= i < |items| ensures NormalizeAll(items)[i] == WithSuffixes(items)[i] { SuffixAdded(items[i]); }
  }

  ghost function DraftAfter(lines: seq<string>): Draft {
    var allowed := PeerValue(lines, "allowedips");
    Draft(PeerValue(lines, "publickey"), PeerValue(lines, "presharedkey"), PeerValue(lines, "endpoint"),
          if allowed.None? then [] else WithSuffixes(Items(allowed.value)),
            Number(PeerValue(lines, "persistentkeepalive")))
  }

  ghost function StateAfter(lines: seq<string>): State {
    State(SectionAfter(lines), DraftAfter(lines), PeersEnded(lines), LastValue(lines, "privatekey"),
          WithSuffixes(AllItems(lines, "address")), AllItems(lines, "dns"), Number(LastValue(lines, "mtu")),
          Number(LastValue(lines, "listenport")))
  }

  lemma StepReads(st: State, line: string)
    ensures match ReadLine(line)
      case Other => Step(st, line) == st
      case Header(section) => Step(st, line) == StartSection(st, section)
      case Assignment(key, value) => Step(st, line) == Assign(st, key, value)
  {
    hide Trim, Lowercased, Assign, StartSection;
    ContainsIs(Trim(line), '=');
  }

  lemma SuffixesAppend(a: seq<string>, b: seq<string>)
    ensures WithSuffixes(a + b) == WithSuffixes(a) + WithSuffixes(b)
  {
    hide WithSuffix;
  }

  lemma DraftSaved(lines: seq<string>, peers: seq<Peer>)
    ensures SavePeer(peers, DraftAfter(lines)) == peers + PeerAfter(lines)
  {
    hide PeerValue, Number, WithSuffixes;
  }

  /** The parser's variables after some lines. */
  lemma {:induction false} FoldMeans(lines: seq<string>)
    ensures Fold(START, lines) == StateAfter(lines)
    decreases |lines|
  {
    hide ReadLine, Step, Assign, StartSection, DraftAfter, PeerAfter;
    if lines == [] {
      NothingRead();
    } else {
      var before, line := lines[..|lines| - 1], lines[|lines| - 1];
      FoldMeans(before);
      StepReads(StateAfter(before), line);
      match ReadLine(line) {
        case Other => OtherStep(lines);
        case Header(_) => HeaderStep(lines);
        case Assignment(_, _) => AssignmentStep(lines);
      }
    }
  }

  lemma NothingRead()
    ensures StateAfter([]) == START
  {
  }

  lemma OtherStep(lines: seq<string>)
    requires lines != [] && ReadLine(lines[|lines| - 1]).Other?
    ensures StateAfter(lines) == StateAfter(lines[..|lines| - 1])
  {
    hide ReadLine;
  }

  lemma HeaderStep(lines: seq<string>)
    requires lines != [] && ReadLine(lines[|lines| - 1]).Header?
    ensures StateAfter(lines) == StartSection(StateAfter(lines[..|lines| - 1]), ReadLine(lines[|lines| - 1]).section)
  {
    hide ReadLine, PeerAfter;
    DraftSaved(lines[..|lines| - 1], PeersEnded(lines[..|lines| - 1]));
  }

  lemma AssignmentStep(lines: seq<string>)
    requires lines != [] && ReadLine(lines[|lines| - 1]).Assignment?
    ensures var l := ReadLine(lines[|lines| - 1]);
      StateAfter(lines) == Assign(StateAfter(lines[..|lines| - 1]), l.key, l.value)
  {
    hide ReadLine, AssignInterface, AssignPeer, ParseInt, Items, WithSuffixes;
    var before := lines[..|lines| - 1];
    match SectionAfter(before) {
      case InterfaceSection => InterfaceAssigned(lines);
      case PeerSection => PeerAssigned(lines);
      case NoSection =>
    }
  }

  lemma InterfaceAssigned(lines: seq<string>)
    requires lines != [] && ReadLine(lines[|lines| - 1]).Assignment?
    requires SectionAfter(lines[..|lines| - 1]) == InterfaceSection
    ensures var l := ReadLine(lines[|lines| - 1]);
      StateAfter(lines) == AssignInterface(StateAfter(lines[..|lines| - 1]), l.key, l.value)
  {
    hide ReadLine, ParseAddresses, ParseInt, Split, TrimAll, WithSuffix;
    var before, l := lines[..|lines| - 1], ReadLine(lines[|lines| - 1]);
    AddressesMeant(l.value);
    SuffixesAppend(AllItems(before, "address"), Items(l.value));
    SuffixesAppend(AllItems(before, "address"), []);
  }

  lemma PeerAssigned(lines: seq<string>)
    requires lines != [] && ReadLine(lines[|lines| - 1]).Assignment?
    requires SectionAfter(lines[..|lines| - 1]) == PeerSection
    ensures var l := ReadLine(lines[|lines| - 1]);
      StateAfter(lines) == StateAfter(lines[..|lines| - 1]).(draft := AssignPeer(DraftAfter(lines[..|lines| - 1]),
        l.key, l.value))
  {
    hide ReadLine, ParseAddresses, ParseInt, Split, TrimAll, WithSuffix;
    var l := ReadLine(lines[|lines| - 1]);
    AddressesMeant(l.value);
  }

  /** For every text the parser returns what the lines mean, and the error that they mean. */
  lemma ParsedMeans(text: string)
    ensures Parsed(text) == Meaning(Lines(text))
  {
    hide Fold, DraftAfter, PeerAfter;
    var lines := Lines(text);
    FoldMeans(lines);
    DraftSaved(lines, PeersEnded(lines));
  }

  // ---------------------------------------------------------------- lists in a text

  /** Lists as they are printed: clean items, the first and the last of which are not blank. */
  ghost predicate Listed(items: seq<string>) {
    items != [] && Printable(items) && forall x <- items :: CleanItem(x)
  }

  lemma ListLine(st: State, name: string, key: string, items: seq<string>) returns (value: string)
    requires Name(name, key) && Listed(items)
    ensures Fold(st, ListEntry(name, items)) == Assign(st, key, value)
    ensures ParseList(value) == items && ParseAddresses(value) == WithSuffixes(items)
  {
    hide Assign, CleanItem, ListEntry, ParseAddresses, WithSuffixes;
    FoldList(st, name, key, items);
    ListReadBack(items);
    value := Trim(JoinItems(items));
    AddressesMeant(value);
  }

  ghost function InterfaceText(key: string, a: seq<string>, b: seq<string>, c: seq<string>,
      d: seq<string>): seq<string> {
    ["[Interface]", Entry("PrivateKey", key)] + ListEntry("Address", a) + ListEntry("DNS", c)
    + ListEntry("Address", b) + ListEntry("DNS", d)
  }

  ghost function PeerText(public: string, e: seq<string>, f: seq<string>): seq<string> {
    ["", "[Peer]", Entry("PublicKey", public)] + ListEntry("AllowedIPs", e) + ListEntry("AllowedIPs", f)
  }

  lemma InterfaceLists(key: string, a: seq<string>, b: seq<string>, c: seq<string>, d: seq<string>)
    requires Clean(key) && Listed(a) && Listed(b) && Listed(c) && Listed(d)
    ensures Fold(START, InterfaceText(key, a, b, c, d)) ==
      START.(section := InterfaceSection, privateKey := Some(key), addresses := WithSuffixes(a + b), dns := c + d)
  {
    hide Fold, Clean, Listed, ListEntry, Entry, ParseList, ParseAddresses, WithSuffixes;
    InterfaceNames();
    var l := ["[Interface]", Entry("PrivateKey", key)];
    KeyLines(key);
    l := Add(l, "Address", "address", a);
    l := Add(l, "DNS", "dns", c);
    l := Add(l, "Address", "address", b);
    l := Add(l, "DNS", "dns", d);
    SuffixesAppend(a, b);
  }

  lemma PeerLists(l0: seq<string>, public: string, e: seq<string>, f: seq<string>)
    requires Clean(public) && Listed(e) && Listed(f)
    ensures Fold(START, l0 + PeerText(public, e, f)) ==
      StartSection(Fold(START, l0), PeerSection).(
        draft := NO_DRAFT.(publicKey := Some(public), allowedIPs := WithSuffixes(f)))
  {
    hide Fold, Clean, Listed, ListEntry, Entry, ParseList, ParseAddresses, WithSuffixes, StartSection;
    MorePeerNames();
    var peer := ["", "[Peer]", Entry("PublicKey", public)];
    FoldAppend(START, l0, peer);
    PublicKeyLines(Fold(START, l0), public);
    SectionStarted(Fold(START, l0));
    var l := l0 + peer;
    l := Add(l, "AllowedIPs", "allowedips", e);
    l := Add(l, "AllowedIPs", "allowedips", f);
    assert l == l0 + PeerText(public, e, f);
  }

  lemma SectionStarted(st: State)
    ensures StartSection(st, PeerSection).section == PeerSection
  {
  }

  /** Two address lines and two DNS lines add up; of two AllowedIPs lines the last one counts. */
  lemma ListsOfText(key: string, a: seq<string>, b: seq<string>, c: seq<string>, d: seq<string>, public: string,
      e: seq<string>, f: seq<string>)
    requires Clean(key) && Clean(public)
    requires Listed(a) && Listed(b) && Listed(c) && Listed(d) && Listed(e) && Listed(f)
    ensures Parsed(JoinLines(InterfaceText(key, a, b, c, d) + PeerText(public, e, f))) ==
      Ok(Config(Interface(key, WithSuffixes(a + b), c + d, None, None),
                [Peer(public, None, None, WithSuffixes(f), None)]))
  {
    hide Fold, WithSuffixes, JoinLines, Lines, InterfaceText, PeerText, CleanItem;
    var l := InterfaceText(key, a, b, c, d);
    InterfaceLists(key, a, b, c, d);
    PeerLists(l, public, e, f);
    TextOneLine(key, a, b, c, d, public, e, f);
    LinesOfJoin(l + PeerText(public, e, f));
  }

  lemma TextOneLine(key: string, a: seq<string>, b: seq<string>, c: seq<string>, d: seq<string>, public: string,
      e: seq<string>, f: seq<string>)
    requires Clean(key) && Clean(public)
    requires Listed(a) && Listed(b) && Listed(c) && Listed(d) && Listed(e) && Listed(f)
    ensures InterfaceText(key, a, b, c, d) + PeerText(public, e, f) != []
    ensures forall line <- InterfaceText(key, a, b, c, d) + PeerText(public, e, f) :: OneLine(line)
  {
    hide Entry, ListEntry, Printable;
    EntryOneLine("PrivateKey", key);
    EntryOneLine("PublicKey", public);
    ListOneLine("Address", a);
    ListOneLine("Address", b);
    ListOneLine("DNS", c);
    ListOneLine("DNS", d);
    ListOneLine("AllowedIPs", e);
    ListOneLine("AllowedIPs", f);
  }

  /** One more list line. */
  lemma Add(l: seq<string>, name: string, key: string, items: seq<string>) returns (r: seq<string>)
    requires Name(name, key) && Listed(items)
    ensures r == l + ListEntry(name, items)
    ensures exists value :: Fold(START, r) == Assign(Fold(START, l), key, value)
              && ParseList(value) == items && ParseAddresses(value) == WithSuffixes(items)
  {
    hide Fold, Assign, ListEntry, ParseList, ParseAddresses, Listed;
    r := l + ListEntry(name, items);
    FoldAppend(START, l, ListEntry(name, items));
    var value := ListLine(Fold(START, l), name, key, items);
  }
}
