/** The ports a group plans, and what that means for exposure. The mapper gives every container of a
    Node the ports of its image and the ports the Node declares, so a declared port is always planned
    and its declarer always gets it.
  */
module PlannedPorts {
  import opened Wrappers
  import opened PortText
  import opened ExposedPorts

  type RawPort = (int, string)

  // ---------------------------------------------------------------- the mapper's own port parser

  /** The mapper trims nothing and takes an empty protocol for the default. */
  function MapPort(raw: string): (r: Option<Port>)
    ensures r.Some? ==> ValidPort(r.value)
  {
    var (number, protocolText) := Cut(raw, '/');
    var protocol := ParseProtocol(if protocolText == Some("") then None else protocolText);
    match Atoi(number)
    case None => None
    case Some(n) => if 1 <= n <= MaxPort && protocol.Some? then Some(Port(n, protocol.value)) else None
  }

  lemma {:induction false} CutParts(s: string, sep: char)
    ensures var (before, after) := Cut(s, sep);
            sep !in before && s == match after case None => before case Some(t) => before + [sep] + t
    decreases |s|
  {
    if |s| > 0 && s[0] != sep {
      CutParts(s[1..], sep);
      assert s == [s[0]] + s[1..];
    }
  }

  lemma AtoiIsPlain(s: string)
    requires Atoi(s).Some?
    ensures |s| > 0 && !IsSpace(s[0]) && !IsSpace(s[|s| - 1]) && ':' !in s
  {
    if s[0] == '+' || s[0] == '-' {
      assert s == [s[0]] + s[1..] && IsDigit(s[1..][|s| - 2]);
    }
  }

  lemma ProtocolIsPlain(text: string)
    requires text != "" && ParseProtocol(Some(text)).Some?
    ensures !IsSpace(text[|text| - 1])
  {
    assert ToUpper(text)[|text| - 1] == Upper(text[|text| - 1]) == 'P';
  }

  lemma MappedIsTrimmed(raw: string)
    requires MapPort(raw).Some?
    ensures TrimSpace(raw) == raw
  {
    var (number, protocolText) := Cut(raw, '/');
    CutParts(raw, '/');
    AtoiIsPlain(number);
    assert raw[0] == number[0];
    if protocolText.Some? && protocolText.value != "" {
      ProtocolIsPlain(protocolText.value);
      assert raw[|raw| - 1] == protocolText.value[|protocolText.value| - 1];
    }
    TrimTrimmed(raw);
  }

  /** The two parsers side by side. What the mapper takes, exposure takes as the same port unless the
      text ends in a bare slash; what exposure takes, the mapper takes unless there is space to trim. */
  lemma ParsersAgreeIff(raw: string)
    ensures MapPort(raw).Some? ==> ProcessPort(raw) == if Cut(raw, '/').1 == Some("") then None else MapPort(raw)
    ensures ProcessPort(raw).Some? ==> MapPort(raw) == if TrimSpace(raw) != raw then None else ProcessPort(raw)
  {
    if MapPort(raw).Some? {
      MappedIsTrimmed(raw);
      AtoiIsPlain(Cut(raw, '/').0);
    }
  }

  /** A decimal number, with a plus sign perhaps. */
  ghost predicate Writes(number: string, n: int) {
    exists digits :: AllDigits(digits) && Value(digits) == n && (number == digits || number == "+" + digits)
  }

  /** The number alone, which means TCP, or the number, a slash and the protocol in either case. */
  ghost predicate PortForm(text: string, number: string, protocol: Protocol) {
    || (text == number && protocol == TCP)
    || exists name :: text == number + "/" + name && ToUpper(name) == if protocol == TCP then "TCP" else "UDP"
  }

  lemma AtoiIff(number: string, n: int)
    requires n >= 1
    ensures Atoi(number) == Some(n) <==> Writes(number, n)
  {
    if Atoi(number) == Some(n) {
      if number[0] == '+' || number[0] == '-' {
        assert AllDigits(number[1..]) && number == [number[0]] + number[1..];
      }
    }
    if digits :| AllDigits(digits) && Value(digits) == n && (number == digits || number == "+" + digits) {
      assert IsDigit(digits[0]);
      if number == "+" + digits { assert number[1..] == digits; }
    }
  }

  lemma WrittenIsPlain(number: string, n: int)
    requires Writes(number, n)
    ensures number != "" && IsTrimmed(number) && '/' !in number && ':' !in number
  {
    var digits :| AllDigits(digits) && Value(digits) == n && (number == digits || number == "+" + digits);
    assert IsDigit(digits[0]) && IsDigit(digits[|digits| - 1]);
    assert forall c :: c in number ==> c in digits || c == '+';
  }

  /** What exposure takes for a port, on the text: white space around a number from 1 to 65535, alone or
      with its protocol. Everything else is refused. */
  lemma PortTextIff(raw: string, p: Port)
    ensures ProcessPort(raw) == Some(p) <==>
              1 <= p.number <= 65535 &&
              exists text, number :: Padded(raw, text) && PortForm(text, number, p.protocol) && Writes(number, p.number)
  {
    if ProcessPort(raw) == Some(p) {
      var text := TrimSpace(raw);
      var (number, protocolText) := Cut(text, '/');
      CutParts(text, '/');
      AtoiIff(number, p.number);
      AtoiIsPlain(number);
      assert text[0] == number[0];
      TrimIff(raw, text);
      assert PortForm(text, number, p.protocol) by {
        if protocolText.Some? { assert text == number + "/" + protocolText.value; }
      }
    }
    if 1 <= p.number <= 65535 {
      if text, number :| Padded(raw, text) && PortForm(text, number, p.protocol) && Writes(number, p.number) {
        FormIsTaken(raw, text, number, p);
      }
    }
  }

  lemma FormIsTaken(raw: string, text: string, number: string, p: Port)
    requires 1 <= p.number <= 65535
    requires Padded(raw, text) && PortForm(text, number, p.protocol) && Writes(number, p.number)
    ensures ProcessPort(raw) == Some(p)
  {
    WrittenIsPlain(number, p.number);
    AtoiIff(number, p.number);
    if text == number && p.protocol == TCP {
      CutNone(number, '/');
      TrimIff(raw, text);
    } else {
      var name :| text == number + "/" + name && ToUpper(name) == if p.protocol == TCP then "TCP" else "UDP";
      assert ParseProtocol(Some(name)) == Some(p.protocol);
      ProtocolIsPlain(name);
      assert text[0] == number[0] && text[|text| - 1] == name[|name| - 1];
      TrimIff(raw, text);
      CutPair(number, name, '/');
    }
  }

  predicate ProtocolText(text: string, protocol: Protocol) {
    if protocol == TCP then text == "tcp" || text == "TCP" else text == "udp" || text == "UDP"
  }

  /** What the Node resource admits: a number from 1 to 65535 as printed, with or without a protocol. */
  ghost predicate Admitted(raw: string, p: Port) {
    && ValidPort(p)
    && (|| (raw == Digits(p.number) && p.protocol == TCP)
        || exists text :: ProtocolText(text, p.protocol) && raw == Digits(p.number) + "/" + text)
  }

  /** On admitted texts the two parsers give the port that was written. */
  lemma AdmittedIsParsed(raw: string, p: Port)
    requires Admitted(raw, p)
    ensures MapPort(raw) == Some(p) && ProcessPort(raw) == Some(p)
  {
    if raw == Digits(p.number) && p.protocol == TCP {
      NumberIsMapped(p.number);
    } else {
      var text :| ProtocolText(text, p.protocol) && raw == Digits(p.number) + "/" + text;
      TextIsMapped(p, text);
    }
    ParsersAgreeIff(raw);
  }

  lemma NumberIsMapped(n: int)
    requires 1 <= n <= MaxPort
    ensures MapPort(Digits(n)) == Some(Port(n, TCP)) && Cut(Digits(n), '/').1 == None
  {
    var number := Digits(n);
    ValueOfDigits(n);
    assert IsDigit(number[0]) && AllDigits(number);
    CutNone(number, '/');
  }

  lemma TextIsMapped(p: Port, text: string)
    requires ValidPort(p) && ProtocolText(text, p.protocol)
    ensures MapPort(Digits(p.number) + "/" + text) == Some(p)
    ensures Cut(Digits(p.number) + "/" + text, '/').1 == Some(text)
  {
    var number := Digits(p.number);
    ValueOfDigits(p.number);
    assert IsDigit(number[0]) && AllDigits(number);
    assert ToUpper(text) == if p.protocol == TCP then "TCP" else "UDP";
    CutPair(number, text, '/');
  }

  lemma {:induction false} CutNone(s: string, sep: char)
    requires sep !in s
    ensures Cut(s, sep) == (s, None)
    decreases |s|
  {
    if |s| > 0 {
      CutNone(s[1..], sep);
      assert s == [s[0]] + s[1..];
    }
  }

  // ---------------------------------------------------------------- ports of one container

  function PortKeys(ports: seq<RawPort>): set<Key> {
    set p | p in ports :: Key(p.0, p.1)
  }

  /** Image ports with their protocol in upper case, TCP if there is none. */
  function Defaulted(image: seq<RawPort>): seq<RawPort> {
    seq(|image|, i requires 0 <= i < |image| => (image[i].0, if image[i].1 == "" then "TCP" else ToUpper(image[i].1)))
  }

  function Planning(ports: seq<RawPort>, key: Key): seq<RawPort> {
    if key in PortKeys(ports) then ports else ports + [(key.number, key.protocol)]
  }

  function Mapped(declared: seq<string>, image: seq<RawPort>): Option<seq<RawPort>> {
    if |declared| == 0 then Some(Defaulted(image))
    else
      var n := |declared| - 1;
      var before, port := Mapped(declared[..n], image), MapPort(declared[n]);
      if before.None? || port.None? then None else Some(Planning(before.value, KeyOf(port.value)))
  }

  method MapPorts(declared: seq<string>, image: seq<RawPort>) returns (r: Option<seq<RawPort>>)
    ensures r == Mapped(declared, image)
  {
    var result := Defaulted(image);
    var seen := set p | p in result :: Key(p.0, p.1);
    for i := 0 to |declared|
      invariant Mapped(declared[..i], image) == Some(result) && seen == PortKeys(result)
    {
      assert declared[..i + 1][..i] == declared[..i];
      var port := MapPort(declared[i]);
      if port.None? {
        MappedStops(declared, image, i + 1);
        return None;
      }
      var key := KeyOf(port.value);
      if key !in seen {
        PortKeysSnoc(result, key);
        result := result + [(key.number, key.protocol)];
        seen := seen + {key};
      }
    }
    assert declared[..|declared|] == declared;
    r := Some(result);
  }

  lemma PortKeysSnoc(ports: seq<RawPort>, key: Key)
    ensures PortKeys(ports + [(key.number, key.protocol)]) == PortKeys(ports) + {key}
  {
    var all := ports + [(key.number, key.protocol)];
    assert Key(key.number, key.protocol) == key && (key.number, key.protocol) in all;
    forall k | k in PortKeys(ports) ensures k in PortKeys(all) {
      var p :| p in ports && k == Key(p.0, p.1);
      assert p in all;
    }
  }

  lemma {:induction false} MappedStops(declared: seq<string>, image: seq<RawPort>, i: nat)
    requires i <= |declared| && Mapped(declared[..i], image).None?
    ensures Mapped(declared, image).None?
    decreases |declared|
  {
    if i == |declared| {
      assert declared[..i] == declared;
    } else {
      assert declared[..|declared| - 1][..i] == declared[..i];
      MappedStops(declared[..|declared| - 1], image, i);
    }
  }

  /** What a container plans: its image's ports first and unchanged, then what the Node declares
      beyond them, every declared port included. It fails exactly for a text that is no port. */
  lemma {:induction false} MappedExact(declared: seq<string>, image: seq<RawPort>)
    ensures Mapped(declared, image).Some? <==> forall raw :: raw in declared ==> MapPort(raw).Some?
    ensures Mapped(declared, image).Some? ==>
              var ports := Mapped(declared, image).value;
              && Defaulted(image) <= ports
              && forall k :: k in PortKeys(ports) <==>
                   k in PortKeys(Defaulted(image)) || exists raw :: raw in declared && MapsTo(raw, k)
    decreases |declared|
  {
    if |declared| > 0 {
      var n := |declared| - 1;
      var before, raw := declared[..n], declared[n];
      assert declared == before + [raw];
      MappedExact(before, image);
      if Mapped(declared, image).Some? {
        var ports, key := Mapped(before, image).value, KeyOf(MapPort(raw).value);
        PortKeysSnoc(ports, key);
        forall k ensures k in PortKeys(Planning(ports, key)) <==>
            k in PortKeys(Defaulted(image)) || exists raw :: raw in declared && MapsTo(raw, k) {
          assert MapsTo(raw, k) <==> k == key;
          assert (exists r :: r in declared && MapsTo(r, k)) <==>
                 (exists r :: r in before && MapsTo(r, k)) || MapsTo(raw, k);
        }
      }
    }
  }

  /** The image's ports as they are planned: the number stays, the protocol is in upper case, TCP if the
      image gives none. */
  lemma ImagePortsExact(image: seq<RawPort>, number: int, protocol: string)
    ensures Key(number, protocol) in PortKeys(Defaulted(image)) <==>
              || ((number, "") in image && protocol == "TCP")
              || exists text :: text != "" && (number, text) in image && protocol == ToUpper(text)
  {
    var ports := Defaulted(image);
    if Key(number, protocol) in PortKeys(ports) {
      var p :| p in ports && Key(number, protocol) == Key(p.0, p.1);
      var i :| 0 <= i < |ports| && ports[i] == p;
      assert image[i] in image && image[i] == (number, image[i].1);
    }
    if (number, "") in image && protocol == "TCP" {
      var i :| 0 <= i < |image| && image[i] == (number, "");
      assert ports[i] in ports;
    }
    if text :| text != "" && (number, text) in image && protocol == ToUpper(text) {
      var i :| 0 <= i < |image| && image[i] == (number, text);
      assert ports[i] in ports;
    }
  }

  predicate MapsTo(raw: string, key: Key) {
    MapPort(raw).Some? && KeyOf(MapPort(raw).value) == key
  }

  // ---------------------------------------------------------------- the plan of a group

  /** An evaluated Node: its declared ports, the image ports of each container it records, and whether
      it passes what the mapper checks besides ports. */
  datatype Evaluated = Evaluated(id: string, ports: seq<string>, images: seq<seq<RawPort>>, passes: bool)

  function MapContainers(e: Evaluated, k: nat): Option<seq<Container>>
    requires k <= |e.images|
  {
    if k == 0 then Some([])
    else
      var before, ports := MapContainers(e, k - 1), Mapped(e.ports, e.images[k - 1]);
      if before.None? || ports.None? then None else Some(before.value + [Container(e.id, ports.value)])
  }

  /** A Node without a container is refused, and so is one that fails another check. */
  function NodeContainers(e: Evaluated): Option<seq<Container>> {
    if |e.images| == 0 || !e.passes then None else MapContainers(e, |e.images|)
  }

  function PlanOf(evaluated: seq<Evaluated>): Option<seq<Container>> {
    if |evaluated| == 0 then Some([])
    else
      var n := |evaluated| - 1;
      var before, last := PlanOf(evaluated[..n]), NodeContainers(evaluated[n]);
      if before.None? || last.None? then None else Some(before.value + last.value)
  }

  method AppendEvaluatedNode(e: Evaluated) returns (r: Option<seq<Container>>)
    ensures r == NodeContainers(e)
  {
    if |e.images| == 0 || !e.passes {
      return None;
    }
    var containers: seq<Container> := [];
    for i := 0 to |e.images|
      invariant MapContainers(e, i) == Some(containers)
    {
      var ports := MapPorts(e.ports, e.images[i]);
      if ports.None? {
        MapContainersStop(e, i + 1, |e.images|);
        return None;
      }
      containers := containers + [Container(e.id, ports.value)];
    }
    r := Some(containers);
  }

  lemma {:induction false} MapContainersStop(e: Evaluated, i: nat, k: nat)
    requires i <= k <= |e.images| && MapContainers(e, i).None?
    ensures MapContainers(e, k).None?
    decreases k
  {
    if i < k {
      MapContainersStop(e, i, k - 1);
    }
  }

  method MapPlan(evaluated: seq<Evaluated>) returns (r: Option<seq<Container>>)
    ensures r == PlanOf(evaluated)
  {
    var containers: seq<Container> := [];
    for i := 0 to |evaluated|
      invariant PlanOf(evaluated[..i]) == Some(containers)
    {
      assert evaluated[..i + 1][..i] == evaluated[..i];
      var more := AppendEvaluatedNode(evaluated[i]);
      if more.None? {
        PlanStops(evaluated, i + 1);
        return None;
      }
      containers := containers + more.value;
    }
    assert evaluated[..|evaluated|] == evaluated;
    r := Some(containers);
  }

  lemma {:induction false} PlanStops(evaluated: seq<Evaluated>, i: nat)
    requires i <= |evaluated| && PlanOf(evaluated[..i]).None?
    ensures PlanOf(evaluated).None?
    decreases |evaluated|
  {
    if i == |evaluated| {
      assert evaluated[..i] == evaluated;
    } else {
      assert evaluated[..|evaluated| - 1][..i] == evaluated[..i];
      PlanStops(evaluated[..|evaluated| - 1], i);
    }
  }

  /** A container that the mapper made for this Node. */
  ghost predicate MadeFor(c: Container, e: Evaluated) {
    c.nodeID == e.id && exists image :: image in e.images && Mapped(e.ports, image) == Some(c.ports)
  }

  lemma {:induction false} MapContainersExact(e: Evaluated, k: nat)
    requires k <= |e.images| && MapContainers(e, k).Some?
    ensures |MapContainers(e, k).value| == k
    ensures forall c :: c in MapContainers(e, k).value ==> MadeFor(c, e)
    decreases k
  {
    if k > 0 {
      MapContainersExact(e, k - 1);
      assert e.images[k - 1] in e.images;
    }
  }

  /** Every planned container was made for a Node of the group ... */
  lemma {:induction false} PlanIsMade(evaluated: seq<Evaluated>, c: Container) returns (e: Evaluated)
    requires PlanOf(evaluated).Some? && c in PlanOf(evaluated).value
    ensures e in evaluated && MadeFor(c, e)
    decreases |evaluated|
  {
    var n := |evaluated| - 1;
    if c in PlanOf(evaluated[..n]).value {
      e := PlanIsMade(evaluated[..n], c);
    } else {
      e := evaluated[n];
      MapContainersExact(e, |e.images|);
    }
  }

  /** ... and every Node has one. */
  lemma {:induction false} NodeIsPlanned(evaluated: seq<Evaluated>, e: Evaluated) returns (c: Container)
    requires PlanOf(evaluated).Some? && e in evaluated
    ensures c in PlanOf(evaluated).value && MadeFor(c, e)
    decreases |evaluated|
  {
    var n := |evaluated| - 1;
    if e in evaluated[..n] {
      c := NodeIsPlanned(evaluated[..n], e);
    } else {
      assert e == evaluated[n];
      c := FirstContainer(e);
    }
  }

  lemma FirstContainer(e: Evaluated) returns (c: Container)
    requires NodeContainers(e).Some?
    ensures c in NodeContainers(e).value && MadeFor(c, e)
  {
    MapContainersExact(e, |e.images|);
    c := NodeContainers(e).value[0];
  }

  // ---------------------------------------------------------------- from the group to its exposure

  /** The planner evaluates the members of the group, all of which must exist. */
  ghost predicate EvaluatesGroup(evaluated: seq<Evaluated>, group: seq<string>, nodes: Nodes) {
    && (forall name :: name in group ==> name in nodes && IsEvaluated(evaluated, nodes[name]))
    && OnlyMembers(evaluated, group, nodes)
  }

  ghost predicate OnlyMembers(evaluated: seq<Evaluated>, group: seq<string>, nodes: Nodes) {
    forall e :: e in evaluated ==> exists name :: name in group && name in nodes && IsOf(e, nodes[name])
  }

  predicate IsOf(e: Evaluated, node: Node) {
    e.id == node.uid && e.ports == node.ports
  }

  ghost predicate IsEvaluated(evaluated: seq<Evaluated>, node: Node) {
    exists e :: e in evaluated && IsOf(e, node)
  }

  /** Two containers that differ at most in the order of their ports. */
  predicate SameContainer(c: Container, d: Container) {
    c.nodeID == d.nodeID && multiset(c.ports) == multiset(d.ports)
  }

  ghost predicate Twinned(a: seq<Container>, b: seq<Container>) {
    forall c :: c in a ==> exists d :: d in b && SameContainer(c, d)
  }

  /** Normalizing a plan reorders containers and ports and changes nothing else. */
  ghost predicate Normalizes(plan: seq<Container>, containers: seq<Container>) {
    Twinned(plan, containers) && Twinned(containers, plan)
  }

  /** The group was planned, and these are the containers of its plan. */
  ghost predicate Planned(evaluated: seq<Evaluated>, containers: seq<Container>, group: seq<string>, nodes: Nodes) {
    && EvaluatesGroup(evaluated, group, nodes)
    && PlanOf(evaluated).Some? && Normalizes(PlanOf(evaluated).value, containers)
  }

  /** Exposure takes the text for this port. */
  predicate StandsFor(raw: string, key: Key) {
    ProcessPort(raw).Some? && KeyOf(ProcessPort(raw).value) == key
  }

  ghost predicate DeclaresPort(ports: seq<string>, key: Key) {
    exists raw :: raw in ports && StandsFor(raw, key)
  }

  lemma {:induction false} DeclaredKeysExact(ports: seq<string>, key: Key)
    requires DeclaredKeys(ports).Some?
    ensures key in DeclaredKeys(ports).value <==> DeclaresPort(ports, key)
    decreases |ports|
  {
    if |ports| > 0 {
      var before, raw := ports[..|ports| - 1], ports[|ports| - 1];
      assert ports == before + [raw];
      DeclaredKeysSnoc(before, raw, key);
      DeclaredKeysExact(before, key);
      DeclaresSnoc(before, raw, key);
    } else {
      NothingDeclared(ports, key);
    }
  }

  lemma NothingDeclared(ports: seq<string>, key: Key)
    requires |ports| == 0
    ensures DeclaredKeys(ports) == Some({}) && !DeclaresPort(ports, key)
  {
  }

  lemma DeclaredKeysSnoc(before: seq<string>, raw: string, key: Key)
    requires DeclaredKeys(before + [raw]).Some?
    ensures DeclaredKeys(before).Some?
    ensures key in DeclaredKeys(before + [raw]).value <==> key in DeclaredKeys(before).value || StandsFor(raw, key)
  {
    assert (before + [raw])[..|before|] == before;
  }

  lemma DeclaresSnoc(ports: seq<string>, raw: string, key: Key)
    ensures DeclaresPort(ports + [raw], key) <==> DeclaresPort(ports, key) || StandsFor(raw, key)
  {
    if x :| x in ports && StandsFor(x, key) {
      assert x in ports + [raw];
    }
    if StandsFor(raw, key) {
      assert raw in ports + [raw];
    }
  }

  lemma DeclaredIsMapped(declared: seq<string>, image: seq<RawPort>, key: Key)
    requires Mapped(declared, image).Some? && DeclaresPort(declared, key)
    ensures key in PortKeys(Mapped(declared, image).value) && (key.protocol == "TCP" || key.protocol == "UDP")
  {
    var raw :| raw in declared && StandsFor(raw, key);
    MappedExact(declared, image);
    ParsersAgreeIff(raw);
    assert MapsTo(raw, key);
  }

  lemma MappedIsPlanned(c: Container, d: Container, key: Key)
    requires key in PortKeys(c.ports) && SameContainer(c, d) && (key.protocol == "TCP" || key.protocol == "UDP")
    ensures PlansPort(d, key)
  {
    assert ToUpper(key.protocol) == key.protocol;
    var p :| p in c.ports && key == Key(p.0, p.1);
    assert p in multiset(d.ports);
  }

  /** A container made for a Node plans every port that the Node declares. */
  lemma MadePlansDeclared(c: Container, d: Container, e: Evaluated, key: Key)
    requires MadeFor(c, e) && SameContainer(c, d) && DeclaresPort(e.ports, key)
    ensures PlansPort(d, key)
  {
    var image :| image in e.images && Mapped(e.ports, image) == Some(c.ports);
    DeclaredIsMapped(e.ports, image, key);
    MappedIsPlanned(c, d, key);
  }

  lemma DeclaredIsPlanned(evaluated: seq<Evaluated>, containers: seq<Container>, node: Node, key: Key)
    requires PlanOf(evaluated).Some? && Twinned(PlanOf(evaluated).value, containers)
    requires IsEvaluated(evaluated, node) && DeclaresPort(node.ports, key)
    ensures ExposedPorts.Plan(node.uid, key) in Events(containers)
  {
    var e :| e in evaluated && IsOf(e, node);
    var c := NodeIsPlanned(evaluated, e);
    var d :| d in containers && SameContainer(c, d);
    MadePlansDeclared(c, d, e, key);
    EventsExact(containers);
  }

  /** No container of a planned group is a stray. */
  lemma PlannedIsKnown(evaluated: seq<Evaluated>, containers: seq<Container>, group: seq<string>, nodes: Nodes)
    requires PlanOf(evaluated).Some? && Twinned(containers, PlanOf(evaluated).value)
    requires OnlyMembers(evaluated, group, nodes)
    requires Explicits(group, nodes).Ok?
    ensures AllKnown(Events(containers), Explicits(group, nodes).value)
  {
    var events, explicit := Events(containers), Explicits(group, nodes).value;
    forall i | 0 <= i < |events| && events[i].Open? ensures events[i].id in explicit {
      assert Open(events[i].id) in events;
      var name := OpenedIsMember(evaluated, containers, group, nodes, events[i].id);
      ExplicitsExact(group, nodes);
    }
  }

  lemma OpenedIsMember(evaluated: seq<Evaluated>, containers: seq<Container>, group: seq<string>, nodes: Nodes,
                       id: string)
    returns (name: string)
    requires PlanOf(evaluated).Some? && Twinned(containers, PlanOf(evaluated).value)
    requires OnlyMembers(evaluated, group, nodes)
    requires Open(id) in Events(containers)
    ensures name in group && name in nodes && nodes[name].uid == id
  {
    EventsExact(containers);
    var d :| d in containers && d.nodeID == id;
    var c :| c in PlanOf(evaluated).value && SameContainer(d, c);
    var e := PlanIsMade(evaluated, c);
    name :| name in group && name in nodes && IsOf(e, nodes[name]);
  }

  /** Two members declare the same port. */
  ghost predicate DeclaredTwice(group: seq<string>, nodes: Nodes) {
    exists m, n, key :: m in group && n in group && m in nodes && n in nodes && m != n &&
      DeclaresPort(nodes[m].ports, key) && DeclaresPort(nodes[n].ports, key)
  }

  lemma ClaimsAreDeclarations(evaluated: seq<Evaluated>, containers: seq<Container>, group: seq<string>, nodes: Nodes,
                              name: string, key: Key)
    requires Planned(evaluated, containers, group, nodes) && !SharedUid(group, nodes) && Explicits(group, nodes).Ok?
    requires name in group
    ensures Claims(Events(containers), Explicits(group, nodes).value, nodes[name].uid, key) <==>
              DeclaresPort(nodes[name].ports, key)
  {
    ExplicitsExact(group, nodes);
    assert DeclaredKeys(nodes[name].ports) == Some(Explicits(group, nodes).value[nodes[name].uid]);
    DeclaredKeysExact(nodes[name].ports, key);
    if DeclaresPort(nodes[name].ports, key) {
      DeclaredIsPlanned(evaluated, containers, nodes[name], key);
    }
  }

  lemma SharedClaimIffDeclaredTwice(evaluated: seq<Evaluated>, containers: seq<Container>, group: seq<string>,
                                    nodes: Nodes)
    requires Planned(evaluated, containers, group, nodes) && !SharedUid(group, nodes) && Explicits(group, nodes).Ok?
    ensures NoSharedClaim(Events(containers), Explicits(group, nodes).value) <==> !DeclaredTwice(group, nodes)
  {
    var events, explicit := Events(containers), Explicits(group, nodes).value;
    ExplicitsExact(group, nodes);
    if m, n, key :| m in group && n in group && m in nodes && n in nodes && m != n &&
                    DeclaresPort(nodes[m].ports, key) && DeclaresPort(nodes[n].ports, key) {
      ClaimsAreDeclarations(evaluated, containers, group, nodes, m, key);
      ClaimsAreDeclarations(evaluated, containers, group, nodes, n, key);
      assert Claims(events, explicit, nodes[m].uid, key) && Claims(events, explicit, nodes[n].uid, key);
      assert nodes[m].uid != nodes[n].uid;
    }
    if a, b, key :| Claims(events, explicit, a, key) && Claims(events, explicit, b, key) && a != b {
      assert Named(group, nodes, a) && Named(group, nodes, b);
      var m :| m in group && m in nodes && nodes[m].uid == a;
      var n :| n in group && n in nodes && nodes[n].uid == b;
      ClaimsAreDeclarations(evaluated, containers, group, nodes, m, key);
      ClaimsAreDeclarations(evaluated, containers, group, nodes, n, key);
    }
  }

  /** The promise about declared ports, from the group to its exposure: once the group is planned, the
      compilation fails exactly for a text that is no port or a port that two members declare, and in
      the listing every port that a member declares is held by that member and by nobody else. */
  lemma DeclaredPortsAreHeld(evaluated: seq<Evaluated>, containers: seq<Container>, disableAuto: bool,
                             group: seq<string>, nodes: Nodes, r: Result<Listing>)
    requires Planned(evaluated, containers, group, nodes) && !SharedUid(group, nodes)
    requires Outcome(containers, disableAuto, group, nodes, r)
    ensures r.Ok? <==> Explicits(group, nodes).Ok? && !DeclaredTwice(group, nodes)
    ensures r.Ok? ==>
              forall name, holder, key :: name in group && DeclaresPort(nodes[name].ports, key) ==>
                (Holds(r.value, holder, key) <==> holder == name)
    ensures r.Ok? && disableAuto ==>
              forall name, key :: Holds(r.value, name, key) ==> name in nodes && DeclaresPort(nodes[name].ports, key)
  {
    ListingIsPartition(containers, disableAuto, group, nodes, r);
    if Explicits(group, nodes).Ok? {
      PlannedIsKnown(evaluated, containers, group, nodes);
      SharedClaimIffDeclaredTwice(evaluated, containers, group, nodes);
      forall name, key | name in group ensures
          Claims(Events(containers), Explicits(group, nodes).value, nodes[name].uid, key) <==>
          DeclaresPort(nodes[name].ports, key) {
        ClaimsAreDeclarations(evaluated, containers, group, nodes, name, key);
      }
    }
  }

  /** Ports as the Node resource admits them. */
  ghost predicate AdmitsAll(ports: seq<string>) {
    forall raw :: raw in ports ==> exists p :: Admitted(raw, p)
  }

  /** What an admitted Node declares: exactly the numbers and protocols that are written. */
  lemma AdmittedDeclaresExactly(ports: seq<string>, number: int, protocol: string)
    requires AdmitsAll(ports)
    ensures DeclaresPort(ports, Key(number, protocol)) <==>
              || (protocol == "TCP" && exists raw :: raw in ports && Admitted(raw, Port(number, TCP)))
              || (protocol == "UDP" && exists raw :: raw in ports && Admitted(raw, Port(number, UDP)))
  {
    forall raw, p | raw in ports && Admitted(raw, p) ensures ProcessPort(raw) == Some(p) {
      AdmittedIsParsed(raw, p);
    }
    if raw :| raw in ports && StandsFor(raw, Key(number, protocol)) {
      var p :| Admitted(raw, p);
      assert p == Port(number, p.protocol);
    }
  }

  /** For Nodes that the API server let through, exposure fails exactly if two members declare one port. */
  lemma AdmittedPortsAreHeld(evaluated: seq<Evaluated>, containers: seq<Container>, disableAuto: bool,
                             group: seq<string>, nodes: Nodes, r: Result<Listing>)
    requires forall name :: name in group && name in nodes ==> AdmitsAll(nodes[name].ports)
    requires Planned(evaluated, containers, group, nodes) && !SharedUid(group, nodes)
    requires Outcome(containers, disableAuto, group, nodes, r)
    ensures r.Ok? <==> !DeclaredTwice(group, nodes)
  {
    DeclaredPortsAreHeld(evaluated, containers, disableAuto, group, nodes, r);
    forall name | name in group && name in nodes ensures AllPorts(nodes[name].ports) {
      AdmittedAreParsed(nodes[name].ports);
    }
    ExplicitsOkIff(group, nodes);
  }

  lemma AdmittedAreParsed(ports: seq<string>)
    requires AdmitsAll(ports)
    ensures AllPorts(ports) && forall raw :: raw in ports ==> MapPort(raw).Some?
  {
    forall raw | raw in ports ensures ProcessPort(raw).Some? && MapPort(raw).Some? {
      var p :| Admitted(raw, p);
      AdmittedIsParsed(raw, p);
    }
  }

  /** No port of an admitted Node stops the mapping of its containers. */
  lemma AdmittedPortsNeverStop(e: Evaluated)
    requires AdmitsAll(e.ports)
    ensures MapContainers(e, |e.images|).Some?
  {
    AdmittedAreParsed(e.ports);
    ContainersMapped(e, |e.images|);
  }

  /** A group of admitted Nodes is mapped exactly if every Node records a container and passes the checks
      that are not about ports. */
  lemma {:induction false} AdmittedIsMappedIff(evaluated: seq<Evaluated>)
    requires forall e :: e in evaluated ==> AdmitsAll(e.ports)
    ensures PlanOf(evaluated).Some? <==> forall e :: e in evaluated ==> |e.images| > 0 && e.passes
    decreases |evaluated|
  {
    if |evaluated| > 0 {
      var n := |evaluated| - 1;
      assert evaluated == evaluated[..n] + [evaluated[n]];
      AdmittedIsMappedIff(evaluated[..n]);
      AdmittedPortsNeverStop(evaluated[n]);
    }
  }

  lemma {:induction false} ContainersMapped(e: Evaluated, k: nat)
    requires k <= |e.images| && forall raw :: raw in e.ports ==> MapPort(raw).Some?
    ensures MapContainers(e, k).Some?
    decreases k
  {
    if k > 0 {
      ContainersMapped(e, k - 1);
      MappedExact(e.ports, e.images[k - 1]);
    }
  }
}
