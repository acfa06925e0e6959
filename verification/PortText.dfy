/** The text forms of the topology compiler: destination ports, the expose-ports label, and link
    endpoints. Strings are parsed by cutting, trimming and range checks.
  */
module PortText {
  import opened Wrappers
  import opened Ordering

  // ---------------------------------------------------------------- strings

  /** White space as Unicode defines it. */
  predicate IsSpace(c: char) {
    var n := c as int;
    || 0x09 <= n <= 0x0d || n == 0x20 || n == 0x85 || n == 0xa0 || n == 0x1680
    || 0x2000 <= n <= 0x200a || n == 0x2028 || n == 0x2029 || n == 0x202f || n == 0x205f || n == 0x3000
  }

  function TrimLeft(s: string): (r: string)
    ensures |r| > 0 ==> !IsSpace(r[0])
    decreases |s|
  {
    if |s| > 0 && IsSpace(s[0]) then TrimLeft(s[1..]) else s
  }

  function TrimRight(s: string): (r: string)
    ensures r <= s
    ensures |r| > 0 ==> !IsSpace(r[|r| - 1])
    decreases |s|
  {
    if |s| > 0 && IsSpace(s[|s| - 1]) then TrimRight(s[..|s| - 1]) else s
  }

  function TrimSpace(s: string): (r: string)
    ensures |r| > 0 ==> !IsSpace(r[0]) && !IsSpace(r[|r| - 1])
  {
    TrimRight(TrimLeft(s))
  }

  /** Nothing to trim at either end. */
  predicate IsTrimmed(s: string) {
    |s| > 0 ==> !IsSpace(s[0]) && !IsSpace(s[|s| - 1])
  }

  lemma TrimTrimmed(s: string)
    requires IsTrimmed(s)
    ensures TrimSpace(s) == s
  {
  }

  predicate Spaces(s: string) {
    forall c :: c in s ==> IsSpace(c)
  }

  /** `s` is `t` with white space around it. */
  ghost predicate Padded(s: string, t: string) {
    exists left, right :: Spaces(left) && Spaces(right) && s == left + t + right
  }

  lemma {:induction false} TrimLeftCuts(s: string) returns (left: string)
    ensures Spaces(left) && s == left + TrimLeft(s)
    decreases |s|
  {
    left := "";
    if |s| > 0 && IsSpace(s[0]) {
      var rest := TrimLeftCuts(s[1..]);
      left := [s[0]] + rest;
      assert s == [s[0]] + s[1..] == left + TrimLeft(s);
    }
  }

  lemma {:induction false} TrimRightCuts(s: string) returns (right: string)
    ensures Spaces(right) && s == TrimRight(s) + right
    decreases |s|
  {
    right := "";
    if |s| > 0 && IsSpace(s[|s| - 1]) {
      var rest := TrimRightCuts(s[..|s| - 1]);
      right := rest + [s[|s| - 1]];
      assert s == s[..|s| - 1] + [s[|s| - 1]] == TrimRight(s) + right;
    }
  }

  lemma {:induction false} TrimLeftSkips(left: string, s: string)
    requires Spaces(left) && (|s| > 0 ==> !IsSpace(s[0]))
    ensures TrimLeft(left + s) == s
    decreases |left|
  {
    if |left| == 0 {
      assert left + s == s;
    } else {
      assert left[0] in left && (left + s)[1..] == left[1..] + s;
      forall c | c in left[1..] ensures IsSpace(c) {}
      TrimLeftSkips(left[1..], s);
    }
  }

  lemma {:induction false} TrimRightSkips(s: string, right: string)
    requires Spaces(right) && (|s| > 0 ==> !IsSpace(s[|s| - 1]))
    ensures TrimRight(s + right) == s
    decreases |right|
  {
    if |right| == 0 {
      assert s + right == s;
    } else {
      var n := |right| - 1;
      assert right[n] in right && (s + right)[..|s + right| - 1] == s + right[..n];
      forall c | c in right[..n] ensures IsSpace(c) {}
      TrimRightSkips(s, right[..n]);
    }
  }

  /** Trimming takes the white space around a text away, and nothing else. */
  lemma TrimIff(s: string, t: string)
    requires t != "" && IsTrimmed(t)
    ensures TrimSpace(s) == t <==> Padded(s, t)
  {
    if TrimSpace(s) == t {
      var left := TrimLeftCuts(s);
      var right := TrimRightCuts(TrimLeft(s));
      assert s == left + t + right;
    }
    if left, right :| Spaces(left) && Spaces(right) && s == left + t + right {
      assert (t + right)[0] == t[0] && s == left + (t + right);
      TrimLeftSkips(left, t + right);
      TrimRightSkips(t, right);
    }
  }

  /** `strings.Split` at a single character. */
  function Split(s: string, sep: char): (parts: seq<string>)
    ensures |parts| > 0
    ensures sep !in s ==> parts == [s]
    decreases |s|
  {
    if |s| == 0 then [""]
    else
      var rest := Split(s[1..], sep);
      assert s == [s[0]] + s[1..];
      if s[0] == sep then [""] + rest else [[s[0]] + rest[0]] + rest[1..]
  }

  lemma {:induction false} SplitPair(a: string, b: string, sep: char)
    requires sep !in a && sep !in b
    ensures Split(a + [sep] + b, sep) == [a, b]
    decreases |a|
  {
    var s := a + [sep] + b;
    if |a| == 0 {
      assert s[1..] == b;
    } else {
      assert s[1..] == a[1..] + [sep] + b;
      SplitPair(a[1..], b, sep);
      assert [a[0]] + a[1..] == a;
    }
  }

  lemma {:induction false} SplitPartsPlain(s: string, sep: char)
    ensures forall i :: 0 <= i < |Split(s, sep)| ==> sep !in Split(s, sep)[i]
    decreases |s|
  {
    if |s| > 0 {
      SplitPartsPlain(s[1..], sep);
    }
  }

  /** The parts with the separator between them. */
  function Join(parts: seq<string>, sep: char): string
    requires |parts| > 0
  {
    if |parts| == 1 then parts[0] else parts[0] + [sep] + Join(parts[1..], sep)
  }

  lemma {:induction false} SplitFirst(a: string, rest: string, sep: char)
    requires sep !in a
    ensures Split(a + [sep] + rest, sep) == [a] + Split(rest, sep)
    decreases |a|
  {
    var s := a + [sep] + rest;
    if |a| == 0 {
      assert s[1..] == rest;
    } else {
      var tail := Split(rest, sep);
      assert s[1..] == a[1..] + [sep] + rest && s[0] == a[0] && a[0] in a;
      SplitFirst(a[1..], rest, sep);
      assert ([a[1..]] + tail)[0] == a[1..] && ([a[1..]] + tail)[1..] == tail;
      assert [a[0]] + a[1..] == a;
    }
  }

  /** Splitting undoes joining ... */
  lemma {:induction false} SplitJoin(parts: seq<string>, sep: char)
    requires |parts| > 0 && forall p :: p in parts ==> sep !in p
    ensures Split(Join(parts, sep), sep) == parts
    decreases |parts|
  {
    assert parts[0] in parts;
    if |parts| > 1 {
      forall p | p in parts[1..] ensures sep !in p {}
      SplitJoin(parts[1..], sep);
      SplitFirst(parts[0], Join(parts[1..], sep), sep);
      assert [parts[0]] + parts[1..] == parts;
    }
  }

  /** ... and joining undoes splitting. */
  lemma {:induction false} JoinSplit(s: string, sep: char)
    ensures Join(Split(s, sep), sep) == s
    decreases |s|
  {
    if |s| > 0 {
      JoinSplit(s[1..], sep);
      var rest, parts := Split(s[1..], sep), Split(s, sep);
      assert s == [s[0]] + s[1..];
      if s[0] == sep {
        assert parts[1..] == rest;
      } else {
        assert parts[0] == [s[0]] + rest[0] && parts[1..] == rest[1..];
      }
    }
  }

  function Upper(c: char): char {
    if 'a' <= c <= 'z' then (c as int - 32) as char else c
  }

  function ToUpper(s: string): string {
    seq(|s|, i requires 0 <= i < |s| => Upper(s[i]))
  }

  // ---------------------------------------------------------------- decimal numbers

  predicate IsDigit(c: char) { '0' <= c <= '9' }

  function Digits(n: nat): (s: string)
    ensures |s| > 0 && forall i :: 0 <= i < |s| ==> IsDigit(s[i])
  {
    var last := ('0' as int + n % 10) as char;
    if n < 10 then [last] else Digits(n / 10) + [last]
  }

  function Value(s: string): nat
    requires forall i :: 0 <= i < |s| ==> IsDigit(s[i])
  {
    if |s| == 0 then 0
    else
      assert IsDigit(s[|s| - 1]);
      10 * Value(s[..|s| - 1]) + (s[|s| - 1] as int - '0' as int)
  }

  lemma {:induction false} ValueOfDigits(n: nat)
    ensures Value(Digits(n)) == n
    decreases n
  {
    if n >= 10 {
      ValueOfDigits(n / 10);
      var s := Digits(n);
      assert s[..|s| - 1] == Digits(n / 10);
    } else {
      assert Digits(n)[..0] == "";
    }
  }

  predicate AllDigits(s: string) {
    |s| > 0 && forall i :: 0 <= i < |s| ==> IsDigit(s[i])
  }

  /** `strconv.Atoi`: an optional sign and at least one digit. */
  function Atoi(s: string): Option<int> {
    if |s| > 0 && (s[0] == '+' || s[0] == '-') then
      if !AllDigits(s[1..]) then None
      else
        var magnitude: int := Value(s[1..]);
        Some(if s[0] == '-' then -magnitude else magnitude)
    else if AllDigits(s) then Some(Value(s)) else None
  }

  // ---------------------------------------------------------------- ports

  datatype Protocol = TCP | UDP

  datatype Port = Port(number: int, protocol: Protocol)

  const MaxPort := 65535

  predicate ValidPort(p: Port) { 1 <= p.number <= MaxPort }

  /** The text before the first occurrence, the text after it if there is one. */
  function Cut(s: string, sep: char): (string, Option<string>) {
    if |s| == 0 then ("", None)
    else if s[0] == sep then ("", Some(s[1..]))
    else
      var (before, after) := Cut(s[1..], sep);
      ([s[0]] + before, after)
  }

  lemma {:induction false} CutPair(a: string, b: string, sep: char)
    requires sep !in a
    ensures Cut(a + [sep] + b, sep) == (a, Some(b))
    decreases |a|
  {
    var s := a + [sep] + b;
    if |a| == 0 {
      assert s[1..] == b;
    } else {
      assert s[1..] == a[1..] + [sep] + b;
      CutPair(a[1..], b, sep);
      assert [a[0]] + a[1..] == a;
    }
  }

  function ParseProtocol(text: Option<string>): Option<Protocol> {
    if text.None? || ToUpper(text.value) == "TCP" then Some(TCP)
    else if ToUpper(text.value) == "UDP" then Some(UDP)
    else None
  }

  /** A destination port with an optional protocol; a host:container binding is refused. */
  function ProcessPort(raw: string): (r: Option<Port>)
    ensures r.Some? ==> ValidPort(r.value)
  {
    var (number, protocolText) := Cut(TrimSpace(raw), '/');
    var protocol := ParseProtocol(protocolText);
    if protocol.None? || ':' in number then None
    else
      match Atoi(number)
      case None => None
      case Some(n) => if 1 <= n <= MaxPort then Some(Port(n, protocol.value)) else None
  }

  function Canonical(p: Port): string
    requires ValidPort(p)
  {
    Digits(p.number) + "/" + (if p.protocol == TCP then "tcp" else "udp")
  }

  lemma ProcessParts(number: string, text: string, protocol: Protocol)
    requires AllDigits(number) && |text| > 0 && !IsSpace(text[|text| - 1])
    requires ParseProtocol(Some(text)) == Some(protocol)
    ensures ProcessPort(number + "/" + text) ==
              if 1 <= Value(number) <= MaxPort then Some(Port(Value(number), protocol)) else None
  {
    var s := number + "/" + text;
    assert IsDigit(number[0]) && s[0] == number[0] && s[|s| - 1] == text[|text| - 1];
    TrimTrimmed(s);
    assert '/' !in number && ':' !in number;
    CutPair(number, text, '/');
  }

  /** Parsing a printed port gives the port back, for every port and protocol. */
  lemma PortRoundTrip(p: Port)
    requires ValidPort(p)
    ensures ProcessPort(Canonical(p)) == Some(p)
  {
    ValueOfDigits(p.number);
    assert ToUpper("tcp") == "TCP" && ToUpper("udp") == "UDP";
    ProcessParts(Digits(p.number), if p.protocol == TCP then "tcp" else "udp", p.protocol);
  }

  /** So distinct destinations have distinct canonical texts. */
  lemma CanonicalInjective(p: Port, q: Port)
    requires ValidPort(p) && ValidPort(q) && Canonical(p) == Canonical(q)
    ensures p == q
  {
    PortRoundTrip(p);
    PortRoundTrip(q);
  }

  // ---------------------------------------------------------------- the expose-ports label

  const ExposeLabel := "c9s.run/exposePorts"

  /** The canonical text of an entry, if it is a port at all. */
  function CanonicalOf(raw: string): Option<string> {
    var p := ProcessPort(raw);
    if p.Some? then Some(Canonical(p.value)) else None
  }

  /** Entry by entry, the canonical text or nothing. */
  function CanonicalTexts(entries: seq<string>): seq<Option<string>> {
    seq(|entries|, i requires 0 <= i < |entries| => CanonicalOf(entries[i]))
  }

  function Trimmed(entries: seq<string>): seq<string> {
    seq(|entries|, i requires 0 <= i < |entries| => TrimSpace(entries[i]))
  }

  function Destinations(texts: seq<Option<string>>): (r: set<string>)
    ensures forall t :: t in r <==> Some(t) in texts
  {
    set x | x in texts && x.Some? :: x.value
  }

  /** The destinations that have not been seen, in order of first mention. */
  function Missing(seen: set<string>, texts: seq<Option<string>>): seq<string>
    decreases |texts|
  {
    if |texts| == 0 then []
    else if texts[0].None? || texts[0].value in seen then Missing(seen, texts[1..])
    else [texts[0].value] + Missing(seen + {texts[0].value}, texts[1..])
  }

  /** Exactly the missing destinations, each once. */
  lemma {:induction false} MissingExact(seen: set<string>, texts: seq<Option<string>>)
    ensures NoDuplicates(Missing(seen, texts))
    ensures forall t :: t in Missing(seen, texts) <==> Some(t) in texts && t !in seen
    decreases |texts|
  {
    if |texts| > 0 {
      var x, rest := texts[0], texts[1..];
      assert texts == [x] + rest;
      MissingExact(if x.None? || x.value in seen then seen else seen + {x.value}, rest);
    }
  }

  /** The positions of the entries that are no ports. */
  function InvalidAt(texts: seq<Option<string>>): (at: seq<nat>)
    ensures forall i: nat :: i in at <==> i < |texts| && texts[i].None?
  {
    if |texts| == 0 then []
    else
      var n := |texts| - 1;
      InvalidAt(texts[..n]) + (if texts[n].None? then [n] else [])
  }

  /** What the label stands for. */
  function LabelTexts(value: string): seq<Option<string>> {
    CanonicalTexts(Trimmed(Split(value, ',')))
  }

  /** A node definition, as far as the label is concerned. */
  class NodeDefinition {
    var labels: map<string, string>
    var ports: seq<string>

    /** The label is always consumed. Its valid entries follow the declared ports in canonical
        form, without those declared or mentioned before; `invalid` lists the entries rejected. */
    method ConsumeExposePortsLabel() returns (invalid: seq<nat>)
      modifies this
      ensures labels == old(labels) - {ExposeLabel}
      ensures ExposeLabel !in old(labels) ==> ports == old(ports) && invalid == []
      ensures ExposeLabel in old(labels) ==>
                var texts := LabelTexts(old(labels)[ExposeLabel]);
                && ports == old(ports) + Missing(Destinations(CanonicalTexts(old(ports))), texts)
                && invalid == InvalidAt(texts)
    {
      invalid := [];
      if ExposeLabel !in labels {
        assert labels - {ExposeLabel} == labels;
        return;
      }
      var value := labels[ExposeLabel];
      labels := labels - {ExposeLabel};
      var seen := SeenDestinations(ports);
      var texts := ParseEntries(Trimmed(Split(value, ',')));
      var added;
      invalid, added := AppendMissing(texts, seen);
      ports := ports + added;
    }
  }

  /** Every entry parsed and printed again. */
  method ParseEntries(entries: seq<string>) returns (texts: seq<Option<string>>)
    ensures texts == CanonicalTexts(entries)
  {
    texts := [];
    for i := 0 to |entries|
      invariant texts == CanonicalTexts(entries)[..i]
    {
      var port := ProcessPort(entries[i]);
      texts := texts + [if port.None? then None else Some(Canonical(port.value))];
    }
  }

  /** The first loop: destinations already declared; other port entries are left to the API. */
  method SeenDestinations(ports: seq<string>) returns (seen: set<string>)
    ensures seen == Destinations(CanonicalTexts(ports))
  {
    var texts := ParseEntries(ports);
    seen := {};
    for i := 0 to |texts|
      invariant forall t :: t in seen <==> Some(t) in texts[..i]
    {
      assert texts[..i + 1] == texts[..i] + [texts[i]];
      if texts[i].None? {
        continue;
      }
      seen := seen + {texts[i].value};
    }
    assert texts[..|texts|] == texts;
  }

  /** The second loop: what the label adds beyond the destinations seen. */
  method AppendMissing(texts: seq<Option<string>>, declared: set<string>)
      returns (invalid: seq<nat>, added: seq<string>)
    ensures added == Missing(declared, texts) && invalid == InvalidAt(texts)
  {
    var seen := declared;
    added, invalid := [], [];
    for idx := 0 to |texts|
      invariant added + Missing(seen, texts[idx..]) == Missing(declared, texts)
      invariant invalid == InvalidAt(texts[..idx])
    {
      assert texts[..idx + 1][..idx] == texts[..idx] && texts[idx..][1..] == texts[idx + 1..];
      if texts[idx].None? {
        invalid := invalid + [idx];
        continue;
      }
      var canonical := texts[idx].value;
      if canonical in seen {
        continue;
      }
      assert added + ([canonical] + Missing(seen + {canonical}, texts[idx + 1..])) ==
        added + [canonical] + Missing(seen + {canonical}, texts[idx + 1..]);
      seen := seen + {canonical};
      added := added + [canonical];
    }
    assert texts[..|texts|] == texts && texts[|texts|..] == [];
  }

  /** Consuming the label exposes the Node's own destinations and the label's and nothing else;
      what it appends is canonical and repeats no destination that the Node declared. */
  lemma ExposesUnion(original: seq<string>, value: string, t: string)
    ensures var own, asked := CanonicalTexts(original), LabelTexts(value);
            var added := Missing(Destinations(own), asked);
            && (Some(t) in CanonicalTexts(original + added) <==> Some(t) in own || Some(t) in asked)
            && (forall e :: e in added ==> CanonicalOf(e) == Some(e) && Some(e) !in own)
  {
    var own, asked := CanonicalTexts(original), LabelTexts(value);
    var added := Missing(Destinations(own), asked);
    MissingExact(Destinations(own), asked);
    forall e | e in added ensures CanonicalOf(e) == Some(e) {
      CanonicalFixed(Trimmed(Split(value, ',')), e);
    }
    TextsOfAppended(original, added, t);
  }

  lemma TextsOfAppended(original: seq<string>, added: seq<string>, t: string)
    requires forall e :: e in added ==> CanonicalOf(e) == Some(e)
    ensures Some(t) in CanonicalTexts(original + added) <==> Some(t) in CanonicalTexts(original) || t in added
  {
    var more := CanonicalTexts(added);
    assert CanonicalTexts(original + added) == CanonicalTexts(original) + more;
    forall i | 0 <= i < |added| ensures more[i] == Some(added[i]) {
      assert added[i] in added;
    }
    if t in added {
      var i :| 0 <= i < |added| && added[i] == t;
      assert more[i] == Some(t);
    }
  }

  /** A canonical text is its own canonical text. */
  lemma CanonicalFixed(entries: seq<string>, t: string)
    requires Some(t) in CanonicalTexts(entries)
    ensures CanonicalOf(t) == Some(t)
  {
    var i :| 0 <= i < |entries| && CanonicalTexts(entries)[i] == Some(t);
    PortRoundTrip(ProcessPort(entries[i]).value);
  }

  lemma CanonicalIsPlain(p: Port)
    requires ValidPort(p)
    ensures ',' !in Canonical(p) && Canonical(p) != "" && IsTrimmed(Canonical(p))
  {
    var text := Canonical(p);
    assert IsDigit(Digits(p.number)[0]) && text[0] == Digits(p.number)[0];
    assert text[|text| - 1] == 'p';
  }

  /** The entries print these ports, with white space around them perhaps. */
  ghost predicate Prints(entries: seq<string>, ports: seq<Port>) {
    && |entries| == |ports| > 0
    && forall i :: 0 <= i < |ports| ==> ValidPort(ports[i]) && Padded(entries[i], Canonical(ports[i]))
  }

  lemma PrintedIsPlain(entry: string, p: Port)
    requires ValidPort(p) && Padded(entry, Canonical(p))
    ensures ',' !in entry && TrimSpace(entry) == Canonical(p)
  {
    CanonicalIsPlain(p);
    TrimIff(entry, Canonical(p));
    var left, right :| Spaces(left) && Spaces(right) && entry == left + Canonical(p) + right;
    assert !IsSpace(',');
  }

  /** A label that joins printed ports with commas stands for exactly those ports, in that order. */
  lemma LabelOfPorts(entries: seq<string>, ports: seq<Port>)
    requires Prints(entries, ports)
    ensures LabelTexts(Join(entries, ',')) == seq(|ports|, i requires 0 <= i < |ports| => Some(Canonical(ports[i])))
  {
    forall i | 0 <= i < |entries| ensures ',' !in entries[i] && TrimSpace(entries[i]) == Canonical(ports[i]) {
      PrintedIsPlain(entries[i], ports[i]);
    }
    SplitJoin(entries, ',');
    forall i | 0 <= i < |entries| ensures CanonicalOf(TrimSpace(entries[i])) == Some(Canonical(ports[i])) {
      PortRoundTrip(ports[i]);
    }
  }

  /** The text of some port declaration of the Node stands for this port. */
  ghost predicate Exposes(texts: seq<string>, p: Port) {
    exists raw :: raw in texts && ProcessPort(raw) == Some(p)
  }

  lemma ExposesIff(texts: seq<string>, p: Port)
    requires ValidPort(p)
    ensures Exposes(texts, p) <==> Some(Canonical(p)) in CanonicalTexts(texts)
  {
    if raw :| raw in texts && ProcessPort(raw) == Some(p) {
      var i :| 0 <= i < |texts| && texts[i] == raw;
      assert CanonicalTexts(texts)[i] == Some(Canonical(p));
    }
    if Some(Canonical(p)) in CanonicalTexts(texts) {
      var i :| 0 <= i < |texts| && CanonicalTexts(texts)[i] == Some(Canonical(p));
      CanonicalInjective(ProcessPort(texts[i]).value, p);
      assert texts[i] in texts;
    }
  }

  /** So a label that joins printed ports adds exactly those ports to what the Node declares, none of
      them twice, and no entry is reported. */
  lemma LabelExposesItsPorts(original: seq<string>, entries: seq<string>, ports: seq<Port>, p: Port)
    requires Prints(entries, ports) && ValidPort(p)
    ensures var texts := LabelTexts(Join(entries, ','));
            var added := Missing(Destinations(CanonicalTexts(original)), texts);
            && (Exposes(original + added, p) <==> Exposes(original, p) || p in ports)
            && NoDuplicates(added) && InvalidAt(texts) == []
  {
    var value := Join(entries, ',');
    var texts := LabelTexts(value);
    var added := Missing(Destinations(CanonicalTexts(original)), texts);
    LabelOfPorts(entries, ports);
    ExposesUnion(original, value, Canonical(p));
    ExposesIff(original, p);
    ExposesIff(original + added, p);
    MissingExact(Destinations(CanonicalTexts(original)), texts);
    PortsInTexts(ports, texts, p);
    NoneInvalid(texts);
  }

  lemma {:induction false} NoneInvalid(texts: seq<Option<string>>)
    requires forall i :: 0 <= i < |texts| ==> texts[i].Some?
    ensures InvalidAt(texts) == []
    decreases |texts|
  {
    if |texts| > 0 { NoneInvalid(texts[..|texts| - 1]); }
  }

  lemma PortsInTexts(ports: seq<Port>, texts: seq<Option<string>>, p: Port)
    requires |texts| == |ports| && ValidPort(p)
    requires forall i :: 0 <= i < |ports| ==> ValidPort(ports[i]) && texts[i] == Some(Canonical(ports[i]))
    ensures Some(Canonical(p)) in texts <==> p in ports
  {
    if Some(Canonical(p)) in texts {
      var i :| 0 <= i < |texts| && texts[i] == Some(Canonical(p));
      CanonicalInjective(ports[i], p);
    }
    if p in ports {
      var i :| 0 <= i < |ports| && ports[i] == p;
      assert texts[i] == Some(Canonical(p));
    }
  }

  // ---------------------------------------------------------------- link endpoints

  /** `node:interface`, both parts trimmed and not empty. */
  function CanonicalEndpoint(value: string): Option<string> {
    var parts := Split(TrimSpace(value), ':');
    if |parts| != 2 then None
    else
      var node, interface := TrimSpace(parts[0]), TrimSpace(parts[1]);
      if node == "" || interface == "" then None else Some(node + ":" + interface)
  }

  lemma {:induction false} TrimLeftPlain(s: string, c: char)
    requires c !in s
    ensures c !in TrimLeft(s)
    decreases |s|
  {
    if |s| > 0 && IsSpace(s[0]) { TrimLeftPlain(s[1..], c); }
  }

  lemma TrimPlain(s: string, c: char)
    requires c !in s
    ensures c !in TrimSpace(s)
  {
    TrimLeftPlain(s, c);
  }

  /** A canonical endpoint splits into exactly its two parts, and is its own canonical form: what
      the link compiler re-checks can no longer fail. */
  lemma CanonicalEndpointFixed(value: string)
    requires CanonicalEndpoint(value).Some?
    ensures var c := CanonicalEndpoint(value).value;
            && CanonicalEndpoint(c) == Some(c)
            && |Split(c, ':')| == 2 && Split(c, ':')[0] != "" && Split(c, ':')[1] != ""
            && IsTrimmed(Split(c, ':')[0]) && IsTrimmed(Split(c, ':')[1])
  {
    var parts := Split(TrimSpace(value), ':');
    var node, interface := TrimSpace(parts[0]), TrimSpace(parts[1]);
    SplitPartsPlain(TrimSpace(value), ':');
    TrimPlain(parts[0], ':');
    TrimPlain(parts[1], ':');
    var c := node + ":" + interface;
    SplitPair(node, interface, ':');
    assert c[0] == node[0] && c[|c| - 1] == interface[|interface| - 1];
    TrimTrimmed(c);
    TrimTrimmed(node);
    TrimTrimmed(interface);
  }

  /** `value` names this node and this interface: one colon, and white space around either at most. */
  ghost predicate Names(value: string, node: string, interface: string) {
    && node != "" && IsTrimmed(node) && interface != "" && IsTrimmed(interface)
    && exists x, y :: Halves(value, x, y, node, interface)
  }

  ghost predicate Halves(value: string, x: string, y: string, node: string, interface: string) {
    ':' !in x && ':' !in y && value == x + ":" + y && Padded(x, node) && Padded(y, interface)
  }

  lemma SplitInTwo(s: string, sep: char, a: string, b: string)
    ensures Split(s, sep) == [a, b] <==> sep !in a && sep !in b && s == a + [sep] + b
  {
    if Split(s, sep) == [a, b] {
      SplitPartsPlain(s, sep);
      JoinSplit(s, sep);
      assert Split(s, sep)[0] == a && Split(s, sep)[1] == b && [a, b][1..] == [b];
    }
    if sep !in a && sep !in b && s == a + [sep] + b {
      SplitPair(a, b, sep);
    }
  }

  /** A text is taken for an endpoint exactly if it names a node and an interface, and its canonical form
      is these two with a colon between them. All other texts are refused. */
  lemma CanonicalEndpointIff(value: string, c: string)
    ensures CanonicalEndpoint(value) == Some(c) <==>
              exists node, interface :: Names(value, node, interface) && c == node + ":" + interface
  {
    if CanonicalEndpoint(value) == Some(c) {
      var parts := Split(TrimSpace(value), ':');
      EndpointNamed(value, parts[0], parts[1]);
    }
    if node, interface :| Names(value, node, interface) && c == node + ":" + interface {
      NamedIsTaken(value, node, interface);
    }
  }

  lemma EndpointNamed(value: string, a: string, b: string)
    requires Split(TrimSpace(value), ':') == [a, b] && TrimSpace(a) != "" && TrimSpace(b) != ""
    ensures Names(value, TrimSpace(a), TrimSpace(b))
  {
    SplitInTwo(TrimSpace(value), ':', a, b);
    var left, right := TrimCuts(value);
    HalvesFrom(value, left, a, b, right);
  }

  lemma TrimCuts(s: string) returns (left: string, right: string)
    ensures Spaces(left) && Spaces(right) && s == left + TrimSpace(s) + right
  {
    left := TrimLeftCuts(s);
    right := TrimRightCuts(TrimLeft(s));
  }

  lemma HalvesFrom(value: string, left: string, a: string, b: string, right: string)
    requires Spaces(left) && Spaces(right) && ':' !in a && ':' !in b && TrimSpace(a) != "" && TrimSpace(b) != ""
    requires value == left + (a + ":" + b) + right
    ensures Names(value, TrimSpace(a), TrimSpace(b))
  {
    SidesPadded(left, a, b, right);
    Regrouped(left, a, b, right);
    assert Halves(value, left + a, b + right, TrimSpace(a), TrimSpace(b));
  }

  lemma Regrouped(left: string, a: string, b: string, right: string)
    ensures left + ((a + ":" + b) + right) == (left + a) + ":" + (b + right)
    ensures left + (a + ":" + b) + right == (left + a) + ":" + (b + right)
  {
  }

  lemma SidesPadded(left: string, a: string, b: string, right: string)
    requires Spaces(left) && Spaces(right) && ':' !in a && ':' !in b && TrimSpace(a) != "" && TrimSpace(b) != ""
    ensures ':' !in left + a && ':' !in b + right
    ensures Padded(left + a, TrimSpace(a)) && Padded(b + right, TrimSpace(b))
  {
    assert !IsSpace(':');
    TrimIff(a, TrimSpace(a));
    TrimIff(b, TrimSpace(b));
    PadMore(left, a, "", TrimSpace(a));
    PadMore("", b, right, TrimSpace(b));
    assert left + a + "" == left + a && "" + b + right == b + right;
  }

  lemma PadMore(left: string, s: string, right: string, t: string)
    requires Spaces(left) && Spaces(right) && Padded(s, t)
    ensures Padded(left + s + right, t)
  {
    var l, r :| Spaces(l) && Spaces(r) && s == l + t + r;
    assert Spaces(left + l) && Spaces(r + right);
    assert left + s + right == (left + l) + t + (r + right);
  }

  lemma NamedIsTaken(value: string, node: string, interface: string)
    requires Names(value, node, interface)
    ensures CanonicalEndpoint(value) == Some(node + ":" + interface)
  {
    var x, y :| Halves(value, x, y, node, interface);
    var left, a := StripLeft(x, node);
    var b, right := StripRight(y, interface);
    Regrouped(left, a, b, right);
    OuterTrimmed(left, a, b, right);
    TakenParts(value, a, b, node, interface);
  }

  lemma StripLeft(x: string, node: string) returns (left: string, a: string)
    requires Padded(x, node) && node != "" && IsTrimmed(node)
    ensures Spaces(left) && x == left + a && a != "" && !IsSpace(a[0]) && Padded(a, node)
    ensures forall c :: c in a ==> c in x
  {
    var l, r :| Spaces(l) && Spaces(r) && x == l + node + r;
    left, a := l, node + r;
    assert a == "" + node + r && x == left + a;
  }

  lemma StripRight(y: string, interface: string) returns (b: string, right: string)
    requires Padded(y, interface) && interface != "" && IsTrimmed(interface)
    ensures Spaces(right) && y == b + right && b != "" && !IsSpace(b[|b| - 1]) && Padded(b, interface)
    ensures forall c :: c in b ==> c in y
  {
    var l, r :| Spaces(l) && Spaces(r) && y == l + interface + r;
    b, right := l + interface, r;
    assert Spaces("") && b == l + interface + "" && b[|b| - 1] == interface[|interface| - 1];
    assert y == b + right;
  }

  /** Trimming the whole text leaves what is between the outer white space. */
  lemma OuterTrimmed(left: string, a: string, b: string, right: string)
    requires Spaces(left) && Spaces(right) && a != "" && b != "" && !IsSpace(a[0]) && !IsSpace(b[|b| - 1])
    ensures TrimSpace(left + (a + ":" + b) + right) == a + ":" + b
  {
    var mid := a + ":" + b;
    assert mid[0] == a[0] && mid[|mid| - 1] == b[|b| - 1];
    assert Padded(left + mid + right, mid);
    TrimIff(left + mid + right, mid);
  }

  lemma TakenParts(value: string, a: string, b: string, node: string, interface: string)
    requires TrimSpace(value) == a + ":" + b && ':' !in a && ':' !in b
    requires node != "" && IsTrimmed(node) && Padded(a, node)
    requires interface != "" && IsTrimmed(interface) && Padded(b, interface)
    ensures CanonicalEndpoint(value) == Some(node + ":" + interface)
  {
    SplitPair(a, b, ':');
    TrimIff(a, node);
    TrimIff(b, interface);
  }
}
