/**
  The announcement compiler (b3_announce.py): a list of announcements becomes a text of FRR commands.
  `Interpret` reads such a text back, command by command, and `Advertises` says which prefixes the
  router then sends to a peer, and with which next hop.
 */
module Frr {
  import opened Options
  import opened Lists
  import opened Sorting
  import opened Text

  datatype Announcement = Announcement(vpc: string, cidr: string, nextHop: string)

  // ---- The compiler

  predicate IsAlnum(c: char) {
    'a' <= c <= 'z' || 'A' <= c <= 'Z' || '0' <= c <= '9'
  }

  function SlugChar(c: char): char {
    if 'a' <= c <= 'z' then (c as int - 'a' as int + 'A' as int) as char
    else if IsAlnum(c) then c
    else '-'
  }

  /** `_slug`, for ASCII names */
  function Slug(vpc: string): string {
    seq(|vpc|, i requires 0 <= i < |vpc| => SlugChar(vpc[i]))
  }

  predicate SameLetter(a: char, b: char) {
    || a == b
    || ('a' <= a <= 'z' && 'A' <= b <= 'Z' && a as int - 'a' as int == b as int - 'A' as int)
    || ('a' <= b <= 'z' && 'A' <= a <= 'Z' && b as int - 'a' as int == a as int - 'A' as int)
  }

  /** Two names share a slug if and only if they differ only in the case of letters and in which
      characters other than letters and digits they have in the same places. */
  lemma SlugsCollideIff(v: string, w: string)
    ensures Slug(v) == Slug(w) <==>
              |v| == |w| && forall i | 0 <= i < |v| :: SameLetter(v[i], w[i]) || (!IsAlnum(v[i]) && !IsAlnum(w[i]))
  {
    if Slug(v) == Slug(w) {
      assert |v| == |Slug(v)| == |w|;
      forall i | 0 <= i < |v|
        ensures SameLetter(v[i], w[i]) || (!IsAlnum(v[i]) && !IsAlnum(w[i]))
      {
        assert Slug(v)[i] == SlugChar(v[i]) && Slug(w)[i] == SlugChar(w[i]);
      }
    }
  }

  /** A slug has none of the characters that separate words or lines. */
  lemma SlugChars(v: string)
    ensures forall c <- Slug(v) :: 'A' <= c <= 'Z' || '0' <= c <= '9' || c == '-'
  {
  }

  /** A line of configuration: words with single blanks between them, indented. */
  datatype Line = Line(indent: nat, words: seq<string>)

  function Blanks(n: nat): seq<string> {
    seq(n, _ => "")
  }

  function LineText(l: Line): string {
    Join(" ", Blanks(l.indent) + l.words)
  }

  function Texts(lines: seq<Line>): seq<string> {
    seq(|lines|, i requires 0 <= i < |lines| => LineText(lines[i]))
  }

  /** `"\n".join(lines) + "\n"` */
  function ProgramText(lines: seq<Line>): string {
    Join("\n", Texts(lines)) + "\n"
  }

  /** Where the announcements go: the neighbour's address and the two AS numbers. */
  datatype Session = Session(peer: string, asn: nat, remoteAsn: nat)

  function Header(s: Session): seq<Line> {
    [Line(0, ["router", "bgp", Decimal(s.asn)]),
     Line(1, ["no", "bgp", "ebgp-requires-policy"]),
     Line(1, ["no", "bgp", "network", "import-check"]),
     Line(1, ["neighbor", s.peer, "remote-as", Decimal(s.remoteAsn)]),
     Line(1, ["neighbor", s.peer, "timers", "10", "30"]),
     Line(1, ["address-family", "ipv4", "unicast"])]
  }

  function NetworkLine(a: Announcement): Line {
    Line(2, ["network", a.cidr])
  }

  function NetworkLines(anns: seq<Announcement>): seq<Line> {
    if anns == [] then [] else NetworkLines(anns[..|anns| - 1]) + [NetworkLine(anns[|anns| - 1])]
  }

  function Binding(anns: seq<Announcement>, s: Session): seq<Line> {
    (if anns != [] then [Line(2, ["neighbor", s.peer, "route-map", "B3-NH", "out"])] else [])
      + [Line(1, ["exit-address-family"]), Line(0, ["!"])]
  }

  function ListName(a: Announcement): string {
    "PL-" + Slug(a.vpc)
  }

  function PrefixListLine(a: Announcement): Line {
    Line(0, ["ip", "prefix-list", ListName(a), "seq", "5", "permit", a.cidr])
  }

  function PrefixListLines(anns: seq<Announcement>): seq<Line> {
    if anns == [] then [] else PrefixListLines(anns[..|anns| - 1]) + [PrefixListLine(anns[|anns| - 1])]
  }

  /** The branch of the i-th announcement, counted from one. */
  function Branch(a: Announcement, i: nat): seq<Line> {
    [Line(0, ["route-map", "B3-NH", "permit", Decimal(i * 10)]),
     Line(1, ["match", "ip", "address", "prefix-list", ListName(a)]),
     Line(1, ["set", "ip", "next-hop", a.nextHop])]
  }

  function Branches(anns: seq<Announcement>): seq<Line> {
    if anns == [] then [] else Branches(anns[..|anns| - 1]) + Branch(anns[|anns| - 1], |anns|)
  }

  function Program(anns: seq<Announcement>, s: Session): seq<Line> {
    Header(s) + NetworkLines(anns) + Binding(anns, s) + PrefixListLines(anns) + [Line(0, ["!"])] + Branches(anns)
  }

  // ---- The router

  datatype Mode = Top | Router | Family | RouteMap(name: string, seqNo: int)

  /** One entry of a route-map: the prefix-list it asks for, and the next hop it sets. */
  datatype Entry = Entry(list: Option<string>, hop: Option<string>)

  /** The router's AS number, the AS number and the timers (keepalive, hold) of each neighbour, and the
      rest of what the commands set. */
  datatype Config = Config(mode: Mode, refused: bool, requiresPolicy: bool, importCheck: bool,
                           asn: Option<int>, neighbors: map<string, int>, timers: map<string, (int, int)>,
                           networks: set<string>, outbound: map<string, string>,
                           lists: map<(string, int), string>, maps: map<(string, int), Entry>)

  const EMPTY := Config(Top, false, true, true, None, map[], map[], {}, map[], map[], map[])

  /** One command. A prefix-list line replaces the line with the same name and sequence number. */
  function Exec(c: Config, w: seq<string>): Config {
    if w == [] || w[0] == "!" then c
    else if w[0] == "router" && |w| == 3 && w[1] == "bgp" then c.(mode := Router, asn := Some(Number(w[2])))
    else if w[0] == "no" && c.mode.Router? then ExecNo(c, w)
    else if w[0] == "neighbor" && |w| > 2 then ExecNeighbor(c, w)
    else if w == ["address-family", "ipv4", "unicast"] && c.mode.Router? then c.(mode := Family)
    else if w[0] == "exit-address-family" && c.mode.Family? then c.(mode := Router)
    else if w[0] == "network" && |w| == 2 && c.mode.Family? then c.(networks := c.networks + {w[1]})
    else if w[0] == "ip" && |w| == 7 then ExecPrefixList(c, w)
    else if w[0] == "route-map" && |w| == 4 then ExecRouteMap(c, w)
    else if w[0] == "match" && |w| == 5 && w[1] == "ip" && w[2] == "address" && w[3] == "prefix-list" && c.mode.RouteMap? then
      SetEntry(c, Entry(Some(w[4]), EntryAt(c, (c.mode.name, c.mode.seqNo)).hop))
    else if w[0] == "set" && |w| == 4 && w[1] == "ip" && w[2] == "next-hop" && c.mode.RouteMap? then
      SetEntry(c, Entry(EntryAt(c, (c.mode.name, c.mode.seqNo)).list, Some(w[3])))
    else c.(refused := true)
  }

  function ExecNo(c: Config, w: seq<string>): Config {
    if |w| == 3 && w[1] == "bgp" && w[2] == "ebgp-requires-policy" then c.(requiresPolicy := false)
    else if |w| == 4 && w[1] == "bgp" && w[2] == "network" && w[3] == "import-check" then c.(importCheck := false)
    else c.(refused := true)
  }

  function ExecNeighbor(c: Config, w: seq<string>): Config
    requires |w| > 2
  {
    if |w| == 4 && w[2] == "remote-as" && c.mode.Router? then c.(neighbors := c.neighbors[w[1] := Number(w[3])])
    else if w[1] !in c.neighbors then c.(refused := true)
    else if |w| == 5 && w[2] == "timers" && c.mode.Router? then c.(timers := c.timers[w[1] := (Number(w[3]), Number(w[4]))])
    else if |w| == 5 && w[2] == "route-map" && w[4] == "out" && c.mode.Family? then c.(outbound := c.outbound[w[1] := w[3]])
    else c.(refused := true)
  }

  function ExecPrefixList(c: Config, w: seq<string>): Config
    requires |w| == 7
  {
    if w[1] == "prefix-list" && w[3] == "seq" && w[5] == "permit" then
      c.(mode := Top, lists := c.lists[(w[2], Number(w[4])) := w[6]])
    else c.(refused := true)
  }

  function ExecRouteMap(c: Config, w: seq<string>): Config
    requires |w| == 4
  {
    var at := (w[1], Number(w[3]));
    if w[2] == "permit" then c.(mode := RouteMap(at.0, at.1), maps := c.maps[at := EntryAt(c, at)])
    else c.(refused := true)
  }

  function EntryAt(c: Config, at: (string, int)): Entry {
    if at in c.maps then c.maps[at] else Entry(None, None)
  }

  function SetEntry(c: Config, e: Entry): Config
    requires c.mode.RouteMap?
  {
    c.(maps := c.maps[(c.mode.name, c.mode.seqNo) := e])
  }

  function Words(line: string): seq<string> {
    Filter(Split(' ', line), (w: string) => w != "")
  }

  function Load(c: Config, lines: seq<string>): Config {
    if lines == [] then c else Exec(Load(c, lines[..|lines| - 1]), Words(lines[|lines| - 1]))
  }

  function Interpret(text: string): Config {
    Load(EMPTY, Split('\n', text))
  }

  /** Some line of the prefix-list permits exactly the prefix. */
  ghost predicate Permits(c: Config, list: string, cidr: string) {
    exists seqNo :: (list, seqNo) in c.lists && c.lists[(list, seqNo)] == cidr
  }

  ghost predicate MatchesAt(c: Config, name: string, seqNo: int, cidr: string) {
    && (name, seqNo) in c.maps
    && (c.maps[(name, seqNo)].list.Some? ==> Permits(c, c.maps[(name, seqNo)].list.value, cidr))
  }

  /** The entry is the first of the route-map that matches the prefix. */
  ghost predicate FirstMatch(c: Config, name: string, seqNo: int, cidr: string) {
    && MatchesAt(c, name, seqNo, cidr)
    && forall earlier | earlier < seqNo :: !MatchesAt(c, name, earlier, cidr)
  }

  /** How a router advertises its own address as the next hop. */
  const ITSELF := "0.0.0.0"

  /** The session with the peer comes up: each side is in the AS that the other one expects, and a few
      keepalives fit into the hold time. */
  predicate Established(c: Config, s: Session) {
    && !c.refused && c.asn == Some(s.asn)
    && s.peer in c.neighbors && c.neighbors[s.peer] == s.remoteAsn
    && (s.peer in c.timers ==> 0 < 3 * c.timers[s.peer].0 <= c.timers[s.peer].1)
  }

  /** The prefix is sent to the peer with this next hop: it is a network, and the first entry of the
      outbound route-map that matches it sets the hop; what no entry matches is not sent. Without a
      route-map everything is sent, unless a policy is required. */
  ghost predicate Advertises(c: Config, s: Session, cidr: string, hop: string) {
    && Established(c, s) && cidr in c.networks && !c.importCheck
    && if s.peer in c.outbound then
         exists seqNo :: && FirstMatch(c, c.outbound[s.peer], seqNo, cidr)
                         && HopAt(c, c.outbound[s.peer], seqNo) == hop
       else !c.requiresPolicy && hop == ITSELF
  }

  function HopAt(c: Config, name: string, seqNo: int): string {
    var hop := EntryAt(c, (name, seqNo)).hop;
    if hop.Some? then hop.value else ITSELF
  }

  // ---- From the text back to the words

  predicate IsWord(w: string) {
    w != "" && ' ' !in w && '\n' !in w
  }

  ghost predicate AreWords(l: Line) {
    l.words != [] && forall w <- l.words :: IsWord(w)
  }

  lemma {:induction false} BlanksFiltered(n: nat, words: seq<string>)
    requires forall w <- words :: w != ""
    ensures Filter(Blanks(n) + words, (w: string) => w != "") == words
  {
    FilterConcat(Blanks(n), words, (w: string) => w != "");
    FilterNone(Blanks(n), (w: string) => w != "");
    FilterAll(words, (w: string) => w != "");
  }

  lemma LineReadBack(l: Line)
    requires AreWords(l)
    ensures Words(LineText(l)) == l.words
  {
    assert forall w <- l.words :: IsWord(w);
    assert NoneHas(Blanks(l.indent) + l.words, ' ');
    SplitJoin(' ', Blanks(l.indent) + l.words);
    BlanksFiltered(l.indent, l.words);
  }

  lemma LineHasNoNewline(l: Line)
    requires AreWords(l)
    ensures '\n' !in LineText(l)
  {
    assert forall w <- l.words :: IsWord(w);
    JoinLacks(" ", Blanks(l.indent) + l.words, '\n');
  }

  lemma {:induction false} JoinSnoc(sep: string, xs: seq<string>, x: string)
    requires xs != []
    ensures Join(sep, xs + [x]) == Join(sep, xs) + sep + x
  {
    if |xs| == 1 {
      assert (xs + [x])[1..] == [x];
    } else {
      JoinSnoc(sep, xs[1..], x);
      assert (xs + [x])[1..] == xs[1..] + [x];
      assert Join(sep, xs + [x]) == xs[0] + sep + (Join(sep, xs[1..]) + sep + x);
    }
  }

  /** The configuration after the words of the lines. */
  function LoadLines(c: Config, lines: seq<Line>): Config {
    if lines == [] then c else Exec(LoadLines(c, lines[..|lines| - 1]), lines[|lines| - 1].words)
  }

  lemma {:induction false} LoadIsLoadLines(c: Config, lines: seq<Line>)
    requires forall l <- lines :: AreWords(l)
    ensures Load(c, Texts(lines)) == LoadLines(c, lines)
  {
    if lines != [] {
      var front, last := lines[..|lines| - 1], lines[|lines| - 1];
      LoadIsLoadLines(c, front);
      assert Texts(lines)[..|lines| - 1] == Texts(front);
      LineReadBack(last);
    }
  }

  /** Reading the text of a program gives what its lines say. */
  lemma ProgramReadBack(lines: seq<Line>)
    requires lines != [] && forall l <- lines :: AreWords(l)
    ensures Interpret(ProgramText(lines)) == LoadLines(EMPTY, lines)
  {
    var texts := Texts(lines) + [""];
    JoinSnoc("\n", Texts(lines), "");
    assert Join("\n", Texts(lines)) + "\n" + "" == ProgramText(lines);
    forall t | t in texts ensures '\n' !in t {
      if t != "" {
        var i :| 0 <= i < |texts| && texts[i] == t;
        assert t == LineText(lines[i]);
        LineHasNoNewline(lines[i]);
      }
    }
    SplitJoin('\n', texts);
    assert texts[..|texts| - 1] == Texts(lines);
    assert Split(' ', "") == [""];
    assert [""][..0] == [];
    assert Words("") == [];
    LoadIsLoadLines(EMPTY, lines);
  }

  lemma {:induction false} LoadConcat(c: Config, a: seq<Line>, b: seq<Line>)
    ensures LoadLines(c, a + b) == LoadLines(LoadLines(c, a), b)
  {
    if b == [] {
      assert a + b == a;
    } else {
      assert (a + b)[..|a + b| - 1] == a + b[..|b| - 1];
      LoadConcat(c, a, b[..|b| - 1]);
    }
  }

  lemma LoadSnoc(c: Config, lines: seq<Line>, l: Line)
    ensures LoadLines(c, lines + [l]) == Exec(LoadLines(c, lines), l.words)
  {
    assert (lines + [l])[..|lines|] == lines;
  }

  // ---- The words of a program

  /** The texts that are copied into the program are words; VPC names can be anything. */
  ghost predicate Printable(anns: seq<Announcement>) {
    forall a <- anns :: IsWord(a.cidr) && IsWord(a.nextHop)
  }

  ghost predicate AllWords(lines: seq<Line>) {
    forall l <- lines :: AreWords(l)
  }

  lemma DecimalIsWord(n: nat)
    ensures IsWord(Decimal(n))
  {
    assert AllDigits(Decimal(n));
  }

  lemma ListNameIsWord(a: Announcement)
    ensures IsWord(ListName(a))
  {
    assert forall c <- Slug(a.vpc) :: c != ' ' && c != '\n';
  }

  lemma WordsTogether(a: seq<Line>, b: seq<Line>)
    requires AllWords(a) && AllWords(b)
    ensures AllWords(a + b)
  {
  }

  lemma RouterLine(n: string)
    requires IsWord(n)
    ensures AreWords(Line(0, ["router", "bgp", n]))
  {
  }

  lemma NeighborLine(peer: string, m: string)
    requires IsWord(peer) && IsWord(m)
    ensures AreWords(Line(1, ["neighbor", peer, "remote-as", m]))
  {
  }

  lemma TimersLine(peer: string)
    requires IsWord(peer)
    ensures AreWords(Line(1, ["neighbor", peer, "timers", "10", "30"]))
  {
  }

  lemma PolicyLine()
    ensures AreWords(Line(1, ["no", "bgp", "ebgp-requires-policy"]))
  {
  }

  lemma CheckLine()
    ensures AreWords(Line(1, ["no", "bgp", "network", "import-check"]))
  {
  }

  lemma FamilyLine()
    ensures AreWords(Line(1, ["address-family", "ipv4", "unicast"]))
  {
  }

  lemma ClosingLines(peer: string)
    requires IsWord(peer)
    ensures AreWords(Line(2, ["neighbor", peer, "route-map", "B3-NH", "out"]))
    ensures AreWords(Line(1, ["exit-address-family"])) && AreWords(Line(0, ["!"]))
  {
  }

  lemma NetworkIsWords(cidr: string)
    requires IsWord(cidr)
    ensures AreWords(Line(2, ["network", cidr]))
  {
  }

  lemma PrefixListIsWords(cidr: string, list: string)
    requires IsWord(cidr) && IsWord(list)
    ensures AreWords(Line(0, ["ip", "prefix-list", list, "seq", "5", "permit", cidr]))
  {
  }

  lemma RouteMapLine(n: string)
    requires IsWord(n)
    ensures AreWords(Line(0, ["route-map", "B3-NH", "permit", n]))
  {
  }

  lemma MatchLine(list: string)
    requires IsWord(list)
    ensures AreWords(Line(1, ["match", "ip", "address", "prefix-list", list]))
  {
  }

  lemma SetLine(hop: string)
    requires IsWord(hop)
    ensures AreWords(Line(1, ["set", "ip", "next-hop", hop]))
  {
  }

  lemma ThreeLines(x: Line, y: Line, z: Line)
    requires AreWords(x) && AreWords(y) && AreWords(z)
    ensures AllWords([x, y, z])
  {
  }

  lemma HeaderIsWords(s: Session)
    requires IsWord(s.peer)
    ensures AllWords(Header(s))
  {
    var h := Header(s);
    DecimalIsWord(s.asn);
    DecimalIsWord(s.remoteAsn);
    RouterLine(Decimal(s.asn));
    NeighborLine(s.peer, Decimal(s.remoteAsn));
    TimersLine(s.peer);
    PolicyLine();
    CheckLine();
    FamilyLine();
    ThreeLines(h[0], h[1], h[2]);
    ThreeLines(h[3], h[4], h[5]);
    WordsTogether([h[0], h[1], h[2]], [h[3], h[4], h[5]]);
    assert h == [h[0], h[1], h[2]] + [h[3], h[4], h[5]];
  }

  lemma {:induction false} BodyIsWords(anns: seq<Announcement>)
    requires Printable(anns)
    ensures AllWords(NetworkLines(anns)) && AllWords(PrefixListLines(anns)) && AllWords(Branches(anns))
  {
    if anns != [] {
      var front, a := anns[..|anns| - 1], anns[|anns| - 1];
      BodyIsWords(front);
      ListNameIsWord(a);
      DecimalIsWord(|anns| * 10);
      assert a in anns;
      NetworkIsWords(a.cidr);
      PrefixListIsWords(a.cidr, ListName(a));
      RouteMapLine(Decimal(|anns| * 10));
      MatchLine(ListName(a));
      SetLine(a.nextHop);
      var branch := Branch(a, |anns|);
      ThreeLines(branch[0], branch[1], branch[2]);
      WordsTogether(NetworkLines(front), [NetworkLine(a)]);
      WordsTogether(PrefixListLines(front), [PrefixListLine(a)]);
      WordsTogether(Branches(front), branch);
    }
  }

  lemma BindingIsWords(anns: seq<Announcement>, s: Session)
    requires IsWord(s.peer)
    ensures AllWords(Binding(anns, s))
  {
    ClosingLines(s.peer);
  }

  lemma ProgramIsWords(anns: seq<Announcement>, s: Session)
    requires Printable(anns) && IsWord(s.peer)
    ensures AllWords(Program(anns, s)) && Program(anns, s) != []
  {
    HeaderIsWords(s);
    BodyIsWords(anns);
    BindingIsWords(anns, s);
    ClosingLines(s.peer);
    Assemble(Header(s), NetworkLines(anns), Binding(anns, s), PrefixListLines(anns), [Line(0, ["!"])], Branches(anns));
  }

  lemma Assemble(a: seq<Line>, b: seq<Line>, c: seq<Line>, d: seq<Line>, e: seq<Line>, f: seq<Line>)
    requires AllWords(a) && AllWords(b) && AllWords(c) && AllWords(d) && AllWords(e) && AllWords(f)
    ensures AllWords(a + b + c + d + e + f)
  {
    WordsTogether(a, b);
    WordsTogether(a + b, c);
    WordsTogether(a + b + c, d);
    WordsTogether(a + b + c + d, e);
    WordsTogether(a + b + c + d + e, f);
  }

  // ---- What the parts of a program do

  lemma LoadThree(c: Config, x: Line, y: Line, z: Line)
    ensures LoadLines(c, [x, y, z]) == Exec(Exec(Exec(c, x.words), y.words), z.words)
  {
    LoadSnoc(c, [], x);
    assert [] + [x] == [x];
    LoadSnoc(c, [x], y);
    assert [x] + [y] == [x, y];
    LoadSnoc(c, [x, y], z);
    assert [x, y] + [z] == [x, y, z];
  }

  /** After the first three lines, and after all six. */
  function Started(asn: int): Config {
    EMPTY.(mode := Router, asn := Some(asn), requiresPolicy := false, importCheck := false)
  }

  function Opened(s: Session): Config {
    Started(s.asn).(mode := Family, neighbors := map[s.peer := s.remoteAsn], timers := map[s.peer := (10, 30)])
  }

  lemma HeaderStarts(n: string)
    ensures Exec(Exec(Exec(EMPTY, ["router", "bgp", n]), ["no", "bgp", "ebgp-requires-policy"]),
                 ["no", "bgp", "network", "import-check"]) == Started(Number(n))
  {
    var c1 := EMPTY.(mode := Router, asn := Some(Number(n)));
    assert Exec(EMPTY, ["router", "bgp", n]) == c1;
    assert Exec(c1, ["no", "bgp", "ebgp-requires-policy"]) == c1.(requiresPolicy := false);
  }

  lemma HeaderEnds(c: Config, peer: string, m: string)
    requires c.mode.Router? && c.neighbors == map[] && c.timers == map[]
    ensures Exec(Exec(Exec(c, ["neighbor", peer, "remote-as", m]), ["neighbor", peer, "timers", "10", "30"]),
                 ["address-family", "ipv4", "unicast"])
            == c.(mode := Family, neighbors := map[peer := Number(m)], timers := map[peer := (10, 30)])
  {
    var c1 := c.(neighbors := map[peer := Number(m)]);
    assert Exec(c, ["neighbor", peer, "remote-as", m]) == c1;
    ExecTimers(c1, peer);
    var c2 := c1.(timers := map[peer := (10, 30)]);
    assert Exec(c2, ["address-family", "ipv4", "unicast"]) == c2.(mode := Family);
  }

  lemma ExecTimers(c: Config, peer: string)
    requires c.mode.Router? && peer in c.neighbors && c.timers == map[]
    ensures Exec(c, ["neighbor", peer, "timers", "10", "30"]) == c.(timers := map[peer := (10, 30)])
  {
    TwoDigits();
  }

  lemma TwoDigits()
    ensures Number("10") == 10 && Number("30") == 30
  {
    var ten, thirty := "10", "30";
    assert ten[..1] == "1" && thirty[..1] == "3";
    assert "1"[..0] == "" && "3"[..0] == "";
    assert Number("1") == 1 && Number("3") == 3;
  }

  lemma HeaderLoads(s: Session)
    ensures LoadLines(EMPTY, Header(s)) == Opened(s)
  {
    var h := Header(s);
    assert h == [h[0], h[1], h[2]] + [h[3], h[4], h[5]];
    LoadConcat(EMPTY, [h[0], h[1], h[2]], [h[3], h[4], h[5]]);
    LoadThree(EMPTY, h[0], h[1], h[2]);
    HeaderStarts(Decimal(s.asn));
    NumberOfDecimal(s.asn);
    LoadThree(Started(s.asn), h[3], h[4], h[5]);
    HeaderEnds(Started(s.asn), s.peer, Decimal(s.remoteAsn));
    NumberOfDecimal(s.remoteAsn);
  }

  function Cidrs(anns: seq<Announcement>): set<string> {
    set a | a in anns :: a.cidr
  }

  lemma ExecNetwork(c: Config, a: Announcement)
    requires c.mode.Family?
    ensures Exec(c, NetworkLine(a).words) == c.(networks := c.networks + {a.cidr})
  {
  }

  lemma {:induction false} NetworksLoad(c: Config, anns: seq<Announcement>)
    requires c.mode.Family? && c.networks == {}
    ensures LoadLines(c, NetworkLines(anns)) == c.(networks := Cidrs(anns))
  {
    if anns != [] {
      var front, a := anns[..|anns| - 1], anns[|anns| - 1];
      assert anns == front + [a];
      NetworksLoad(c, front);
      LoadSnoc(c, NetworkLines(front), NetworkLine(a));
      ExecNetwork(c.(networks := Cidrs(front)), a);
      assert Cidrs(anns) == Cidrs(front) + {a.cidr};
    }
  }

  lemma BindingLoads(c: Config, anns: seq<Announcement>, s: Session)
    requires c.mode.Family? && s.peer in c.neighbors && c.outbound == map[]
    ensures LoadLines(c, Binding(anns, s))
            == c.(mode := Router, outbound := if anns == [] then map[] else map[s.peer := "B3-NH"])
  {
    var bind := Line(2, ["neighbor", s.peer, "route-map", "B3-NH", "out"]);
    var close, bang := Line(1, ["exit-address-family"]), Line(0, ["!"]);
    var c1 := if anns == [] then c else c.(outbound := map[s.peer := "B3-NH"]);
    var opening := if anns == [] then [] else [bind];
    assert Exec(c, bind.words) == c.(outbound := map[s.peer := "B3-NH"]);
    LoadSnoc(c, [], bind);
    assert [] + [bind] == [bind];
    assert LoadLines(c, opening) == c1;
    assert Exec(c1, close.words) == c1.(mode := Router);
    assert Exec(c1.(mode := Router), bang.words) == c1.(mode := Router);
    LoadSnoc(c, opening, close);
    LoadSnoc(c, opening + [close], bang);
    assert Binding(anns, s) == opening + [close] + [bang];
  }

  function ListsOf(anns: seq<Announcement>): map<(string, int), string> {
    if anns == [] then map[]
    else ListsOf(anns[..|anns| - 1])[(ListName(anns[|anns| - 1]), 5) := anns[|anns| - 1].cidr]
  }

  lemma ExecList(c: Config, a: Announcement)
    ensures Exec(c, PrefixListLine(a).words) == c.(mode := Top, lists := c.lists[(ListName(a), 5) := a.cidr])
  {
    NumberOfDecimal(5);
    assert Decimal(5) == "5";
  }

  lemma {:induction false} ListsLoad(c: Config, anns: seq<Announcement>)
    requires c.lists == map[]
    ensures LoadLines(c, PrefixListLines(anns))
            == c.(mode := if anns == [] then c.mode else Top, lists := ListsOf(anns))
  {
    if anns != [] {
      var front, a := anns[..|anns| - 1], anns[|anns| - 1];
      ListsLoad(c, front);
      LoadSnoc(c, PrefixListLines(front), PrefixListLine(a));
      ExecList(LoadLines(c, PrefixListLines(front)), a);
    }
  }

  function EntryOf(a: Announcement): Entry {
    Entry(Some(ListName(a)), Some(a.nextHop))
  }

  /** The branches, in the order in which they are written. */
  function MapsOf(anns: seq<Announcement>): map<(string, int), Entry> {
    if anns == [] then map[]
    else MapsOf(anns[..|anns| - 1])[("B3-NH", |anns| * 10) := EntryOf(anns[|anns| - 1])]
  }

  lemma {:induction false} MapsAre(anns: seq<Announcement>)
    ensures forall name, seqNo :: (name, seqNo) in MapsOf(anns) <==>
              name == "B3-NH" && 10 <= seqNo <= |anns| * 10 && seqNo % 10 == 0
    ensures forall i | 0 <= i < |anns| :: ("B3-NH", (i + 1) * 10) in MapsOf(anns)
              && MapsOf(anns)[("B3-NH", (i + 1) * 10)] == EntryOf(anns[i])
  {
    if anns != [] {
      MapsAre(anns[..|anns| - 1]);
    }
  }

  lemma ExecBranch(c: Config, a: Announcement, i: nat)
    requires ("B3-NH", i * 10) !in c.maps
    ensures Exec(Exec(Exec(c, ["route-map", "B3-NH", "permit", Decimal(i * 10)]),
                      ["match", "ip", "address", "prefix-list", ListName(a)]),
                 ["set", "ip", "next-hop", a.nextHop])
            == c.(mode := RouteMap("B3-NH", i * 10), maps := c.maps[("B3-NH", i * 10) := EntryOf(a)])
  {
    NumberOfDecimal(i * 10);
    var at := ("B3-NH", i * 10);
    var c1 := c.(mode := RouteMap("B3-NH", i * 10), maps := c.maps[at := Entry(None, None)]);
    assert Exec(c, ["route-map", "B3-NH", "permit", Decimal(i * 10)]) == c1;
    var c2 := c1.(maps := c1.maps[at := Entry(Some(ListName(a)), None)]);
    assert Exec(c1, ["match", "ip", "address", "prefix-list", ListName(a)]) == c2;
    assert c2.maps[at := EntryOf(a)] == c.maps[at := EntryOf(a)];
  }

  lemma {:induction false} BranchesLoad(c: Config, anns: seq<Announcement>)
    requires c.maps == map[]
    ensures LoadLines(c, Branches(anns))
            == c.(mode := if anns == [] then c.mode else RouteMap("B3-NH", |anns| * 10), maps := MapsOf(anns))
  {
    if anns != [] {
      var front, a := anns[..|anns| - 1], anns[|anns| - 1];
      BranchesLoad(c, front);
      MapsAre(front);
      var branch := Branch(a, |anns|);
      LoadConcat(c, Branches(front), branch);
      LoadThree(LoadLines(c, Branches(front)), branch[0], branch[1], branch[2]);
      ExecBranch(LoadLines(c, Branches(front)), a, |anns|);
    }
  }

  /** What the router holds once the program is loaded. */
  function Compiled(anns: seq<Announcement>, s: Session): Config {
    Opened(s).(mode := if anns == [] then Router else RouteMap("B3-NH", |anns| * 10), networks := Cidrs(anns),
               outbound := if anns == [] then map[] else map[s.peer := "B3-NH"], lists := ListsOf(anns), maps := MapsOf(anns))
  }

  lemma ProgramLoads(anns: seq<Announcement>, s: Session)
    ensures LoadLines(EMPTY, Program(anns, s)) == Compiled(anns, s)
  {
    var a, b, c := Header(s), Header(s) + NetworkLines(anns), Header(s) + NetworkLines(anns) + Binding(anns, s);
    LoadConcat(EMPTY, a, NetworkLines(anns));
    LoadConcat(EMPTY, b, Binding(anns, s));
    LoadConcat(EMPTY, c, PrefixListLines(anns));
    LoadSnoc(EMPTY, c + PrefixListLines(anns), Line(0, ["!"]));
    LoadConcat(EMPTY, c + PrefixListLines(anns) + [Line(0, ["!"])], Branches(anns));
    HeaderLoads(s);
    NetworksLoad(LoadLines(EMPTY, a), anns);
    BindingLoads(LoadLines(EMPTY, b), anns, s);
    ListsLoad(LoadLines(EMPTY, c), anns);
    BranchesLoad(LoadLines(EMPTY, c + PrefixListLines(anns)), anns);
  }

  // ---- What it advertises

  /** The k-th announcement is the last whose prefix-list has this name, and permits the prefix. */
  ghost predicate Holder(anns: seq<Announcement>, k: int, list: string, cidr: string) {
    && 0 <= k < |anns| && ListName(anns[k]) == list && anns[k].cidr == cidr
    && forall j | k < j < |anns| :: ListName(anns[j]) != list
  }

  /** The prefix-list of the i-th announcement ends up permitting the prefix. */
  ghost predicate Carries(anns: seq<Announcement>, i: int, cidr: string) {
    0 <= i < |anns| && exists k :: Holder(anns, k, ListName(anns[i]), cidr)
  }

  ghost predicate FirstCarrier(anns: seq<Announcement>, i: int, cidr: string) {
    Carries(anns, i, cidr) && forall j | 0 <= j < i :: !Carries(anns, j, cidr)
  }

  lemma {:induction false} ListsAre(anns: seq<Announcement>, list: string, seqNo: int, cidr: string)
    ensures (list, seqNo) in ListsOf(anns) && ListsOf(anns)[(list, seqNo)] == cidr
            <==> seqNo == 5 && exists k :: Holder(anns, k, list, cidr)
  {
    if anns != [] {
      var front, n := anns[..|anns| - 1], |anns| - 1;
      ListsAre(front, list, seqNo, cidr);
      if ListName(anns[n]) == list {
        assert anns[n].cidr == cidr ==> Holder(anns, n, list, cidr);
        assert forall k :: Holder(anns, k, list, cidr) ==> k == n;
      } else {
        assert forall k :: Holder(anns, k, list, cidr) <==> Holder(front, k, list, cidr);
      }
    }
  }

  lemma PermitsIffHeld(anns: seq<Announcement>, s: Session, list: string, cidr: string)
    ensures Permits(Compiled(anns, s), list, cidr) <==> exists k :: Holder(anns, k, list, cidr)
  {
    ListsAre(anns, list, 5, cidr);
    if Permits(Compiled(anns, s), list, cidr) {
      var seqNo :| (list, seqNo) in ListsOf(anns) && ListsOf(anns)[(list, seqNo)] == cidr;
      ListsAre(anns, list, seqNo, cidr);
    }
  }

  lemma MatchesIffCarries(anns: seq<Announcement>, s: Session, i: nat, cidr: string)
    requires i < |anns|
    ensures MatchesAt(Compiled(anns, s), "B3-NH", (i + 1) * 10, cidr) <==> Carries(anns, i, cidr)
    ensures HopAt(Compiled(anns, s), "B3-NH", (i + 1) * 10) == anns[i].nextHop
  {
    MapsAre(anns);
    PermitsIffHeld(anns, s, ListName(anns[i]), cidr);
  }

  lemma EveryMatchIsABranch(anns: seq<Announcement>, s: Session, seqNo: int, cidr: string) returns (i: nat)
    requires MatchesAt(Compiled(anns, s), "B3-NH", seqNo, cidr)
    ensures i < |anns| && seqNo == (i + 1) * 10 && Carries(anns, i, cidr)
  {
    MapsAre(anns);
    i := seqNo / 10 - 1;
    MatchesIffCarries(anns, s, i, cidr);
  }

  lemma FirstMatchIffFirstCarrier(anns: seq<Announcement>, s: Session, i: nat, cidr: string)
    requires i < |anns|
    ensures FirstMatch(Compiled(anns, s), "B3-NH", (i + 1) * 10, cidr) <==> FirstCarrier(anns, i, cidr)
  {
    MatchesIffCarries(anns, s, i, cidr);
    if FirstCarrier(anns, i, cidr) {
      forall earlier | earlier < (i + 1) * 10
        ensures !MatchesAt(Compiled(anns, s), "B3-NH", earlier, cidr)
      {
        if MatchesAt(Compiled(anns, s), "B3-NH", earlier, cidr) {
          var j := EveryMatchIsABranch(anns, s, earlier, cidr);
        }
      }
    }
    if FirstMatch(Compiled(anns, s), "B3-NH", (i + 1) * 10, cidr) {
      forall j | 0 <= j < i
        ensures !Carries(anns, j, cidr)
      {
        MatchesIffCarries(anns, s, j, cidr);
      }
    }
  }

  /** For every list of announcements: a prefix is advertised with the next hop of the first branch
      whose prefix-list, as last written, permits it. */
  lemma MeaningOfProgram(anns: seq<Announcement>, s: Session, cidr: string, hop: string)
    ensures Advertises(Compiled(anns, s), s, cidr, hop)
            <==> exists i :: FirstCarrier(anns, i, cidr) && anns[i].nextHop == hop
  {
    var c := Compiled(anns, s);
    if Advertises(c, s, cidr, hop) {
      assert anns != [];
      var seqNo :| FirstMatch(c, "B3-NH", seqNo, cidr) && HopAt(c, "B3-NH", seqNo) == hop;
      var i := EveryMatchIsABranch(anns, s, seqNo, cidr);
      FirstMatchIffFirstCarrier(anns, s, i, cidr);
      MatchesIffCarries(anns, s, i, cidr);
    }
    if i :| FirstCarrier(anns, i, cidr) && anns[i].nextHop == hop {
      FirstMatchIffFirstCarrier(anns, s, i, cidr);
      MatchesIffCarries(anns, s, i, cidr);
      var k :| Holder(anns, k, ListName(anns[i]), cidr);
      assert anns[k] in anns;
    }
  }

  // ---- When that is what was announced

  ghost predicate Announced(anns: seq<Announcement>, cidr: string, hop: string) {
    exists a :: a in anns && a.cidr == cidr && a.nextHop == hop
  }

  ghost predicate NoRepeats(anns: seq<Announcement>) {
    forall a <- anns :: multiset(anns)[a] == 1
  }

  ghost predicate CidrsDiffer(anns: seq<Announcement>) {
    NoRepeats(anns) && forall a, b | a in anns && b in anns && a.cidr == b.cidr :: a == b
  }

  ghost predicate SlugsDiffer(anns: seq<Announcement>) {
    forall a, b | a in anns && b in anns && Slug(a.vpc) == Slug(b.vpc) :: a == b
  }

  lemma SameIndex(anns: seq<Announcement>, i: nat, j: nat)
    requires NoRepeats(anns) && i < |anns| && j < |anns| && anns[i] == anns[j]
    ensures i == j
  {
    if i < j {
      Twice(anns, i, j);
    } else if j < i {
      Twice(anns, j, i);
    }
  }

  lemma Twice(anns: seq<Announcement>, i: nat, j: nat)
    requires i < j < |anns| && anns[i] == anns[j]
    ensures anns[i] in anns && multiset(anns)[anns[i]] >= 2
  {
    assert anns == anns[..i] + [anns[i]] + anns[i + 1..j] + [anns[j]] + anns[j + 1..];
  }

  lemma SameList(a: Announcement, b: Announcement)
    ensures ListName(a) == ListName(b) <==> Slug(a.vpc) == Slug(b.vpc)
  {
    if ListName(a) == ListName(b) {
      CancelPrefix("PL-", Slug(a.vpc), Slug(b.vpc));
    }
  }

  lemma CarriesItself(anns: seq<Announcement>, i: nat, cidr: string)
    requires NoRepeats(anns) && SlugsDiffer(anns) && i < |anns|
    ensures Carries(anns, i, cidr) <==> anns[i].cidr == cidr
  {
    forall k | 0 <= k < |anns| && ListName(anns[k]) == ListName(anns[i])
      ensures k == i
    {
      SameList(anns[k], anns[i]);
      assert anns[k] in anns && anns[i] in anns;
      SameIndex(anns, k, i);
    }
    assert anns[i].cidr == cidr ==> Holder(anns, i, ListName(anns[i]), cidr);
  }

  lemma ExactIfSlugsDiffer(anns: seq<Announcement>, s: Session, cidr: string, hop: string)
    requires CidrsDiffer(anns) && SlugsDiffer(anns)
    ensures Advertises(Compiled(anns, s), s, cidr, hop) <==> Announced(anns, cidr, hop)
  {
    MeaningOfProgram(anns, s, cidr, hop);
    if i :| FirstCarrier(anns, i, cidr) && anns[i].nextHop == hop {
      CarriesItself(anns, i, cidr);
      assert anns[i] in anns;
    }
    if Announced(anns, cidr, hop) {
      var a :| a in anns && a.cidr == cidr && a.nextHop == hop;
      var i :| 0 <= i < |anns| && anns[i] == a;
      CarriesItself(anns, i, cidr);
      forall j | 0 <= j < i
        ensures !Carries(anns, j, cidr)
      {
        CarriesItself(anns, j, cidr);
        if anns[j].cidr == cidr {
          assert anns[j] in anns && anns[i] in anns;
          SameIndex(anns, i, j);
        }
      }
      assert FirstCarrier(anns, i, cidr);
    }
  }

  /** The failing family: of two prefixes whose VPCs share a prefix-list, such as two subnets of one
      VPC, the one that is written first is not advertised at all. */
  lemma ShadowedPrefixIsLost(anns: seq<Announcement>, s: Session, i: nat, j: nat, hop: string)
    requires CidrsDiffer(anns) && i < j < |anns| && Slug(anns[i].vpc) == Slug(anns[j].vpc)
    ensures !Advertises(Compiled(anns, s), s, anns[i].cidr, hop)
  {
    MeaningOfProgram(anns, s, anns[i].cidr, hop);
    SameList(anns[i], anns[j]);
    forall b, k | 0 <= b < |anns| && Holder(anns, k, ListName(anns[b]), anns[i].cidr)
      ensures false
    {
      assert anns[k] in anns && anns[i] in anns;
      SameIndex(anns, i, k);
    }
  }

  lemma ExactIffSlugsDiffer(anns: seq<Announcement>, s: Session)
    requires CidrsDiffer(anns)
    ensures (forall cidr, hop :: Advertises(Compiled(anns, s), s, cidr, hop) <==> Announced(anns, cidr, hop))
            <==> SlugsDiffer(anns)
  {
    if SlugsDiffer(anns) {
      forall cidr, hop
        ensures Advertises(Compiled(anns, s), s, cidr, hop) <==> Announced(anns, cidr, hop)
      {
        ExactIfSlugsDiffer(anns, s, cidr, hop);
      }
    } else {
      var a, b :| a in anns && b in anns && Slug(a.vpc) == Slug(b.vpc) && a != b;
      var i, j :| 0 <= i < |anns| && 0 <= j < |anns| && anns[i] == a && anns[j] == b;
      var first := if i < j then i else j;
      ShadowedPrefixIsLost(anns, s, first, if i < j then j else i, anns[first].nextHop);
      assert anns[first] in anns;
      assert Announced(anns, anns[first].cidr, anns[first].nextHop);
    }
  }

  // ---- In the order of the program

  /** `key=lambda a: (a.vpc, a.cidr)` */
  predicate AnnouncementLe(a: Announcement, b: Announcement) {
    if a.vpc == b.vpc then StringLe(a.cidr, b.cidr) else StringLe(a.vpc, b.vpc)
  }

  function Rendered(anns: seq<Announcement>, s: Session): string {
    ProgramText(Program(Sort(anns, AnnouncementLe), s))
  }

  /** Compilation preserves meaning: reading the rendered text advertises exactly what was announced,
      each prefix with its own next hop, if and only if no two announcements share a slug. */
  lemma CompilationPreservesMeaning(anns: seq<Announcement>, s: Session)
    requires Printable(anns) && IsWord(s.peer) && CidrsDiffer(anns)
    ensures (forall cidr, hop :: Advertises(Interpret(Rendered(anns, s)), s, cidr, hop) <==> Announced(anns, cidr, hop))
            <==> SlugsDiffer(anns)
  {
    var ordered := Sort(anns, AnnouncementLe);
    SameElements(anns, ordered);
    ProgramIsWords(ordered, s);
    ProgramReadBack(Program(ordered, s));
    ProgramLoads(ordered, s);
    ExactIffSlugsDiffer(ordered, s);
    forall cidr, hop
      ensures Announced(ordered, cidr, hop) <==> Announced(anns, cidr, hop)
    {
    }
  }

  /** Whatever is announced, the session of the rendered text comes up. */
  lemma SessionComesUp(anns: seq<Announcement>, s: Session)
    requires Printable(anns) && IsWord(s.peer)
    ensures Established(Interpret(Rendered(anns, s)), s)
  {
    var ordered := Sort(anns, AnnouncementLe);
    SameElements(anns, ordered);
    ProgramIsWords(ordered, s);
    ProgramReadBack(Program(ordered, s));
    ProgramLoads(ordered, s);
  }

  /** In the text: of two prefixes of one VPC the one that sorts first is not advertised, nor is, of two
      VPCs with one slug, that of the VPC that sorts first. */
  lemma FirstOfTwoIsLost(anns: seq<Announcement>, s: Session, a: Announcement, b: Announcement, hop: string)
    requires Printable(anns) && IsWord(s.peer) && CidrsDiffer(anns) && a in anns && b in anns && a != b
    requires Slug(a.vpc) == Slug(b.vpc)
    requires if a.vpc == b.vpc then StringLe(a.cidr, b.cidr) else StringLe(a.vpc, b.vpc)
    ensures !Advertises(Interpret(Rendered(anns, s)), s, a.cidr, hop)
  {
    var ordered := Sort(anns, AnnouncementLe);
    SameElements(anns, ordered);
    ProgramIsWords(ordered, s);
    ProgramReadBack(Program(ordered, s));
    ProgramLoads(ordered, s);
    var i, j :| 0 <= i < |ordered| && 0 <= j < |ordered| && ordered[i] == a && ordered[j] == b;
    AnnouncementOrder();
    SortSorted(anns, AnnouncementLe);
    if j < i {
      NotBackwards(b, a);
    }
    ShadowedPrefixIsLost(ordered, s, i, j, hop);
  }

  lemma NotBackwards(a: Announcement, b: Announcement)
    requires AnnouncementLe(a, b) && AnnouncementLe(b, a)
    ensures a.vpc == b.vpc && a.cidr == b.cidr
  {
    StringLeTotal(a.vpc, b.vpc);
    StringLeTotal(a.cidr, b.cidr);
  }

  lemma AnnouncementOrder()
    ensures Preorder(AnnouncementLe)
  {
    forall a, b
      ensures AnnouncementLe(a, b) || AnnouncementLe(b, a)
    {
      StringLeTotal(a.vpc, b.vpc);
      StringLeTotal(a.cidr, b.cidr);
    }
    forall a, b, c | AnnouncementLe(a, b) && AnnouncementLe(b, c)
      ensures AnnouncementLe(a, c)
    {
      AnnouncementLeTransitive(a, b, c);
    }
  }

  lemma AnnouncementLeTransitive(a: Announcement, b: Announcement, c: Announcement)
    requires AnnouncementLe(a, b) && AnnouncementLe(b, c)
    ensures AnnouncementLe(a, c)
  {
    if a.vpc == b.vpc == c.vpc {
      StringLeTransitive(a.cidr, b.cidr, c.cidr);
    } else if a.vpc != b.vpc && b.vpc != c.vpc {
      StringLeTransitive(a.vpc, b.vpc, c.vpc);
      if a.vpc == c.vpc {
        StringLeTotal(a.vpc, b.vpc);
      }
    }
  }

  /** `render_raw_config`, which appends to the lines in three loops. */
  method RenderRawConfig(anns: seq<Announcement>, s: Session) returns (text: string)
    ensures text == Rendered(anns, s)
  {
    var ordered := Sort(anns, AnnouncementLe);
    var lines := AppendNetworks(Header(s), ordered);
    lines := AppendPrefixLists(lines + Binding(ordered, s), ordered);
    lines := AppendBranches(lines + [Line(0, ["!"])], ordered);
    return ProgramText(lines);
  }

  method AppendNetworks(lines: seq<Line>, anns: seq<Announcement>) returns (longer: seq<Line>)
    ensures longer == lines + NetworkLines(anns)
  {
    longer := lines;
    for i := 0 to |anns|
      invariant longer == lines + NetworkLines(anns[..i])
    {
      assert anns[..i + 1][..i] == anns[..i];
      longer := longer + [NetworkLine(anns[i])];
    }
    assert anns[..|anns|] == anns;
  }

  method AppendPrefixLists(lines: seq<Line>, anns: seq<Announcement>) returns (longer: seq<Line>)
    ensures longer == lines + PrefixListLines(anns)
  {
    longer := lines;
    for i := 0 to |anns|
      invariant longer == lines + PrefixListLines(anns[..i])
    {
      assert anns[..i + 1][..i] == anns[..i];
      longer := longer + [PrefixListLine(anns[i])];
    }
    assert anns[..|anns|] == anns;
  }

  method AppendBranches(lines: seq<Line>, anns: seq<Announcement>) returns (longer: seq<Line>)
    ensures longer == lines + Branches(anns)
  {
    longer := lines;
    for i := 0 to |anns|
      invariant longer == lines + Branches(anns[..i])
    {
      assert anns[..i + 1][..i] == anns[..i];
      longer := longer + Branch(anns[i], i + 1);
    }
    assert anns[..|anns|] == anns;
  }
}
