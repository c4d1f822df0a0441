/**
  The access control list of the control-plane transit subnet (tenant_transit.py): one baseline
  deny, and allows that punch through it. The rules are text; the first part of this module gives
  that text its meaning, the second part the two functions that read it back, and the third part
  says what one call makes of any list. Runs of calls are in module TransitRuns.
 */
module TransitAcl {
  import opened Options
  import opened Lists
  import opened Ipv4
  import opened Text
  import opened TransitRanges

  const ALLOW_PRIORITY := 3200
  const DENY_PRIORITY := 3000

  datatype Acl = Acl(action: string, direction: string, priority: int, expr: string)

  datatype Proto = Tcp | Udp

  // ---- The text of the rules, and its meaning

  /** A match expression of the two forms that the code writes. */
  datatype Match =
    | Flow(src: Addr, dst: Addr, proto: Proto, port: nat)
    | SourceIn(ranges: seq<Prefix>)

  function ProtoName(p: Proto): string {
    if p.Tcp? then "tcp" else "udp"
  }

  const SOURCE := "ip4.src == "
  const DESTINATION := "&& ip4.dst == "

  function PortPart(proto: Proto, port: nat): string {
    "&& " + ProtoName(proto) + ".dst == " + Decimal(port)
  }

  function FlowTail(dst: Addr, proto: Proto, port: nat): string {
    DESTINATION + (Dotted(dst) + " " + PortPart(proto, port))
  }

  /** What follows the source operator of a match. */
  function AfterSource(m: Match): string {
    match m
    case Flow(src, dst, proto, port) => Dotted(src) + " " + FlowTail(dst, proto, port)
    case SourceIn(ranges) =>
      if |ranges| == 1 then Slashed(ranges[0])
      else "{" + Join(", ", AllSlashed(ranges)) + "}"
  }

  function Print(m: Match): string {
    SOURCE + AfterSource(m)
  }

  function AllSlashed(ps: seq<Prefix>): (r: seq<string>)
    ensures |r| == |ps| && forall i | 0 <= i < |ps| :: r[i] == Slashed(ps[i])
  {
    seq(|ps|, i requires 0 <= i < |ps| => Slashed(ps[i]))
  }

  datatype Packet = Packet(src: Addr, dst: Addr, proto: Proto, port: nat)

  ghost predicate Eval(m: Match, p: Packet) {
    match m
    case Flow(src, dst, proto, port) => p == Packet(src, dst, proto, port)
    case SourceIn(ranges) => Covers(ranges, p.src)
  }

  // ---- How OVN reads the text of a match

  /** The words of a text, cut at every "&&". */
  function TermsFrom(term: seq<string>, words: seq<string>): seq<seq<string>>
    decreases |words|
  {
    if words == [] then [term]
    else if words[0] == "&&" then [term] + TermsFrom([], words[1..])
    else TermsFrom(term + [words[0]], words[1..])
  }

  function Trim(s: string): string {
    if s != "" && s[0] == ' ' then s[1..] else s
  }

  /** The elements of a set in braces, or a single value. */
  function Items(value: string): seq<string> {
    if |value| >= 2 && value[0] == '{' && value[|value| - 1] == '}' then Each(Split(',', value[1..|value| - 1]), Trim)
    else [value]
  }

  predicate InSet(value: string, a: Addr) {
    exists item <- Items(value) :: Denotes(item, a)
  }

  /** One comparison: the field, "==", and a value or a set of values. */
  predicate Holds(term: seq<string>, p: Packet) {
    && |term| >= 3 && term[1] == "=="
    && var value := Join(" ", term[2..]);
       if term[0] == "ip4.src" then InSet(value, p.src)
       else if term[0] == "ip4.dst" then InSet(value, p.dst)
       else if term[0] == "tcp.dst" then p.proto == Tcp && AllDigits(value) && Number(value) == p.port
       else if term[0] == "udp.dst" then p.proto == Udp && AllDigits(value) && Number(value) == p.port
       else false
  }

  /** Whether the text of a rule matches a packet: all its comparisons hold. */
  predicate Matches(text: string, p: Packet) {
    forall term <- TermsFrom([], Split(' ', text)) :: Holds(term, p)
  }

  lemma PortUnique(proto: Proto, port: nat, proto': Proto, port': nat)
    requires PortPart(proto, port) == PortPart(proto', port')
    ensures proto == proto' && port == port'
  {
    assert PortPart(proto, port)[3] == if proto.Tcp? then 't' else 'u';
    assert PortPart(proto', port')[3] == if proto'.Tcp? then 't' else 'u';
    CancelPrefix("&& " + ProtoName(proto) + ".dst == ", Decimal(port), Decimal(port'));
    NumberOfDecimal(port);
    NumberOfDecimal(port');
  }

  lemma TailUnique(dst: Addr, proto: Proto, port: nat, dst': Addr, proto': Proto, port': nat)
    requires FlowTail(dst, proto, port) == FlowTail(dst', proto', port')
    ensures dst == dst' && proto == proto' && port == port'
  {
    var part, part' := PortPart(proto, port), PortPart(proto', port');
    CancelPrefix(DESTINATION, Dotted(dst) + " " + part, Dotted(dst') + " " + part');
    AddressThenRest(dst, part, dst', part');
    PortUnique(proto, port, proto', port');
  }

  lemma AddressThenRest(a: Addr, x: string, b: Addr, y: string)
    requires Dotted(a) + " " + x == Dotted(b) + " " + y
    ensures a == b && x == y
  {
    DottedChars(a);
    DottedChars(b);
    CutUnique(Dotted(a), x, Dotted(b), y, ' ');
    DottedUnique(a, b);
  }

  lemma FlowUnique(m: Match, m': Match)
    requires m.Flow? && m'.Flow? && AfterSource(m) == AfterSource(m')
    ensures m == m'
  {
    AddressThenRest(m.src, FlowTail(m.dst, m.proto, m.port), m'.src, FlowTail(m'.dst, m'.proto, m'.port));
    TailUnique(m.dst, m.proto, m.port, m'.dst, m'.proto, m'.port);
  }

  /** A deny on one range is digits and no space; on several, it starts with a brace. */
  lemma DenyChars(ranges: seq<Prefix>)
    requires ranges != []
    ensures var rest := AfterSource(SourceIn(ranges));
            rest != "" && if |ranges| == 1 then IsDigit(rest[0]) && ' ' !in rest else rest[0] == '{'
  {
    SlashedChars(ranges[0]);
  }

  lemma SlashedListUnique(rs: seq<Prefix>, rs': seq<Prefix>)
    requires rs != [] && rs' != [] && Join(", ", AllSlashed(rs)) == Join(", ", AllSlashed(rs'))
    ensures rs == rs'
  {
    var xs, ys := AllSlashed(rs), AllSlashed(rs');
    forall i | 0 <= i < |rs| ensures ',' !in xs[i] { SlashedChars(rs[i]); }
    forall i | 0 <= i < |rs'| ensures ',' !in ys[i] { SlashedChars(rs'[i]); }
    JoinUnique(", ", xs, ys);
    forall i | 0 <= i < |rs|
      ensures rs[i] == rs'[i]
    {
      assert xs[i] == ys[i];
      SlashedUnique(rs[i], rs'[i]);
    }
  }

  lemma InBraces(x: string, y: string)
    requires "{" + x + "}" == "{" + y + "}"
    ensures x == y
  {
    assert ("{" + x + "}")[1..|x| + 1] == x && ("{" + y + "}")[1..|y| + 1] == y;
  }

  lemma DenyUnique(rs: seq<Prefix>, rs': seq<Prefix>)
    requires rs != [] && rs' != [] && AfterSource(SourceIn(rs)) == AfterSource(SourceIn(rs'))
    ensures rs == rs'
  {
    DenyChars(rs);
    DenyChars(rs');
    if |rs| == 1 {
      SlashedUnique(rs[0], rs'[0]);
    } else {
      InBraces(Join(", ", AllSlashed(rs)), Join(", ", AllSlashed(rs')));
      SlashedListUnique(rs, rs');
    }
  }

  lemma FlowIsNoDeny(m: Match, ranges: seq<Prefix>)
    requires m.Flow? && ranges != []
    ensures AfterSource(m) != AfterSource(SourceIn(ranges))
  {
    DottedChars(m.src);
    DenyChars(ranges);
    assert AfterSource(m)[0] == Dotted(m.src)[0];
    assert AfterSource(m)[|Dotted(m.src)|] == ' ';
  }

  predicate WellFormed(m: Match) {
    m.SourceIn? ==> m.ranges != []
  }

  /** The text of a match determines it. */
  lemma PrintUnique(m: Match, m': Match)
    requires WellFormed(m) && WellFormed(m') && Print(m) == Print(m')
    ensures m == m'
  {
    CancelPrefix(SOURCE, AfterSource(m), AfterSource(m'));
    if m.Flow? && m'.Flow? {
      FlowUnique(m, m');
    } else if m.Flow? {
      FlowIsNoDeny(m, m'.ranges);
    } else if m'.Flow? {
      FlowIsNoDeny(m', m.ranges);
    } else {
      DenyUnique(m.ranges, m'.ranges);
    }
  }

  // ---- What the printed text means

  lemma {:induction false} TermGrows(term: seq<string>, words: seq<string>, rest: seq<string>)
    requires forall w <- words :: w != "&&"
    ensures TermsFrom(term, words + rest) == TermsFrom(term + words, rest)
    decreases |words|
  {
    if words == [] {
      assert term + words == term && words + rest == rest;
    } else {
      assert words[0] in words && forall w <- words[1..] :: w in words;
      assert (words + rest)[0] == words[0] && (words + rest)[1..] == words[1..] + rest;
      TermGrows(term + [words[0]], words[1..], rest);
      assert term + [words[0]] + words[1..] == term + words;
    }
  }

  lemma OneTerm(words: seq<string>)
    requires forall w <- words :: w != "&&"
    ensures TermsFrom([], words) == [words]
  {
    TermGrows([], words, []);
    assert words + [] == words && [] + words == words;
  }

  /** A comparison, and whatever follows it after "&&". */
  lemma TermThen(term: seq<string>, rest: seq<string>)
    requires forall w <- term :: w != "&&"
    ensures TermsFrom([], term + ["&&"] + rest) == [term] + TermsFrom([], rest)
  {
    assert term + ["&&"] + rest == term + (["&&"] + rest);
    TermGrows([], term, ["&&"] + rest);
    assert [] + term == term && (["&&"] + rest)[1..] == rest;
  }

  lemma SplitPort(field: string, n: string)
    requires ' ' !in field && ' ' !in n
    ensures Split(' ', "&& " + field + " == " + n) == ["&&", field, "==", n]
  {
    assert "&& " + field + " == " + n == "&&" + " " + (field + " " + ("==" + " " + n));
    SplitFirst(' ', "&&", field + " " + ("==" + " " + n));
    SplitFirst(' ', field, "==" + " " + n);
    SplitFirst(' ', "==", n);
    SplitNothing(' ', n);
  }

  lemma SplitDestination(b: string, rest: string)
    requires ' ' !in b
    ensures Split(' ', DESTINATION + (b + " " + rest)) == ["&&", "ip4.dst", "==", b] + Split(' ', rest)
  {
    assert DESTINATION + (b + " " + rest) == "&&" + " " + ("ip4.dst" + " " + ("==" + " " + (b + " " + rest)));
    SplitFirst(' ', "&&", "ip4.dst" + " " + ("==" + " " + (b + " " + rest)));
    SplitFirst(' ', "ip4.dst", "==" + " " + (b + " " + rest));
    SplitFirst(' ', "==", b + " " + rest);
    SplitFirst(' ', b, rest);
  }

  lemma SplitSource(rest: string)
    ensures Split(' ', SOURCE + rest) == ["ip4.src", "=="] + Split(' ', rest)
  {
    assert SOURCE + rest == "ip4.src" + " " + ("==" + " " + rest);
    SplitFirst(' ', "ip4.src", "==" + " " + rest);
    SplitFirst(' ', "==", rest);
  }

  function FieldName(proto: Proto): string {
    ProtoName(proto) + ".dst"
  }

  lemma FlowSplits(m: Match)
    requires m.Flow?
    ensures Split(' ', Print(m))
            == ["ip4.src", "==", Dotted(m.src), "&&"] + (["ip4.dst", "==", Dotted(m.dst), "&&"] + [FieldName(m.proto), "==", Decimal(m.port)])
  {
    var a, b, n, f := Dotted(m.src), Dotted(m.dst), Decimal(m.port), FieldName(m.proto);
    DottedChars(m.src);
    DottedChars(m.dst);
    assert AllDigits(n);
    assert ' ' !in f;
    assert PortPart(m.proto, m.port) == "&& " + f + " == " + n;
    SplitPort(f, n);
    SplitDestination(b, PortPart(m.proto, m.port));
    SplitFirst(' ', a, FlowTail(m.dst, m.proto, m.port));
    SplitSource(AfterSource(m));
  }

  lemma NotAnd(s: string)
    requires s != "" && s[0] != '&'
    ensures s != "&&"
  {
  }

  lemma SingleValue(s: string, a: Addr)
    requires s != "" && s[0] != '{'
    ensures InSet(s, a) <==> Denotes(s, a)
  {
    assert Items(s) == [s];
  }

  lemma AddressHolds(field: string, b: Addr, p: Packet)
    requires field == "ip4.src" || field == "ip4.dst"
    ensures Holds([field, "==", Dotted(b)], p) <==> b == if field == "ip4.src" then p.src else p.dst
  {
    var term := [field, "==", Dotted(b)];
    assert term[2..] == [Dotted(b)];
    DottedChars(b);
    SingleValue(Dotted(b), p.src);
    SingleValue(Dotted(b), p.dst);
    AddressDenotes(b, p.src);
    AddressDenotes(b, p.dst);
  }

  lemma PortHolds(proto: Proto, port: nat, p: Packet)
    ensures Holds([FieldName(proto), "==", Decimal(port)], p) <==> p.proto == proto && p.port == port
  {
    var term := [FieldName(proto), "==", Decimal(port)];
    assert term[2..] == [Decimal(port)];
    NumberOfDecimal(port);
    assert AllDigits(Decimal(port));
    assert FieldName(Tcp) == "tcp.dst" && FieldName(Udp) == "udp.dst";
  }

  lemma FlowMeans(m: Match, p: Packet)
    requires m.Flow?
    ensures Matches(Print(m), p) <==> Eval(m, p)
  {
    var src, dst, port := ["ip4.src", "==", Dotted(m.src)], ["ip4.dst", "==", Dotted(m.dst)], [FieldName(m.proto), "==", Decimal(m.port)];
    FlowSplits(m);
    DottedChars(m.src);
    DottedChars(m.dst);
    NotAnd(Dotted(m.src));
    NotAnd(Dotted(m.dst));
    assert Decimal(m.port)[0] in Decimal(m.port);
    NotAnd(Decimal(m.port));
    NotAnd(FieldName(m.proto));
    FlowTerms(Dotted(m.src), Dotted(m.dst), FieldName(m.proto), Decimal(m.port));
    AddressHolds("ip4.src", m.src, p);
    AddressHolds("ip4.dst", m.dst, p);
    PortHolds(m.proto, m.port, p);
    ThreeHold(src, dst, port, p);
  }

  lemma FlowTerms(a: string, b: string, f: string, n: string)
    requires a != "&&" && b != "&&" && f != "&&" && n != "&&"
    ensures TermsFrom([], ["ip4.src", "==", a, "&&"] + (["ip4.dst", "==", b, "&&"] + [f, "==", n]))
            == [["ip4.src", "==", a], ["ip4.dst", "==", b], [f, "==", n]]
  {
    var src, dst, port := ["ip4.src", "==", a], ["ip4.dst", "==", b], [f, "==", n];
    TermThen(src, ["ip4.dst", "==", b, "&&"] + port);
    assert src + ["&&"] == ["ip4.src", "==", a, "&&"];
    TermThen(dst, port);
    assert dst + ["&&"] == ["ip4.dst", "==", b, "&&"];
    OneTerm(port);
  }

  lemma ThreeHold(x: seq<string>, y: seq<string>, z: seq<string>, p: Packet)
    ensures (forall term <- [x, y, z] :: Holds(term, p)) <==> Holds(x, p) && Holds(y, p) && Holds(z, p)
  {
    var terms := [x, y, z];
    assert terms[0] == x && terms[1] == y && terms[2] == z;
    assert x in terms && y in terms && z in terms;
  }

  function Indented(xs: seq<string>): (r: seq<string>)
    ensures |r| == |xs| && forall i | 0 <= i < |xs| :: r[i] == " " + xs[i]
  {
    if xs == [] then [] else [" " + xs[0]] + Indented(xs[1..])
  }

  /** What stands between the commas of a list that is printed with ", " between its elements. */
  function Spaced(xs: seq<string>): seq<string> {
    if xs == [] then [] else [xs[0]] + Indented(xs[1..])
  }

  lemma {:induction false} JoinIndented(xs: seq<string>)
    requires xs != []
    ensures Join(",", Indented(xs)) == " " + Join(", ", xs)
  {
    if |xs| > 1 {
      var x, rest := xs[0], xs[1..];
      JoinIndented(rest);
      JoinCons(",", " " + x, Indented(rest));
      JoinCons(", ", x, rest);
      assert [x] + rest == xs;
      Commas(x, Join(", ", rest));
    }
  }

  lemma Commas(x: string, y: string)
    ensures " " + x + "," + (" " + y) == " " + (x + ", " + y)
  {
  }

  lemma SpacedStep(x: string, rest: seq<string>, indented: seq<string>)
    requires rest != [] && indented != [] && Join(",", indented) == " " + Join(", ", rest)
    ensures Join(",", [x] + indented) == Join(", ", [x] + rest)
  {
    JoinCons(",", x, indented);
    JoinCons(", ", x, rest);
    CommaSpace(x, Join(", ", rest));
  }

  lemma CommaSpace(x: string, y: string)
    ensures x + "," + (" " + y) == x + ", " + y
  {
  }

  lemma JoinSpaced(xs: seq<string>)
    requires xs != []
    ensures Join(", ", xs) == Join(",", Spaced(xs))
  {
    if |xs| > 1 {
      JoinIndented(xs[1..]);
      SpacedStep(xs[0], xs[1..], Indented(xs[1..]));
      assert xs == [xs[0]] + xs[1..];
    } else {
      assert Spaced(xs) == [xs[0]];
    }
  }

  lemma ListItems(xs: seq<string>)
    requires xs != [] && forall x <- xs :: x != "" && x[0] != ' ' && ',' !in x
    ensures Items("{" + Join(", ", xs) + "}") == xs
  {
    var inner := Join(", ", xs);
    var value := "{" + inner + "}";
    assert value[1..|value| - 1] == inner && value[|value| - 1] == '}';
    JoinSpaced(xs);
    SpacedLacks(xs);
    SplitJoin(',', Spaced(xs));
    TrimSpaced(xs);
  }

  lemma SpacedLacks(xs: seq<string>)
    requires xs != [] && forall x <- xs :: ',' !in x
    ensures Spaced(xs) != [] && NoneHas(Spaced(xs), ',')
  {
    forall i | 0 <= i < |xs|
      ensures ',' !in Spaced(xs)[i]
    {
      assert xs[i] in xs;
    }
  }

  lemma TrimSpaced(xs: seq<string>)
    requires xs != [] && forall x <- xs :: x != "" && x[0] != ' '
    ensures Each(Spaced(xs), Trim) == xs
  {
    forall i | 0 <= i < |xs|
      ensures Trim(Spaced(xs)[i]) == xs[i]
    {
      assert xs[i] in xs;
    }
  }

  lemma DenyInSet(ranges: seq<Prefix>, a: Addr)
    requires ranges != []
    ensures InSet(AfterSource(SourceIn(ranges)), a) <==> Covers(ranges, a)
  {
    var value, xs := AfterSource(SourceIn(ranges)), AllSlashed(ranges);
    forall i | 0 <= i < |ranges|
      ensures xs[i] != "" && xs[i][0] != ' ' && xs[i][0] != '{' && ',' !in xs[i]
      ensures Denotes(xs[i], a) <==> Contains(ranges[i], a)
    {
      SlashedChars(ranges[i]);
      PrefixDenotes(ranges[i], a);
    }
    if |ranges| == 1 {
      SingleValue(value, a);
    } else {
      ListItems(xs);
    }
    AnyDenotes(xs, ranges, a);
  }

  lemma AnyDenotes(xs: seq<string>, ranges: seq<Prefix>, a: Addr)
    requires |xs| == |ranges| && forall i | 0 <= i < |xs| :: Denotes(xs[i], a) <==> Contains(ranges[i], a)
    ensures (exists x <- xs :: Denotes(x, a)) <==> Covers(ranges, a)
  {
    if i :| 0 <= i < |ranges| && Contains(ranges[i], a) {
      assert xs[i] in xs;
    }
  }

  lemma DenyMeans(ranges: seq<Prefix>, p: Packet)
    requires ranges != []
    ensures Matches(Print(SourceIn(ranges)), p) <==> Covers(ranges, p.src)
  {
    var value := AfterSource(SourceIn(ranges));
    var words := Split(' ', value);
    SplitSource(value);
    DenyLacksAnd(ranges);
    SplitLacks(' ', "", value, '&');
    forall w <- ["ip4.src", "=="] + words
      ensures w != "&&"
    {
      assert w in words ==> '&' !in w;
    }
    var term := ["ip4.src", "=="] + words;
    OneTerm(term);
    JoinSplit(' ', value);
    assert term[2..] == words;
    OneHolds(term, value, p);
    DenyInSet(ranges, p.src);
  }

  lemma OneHolds(term: seq<string>, value: string, p: Packet)
    requires |term| >= 3 && term[0] == "ip4.src" && term[1] == "==" && Join(" ", term[2..]) == value
    ensures (forall t <- [term] :: Holds(t, p)) <==> InSet(value, p.src)
  {
    var terms := [term];
    assert term in terms;
    assert Holds(term, p) <==> InSet(value, p.src);
  }

  lemma DenyLacksAnd(ranges: seq<Prefix>)
    requires ranges != []
    ensures '&' !in AfterSource(SourceIn(ranges))
  {
    forall i | 0 <= i < |ranges| ensures '&' !in AllSlashed(ranges)[i] { SlashedChars(ranges[i]); }
    SlashedChars(ranges[0]);
    JoinLacks(", ", AllSlashed(ranges), '&');
  }

  /** OVN reads the text that is printed for a match as that match. */
  lemma MatchesPrinted(m: Match, p: Packet)
    requires WellFormed(m)
    ensures Matches(Print(m), p) <==> Eval(m, p)
  {
    if m.Flow? {
      FlowMeans(m, p);
    } else {
      DenyMeans(m.ranges, p);
    }
  }

  // ---- Reading the text back

  predicate IsSpace(c: char) {
    c == ' ' || '\t' <= c <= '\r'
  }

  predicate IsWord(c: char) {
    IsDigit(c) || 'a' <= c <= 'z' || 'A' <= c <= 'Z' || c == '_'
  }

  function SkipSpaces(t: string, i: nat): (j: nat)
    requires i <= |t|
    ensures i <= j <= |t|
    decreases |t| - i
  {
    if i < |t| && IsSpace(t[i]) then SkipSpaces(t, i + 1) else i
  }

  /** The end of the longest stretch of digits and dots from i on. */
  function DottedEnd(t: string, i: nat): (j: nat)
    requires i <= |t|
    ensures i <= j <= |t|
    decreases |t| - i
  {
    if i < |t| && IsDottedChar(t[i]) then DottedEnd(t, i + 1) else i
  }

  /** `\b` at position i. */
  predicate Boundary(t: string, i: nat)
    requires i <= |t|
  {
    (i > 0 && IsWord(t[i - 1])) != (i < |t| && IsWord(t[i]))
  }

  /** Backtracking: the last word boundary in (start, end], if there is one. */
  function LastBoundary(t: string, start: nat, end: nat): (r: Option<nat>)
    requires start <= end <= |t|
    ensures r.Some? ==> start < r.value <= end
    decreases end
  {
    if end == start then None
    else if Boundary(t, end) then Some(end)
    else LastBoundary(t, start, end - 1)
  }

  /** `ip4\.src\s*==\s*([0-9.]+)\b` matched at position i: its group. */
  function SourceAt(t: string, i: nat): Option<string> {
    if !StartsAt(t, i, "ip4.src") then None else
    var j := SkipSpaces(t, i + 7);
    if !StartsAt(t, j, "==") then None else
    var k := SkipSpaces(t, j + 2);
    match LastBoundary(t, k, DottedEnd(t, k))
    case None => None
    case Some(end) => Some(t[k..end])
  }

  function SourceFrom(t: string, i: nat): Option<string>
    requires i <= |t|
    decreases |t| - i
  {
    if SourceAt(t, i).Some? then SourceAt(t, i)
    else if i == |t| then None
    else SourceFrom(t, i + 1)
  }

  /** `_allow_source`: the first match of the search. */
  function AllowSource(t: string): Option<string> {
    SourceFrom(t, 0)
  }

  lemma {:induction false} DottedEndIs(t: string, i: nat, end: nat)
    requires i <= end < |t| && !IsDottedChar(t[end])
    requires forall k | i <= k < end :: IsDottedChar(t[k])
    ensures DottedEnd(t, i) == end
    decreases end - i
  {
    if i < end {
      DottedEndIs(t, i + 1, end);
    }
  }

  /** The search recovers the address that a flow was printed with. */
  lemma SourceOfFlow(m: Match)
    requires m.Flow?
    ensures AllowSource(Print(m)) == Some(Dotted(m.src))
  {
    var t, a := Print(m), Dotted(m.src);
    DottedChars(m.src);
    SourceOfText(a, FlowTail(m.dst, m.proto, m.port));
    assert t == SOURCE + a + " " + FlowTail(m.dst, m.proto, m.port);
  }

  lemma SourceOfText(a: string, rest: string)
    requires a != "" && (forall c <- a :: IsDottedChar(c)) && IsDigit(a[|a| - 1])
    ensures AllowSource(SOURCE + a + " " + rest) == Some(a)
  {
    var t, end := SOURCE + a + " " + rest, 11 + |a|;
    assert forall k | 0 <= k < 11 :: t[k] == SOURCE[k];
    assert forall k | 11 <= k < end :: t[k] == a[k - 11] && a[k - 11] in a;
    assert t[end] == ' ' && t[11..end] == a;
    assert t[0..7] == "ip4.src" && t[8..10] == "==";
    assert SkipSpaces(t, 7) == 8;
    assert SkipSpaces(t, 10) == 11;
    DottedEndIs(t, 11, end);
    assert Boundary(t, end);
  }

  // ---- Removal by substring

  /** What `remove_tenant_transit` looks for; the last character is a space. */
  function Needle(eip: Addr): string {
    SOURCE + Dotted(eip) + " "
  }

  lemma TailLacksR(dst: Addr, proto: Proto, port: nat)
    ensures 'r' !in FlowTail(dst, proto, port)
  {
    DottedChars(dst);
    assert 'r' !in PortPart(proto, port);
  }

  lemma ListLacksR(ranges: seq<Prefix>)
    requires ranges != []
    ensures 'r' !in Slashed(ranges[0]) && 'r' !in Join(", ", AllSlashed(ranges))
  {
    forall i | 0 <= i < |ranges| ensures 'r' !in AllSlashed(ranges)[i] { SlashedChars(ranges[i]); }
    SlashedChars(ranges[0]);
    JoinLacks(", ", AllSlashed(ranges), 'r');
  }

  lemma NoR(m: Match)
    requires WellFormed(m)
    ensures 'r' !in AfterSource(m)
  {
    match m
    case Flow(src, dst, proto, port) =>
      DottedChars(src);
      TailLacksR(dst, proto, port);
    case SourceIn(ranges) =>
      ListLacksR(ranges);
  }

  lemma OneR(rest: string)
    ensures forall k | 0 <= k < |SOURCE| :: SOURCE[k] == 'r' ==> k == 5
    ensures |SOURCE + rest| > 5 && (SOURCE + rest)[5] == 'r'
  {
  }

  lemma OnlyAtStart(h: string, rest: string, x: string, i: nat)
    requires |x| > 5 && x[5] == 'r' && 'r' !in rest
    requires forall k | 0 <= k < |h| :: h[k] == 'r' ==> k == 5
    requires StartsAt(h + rest, i, x)
    ensures i == 0
  {
    var t := h + rest;
    assert t[i + 5] == t[i..i + |x|][5];
    assert forall k | |h| <= k < |t| :: t[k] == rest[k - |h|] && rest[k - |h|] in rest;
  }

  /** The letter r of "src" occurs only once in a rule, so the needle can only be at its start. */
  lemma OccursAtStart(eip: Addr, m: Match)
    requires WellFormed(m)
    ensures Occurs(Needle(eip), Print(m)) <==> Needle(eip) <= Print(m)
  {
    var x, t := Needle(eip), Print(m);
    NoR(m);
    OneR(Dotted(eip) + " ");
    assert x == SOURCE + (Dotted(eip) + " ");
    forall i: nat | i <= |t| && StartsAt(t, i, x)
      ensures i == 0
    {
      OnlyAtStart(SOURCE, AfterSource(m), x, i);
    }
    if x <= t {
      assert StartsAt(t, 0, x);
    }
  }

  /** Removal by text hits a rule exactly when it is an allow for that very address. */
  lemma OccursIsSource(eip: Addr, m: Match)
    requires WellFormed(m)
    ensures Occurs(Needle(eip), Print(m)) <==> m.Flow? && m.src == eip
  {
    OccursAtStart(eip, m);
    NeedleAfterSource(eip, m);
    StartsWithSource(eip, m);
  }

  lemma StartsWithSource(eip: Addr, m: Match)
    requires WellFormed(m)
    ensures Dotted(eip) + " " <= AfterSource(m) <==> m.Flow? && m.src == eip
  {
    var a, rest := Dotted(eip), AfterSource(m);
    DottedChars(eip);
    if a + " " <= rest {
      assert rest == a + " " + rest[|a| + 1..];
      assert rest[0] == a[0] && rest[|a|] == ' ';
      if m.SourceIn? {
        DenyChars(m.ranges);
      } else {
        AddressThenRest(m.src, FlowTail(m.dst, m.proto, m.port), eip, rest[|a| + 1..]);
      }
    }
  }

  lemma NeedleAfterSource(eip: Addr, m: Match)
    ensures Needle(eip) <= Print(m) <==> Dotted(eip) + " " <= AfterSource(m)
  {
    var a, rest, t := Dotted(eip) + " ", AfterSource(m), Print(m);
    assert Needle(eip) == SOURCE + a;
    if SOURCE + a <= t {
      assert t[11..11 + |a|] == a && t[11..] == rest;
    }
    if a <= rest {
      assert t == SOURCE + a + rest[|a|..];
    }
  }

  // ---- The rules that the code writes

  /** A flow is allowed, a source range denied. */
  function RuleOf(m: Match): Acl {
    if m.Flow? then Acl("allow-related", "from-lport", ALLOW_PRIORITY, Print(m))
    else Acl("drop", "from-lport", DENY_PRIORITY, Print(m))
  }

  function Rules(ms: seq<Match>): seq<Acl> {
    Each(ms, RuleOf)
  }

  function PortFlows(eip: Addr, vip: Addr, proto: Proto, ports: seq<nat>): (r: seq<Match>)
    ensures forall m <- r :: m.Flow? && m.src == eip
  {
    if ports == [] then []
    else
      var front, port := PortFlows(eip, vip, proto, ports[..|ports| - 1]), ports[|ports| - 1];
      if port == 0 then front else front + [Flow(eip, vip, proto, port)]
  }

  /** The flows that `build_transit_acls` writes rules for. */
  function TransitFlows(eip: Addr, vip: Addr, ports: seq<nat>, udpPorts: seq<nat>): (r: seq<Match>)
    ensures forall m <- r :: m.Flow? && m.src == eip
  {
    PortFlows(eip, vip, Tcp, ports) + PortFlows(eip, vip, Udp, udpPorts)
  }

  /** `build_transit_deny` */
  function Deny(network: Prefix, excludeIps: seq<Exclusion>): (m: Match)
    ensures m.SourceIn? && m.ranges != []
  {
    SourceIn(DenyRanges(network, excludeIps))
  }

  lemma {:induction false} PortFlowsAre(eip: Addr, vip: Addr, proto: Proto, ports: seq<nat>, m: Match)
    ensures m in PortFlows(eip, vip, proto, ports) <==>
            m.Flow? && m == Flow(eip, vip, proto, m.port) && m.port in ports && m.port != 0
  {
    if ports != [] {
      PortFlowsAre(eip, vip, proto, ports[..|ports| - 1], m);
      assert ports == ports[..|ports| - 1] + [ports[|ports| - 1]];
    }
  }

  /** A flow is asked for if and only if it goes from the EIP to the VIP, over TCP to one of the ports or
      over UDP to one of the UDP ports. */
  lemma TransitFlowsAre(eip: Addr, vip: Addr, ports: seq<nat>, udpPorts: seq<nat>, m: Match)
    ensures m in TransitFlows(eip, vip, ports, udpPorts) <==>
              && m.Flow? && m.src == eip && m.dst == vip && m.port != 0
              && (if m.proto == Tcp then m.port in ports else m.port in udpPorts)
  {
    PortFlowsAre(eip, vip, Tcp, ports, m);
    PortFlowsAre(eip, vip, Udp, udpPorts, m);
  }

  /** In the order of the ports, TCP before UDP. */
  lemma FlowsInOrder(eip: Addr, vip: Addr, ports: seq<nat>, udpPorts: seq<nat>)
    ensures TransitFlows(eip, vip, ports, udpPorts)
            == Gather(ports, (n: nat) => if n == 0 then None else Some(Flow(eip, vip, Tcp, n)))
               + Gather(udpPorts, (n: nat) => if n == 0 then None else Some(Flow(eip, vip, Udp, n)))
  {
    PortFlowsGathered(eip, vip, Tcp, ports);
    PortFlowsGathered(eip, vip, Udp, udpPorts);
  }

  lemma {:induction false} PortFlowsGathered(eip: Addr, vip: Addr, proto: Proto, ports: seq<nat>)
    ensures PortFlows(eip, vip, proto, ports) == Gather(ports, (n: nat) => if n == 0 then None else Some(Flow(eip, vip, proto, n)))
  {
    if ports != [] {
      PortFlowsGathered(eip, vip, proto, ports[..|ports| - 1]);
    }
  }

  /** The rule lets a packet through that matches it, above the baseline deny. */
  predicate Allows(a: Acl, p: Packet) {
    a.action == "allow-related" && a.direction == "from-lport" && a.priority == 3200 && Matches(a.expr, p)
  }

  /** What the list of `build_transit_acls` lets through. */
  lemma AllowsAre(eip: Addr, vip: Addr, ports: seq<nat>, udpPorts: seq<nat>, p: Packet)
    ensures (exists a <- Rules(TransitFlows(eip, vip, ports, udpPorts)) :: Allows(a, p)) <==>
              && p.src == eip && p.dst == vip && p.port != 0
              && (if p.proto == Tcp then p.port in ports else p.port in udpPorts)
  {
    var flows, wanted := TransitFlows(eip, vip, ports, udpPorts), Flow(p.src, p.dst, p.proto, p.port);
    TransitFlowsAre(eip, vip, ports, udpPorts, wanted);
    forall m <- flows
      ensures Allows(RuleOf(m), p) <==> m == wanted
    {
      FlowMeans(m, p);
    }
    RuleAmong(flows, wanted, p);
  }

  lemma RuleAmong(flows: seq<Match>, wanted: Match, p: Packet)
    requires forall m <- flows :: Allows(RuleOf(m), p) <==> m == wanted
    ensures (exists a <- Rules(flows) :: Allows(a, p)) <==> wanted in flows
  {
    if wanted in flows {
      var i :| 0 <= i < |flows| && flows[i] == wanted;
      assert Rules(flows)[i] in Rules(flows);
    }
    if a :| a in Rules(flows) && Allows(a, p) {
      RulesElements(flows, a);
      var i :| 0 <= i < |flows| && a == RuleOf(flows[i]);
      assert flows[i] in flows;
    }
  }

  /** `build_transit_acls` */
  method BuildTransitAcls(eip: Addr, vip: Addr, ports: seq<nat>, udpPorts: seq<nat>) returns (acls: seq<Acl>)
    ensures acls == Rules(TransitFlows(eip, vip, ports, udpPorts))
  {
    var tcp := BuildPorts(eip, vip, Tcp, ports);
    var udp := BuildPorts(eip, vip, Udp, udpPorts);
    acls := tcp + udp;
    EachConcat(PortFlows(eip, vip, Tcp, ports), PortFlows(eip, vip, Udp, udpPorts), RuleOf);
  }

  method BuildPorts(eip: Addr, vip: Addr, proto: Proto, ports: seq<nat>) returns (acls: seq<Acl>)
    ensures acls == Rules(PortFlows(eip, vip, proto, ports))
  {
    acls := [];
    for i := 0 to |ports|
      invariant acls == Rules(PortFlows(eip, vip, proto, ports[..i]))
    {
      NextPort(eip, vip, proto, ports, i);
      if ports[i] != 0 {
        acls := acls + [RuleOf(Flow(eip, vip, proto, ports[i]))];
      }
    }
    assert ports[..|ports|] == ports;
  }

  lemma NextPort(eip: Addr, vip: Addr, proto: Proto, ports: seq<nat>, i: nat)
    requires i < |ports|
    ensures var before, after := PortFlows(eip, vip, proto, ports[..i]), PortFlows(eip, vip, proto, ports[..i + 1]);
            if ports[i] == 0 then after == before
            else Rules(after) == Rules(before) + [RuleOf(Flow(eip, vip, proto, ports[i]))]
  {
    var flow := Flow(eip, vip, proto, ports[i]);
    assert ports[..i + 1][..i] == ports[..i];
    EachConcat(PortFlows(eip, vip, proto, ports[..i]), [flow], RuleOf);
    EachOne(flow, RuleOf);
  }

  lemma RulesConcat(a: seq<Match>, b: seq<Match>)
    ensures Rules(a + b) == Rules(a) + Rules(b)
  {
    EachConcat(a, b, RuleOf);
  }

  lemma RulesElements(ms: seq<Match>, a: Acl)
    ensures a in Rules(ms) <==> exists i | 0 <= i < |ms| :: a == RuleOf(ms[i])
  {
  }

  // ---- The writers

  /** The part of the transit subnet's spec that is not the list itself. */
  datatype Subnet = Subnet(network: Prefix, excludeIps: seq<Exclusion>)

  /** `live` is what the EIP listing showed on the transit subnet; None when it could not be read. */
  datatype Call =
    | Ensure(eip: Addr, vip: Addr, ports: seq<nat>, udpPorts: seq<nat>, live: Option<set<string>>)
    | Remove(eip: Addr)

  function Asked(call: Call): (r: seq<Match>)
    ensures forall m <- r :: m.Flow? && m.src == call.eip
  {
    if call.Ensure? then TransitFlows(call.eip, call.vip, call.ports, call.udpPorts) else []
  }

  function Wanted(call: Call): seq<Acl> {
    Rules(Asked(call))
  }

  /** Whether a call has anything to ask for. */
  predicate Effective(call: Call) {
    Asked(call) != []
  }

  predicate IsDeny(a: Acl) {
    a.action == "drop" && a.priority == DENY_PRIORITY
  }

  /** Rules at other priorities, and allows whose source is a live address. */
  predicate IsLive(a: Acl, live: set<string>) {
    a.priority != ALLOW_PRIORITY || (match AllowSource(a.expr) case Some(src) => src case None => "") in live
  }

  function DropStale(call: Call, acls: seq<Acl>): seq<Acl>
    requires call.Ensure?
  {
    if call.live.None? then acls
    else Filter(acls, (a: Acl) => IsLive(a, call.live.value + {Dotted(call.eip)}))
  }

  function Baseline(subnet: Subnet): Acl {
    RuleOf(Deny(subnet.network, subnet.excludeIps))
  }

  /** The baseline: a drop below the allows, for the sources that `DenyScope` describes. */
  lemma BaselineIs(subnet: Subnet, p: Packet)
    ensures var a := Baseline(subnet);
            && a.action == "drop" && a.direction == "from-lport" && a.priority == 3000
            && (Matches(a.expr, p) <==> Covers(DenyRanges(subnet.network, subnet.excludeIps), p.src))
  {
    DenyMeans(DenyRanges(subnet.network, subnet.excludeIps), p);
  }

  function AddDeny(deny: Acl, acls: seq<Acl>): seq<Acl> {
    if exists a <- acls :: IsDeny(a) then acls else acls + [deny]
  }

  /** The baseline deny of the subnet; a subnet without a CIDR calls for none. */
  function AddBase(subnet: Option<Subnet>, acls: seq<Acl>): seq<Acl> {
    if subnet.None? then acls else AddDeny(Baseline(subnet.value), acls)
  }

  function AddWanted(wanted: seq<Acl>, acls: seq<Acl>): seq<Acl> {
    acls + Filter(wanted, (a: Acl) => a !in acls)
  }

  /** The list after a call, given the subnet as it is in the spec that the call reads: `mutate` of
      `ensure_transit_acls` and of `remove_tenant_transit`. Both write nothing when the list would stay
      as it is. */
  function After(subnet: Option<Subnet>, call: Call, acls: seq<Acl>): seq<Acl> {
    match call
    case Ensure(_, _, _, _, _) =>
      if !Effective(call) then acls
      else AddWanted(Wanted(call), AddBase(subnet, DropStale(call, acls)))
    case Remove(eip) => Filter(acls, (a: Acl) => !Occurs(Needle(eip), a.expr))
  }

  /** A call, and the subnet in the spec that it read. */
  datatype Commit = Commit(call: Call, subnet: Option<Subnet>)

  /** The list after a run of calls, each applied to what the one before it left (module Cas). */
  function AfterRun(commits: seq<Commit>): seq<Acl> {
    if commits == [] then []
    else
      var last := commits[|commits| - 1];
      After(last.subnet, last.call, AfterRun(commits[..|commits| - 1]))
  }

  // ---- One call, on any list

  lemma FlowIsLive(m: Match, live: set<string>)
    requires m.Flow?
    ensures IsLive(RuleOf(m), live) <==> Dotted(m.src) in live
  {
    SourceOfFlow(m);
  }

  lemma WantedIsLive(call: Call, a: Acl, live: set<string>)
    requires a in Wanted(call) && Dotted(call.eip) in live
    ensures IsLive(a, live) && a.priority == ALLOW_PRIORITY
  {
    RulesElements(Asked(call), a);
    var i :| 0 <= i < |Asked(call)| && a == RuleOf(Asked(call)[i]);
    assert Asked(call)[i] in Asked(call);
    FlowIsLive(Asked(call)[i], live);
  }

  lemma AddWantedElements(wanted: seq<Acl>, acls: seq<Acl>, a: Acl)
    ensures a in AddWanted(wanted, acls) <==> a in acls || a in wanted
  {
    FilterElements(wanted, (a: Acl) => a !in acls, a);
  }

  /** After a call that could read the EIPs, every allow is for a live address or the caller's; one
      without a source counts as one for the empty address. */
  lemma NoStaleAllow(subnet: Option<Subnet>, call: Call, acls: seq<Acl>, a: Acl)
    requires Effective(call) && call.live.Some?
    requires a in After(subnet, call, acls) && a.priority == 3200
    ensures var src := AllowSource(a.expr);
            (if src.Some? then src.value else "") in call.live.value || src == Some(Dotted(call.eip))
            || (src.None? && Dotted(call.eip) == "")
  {
    var live := call.live.value + {Dotted(call.eip)};
    AddWantedElements(Wanted(call), AddBase(subnet, DropStale(call, acls)), a);
    if a in Wanted(call) {
      WantedIsLive(call, a, live);
    } else {
      FilterElements(acls, (a: Acl) => IsLive(a, live), a);
    }
  }

  /** And no rule that is not stale goes: those at other priorities, those for a live address or the
      caller's, and all of them when the EIPs could not be read. */
  lemma OnlyStaleGo(subnet: Option<Subnet>, call: Call, acls: seq<Acl>, a: Acl)
    requires call.Ensure? && a in acls
    requires call.live.None? || a.priority != 3200
             || AllowSource(a.expr) == Some(Dotted(call.eip))
             || (AllowSource(a.expr).Some? && AllowSource(a.expr).value in call.live.value)
    ensures a in After(subnet, call, acls)
  {
    if Effective(call) {
      var kept := DropStale(call, acls);
      if call.live.Some? {
        FilterElements(acls, (a: Acl) => IsLive(a, call.live.value + {Dotted(call.eip)}), a);
      }
      AddWantedElements(Wanted(call), AddBase(subnet, kept), a);
    }
  }

  /** What is not stale keeps its order and its place before anything that is added. */
  lemma KeptComeFirst(subnet: Option<Subnet>, call: Call, acls: seq<Acl>)
    requires Effective(call)
    ensures call.live.None? ==> acls <= After(subnet, call, acls)
    ensures call.live.Some? ==>
              var live := call.live.value + {Dotted(call.eip)};
              Filter(acls, (a: Acl) => IsLive(a, live)) <= After(subnet, call, acls)
  {
  }

  /** Rules at other priorities stay, in their order; the baseline deny is added after them, once,
      if there is none and the subnet has a CIDR. */
  lemma OtherPrioritiesStay(subnet: Option<Subnet>, call: Call, acls: seq<Acl>)
    requires Effective(call)
    ensures var other := (a: Acl) => a.priority != ALLOW_PRIORITY;
            Filter(After(subnet, call, acls), other) ==
            Filter(acls, other) +
              if subnet.None? || exists a <- acls :: IsDeny(a) then [] else [Baseline(subnet.value)]
  {
    KeptOthers(call, acls);
    DenySurvives(call, acls);
    if subnet.Some? {
      AddDenyOthers(Baseline(subnet.value), DropStale(call, acls));
    }
    AddWantedOthers(call, AddBase(subnet, DropStale(call, acls)));
  }

  lemma AddDenyOthers(deny: Acl, acls: seq<Acl>)
    requires IsDeny(deny)
    ensures var other := (a: Acl) => a.priority != ALLOW_PRIORITY;
            Filter(AddDeny(deny, acls), other) ==
            Filter(acls, other) + if exists a <- acls :: IsDeny(a) then [] else [deny]
    ensures exists a <- AddDeny(deny, acls) :: IsDeny(a)
  {
    var other := (a: Acl) => a.priority != ALLOW_PRIORITY;
    FilterConcat(acls, [deny], other);
    assert Filter([deny], other) == [deny];
    assert deny in acls + [deny];
  }

  lemma AddWantedOthers(call: Call, acls: seq<Acl>)
    ensures var other := (a: Acl) => a.priority != ALLOW_PRIORITY;
            Filter(AddWanted(Wanted(call), acls), other) == Filter(acls, other)
  {
    var other := (a: Acl) => a.priority != ALLOW_PRIORITY;
    var added := Filter(Wanted(call), (a: Acl) => a !in acls);
    FilterConcat(acls, added, other);
    forall a <- added
      ensures !other(a)
    {
      FilterElements(Wanted(call), (a: Acl) => a !in acls, a);
      WantedIsLive(call, a, {Dotted(call.eip)});
    }
    FilterNone(added, other);
  }

  lemma KeptOthers(call: Call, acls: seq<Acl>)
    requires call.Ensure?
    ensures var other := (a: Acl) => a.priority != ALLOW_PRIORITY;
            Filter(DropStale(call, acls), other) == Filter(acls, other)
  {
    if call.live.Some? {
      FilterKeeps(acls, (a: Acl) => IsLive(a, call.live.value + {Dotted(call.eip)}), (a: Acl) => a.priority != ALLOW_PRIORITY);
    }
  }

  lemma DenySurvives(call: Call, acls: seq<Acl>)
    requires call.Ensure?
    ensures (exists a <- DropStale(call, acls) :: IsDeny(a)) <==> (exists a <- acls :: IsDeny(a))
  {
    if call.live.Some? {
      var keep := (a: Acl) => IsLive(a, call.live.value + {Dotted(call.eip)});
      forall a: Acl {
        FilterElements(acls, keep, a);
      }
    }
  }

  lemma KeepAll(acls: seq<Acl>, keep: Acl -> bool, once: seq<Acl>)
    requires once == Filter(acls, keep)
    ensures Filter(once, keep) == once
  {
    forall a <- once ensures keep(a) { FilterElements(acls, keep, a); }
    FilterAll(once, keep);
  }

  lemma NothingStale(subnet: Option<Subnet>, call: Call, acls: seq<Acl>)
    requires Effective(call)
    ensures DropStale(call, After(subnet, call, acls)) == After(subnet, call, acls)
  {
    if call.live.Some? {
      var once, keep := After(subnet, call, acls), (a: Acl) => IsLive(a, call.live.value + {Dotted(call.eip)});
      forall a <- once
        ensures keep(a)
      {
        if a.priority == ALLOW_PRIORITY { NoStaleAllow(subnet, call, acls, a); }
      }
      FilterAll(once, keep);
    }
  }

  lemma DenyIsThere(subnet: Option<Subnet>, call: Call, acls: seq<Acl>)
    requires Effective(call) && subnet.Some?
    ensures exists a <- After(subnet, call, acls) :: IsDeny(a)
  {
    var base := AddBase(subnet, DropStale(call, acls));
    AddDenyOthers(Baseline(subnet.value), DropStale(call, acls));
    var d :| d in base && IsDeny(d);
    AddWantedElements(Wanted(call), base, d);
  }

  /** Repeating a call changes nothing. */
  lemma CallIsIdempotent(subnet: Option<Subnet>, call: Call, acls: seq<Acl>)
    ensures After(subnet, call, After(subnet, call, acls)) == After(subnet, call, acls)
  {
    var once := After(subnet, call, acls);
    if call.Remove? {
      KeepAll(acls, (a: Acl) => !Occurs(Needle(call.eip), a.expr), once);
    } else if Effective(call) {
      NothingStale(subnet, call, acls);
      if subnet.Some? {
        DenyIsThere(subnet, call, acls);
      }
      forall a <- Wanted(call)
        ensures a in once
      {
        AddWantedElements(Wanted(call), AddBase(subnet, DropStale(call, acls)), a);
      }
      FilterNone(Wanted(call), (a: Acl) => a !in once);
    }
  }
}
