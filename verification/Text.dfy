/** Decimal numbers, dotted addresses and joined lists, and why their text can be read back. */
module Text {
  import opened Options
  import opened Ipv4

  // ---- Cutting at a separator

  lemma CutUnique(a: string, x: string, b: string, y: string, c: char)
    requires a + [c] + x == b + [c] + y
    requires c !in a && c !in b
    ensures a == b && x == y
  {
    var s := a + [c] + x;
    assert s[|a|] == c && s[|b|] == c;
    assert forall i | 0 <= i < |a| :: s[i] == a[i] && a[i] in a;
    assert forall i | 0 <= i < |b| :: s[i] == b[i] && b[i] in b;
    assert |a| == |b|;
    assert s[..|a|] == a && s[..|b|] == b;
    assert s[|a| + 1..] == x && s[|b| + 1..] == y;
  }

  lemma CancelPrefix(h: string, x: string, y: string)
    requires h + x == h + y
    ensures x == y
  {
    assert (h + x)[|h|..] == x && (h + y)[|h|..] == y;
  }

  /** `sep.join(xs)` */
  function Join(sep: string, xs: seq<string>): string {
    if xs == [] then ""
    else if |xs| == 1 then xs[0]
    else xs[0] + sep + Join(sep, xs[1..])
  }

  ghost predicate NoneHas(xs: seq<string>, c: char) {
    forall x <- xs :: c !in x
  }

  lemma JoinHasSeparator(sep: string, xs: seq<string>)
    requires sep != "" && xs != []
    ensures |xs| > 1 ==> sep[0] in Join(sep, xs)
    ensures |xs| == 1 ==> Join(sep, xs) in xs
  {
    if |xs| > 1 {
      assert Join(sep, xs)[|xs[0]|] == sep[0];
    }
  }

  /** Joined text determines the list, when no item contains the first character of the separator. */
  lemma {:induction false} JoinUnique(sep: string, xs: seq<string>, ys: seq<string>)
    requires sep != "" && xs != [] && ys != []
    requires NoneHas(xs, sep[0]) && NoneHas(ys, sep[0])
    requires Join(sep, xs) == Join(sep, ys)
    ensures xs == ys
  {
    var c := sep[0];
    JoinHasSeparator(sep, xs);
    JoinHasSeparator(sep, ys);
    assert |xs| == 1 <==> |ys| == 1;
    if |xs| > 1 {
      var x, y := sep[1..] + Join(sep, xs[1..]), sep[1..] + Join(sep, ys[1..]);
      assert Join(sep, xs) == xs[0] + [c] + x;
      assert Join(sep, ys) == ys[0] + [c] + y;
      CutUnique(xs[0], x, ys[0], y, c);
      assert Join(sep, xs[1..]) == x[|sep| - 1..];
      assert Join(sep, ys[1..]) == y[|sep| - 1..];
      JoinUnique(sep, xs[1..], ys[1..]);
    }
  }

  lemma {:induction false} JoinLacks(sep: string, xs: seq<string>, c: char)
    requires c !in sep && NoneHas(xs, c)
    ensures c !in Join(sep, xs)
  {
    if |xs| > 1 {
      assert NoneHas(xs[1..], c);
      JoinLacks(sep, xs[1..], c);
    }
  }

  /** `s.split(c)` */
  function Split(c: char, s: string): (r: seq<string>)
    ensures r != []
  {
    SplitFrom(c, "", s)
  }

  function SplitFrom(c: char, word: string, s: string): (r: seq<string>)
    ensures r != []
    decreases |s|
  {
    if s == "" then [word]
    else if s[0] == c then [word] + SplitFrom(c, "", s[1..])
    else SplitFrom(c, word + [s[0]], s[1..])
  }

  lemma {:induction false} SplitFromWord(c: char, word: string, x: string, rest: string)
    requires c !in x
    ensures SplitFrom(c, word, x + rest) == SplitFrom(c, word + x, rest)
    decreases |x|
  {
    if x == "" {
      assert x + rest == rest && word + x == word;
    } else {
      assert (x + rest)[0] == x[0] && (x + rest)[1..] == x[1..] + rest;
      SplitFromWord(c, word + [x[0]], x[1..], rest);
      assert word + [x[0]] + x[1..] == word + x;
    }
  }

  /** Splitting at the separator undoes joining with it. */
  lemma {:induction false} SplitJoin(c: char, xs: seq<string>)
    requires xs != [] && NoneHas(xs, c)
    ensures Split(c, Join([c], xs)) == xs
  {
    if |xs| == 1 {
      assert xs[0] == xs[0] + "";
      SplitFromWord(c, "", xs[0], "");
      assert "" + xs[0] == xs[0];
    } else {
      var rest := [c] + Join([c], xs[1..]);
      assert Join([c], xs) == xs[0] + rest;
      SplitFromWord(c, "", xs[0], rest);
      assert "" + xs[0] == xs[0];
      assert rest[1..] == Join([c], xs[1..]);
      SplitJoin(c, xs[1..]);
      assert xs == [xs[0]] + xs[1..];
    }
  }

  /** Up to the first separator, and the rest. */
  lemma SplitFirst(c: char, word: string, rest: string)
    requires c !in word
    ensures Split(c, word + [c] + rest) == [word] + Split(c, rest)
  {
    assert word + [c] + rest == word + ([c] + rest);
    SplitFromWord(c, "", word, [c] + rest);
    assert "" + word == word;
    assert ([c] + rest)[0] == c && ([c] + rest)[1..] == rest;
  }

  lemma SplitNothing(c: char, word: string)
    requires c !in word
    ensures Split(c, word) == [word]
  {
    assert word + "" == word;
    SplitFromWord(c, "", word, "");
    assert "" + word == word;
  }

  lemma JoinCons(sep: string, x: string, xs: seq<string>)
    requires xs != []
    ensures Join(sep, [x] + xs) == x + sep + Join(sep, xs)
  {
    assert ([x] + xs)[1..] == xs;
  }

  /** Joining undoes splitting. */
  lemma {:induction false} JoinSplitFrom(c: char, word: string, s: string)
    ensures Join([c], SplitFrom(c, word, s)) == word + s
    decreases |s|
  {
    if s == "" {
      assert word + s == word;
    } else if s[0] == c {
      JoinSplitFrom(c, "", s[1..]);
      JoinCons([c], word, SplitFrom(c, "", s[1..]));
      assert s == [c] + s[1..] && "" + s[1..] == s[1..];
    } else {
      JoinSplitFrom(c, word + [s[0]], s[1..]);
      assert word + [s[0]] + s[1..] == word + s;
    }
  }

  lemma JoinSplit(c: char, s: string)
    ensures Join([c], Split(c, s)) == s
  {
    JoinSplitFrom(c, "", s);
    assert "" + s == s;
  }

  lemma {:induction false} SplitLacks(c: char, word: string, s: string, x: char)
    requires x !in word && x !in s
    ensures NoneHas(SplitFrom(c, word, s), x)
    decreases |s|
  {
    if s != "" {
      if s[0] == c {
        SplitLacks(c, "", s[1..], x);
      } else {
        SplitLacks(c, word + [s[0]], s[1..], x);
      }
    }
  }

  // ---- Looking for a text

  predicate StartsAt(t: string, i: nat, x: string) {
    i + |x| <= |t| && t[i..i + |x|] == x
  }

  /** `x in t` */
  predicate Occurs(x: string, t: string) {
    exists i | 0 <= i <= |t| :: StartsAt(t, i, x)
  }

  // ---- Decimal numbers

  const DIGITS := "0123456789"

  predicate IsDigit(c: char) {
    '0' <= c <= '9'
  }

  function Digit(d: nat): (c: char)
    requires d < 10
    ensures IsDigit(c)
  {
    DIGITS[d]
  }

  function DigitValue(c: char): int {
    c as int - '0' as int
  }

  predicate AllDigits(s: string) {
    s != "" && forall c <- s :: IsDigit(c)
  }

  /** `str(n)` */
  function Decimal(n: nat): (s: string)
    ensures AllDigits(s)
  {
    if n < 10 then [Digit(n)] else Decimal(n / 10) + [Digit(n % 10)]
  }

  /** `int(s)` for a string of digits. */
  function Number(s: string): int {
    if s == "" then 0 else 10 * Number(s[..|s| - 1]) + DigitValue(s[|s| - 1])
  }

  lemma {:induction false} NumberOfDecimal(n: nat)
    ensures Number(Decimal(n)) == n
  {
    if n < 10 {
      assert Decimal(n)[..0] == "";
    } else {
      NumberOfDecimal(n / 10);
      assert Decimal(n)[..|Decimal(n)| - 1] == Decimal(n / 10);
    }
  }

  // ---- Addresses and prefixes

  function Octets(a: Addr): seq<nat> {
    [a / 0x100 / 0x100 / 0x100, a / 0x100 / 0x100 % 0x100, a / 0x100 % 0x100, a % 0x100]
  }

  function Decimals(ns: seq<nat>): (r: seq<string>)
    ensures |r| == |ns| && forall i | 0 <= i < |ns| :: r[i] == Decimal(ns[i])
  {
    seq(|ns|, i requires 0 <= i < |ns| => Decimal(ns[i]))
  }

  /** `str(IPv4Address(a))` */
  function Dotted(a: Addr): string {
    Join(".", Decimals(Octets(a)))
  }

  /** `str(IPv4Network)` */
  function Slashed(p: Prefix): string {
    Dotted(First(p)) + "/" + Decimal(p.len)
  }

  predicate IsDottedChar(c: char) {
    IsDigit(c) || c == '.'
  }

  lemma DottedChars(a: Addr)
    ensures Dotted(a) != ""
    ensures forall c <- Dotted(a) :: IsDottedChar(c)
    ensures IsDigit(Dotted(a)[0]) && IsDigit(Dotted(a)[|Dotted(a)| - 1])
  {
    JoinDigits(Decimals(Octets(a)));
  }

  lemma {:induction false} JoinDigits(xs: seq<string>)
    requires xs != [] && forall x <- xs :: AllDigits(x)
    ensures var s := Join(".", xs);
            && s != ""
            && (forall c <- s :: IsDottedChar(c))
            && IsDigit(s[0]) && IsDigit(s[|s| - 1])
  {
    var s := Join(".", xs);
    if |xs| == 1 {
      assert AllDigits(xs[0]) && s == xs[0];
    } else {
      var t := Join(".", xs[1..]);
      assert forall x <- xs[1..] :: x in xs;
      JoinDigits(xs[1..]);
      assert s == xs[0] + "." + t;
      assert AllDigits(xs[0]) && s[0] == xs[0][0];
      assert s[|s| - 1] == t[|t| - 1];
    }
  }

  lemma DottedUnique(a: Addr, b: Addr)
    requires Dotted(a) == Dotted(b)
    ensures a == b
  {
    var xs, ys := Decimals(Octets(a)), Decimals(Octets(b));
    assert NoneHas(xs, '.') && NoneHas(ys, '.');
    JoinUnique(".", xs, ys);
    forall i | 0 <= i < 4
      ensures Octets(a)[i] == Octets(b)[i]
    {
      assert xs[i] == ys[i];
      NumberOfDecimal(Octets(a)[i]);
      NumberOfDecimal(Octets(b)[i]);
    }
    FromOctets(a, b);
  }

  lemma SameQuotient(x: nat, y: nat)
    requires x / 0x100 == y / 0x100 && x % 0x100 == y % 0x100
    ensures x == y
  {
  }

  lemma FromOctets(a: Addr, b: Addr)
    requires forall i | 0 <= i < 4 :: Octets(a)[i] == Octets(b)[i]
    ensures a == b
  {
    assert Octets(a)[0] == Octets(b)[0] && Octets(a)[1] == Octets(b)[1];
    SameQuotient(a / 0x100 / 0x100, b / 0x100 / 0x100);
    assert Octets(a)[2] == Octets(b)[2];
    SameQuotient(a / 0x100, b / 0x100);
    assert Octets(a)[3] == Octets(b)[3];
    SameQuotient(a, b);
  }

  /** `IPv4Address(s)` */
  function ReadDotted(s: string): Option<nat> {
    var parts := Split('.', s);
    if |parts| == 4 && forall part <- parts :: AllDigits(part) then
      Some(((NumberOf(parts[0]) * 0x100 + NumberOf(parts[1])) * 0x100 + NumberOf(parts[2])) * 0x100 + NumberOf(parts[3]))
    else None
  }

  function NumberOf(s: string): (n: nat)
    ensures AllDigits(s) ==> n == Number(s)
  {
    if AllDigits(s) then NumberIsNat(s); Number(s) else 0
  }

  lemma {:induction false} NumberIsNat(s: string)
    requires forall c <- s :: IsDigit(c)
    ensures Number(s) >= 0
  {
    if s != "" {
      assert s[|s| - 1] in s && forall c <- s[..|s| - 1] :: c in s;
      NumberIsNat(s[..|s| - 1]);
    }
  }

  lemma ReadPrinted(a: Addr)
    ensures ReadDotted(Dotted(a)) == Some(a)
  {
    var octets := Octets(a);
    var parts := Decimals(octets);
    assert NoneHas(parts, '.');
    SplitJoin('.', parts);
    NumberOfDecimal(octets[0]);
    NumberOfDecimal(octets[1]);
    NumberOfDecimal(octets[2]);
    NumberOfDecimal(octets[3]);
    assert parts[0] == Decimal(octets[0]) && parts[1] == Decimal(octets[1]);
    assert parts[2] == Decimal(octets[2]) && parts[3] == Decimal(octets[3]);
  }

  /** The address lies in the network, or is the address, that the text denotes. */
  predicate Denotes(s: string, a: Addr) {
    var parts := Split('/', s);
    if |parts| == 1 then ReadDotted(parts[0]) == Some(a)
    else
      && |parts| == 2 && AllDigits(parts[1]) && NumberOf(parts[1]) <= 32
      && ReadDotted(parts[0]).Some?
      && ReadDotted(parts[0]).value <= a < ReadDotted(parts[0]).value + Pow2(32 - NumberOf(parts[1]))
  }

  lemma AddressDenotes(b: Addr, a: Addr)
    ensures Denotes(Dotted(b), a) <==> a == b
  {
    DottedChars(b);
    SplitNothing('/', Dotted(b));
    ReadPrinted(b);
  }

  lemma PrefixDenotes(p: Prefix, a: Addr)
    ensures Denotes(Slashed(p), a) <==> Contains(p, a)
  {
    DottedChars(First(p));
    SplitFirst('/', Dotted(First(p)), Decimal(p.len));
    SplitNothing('/', Decimal(p.len));
    ReadPrinted(First(p));
    NumberOfDecimal(p.len);
  }

  lemma SlashedUnique(p: Prefix, q: Prefix)
    requires Slashed(p) == Slashed(q)
    ensures p == q
  {
    DottedChars(First(p));
    DottedChars(First(q));
    CutUnique(Dotted(First(p)), Decimal(p.len), Dotted(First(q)), Decimal(q.len), '/');
    DottedUnique(First(p), First(q));
    NumberOfDecimal(p.len);
    NumberOfDecimal(q.len);
    if p != q {
      SameLengthApart(p, q);
    }
  }

  lemma SlashedChars(p: Prefix)
    ensures Slashed(p) != "" && IsDigit(Slashed(p)[0])
    ensures forall c <- Slashed(p) :: IsDottedChar(c) || c == '/'
  {
    DottedChars(First(p));
  }
}
