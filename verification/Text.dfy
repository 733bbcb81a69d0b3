/** Concrete string functions standing in for Go's strings and net packages,
    restricted to IPv4 text: Split, Trim, ParseIP, IP.String and ParseCIDR. */
module Text {
  import opened Bytes

  datatype Option<+T> = None | Some(value: T)

  // ---------- strings.Split with a one-character separator ----------

  function Split(s: string, sep: char): (parts: seq<string>)
    ensures |parts| >= 1
  {
    if |s| == 0 then [""]
    else
      var rest := Split(s[1..], sep);
      if s[0] == sep then [""] + rest
      else [[s[0]] + rest[0]] + rest[1..]
  }

  function Join(parts: seq<string>, sep: char): string
    requires |parts| >= 1
  {
    if |parts| == 1 then parts[0]
    else parts[0] + [sep] + Join(parts[1..], sep)
  }

  lemma {:induction false} SplitFree(s: string, sep: char)
    requires sep !in s
    ensures Split(s, sep) == [s]
  {
    if |s| > 0 {
      SplitFree(s[1..], sep);
      assert s == [s[0]] + s[1..];
    }
  }

  lemma {:induction false} SplitFirst(a: string, b: string, sep: char)
    requires sep !in a
    ensures Split(a + [sep] + b, sep) == [a] + Split(b, sep)
  {
    var s := a + [sep] + b;
    if |a| == 0 {
      assert s[1..] == b;
    } else {
      SplitFirst(a[1..], b, sep);
      assert s[1..] == a[1..] + [sep] + b;
      assert a == [a[0]] + a[1..];
    }
  }

  /** Splitting a joined list of separator-free parts gives the parts back. */
  lemma {:induction false} SplitJoin(parts: seq<string>, sep: char)
    requires |parts| >= 1
    requires forall p | p in parts :: sep !in p
    ensures Split(Join(parts, sep), sep) == parts
  {
    if |parts| == 1 {
      SplitFree(parts[0], sep);
    } else {
      SplitJoin(parts[1..], sep);
      SplitFirst(parts[0], Join(parts[1..], sep), sep);
    }
  }

  /** No part of a split string holds the separator. */
  lemma {:induction false} SplitParts(s: string, sep: char)
    ensures forall p | p in Split(s, sep) :: sep !in p
  {
    if |s| > 0 {
      SplitParts(s[1..], sep);
      var rest := Split(s[1..], sep);
      forall p | p in Split(s, sep)
        ensures sep !in p
      {
        if s[0] != sep && p !in rest[1..] {
          assert rest[0] in rest;
        }
      }
    }
  }

  /** And the parts joined again give the string, so Split is determined by its laws. */
  lemma {:induction false} JoinSplit(s: string, sep: char)
    ensures Join(Split(s, sep), sep) == s
  {
    if |s| > 0 {
      JoinSplit(s[1..], sep);
      var rest := Split(s[1..], sep);
      if s[0] == sep {
        assert ([""] + rest)[1..] == rest;
      } else {
        JoinFirst([s[0]], rest, sep);
      }
    }
  }

  lemma JoinFirst(c: string, parts: seq<string>, sep: char)
    requires |parts| >= 1
    ensures Join([c + parts[0]] + parts[1..], sep) == c + Join(parts, sep)
  {
    var next := [c + parts[0]] + parts[1..];
    if |parts| > 1 {
      assert next[1..] == parts[1..];
      assert c + parts[0] + [sep] + Join(parts[1..], sep) == c + (parts[0] + [sep] + Join(parts[1..], sep));
    }
  }

  lemma {:induction false} SplitMany(s: string, sep: char)
    ensures |Split(s, sep)| >= 2 <==> sep in s
  {
    if |s| > 0 {
      SplitMany(s[1..], sep);
    }
  }

  // ---------- strings.Trim with a one-character cutset ----------

  function TrimLeft(s: string, c: char): string {
    if |s| > 0 && s[0] == c then TrimLeft(s[1..], c) else s
  }

  function TrimRight(s: string, c: char): string {
    if |s| > 0 && s[|s| - 1] == c then TrimRight(s[..|s| - 1], c) else s
  }

  function Trim(s: string, c: char): string {
    TrimRight(TrimLeft(s, c), c)
  }

  lemma {:induction false} TrimKeeps(s: string, c: char, x: char)
    requires c != x
    ensures x in TrimLeft(s, c) <==> x in s
    ensures x in TrimRight(s, c) <==> x in s
    decreases |s|
  {
    if |s| > 0 {
      assert s == [s[0]] + s[1..] && s == s[..|s| - 1] + [s[|s| - 1]];
      TrimKeeps(s[1..], c, x);
      TrimKeeps(s[..|s| - 1], c, x);
    }
  }

  function Repeat(c: char, n: nat): (s: string)
    ensures |s| == n
  {
    seq(n, _ => c)
  }

  /** The text neither begins nor ends with the character. */
  predicate Bare(t: string, c: char) {
    |t| > 0 ==> t[0] != c && t[|t| - 1] != c
  }

  lemma {:induction false} TrimLeftOf(n: nat, t: string, c: char)
    requires |t| > 0 ==> t[0] != c
    ensures TrimLeft(Repeat(c, n) + t, c) == t
  {
    var s := Repeat(c, n) + t;
    if n == 0 {
      assert s == t;
    } else {
      assert s[1..] == Repeat(c, n - 1) + t;
      TrimLeftOf(n - 1, t, c);
    }
  }

  lemma {:induction false} TrimRightOf(t: string, n: nat, c: char)
    requires |t| > 0 ==> t[|t| - 1] != c
    ensures TrimRight(t + Repeat(c, n), c) == t
  {
    var s := t + Repeat(c, n);
    if n == 0 {
      assert s == t;
    } else {
      assert s[..|s| - 1] == t + Repeat(c, n - 1);
      TrimRightOf(t, n - 1, c);
    }
  }

  /** Trimming takes away what surrounds a bare text, and nothing else. */
  lemma TrimOf(i: nat, t: string, j: nat, c: char)
    requires Bare(t, c)
    ensures Trim(Repeat(c, i) + t + Repeat(c, j), c) == t
  {
    var s := Repeat(c, i) + t + Repeat(c, j);
    if |t| == 0 {
      assert s == Repeat(c, i + j) + t;
      TrimLeftOf(i + j, t, c);
    } else {
      assert s == Repeat(c, i) + (t + Repeat(c, j));
      TrimLeftOf(i, t + Repeat(c, j), c);
      TrimRightOf(t, j, c);
    }
  }

  lemma TrimLeftSplits(s: string, c: char) returns (i: nat)
    ensures i <= |s| && s == Repeat(c, i) + s[i..] && TrimLeft(s, c) == s[i..]
    ensures i < |s| ==> s[i] != c
  {
    i := 0;
    while i < |s| && s[i] == c
      invariant i <= |s| && TrimLeft(s, c) == TrimLeft(s[i..], c)
      invariant s[..i] == Repeat(c, i)
    {
      assert s[i..][1..] == s[i + 1..];
      i := i + 1;
    }
    assert s == s[..i] + s[i..];
  }

  lemma TrimRightSplits(s: string, c: char) returns (j: nat)
    ensures j <= |s| && s == s[..|s| - j] + Repeat(c, j) && TrimRight(s, c) == s[..|s| - j]
    ensures j < |s| ==> s[|s| - j - 1] != c
  {
    var n := |s|;
    assert s[..n] == s;
    while n > 0 && s[n - 1] == c
      invariant n <= |s| && TrimRight(s, c) == TrimRight(s[..n], c)
      invariant s[n..] == Repeat(c, |s| - n)
    {
      assert s[..n][..n - 1] == s[..n - 1];
      assert s[n - 1..] == [c] + s[n..];
      n := n - 1;
    }
    assert s == s[..n] + s[n..];
    j := |s| - n;
  }

  /** Every text is its trimmed form, which is bare, with such characters around it. */
  lemma TrimSurrounds(s: string, c: char) returns (i: nat, j: nat)
    ensures s == Repeat(c, i) + Trim(s, c) + Repeat(c, j) && Bare(Trim(s, c), c)
  {
    i := TrimLeftSplits(s, c);
    var t := s[i..];
    j := TrimRightSplits(t, c);
    assert t == Trim(s, c) + Repeat(c, j);
  }

  // ---------- decimal numerals ----------

  predicate IsDigit(c: char) {
    '0' <= c <= '9'
  }

  predicate AllDigits(s: string) {
    forall c | c in s :: IsDigit(c)
  }

  function DecValue(s: string): nat
    requires AllDigits(s)
  {
    if |s| == 0 then 0
    else
      assert IsDigit(s[|s| - 1]);
      DecValue(s[..|s| - 1]) * 10 + (s[|s| - 1] as int - '0' as int)
  }

  function Dec(n: nat): (s: string)
    ensures |s| >= 1
  {
    var d := ['0' + (n % 10) as char];
    if n < 10 then d else Dec(n / 10) + d
  }

  lemma {:induction false} DecRoundTrip(n: nat)
    ensures AllDigits(Dec(n)) && DecValue(Dec(n)) == n
  {
    var s := Dec(n);
    if n < 10 {
      assert s[..0] == "";
    } else {
      DecRoundTrip(n / 10);
      assert s[..|s| - 1] == Dec(n / 10);
    }
  }

  // ---------- dotted-decimal addresses ----------

  /** The digits, and what each contributes to a numeral. */
  lemma DigitsExactly(t: string, k: nat)
    requires AllDigits(t) && k < 10
    ensures forall c: char :: IsDigit(c) <==> c in "0123456789"
    ensures AllDigits(t + ["0123456789"[k]]) && DecValue(t + ["0123456789"[k]]) == 10 * DecValue(t) + k
  {
    var digits := "0123456789";
    assert digits[k] == '0' + k as char;
    forall c: char
      ensures IsDigit(c) <==> c in digits
    {
      if IsDigit(c) {
        assert digits[c as int - '0' as int] == c;
      }
    }
    var s := t + [digits[k]];
    assert s[..|s| - 1] == t;
  }

  /** A printed numeral has no needless zeros, so with the round trip it is determined. */
  lemma {:induction false} DecNoLeadingZero(n: nat)
    ensures |Dec(n)| == 1 || Dec(n)[0] != '0'
    ensures n > 0 ==> Dec(n)[0] != '0'
  {
    if n >= 10 {
      DecNoLeadingZero(n / 10);
    }
  }

  predicate IsOctet(t: string) {
    |t| > 0 && AllDigits(t) && DecValue(t) <= 255
  }

  function QuadAddr(a: byte, b: byte, c: byte, d: byte): (v: Addr)
    ensures Quad(v) == [a, b, c, d]
  {
    var q: IP := [a, b, c, d];
    ValueFour(q);
    QuadValue(Value(q));
    ValueInjective(Quad(Value(q)), q);
    Value(q)
  }

  /** The address a dotted-decimal text denotes. Like Go 1.11, leading zeros are accepted. */
  function ParseAddr(s: string): Option<Addr> {
    var p := Split(s, '.');
    if |p| == 4 && IsOctet(p[0]) && IsOctet(p[1]) && IsOctet(p[2]) && IsOctet(p[3])
    then Some(QuadAddr(DecValue(p[0]), DecValue(p[1]), DecValue(p[2]), DecValue(p[3])))
    else None
  }

  /** net.ParseIP on IPv4 text: the 16-byte mapped form, or nil. */
  function ParseIP(s: string): (ip: IP)
    ensures ip == NIL_IP || IsMapped(ip)
    ensures ip == NIL_IP <==> ParseAddr(s) == None
  {
    match ParseAddr(s)
    case None => NIL_IP
    case Some(v) => Mapped(v)
  }

  function Dotted(a: string, b: string, c: string, d: string): string {
    a + "." + (b + "." + (c + "." + d))
  }

  function AddrText(v: Addr): string {
    var q := Quad(v);
    Dotted(Dec(q[0]), Dec(q[1]), Dec(q[2]), Dec(q[3]))
  }

  /** net.IP.String on nil, 4-byte and IPv4-mapped addresses. */
  function IPString(ip: IP): string
    requires ip == NIL_IP || |ip| == 4 || IsMapped(ip)
  {
    if ip == NIL_IP then "<nil>" else AddrText(AddrOf(ip))
  }

  lemma DecFree(n: nat, c: char)
    requires !IsDigit(c)
    ensures c !in Dec(n)
  {
    DecRoundTrip(n);
  }

  lemma DottedSplit(a: string, b: string, c: string, d: string)
    requires '.' !in a && '.' !in b && '.' !in c && '.' !in d
    ensures Split(Dotted(a, b, c, d), '.') == [a, b, c, d]
  {
    SplitFree(d, '.');
    SplitFirst(c, d, '.');
    SplitFirst(b, c + "." + d, '.');
    SplitFirst(a, b + "." + (c + "." + d), '.');
    assert a + ['.'] + (b + "." + (c + "." + d)) == Dotted(a, b, c, d);
  }

  /** s is four octets in dotted-decimal form, and v the address they make up. */
  predicate IsDottedQuad(s: string, v: Addr, a: string, b: string, c: string, d: string) {
    && s == a + "." + b + "." + c + "." + d
    && AllDigits(a) && AllDigits(b) && AllDigits(c) && AllDigits(d)
    && |a| > 0 && |b| > 0 && |c| > 0 && |d| > 0
    && DecValue(a) <= 255 && DecValue(b) <= 255 && DecValue(c) <= 255 && DecValue(d) <= 255
    && v == DecValue(a) * 0x100_0000 + DecValue(b) * 0x1_0000 + DecValue(c) * 0x100 + DecValue(d)
  }

  /** A text parses exactly if it is such a form, of any number of leading zeros. */
  lemma ParseAddrExactly(s: string, v: Addr)
    ensures ParseAddr(s) == Some(v) <==> exists a, b, c, d :: IsDottedQuad(s, v, a, b, c, d)
  {
    if ParseAddr(s) == Some(v) {
      var p := Split(s, '.');
      JoinSplit(s, '.');
      JoinFour(p, '.');
      QuadAddrValue(DecValue(p[0]), DecValue(p[1]), DecValue(p[2]), DecValue(p[3]));
      assert IsDottedQuad(s, v, p[0], p[1], p[2], p[3]);
    }
    forall a, b, c, d | IsDottedQuad(s, v, a, b, c, d)
      ensures ParseAddr(s) == Some(v)
    {
      assert s == Dotted(a, b, c, d);
      DottedSplit(a, b, c, d);
      QuadAddrValue(DecValue(a), DecValue(b), DecValue(c), DecValue(d));
    }
  }

  lemma JoinFour(p: seq<string>, sep: char)
    requires |p| == 4
    ensures Join(p, sep) == p[0] + [sep] + p[1] + [sep] + p[2] + [sep] + p[3]
  {
    var q, r, t := p[1..], p[2..], p[3..];
    assert q[1..] == r && r[1..] == t;
    assert Join(r, sep) == p[2] + [sep] + p[3];
    assert Join(q, sep) == p[1] + [sep] + Join(r, sep);
    assert Join(p, sep) == p[0] + [sep] + Join(q, sep);
  }

  lemma QuadAddrValue(a: byte, b: byte, c: byte, d: byte)
    ensures QuadAddr(a, b, c, d) == a as int * 0x100_0000 + b as int * 0x1_0000 + c as int * 0x100 + d as int
  {
    var v := QuadAddr(a, b, c, d);
    QuadValue(v);
    ValueFour(Quad(v));
  }

  /** The printed form of an address is its four bytes as numerals, without needless zeros. */
  lemma AddrTextOctets(v: Addr)
    ensures Split(AddrText(v), '.')
      == [Dec(v / 0x100_0000), Dec(v / 0x1_0000 % 0x100), Dec(v / 0x100 % 0x100), Dec(v % 0x100)]
  {
    var q := Quad(v);
    DecFree(q[0], '.');
    DecFree(q[1], '.');
    DecFree(q[2], '.');
    DecFree(q[3], '.');
    DottedSplit(Dec(q[0]), Dec(q[1]), Dec(q[2]), Dec(q[3]));
    QuadValue(v);
    ValueFour(q);
    QuadBytes(v, q[0], q[1], q[2], q[3]);
  }

  lemma QuadBytes(v: Addr, a: byte, b: byte, c: byte, d: byte)
    requires v == a as int * 0x100_0000 + b as int * 0x1_0000 + c as int * 0x100 + d as int
    ensures a == v / 0x100_0000 && b == v / 0x1_0000 % 0x100 && c == v / 0x100 % 0x100 && d == v % 0x100
  {
    assert v / 0x100 == a as int * 0x1_0000 + b as int * 0x100 + c as int;
    assert v / 0x1_0000 == a as int * 0x100 + b as int;
  }

  /** A text that parses is made of digits and dots only. */
  lemma ParsedFree(s: string, c: char)
    requires ParseAddr(s).Some? && !IsDigit(c) && c != '.'
    ensures c !in s
  {
    var v := ParseAddr(s).value;
    ParseAddrExactly(s, v);
    var x, y, z, w :| IsDottedQuad(s, v, x, y, z, w);
  }

  /** Printing an address and parsing it gives the address back. */
  lemma AddrTextRoundTrip(v: Addr)
    ensures ParseAddr(AddrText(v)) == Some(v)
    ensures ParseIP(AddrText(v)) == Mapped(v)
  {
    var q := Quad(v);
    forall i | 0 <= i < 4
      ensures IsOctet(Dec(q[i])) && DecValue(Dec(q[i])) == q[i] && '.' !in Dec(q[i])
    {
      DecRoundTrip(q[i]);
    }
    DottedSplit(Dec(q[0]), Dec(q[1]), Dec(q[2]), Dec(q[3]));
    var w := QuadAddr(q[0], q[1], q[2], q[3]);
    QuadValue(v);
    QuadValue(w);
    assert Quad(w) == q;
  }

  /** Address text is made of digits and dots only. */
  lemma AddrTextFree(v: Addr, c: char)
    requires !IsDigit(c) && c != '.'
    ensures c !in AddrText(v)
  {
    var q := Quad(v);
    DecFree(q[0], c);
    DecFree(q[1], c);
    DecFree(q[2], c);
    DecFree(q[3], c);
  }

  lemma AddrTextInjective(v: Addr, w: Addr)
    requires AddrText(v) == AddrText(w)
    ensures v == w
  {
    AddrTextRoundTrip(v);
    AddrTextRoundTrip(w);
  }

  /** A text that printing its own address reproduces. */
  predicate Canonical(t: string) {
    match ParseAddr(t)
    case None => false
    case Some(v) => AddrText(v) == t
  }

  /** The same address with a leading zero in its last octet. */
  function PaddedText(v: Addr): string {
    var q := Quad(v);
    Dotted(Dec(q[0]), Dec(q[1]), Dec(q[2]), "0" + Dec(q[3]))
  }

  lemma {:induction false} LeadingZero(t: string)
    requires AllDigits(t)
    ensures AllDigits("0" + t) && DecValue("0" + t) == DecValue(t)
  {
    var u := "0" + t;
    if |t| == 0 {
      assert u[..0] == "";
    } else {
      LeadingZero(t[..|t| - 1]);
      assert u[..|u| - 1] == "0" + t[..|t| - 1];
    }
  }

  /** Every address has a second text that parses to it and that printing does not give back. */
  lemma PaddedIsNotCanonical(v: Addr)
    ensures ParseAddr(PaddedText(v)) == Some(v)
    ensures !Canonical(PaddedText(v)) && PaddedText(v) != AddrText(v)
    ensures Canonical(AddrText(v))
  {
    var q := Quad(v);
    forall i | 0 <= i < 4
      ensures IsOctet(Dec(q[i])) && DecValue(Dec(q[i])) == q[i] && '.' !in Dec(q[i])
    {
      DecRoundTrip(q[i]);
    }
    LeadingZero(Dec(q[3]));
    DottedSplit(Dec(q[0]), Dec(q[1]), Dec(q[2]), "0" + Dec(q[3]));
    DottedSplit(Dec(q[0]), Dec(q[1]), Dec(q[2]), Dec(q[3]));
    var w := QuadAddr(q[0], q[1], q[2], q[3]);
    QuadValue(v);
    QuadValue(w);
    assert Split(PaddedText(v), '.')[3] != Split(AddrText(v), '.')[3];
    AddrTextRoundTrip(v);
  }

  // ---------- CIDR notation (section 3.1 of RFC 4632) ----------

  datatype CIDR = CIDR(addr: Addr, bits: nat)

  /** net.ParseCIDR on IPv4 text. */
  function ParseCIDR(s: string): (c: Option<CIDR>)
    ensures c.Some? ==> c.value.bits <= 32
  {
    var p := Split(s, '/');
    if |p| != 2 || |p[1]| == 0 || !AllDigits(p[1]) || DecValue(p[1]) > 32 then None
    else
      match ParseAddr(p[0])
      case None => None
      case Some(v) => Some(CIDR(v, DecValue(p[1])))
  }

  function CIDRText(v: Addr, bits: nat): string {
    AddrText(v) + "/" + Dec(bits)
  }

  lemma CIDRTextRoundTrip(v: Addr, bits: nat)
    requires bits <= 32
    ensures ParseCIDR(CIDRText(v, bits)) == Some(CIDR(v, bits))
  {
    AddrTextRoundTrip(v);
    AddrTextFree(v, '/');
    DecRoundTrip(bits);
    SplitFirst(AddrText(v), Dec(bits), '/');
    SplitFree(Dec(bits), '/');
    assert CIDRText(v, bits) == AddrText(v) + ['/'] + Dec(bits);
  }

  /** s is an address and a prefix length of at most 32 with a slash between them. */
  predicate IsSlashForm(s: string, v: Addr, n: nat, a: string, b: string) {
    s == a + "/" + b && ParseAddr(a) == Some(v) && b != "" && AllDigits(b) && DecValue(b) == n <= 32
  }

  lemma ParseCIDRExactly(s: string, v: Addr, n: nat)
    ensures ParseCIDR(s) == Some(CIDR(v, n)) <==> exists a, b :: IsSlashForm(s, v, n, a, b)
  {
    if ParseCIDR(s) == Some(CIDR(v, n)) {
      var p := Split(s, '/');
      JoinSplit(s, '/');
      assert p[1..] == [p[1]];
      assert IsSlashForm(s, v, n, p[0], p[1]);
    }
    forall a, b | IsSlashForm(s, v, n, a, b)
      ensures ParseCIDR(s) == Some(CIDR(v, n))
    {
      ParsedFree(a, '/');
      SplitFirst(a, b, '/');
      SplitFree(b, '/');
      assert s == a + ['/'] + b;
    }
  }

  lemma CIDRTextIsNoAddr(v: Addr, bits: nat)
    ensures ParseAddr(CIDRText(v, bits)).None? && CIDRText(v, bits) != ""
  {
    if ParseAddr(CIDRText(v, bits)).Some? {
      ParsedFree(CIDRText(v, bits), '/');
    }
  }
}
