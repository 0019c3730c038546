/** IPv4 addresses, prefixes and address ranges as text: the two parser and
    printer pairs of pkg/ip/ip.go, with the parts of net/netip, strings and
    strconv they call. Each parser is characterised by its printer: it accepts
    exactly the texts the printer produces. */
module IpText {
  import opened Results
  import opened Octets
  import opened Masks
  import opened AddrRanges
  import opened Arithmetic

  // ---- Decimal numbers ----

  predicate IsDigit(c: char) {
    '0' <= c <= '9'
  }

  function DigitOf(c: char): (d: nat)
    requires IsDigit(c)
    ensures d < 10
  {
    (c - '0') as int
  }

  function DigitChar(d: nat): char
    requires d < 10
  {
    '0' + d as char
  }

  function PrintNat(n: nat): string {
    if n < 10 then [DigitChar(n)] else PrintNat(n / 10) + [DigitChar(n % 10)]
  }

  /** A decimal number without sign, leading zero or empty text. */
  function ParseNat(s: string): Option<nat> {
    var n := |s| - 1;
    if s == "" || !IsDigit(s[n]) then None
    else if n == 0 then Some(DigitOf(s[n]))
    else match ParseNat(s[..n])
      case Some(v) => if v == 0 then None else Some(10 * v + DigitOf(s[n]))
      case None => None
  }

  lemma {:induction false} ParsePrintedNat(n: nat)
    ensures ParseNat(PrintNat(n)) == Some(n)
  {
    if n >= 10 {
      var front := PrintNat(n / 10);
      ParsePrintedNat(n / 10);
      assert (front + [DigitChar(n % 10)])[..|front|] == front;
      assert front != "";
    }
  }

  lemma {:induction false} PrintParsedNat(s: string)
    ensures match ParseNat(s) case Some(n) => s == PrintNat(n) case None => true
  {
    var k := |s| - 1;
    if k == 0 {
      assert s == [s[0]];
    } else if k > 0 {
      PrintParsedNat(s[..k]);
      assert s == s[..k] + [s[k]];
      if ParseNat(s).Some? {
        OneMoreDigit(ParseNat(s[..k]).value, s[k]);
      }
    }
  }

  lemma OneMoreDigit(v: nat, c: char)
    requires v > 0 && IsDigit(c)
    ensures PrintNat(10 * v + DigitOf(c)) == PrintNat(v) + [c]
  {
  }

  /** A number is parsed from exactly its own text. */
  lemma NatText(s: string, n: nat)
    ensures ParseNat(s) == Some(n) <==> s == PrintNat(n)
  {
    ParsePrintedNat(n);
    PrintParsedNat(s);
  }

  /** What a printed number consists of. */
  lemma {:induction false} PrintedDigits(n: nat)
    ensures forall i :: 0 <= i < |PrintNat(n)| ==> IsDigit(PrintNat(n)[i])
  {
    if n >= 10 { PrintedDigits(n / 10); }
  }

  // ---- Splitting at a separator ----

  predicate Lacks(s: string, c: char) {
    c !in s
  }

  /** strings.Split for a one-character separator. */
  function Split(s: string, c: char): (parts: seq<string>)
    ensures parts != []
  {
    if s == "" then [""]
    else
      var rest := Split(s[1..], c);
      if s[0] == c then [""] + rest else [[s[0]] + rest[0]] + rest[1..]
  }

  function Join(parts: seq<string>, c: char): string
    requires parts != []
  {
    if |parts| == 1 then parts[0] else parts[0] + [c] + Join(parts[1..], c)
  }

  /** Splitting is the one way to write s as parts without the separator. */
  lemma {:induction false} SplitJoin(s: string, c: char, parts: seq<string>)
    requires parts != []
    ensures Split(s, c) == parts <==> s == Join(parts, c) && forall k :: 0 <= k < |parts| ==> Lacks(parts[k], c)
  {
    JoinOfSplit(s, c);
    if s == Join(parts, c) && forall k :: 0 <= k < |parts| ==> Lacks(parts[k], c) {
      SplitOfJoin(parts, c);
    }
  }

  lemma {:induction false} JoinOfSplit(s: string, c: char)
    ensures Join(Split(s, c), c) == s
    ensures forall k :: 0 <= k < |Split(s, c)| ==> Lacks(Split(s, c)[k], c)
  {
    if s != "" {
      var rest := Split(s[1..], c);
      JoinOfSplit(s[1..], c);
      assert s == [s[0]] + s[1..];
      if s[0] == c {
        assert ([""] + rest)[1..] == rest;
      } else {
        assert ([[s[0]] + rest[0]] + rest[1..])[1..] == rest[1..];
      }
    }
  }

  lemma {:induction false} SplitOfJoin(parts: seq<string>, c: char)
    requires parts != [] && forall k :: 0 <= k < |parts| ==> Lacks(parts[k], c)
    ensures Split(Join(parts, c), c) == parts
    decreases |Join(parts, c)|
  {
    var s := Join(parts, c);
    if parts[0] != "" {
      var fewer := [parts[0][1..]] + parts[1..];
      assert fewer[1..] == parts[1..];
      assert s == [parts[0][0]] + Join(fewer, c);
      SplitOfJoin(fewer, c);
      assert [parts[0][0]] + fewer[0] == parts[0];
      assert s[1..] == Join(fewer, c);
    } else if |parts| > 1 {
      assert s == [c] + Join(parts[1..], c);
      SplitOfJoin(parts[1..], c);
      assert parts == [""] + parts[1..];
    } else {
      assert parts == [""];
    }
  }

  /** The position of the last c, as strings.LastIndexByte finds it. */
  function LastIndex(s: string, c: char): (k: int)
    ensures -1 <= k < |s|
    ensures k >= 0 ==> s[k] == c
  {
    if s == "" then -1 else if s[|s| - 1] == c then |s| - 1 else LastIndex(s[..|s| - 1], c)
  }

  lemma {:induction false} LastIndexOf(s: string, t: string, c: char)
    requires Lacks(t, c)
    ensures LastIndex(s + [c] + t, c) == |s|
  {
    if t != "" {
      var n := |t| - 1;
      assert (s + [c] + t)[..|s| + 1 + n] == s + [c] + t[..n];
      LastIndexOf(s, t[..n], c);
    }
  }

  // ---- Addresses and prefixes (net/netip) ----

  /** The octets that four decimal fields stand for. */
  function ParseOctets(fields: seq<string>): Option<seq<Octet>> {
    if fields == [] then Some([])
    else
      match (ParseNat(fields[0]), ParseOctets(fields[1..]))
      case (Some(v), Some(rest)) => if v <= 255 then Some([v] + rest) else None
      case _ => None
  }

  function PrintOctets(octets: seq<Octet>): (fields: seq<string>)
    ensures |fields| == |octets|
  {
    if octets == [] then [] else [PrintNat(octets[0])] + PrintOctets(octets[1..])
  }

  function ParseAddr(s: string): Option<Addr> {
    var fields := Split(s, '.');
    if |fields| != 4 then None
    else match ParseOctets(fields)
      case Some(octets) => if |octets| == 4 then Some(AddrFrom4(octets)) else None
      case None => None
  }

  function PrintAddr(a: Addr): string {
    Join(PrintOctets(As4(a)), '.')
  }

  function ParsePrefix(s: string): Option<Prefix> {
    var slash := LastIndex(s, '/');
    if slash < 0 then None
    else match (ParseAddr(s[..slash]), ParseNat(s[slash + 1..]))
      case (Some(a), Some(b)) => if b <= 32 then Some(Prefix(a, b)) else None
      case _ => None
  }

  function PrintPrefix(p: Prefix): string {
    PrintAddr(p.addr) + "/" + PrintNat(p.bits)
  }

  lemma {:induction false} OctetsText(fields: seq<string>, octets: seq<Octet>)
    ensures ParseOctets(fields) == Some(octets) <==> fields == PrintOctets(octets)
  {
    if fields != [] && octets != [] {
      NatText(fields[0], octets[0]);
      OctetsText(fields[1..], octets[1..]);
      assert fields == [fields[0]] + fields[1..];
      assert octets == [octets[0]] + octets[1..];
      assert PrintOctets(octets)[1..] == PrintOctets(octets[1..]);
      if ParseOctets(fields) == Some(octets) {
        assert ParseNat(fields[0]).value == octets[0];
        assert ParseOctets(fields[1..]).value == octets[1..];
      }
    }
  }

  /** c occurs in no number. */
  lemma {:induction false} OctetsLack(octets: seq<Octet>, c: char)
    requires !IsDigit(c)
    ensures forall k :: 0 <= k < |octets| ==> Lacks(PrintOctets(octets)[k], c)
  {
    if octets != [] {
      PrintedDigits(octets[0]);
      OctetsLack(octets[1..], c);
    }
  }

  lemma {:induction false} JoinLacks(parts: seq<string>, sep: char, c: char)
    requires parts != [] && c != sep && forall k :: 0 <= k < |parts| ==> Lacks(parts[k], c)
    ensures Lacks(Join(parts, sep), c)
  {
    if |parts| > 1 { JoinLacks(parts[1..], sep, c); }
  }

  lemma AddrLacks(a: Addr, c: char)
    requires !IsDigit(c) && c != '.'
    ensures Lacks(PrintAddr(a), c)
  {
    OctetsLack(As4(a), c);
    JoinLacks(PrintOctets(As4(a)), '.', c);
  }

  lemma PrefixLacks(p: Prefix, c: char)
    requires !IsDigit(c) && c != '.' && c != '/'
    ensures Lacks(PrintPrefix(p), c)
  {
    AddrLacks(p.addr, c);
    PrintedDigits(p.bits);
  }

  /** An address is parsed from exactly its own text. */
  lemma AddrText(s: string, a: Addr)
    ensures ParseAddr(s) == Some(a) <==> s == PrintAddr(a)
  {
    OctetsLack(As4(a), '.');
    SplitJoin(s, '.', PrintOctets(As4(a)));
    OctetsText(Split(s, '.'), As4(a));
    As4Inverse(a);
    if ParseAddr(s) == Some(a) {
      var o := ParseOctets(Split(s, '.')).value;
      assert o == [o[0], o[1], o[2], o[3]];
      As4Unique(a, o[0], o[1], o[2], o[3]);
    }
  }

  /** A text is parsed by cutting it at its last slash. */
  lemma ParsedAtSlash(addr: string, bits: string)
    requires Lacks(bits, '/')
    ensures ParsePrefix(addr + "/" + bits) ==
      match (ParseAddr(addr), ParseNat(bits))
      case (Some(a), Some(b)) => if b <= 32 then Some(Prefix(a, b)) else None
      case _ => None
  {
    var s := addr + "/" + bits;
    LastIndexOf(addr, bits, '/');
    assert s[..|addr|] == addr && s[|addr| + 1..] == bits;
  }

  lemma ParsePrintedPrefix(p: Prefix)
    ensures ParsePrefix(PrintPrefix(p)) == Some(p)
  {
    PrintedDigits(p.bits);
    ParsedAtSlash(PrintAddr(p.addr), PrintNat(p.bits));
    AddrText(PrintAddr(p.addr), p.addr);
    NatText(PrintNat(p.bits), p.bits);
  }

  lemma PrintParsedPrefix(s: string)
    ensures match ParsePrefix(s) case Some(p) => s == PrintPrefix(p) case None => true
  {
    var slash := LastIndex(s, '/');
    if ParsePrefix(s).Some? {
      var p := ParsePrefix(s).value;
      AddrText(s[..slash], p.addr);
      NatText(s[slash + 1..], p.bits);
      assert s == s[..slash] + "/" + s[slash + 1..];
    }
  }

  /** A prefix is parsed from exactly its own text. */
  lemma PrefixText(s: string, p: Prefix)
    ensures ParsePrefix(s) == Some(p) <==> s == PrintPrefix(p)
  {
    ParsePrintedPrefix(p);
    PrintParsedPrefix(s);
  }

  // ---- Ranges as users write them ----

  datatype TextError = BadFormat | NotTwoParts | BadLower | BadUpper | BadRange(error: RangeError)

  function Built(lower: Prefix, upper: Prefix): Result<AddrRange, TextError> {
    match AddrRangeFromPrefixes(lower, upper)
    case Ok(ran) => Ok(ran)
    case Err(e) => Err(BadRange(e))
  }

  function ParseAddrRange(s: string): Result<AddrRange, TextError> {
    var parts := Split(s, '-');
    if |parts| != 2 then Err(NotTwoParts)
    else match (ParseAddr(parts[0]), ParsePrefix(parts[1]))
      case (None, _) => Err(BadLower)
      case (_, None) => Err(BadUpper)
      case (Some(lower), Some(upper)) => Built(Prefix(lower, upper.bits), upper)
  }

  function String(ran: AddrRange): string {
    PrintAddr(ran.lower) + "-" + PrintPrefix(ran.UpPrefix())
  }

  /** Parser and printer undo each other: a range is parsed from exactly its own
      text, and only if its bounds lie in order in one subnet. */
  lemma RangeText(s: string, ran: AddrRange)
    ensures ParseAddrRange(s) == Ok(ran) <==> ran.Valid() && s == String(ran)
  {
    var texts := [PrintAddr(ran.lower), PrintPrefix(ran.UpPrefix())];
    assert Join(texts, '-') == String(ran);
    AddrLacks(ran.lower, '-');
    PrefixLacks(ran.UpPrefix(), '-');
    SplitJoin(s, '-', texts);
    RangeOfItsBounds(ran);
    var parts := Split(s, '-');
    if |parts| == 2 {
      AddrText(parts[0], ran.lower);
      PrefixText(parts[1], ran.UpPrefix());
      assert parts == [parts[0], parts[1]];
    }
  }

  // ---- Ranges as the database returns them ----

  function ToDB(ran: AddrRange): string {
    "(" + PrintPrefix(ran.LoPrefix()) + "," + PrintPrefix(ran.UpPrefix()) + ")"
  }

  /** A bound without a mask gets the full one. */
  function WithMask(part: string): string {
    if '/' in part then part else part + "/32"
  }

  ghost function RangeOfParts(parts: seq<string>): Result<AddrRange, TextError> {
    if |parts| != 2 then Err(NotTwoParts)
    else match (ParsePrefix(WithMask(parts[0])), ParsePrefix(WithMask(parts[1])))
      case (None, _) => Err(BadLower)
      case (_, None) => Err(BadUpper)
      case (Some(lower), Some(upper)) => Built(lower, upper)
  }

  predicate Bracketed(s: string) {
    |s| >= 2 && s[0] == '(' && s[|s| - 1] == ')'
  }

  ghost function RangeOfDB(s: string): Result<AddrRange, TextError> {
    if Bracketed(s) then RangeOfParts(Split(s[1..|s| - 1], ',')) else Err(BadFormat)
  }

  method AddrRangeFromDB(s: string) returns (r: Result<AddrRange, TextError>)
    ensures r == RangeOfDB(s)
  {
    if !Bracketed(s) {
      return Err(BadFormat);
    }
    var parts := Split(s[1..|s| - 1], ',');
    if |parts| != 2 {
      return Err(NotTwoParts);
    }
    ghost var given := parts;
    for i := 0 to 2
      invariant |parts| == 2
      invariant forall k :: 0 <= k < 2 ==> parts[k] == if k < i then WithMask(given[k]) else given[k]
    {
      if '/' !in parts[i] {
        parts := parts[i := parts[i] + "/32"];
      }
    }
    var lower := ParsePrefix(parts[0]);
    if lower.None? {
      return Err(BadLower);
    }
    var upper := ParsePrefix(parts[1]);
    if upper.None? {
      return Err(BadUpper);
    }
    r := Built(lower.value, upper.value);
  }

  /** The texts of a bound: its own, and its bare address when the mask is full. */
  predicate BoundText(t: string, p: Prefix) {
    t == PrintPrefix(p) || (p.bits == 32 && t == PrintAddr(p.addr))
  }

  lemma BoundIsText(part: string, p: Prefix)
    ensures ParsePrefix(WithMask(part)) == Some(p) <==> BoundText(part, p)
  {
    PrefixText(part, p);
    AddrText(part, p.addr);
    AddrLacks(p.addr, '/');
    assert PrintPrefix(p)[|PrintAddr(p.addr)|] == '/';
    if '/' !in part {
      ParsedAtSlash(part, "32");
      assert part + "/32" == part + "/" + "32";
      ParsePrintedNat(32);
      assert PrintNat(32) == "32";
    }
  }

  ghost predicate DBText(s: string, ran: AddrRange) {
    exists lower, upper ::
      BoundText(lower, ran.LoPrefix()) && BoundText(upper, ran.UpPrefix()) && s == Bracket(lower, upper)
  }

  function Bracket(lower: string, upper: string): string {
    "(" + lower + "," + upper + ")"
  }

  lemma BoundLacks(t: string, p: Prefix)
    requires BoundText(t, p)
    ensures Lacks(t, ',')
  {
    PrefixLacks(p, ',');
    AddrLacks(p.addr, ',');
  }

  lemma PartsAreBounds(lower: string, upper: string, ran: AddrRange)
    ensures RangeOfParts([lower, upper]) == Ok(ran) <==>
      ran.Valid() && BoundText(lower, ran.LoPrefix()) && BoundText(upper, ran.UpPrefix())
  {
    RangeOfItsBounds(ran);
    BoundIsText(lower, ran.LoPrefix());
    BoundIsText(upper, ran.UpPrefix());
  }

  lemma JoinTwo(lower: string, upper: string, c: char)
    ensures Join([lower, upper], c) == lower + [c] + upper
  {
  }

  /** Splitting what the brackets hold gives two parts exactly when these are the text around one comma. */
  lemma InsideBrackets(s: string, lower: string, upper: string)
    requires Lacks(lower, ',') && Lacks(upper, ',')
    ensures Bracketed(s) && Split(s[1..|s| - 1], ',') == [lower, upper] <==> s == Bracket(lower, upper)
  {
    JoinTwo(lower, upper, ',');
    if Bracketed(s) {
      SplitJoin(s[1..|s| - 1], ',', [lower, upper]);
      assert s == "(" + s[1..|s| - 1] + ")";
    }
    if s == Bracket(lower, upper) {
      assert s[1..|s| - 1] == lower + "," + upper;
    }
  }

  lemma ReadIsStored(s: string, ran: AddrRange)
    requires RangeOfDB(s) == Ok(ran)
    ensures ran.Valid() && DBText(s, ran)
  {
    var parts := Split(s[1..|s| - 1], ',');
    JoinOfSplit(s[1..|s| - 1], ',');
    assert parts == [parts[0], parts[1]];
    PartsAreBounds(parts[0], parts[1], ran);
    InsideBrackets(s, parts[0], parts[1]);
  }

  lemma StoredIsRead(lower: string, upper: string, ran: AddrRange)
    requires ran.Valid() && BoundText(lower, ran.LoPrefix()) && BoundText(upper, ran.UpPrefix())
    ensures RangeOfDB(Bracket(lower, upper)) == Ok(ran)
  {
    BoundLacks(lower, ran.LoPrefix());
    BoundLacks(upper, ran.UpPrefix());
    PartsAreBounds(lower, upper, ran);
    InsideBrackets(Bracket(lower, upper), lower, upper);
  }

  /** Reading a range back from the database gives that range exactly on the
      texts ToDB writes, with "/32" kept or dropped on either bound. */
  lemma StoredRangeText(s: string, ran: AddrRange)
    ensures RangeOfDB(s) == Ok(ran) <==> ran.Valid() && DBText(s, ran)
  {
    if RangeOfDB(s) == Ok(ran) {
      ReadIsStored(s, ran);
    }
    if ran.Valid() && DBText(s, ran) {
      var lower, upper :|
        BoundText(lower, ran.LoPrefix()) && BoundText(upper, ran.UpPrefix()) && s == Bracket(lower, upper);
      StoredIsRead(lower, upper, ran);
    }
  }

  lemma ReadingInvertsToDB(ran: AddrRange)
    requires ran.Valid()
    ensures RangeOfDB(ToDB(ran)) == Ok(ran)
  {
    assert ToDB(ran) == Bracket(PrintPrefix(ran.LoPrefix()), PrintPrefix(ran.UpPrefix()));
    assert DBText(ToDB(ran), ran);
    StoredRangeText(ToDB(ran), ran);
  }

  // ---- Which error a pair of bounds gets ----

  /** What becomes of two bounds, said of their numbers. */
  function Verdict(lower: Prefix, upper: Prefix): Result<AddrRange, TextError> {
    if lower.bits != upper.bits then Err(BadRange(DifferentMasks))
    else if lower.addr > upper.addr then Err(BadRange(WrongOrder))
    else if BlockStart(lower.addr, lower.bits) == BlockStart(upper.addr, upper.bits) then
      Ok(AddrRange(lower.addr, upper.addr, lower.bits))
    else Err(BadRange(DifferentSubnets))
  }

  lemma BuiltIsVerdict(lower: Prefix, upper: Prefix)
    ensures Built(lower, upper) == Verdict(lower, upper)
  {
    SubnetIsBlock(lower);
    SubnetIsBlock(upper);
  }

  /** Any two bounds that are written as a range get that verdict. */
  lemma WrittenRangeVerdict(lower: Addr, upper: Prefix)
    ensures ParseAddrRange(PrintAddr(lower) + "-" + PrintPrefix(upper)) == Verdict(Prefix(lower, upper.bits), upper)
  {
    AddrLacks(lower, '-');
    PrefixLacks(upper, '-');
    JoinTwo(PrintAddr(lower), PrintPrefix(upper), '-');
    SplitJoin(PrintAddr(lower) + "-" + PrintPrefix(upper), '-', [PrintAddr(lower), PrintPrefix(upper)]);
    AddrText(PrintAddr(lower), lower);
    PrefixText(PrintPrefix(upper), upper);
    BuiltIsVerdict(Prefix(lower, upper.bits), upper);
  }

  /** So do any two bounds that come from the database. */
  lemma StoredRangeVerdict(lower: Prefix, upper: Prefix)
    ensures RangeOfDB(Bracket(PrintPrefix(lower), PrintPrefix(upper))) == Verdict(lower, upper)
  {
    PrefixLacks(lower, ',');
    PrefixLacks(upper, ',');
    InsideBrackets(Bracket(PrintPrefix(lower), PrintPrefix(upper)), PrintPrefix(lower), PrintPrefix(upper));
    BoundIsText(PrintPrefix(lower), lower);
    BoundIsText(PrintPrefix(upper), upper);
    BuiltIsVerdict(lower, upper);
  }

  // ---- Texts by their characters ----

  const DECIMAL := "0123456789"

  /** The text of a number of up to three digits. */
  lemma SmallNumberText(n: nat)
    requires n < 1000
    ensures PrintNat(n) == if n < 10 then [DECIMAL[n]] else if n < 100 then TwoDigits(n) else ThreeDigits(n)
  {
    if n < 10 {
      DigitText(n);
    } else if n < 100 {
      TwoDigitText(n);
    } else {
      ThreeDigitText(n);
    }
  }

  lemma ThreeDigitText(n: nat)
    requires 100 <= n < 1000
    ensures PrintNat(n) == ThreeDigits(n)
  {
    var tens := n / 10;
    assert tens / 10 == n / 100;
    TwoDigitText(tens);
    DigitText(n % 10);
    assert PrintNat(n) == TwoDigits(tens) + [DECIMAL[n % 10]];
  }

  function TwoDigits(n: nat): string
    requires n < 100
  {
    [DECIMAL[n / 10], DECIMAL[n % 10]]
  }

  function ThreeDigits(n: nat): string
    requires n < 1000
  {
    [DECIMAL[n / 100], DECIMAL[n / 10 % 10], DECIMAL[n % 10]]
  }

  lemma TwoDigitText(n: nat)
    requires 10 <= n < 100
    ensures PrintNat(n) == TwoDigits(n)
  {
    DigitText(n / 10);
    DigitText(n % 10);
    assert PrintNat(n / 10) == [DigitChar(n / 10)];
  }

  lemma DigitText(d: nat)
    requires d < 10
    ensures DigitChar(d) == DECIMAL[d] && DigitOf(DECIMAL[d]) == d
  {
  }

  /** The text of an address: its four octets from the highest on, with dots between them. */
  lemma DottedText(a: Addr)
    ensures PrintAddr(a) == PrintNat(a / 0x100_0000) + "." + PrintNat(a / 0x1_0000 % 0x100) + "." +
      PrintNat(a / 0x100 % 0x100) + "." + PrintNat(a % 0x100)
  {
    OctetsAt(a);
    DottedOctets(As4(a));
  }

  lemma DottedOctets(b: seq<Octet>)
    requires |b| == 4
    ensures Join(PrintOctets(b), '.') ==
      PrintNat(b[0]) + "." + PrintNat(b[1]) + "." + PrintNat(b[2]) + "." + PrintNat(b[3])
  {
    assert PrintOctets(b[3..]) == [PrintNat(b[3])] + PrintOctets(b[3..][1..]);
    assert PrintOctets(b[2..]) == [PrintNat(b[2])] + PrintOctets(b[2..][1..]) && b[2..][1..] == b[3..];
    assert PrintOctets(b[1..]) == [PrintNat(b[1])] + PrintOctets(b[1..][1..]) && b[1..][1..] == b[2..];
    assert PrintOctets(b) == [PrintNat(b[0]), PrintNat(b[1]), PrintNat(b[2]), PrintNat(b[3])];
    JoinFour(PrintNat(b[0]), PrintNat(b[1]), PrintNat(b[2]), PrintNat(b[3]));
  }

  lemma OctetsAt(a: Addr)
    ensures As4(a) == [a / 0x100_0000, a / 0x1_0000 % 0x100, a / 0x100 % 0x100, a % 0x100]
  {
    var x: int := a;
    assert x / 0x100 / 0x100 == x / 0x1_0000 && x / 0x1_0000 / 0x100 == x / 0x100_0000;
  }

  lemma JoinFour(w: string, x: string, y: string, z: string)
    ensures Join([w, x, y, z], '.') == w + "." + x + "." + y + "." + z
  {
    assert [w, x, y, z][1..] == [x, y, z] && [x, y, z][1..] == [y, z];
    JoinTwo(y, z, '.');
    assert Join([x, y, z], '.') == x + ['.'] + Join([y, z], '.');
  }

  /** The range of the documentation, 1.2.3.50 to 1.2.3.99 under mask 24, as a user and as
      the database write it. */
  lemma DocumentedRange()
    ensures var ran := AddrRange(0x0102_0332, 0x0102_0363, 24);
      && String(ran) == "1.2.3.50-1.2.3.99/24" && ParseAddrRange("1.2.3.50-1.2.3.99/24") == Ok(ran)
      && ToDB(ran) == "(1.2.3.50/24,1.2.3.99/24)" && RangeOfDB("(1.2.3.50/24,1.2.3.99/24)") == Ok(ran)
  {
    var ran := AddrRange(0x0102_0332, 0x0102_0363, 24);
    DocumentedRangeIsValid();
    DocumentedTexts();
    RangeText(String(ran), ran);
    ReadingInvertsToDB(ran);
  }

  lemma DocumentedRangeIsValid()
    ensures AddrRange(0x0102_0332, 0x0102_0363, 24).Valid()
  {
    SubnetIsBlock(Prefix(0x0102_0332, 24));
    SubnetIsBlock(Prefix(0x0102_0363, 24));
    assert Pow2(8) == 256 by { assert Pow2(4) == 16; }
  }

  lemma DocumentedTexts()
    ensures String(AddrRange(0x0102_0332, 0x0102_0363, 24)) == "1.2.3.50-1.2.3.99/24"
    ensures ToDB(AddrRange(0x0102_0332, 0x0102_0363, 24)) == "(1.2.3.50/24,1.2.3.99/24)"
  {
    DocumentedAddr(0x0102_0332, 50, "50");
    DocumentedAddr(0x0102_0363, 99, "99");
    SmallNumberText(24);
    assert PrintNat(24) == "24";
    DocumentedPieces(PrintAddr(0x0102_0332), PrintAddr(0x0102_0363), PrintNat(24));
  }

  lemma DocumentedPieces(low: string, high: string, bits: string)
    requires low == "1.2.3." + "50" && high == "1.2.3." + "99" && bits == "24"
    ensures low + "-" + (high + "/" + bits) == "1.2.3.50-1.2.3.99/24"
    ensures "(" + (low + "/" + bits) + "," + (high + "/" + bits) + ")" == "(1.2.3.50/24,1.2.3.99/24)"
  {
  }

  lemma DocumentedAddr(a: Addr, n: nat, text: string)
    requires n < 100 && 10 <= n && a == 0x0102_0300 + n && text == TwoDigits(n)
    ensures PrintAddr(a) == "1.2.3." + text
  {
    DottedText(a);
    DocumentedOctets(a, n);
    OneTwoThree();
    SmallNumberText(n);
    DottedPieces("1", "2", "3", text);
  }

  lemma DocumentedOctets(a: Addr, n: nat)
    requires n < 0x100 && a == 0x0102_0300 + n
    ensures a / 0x100_0000 == 1 && a / 0x1_0000 % 0x100 == 2 && a / 0x100 % 0x100 == 3 && a % 0x100 == n
  {
  }

  lemma OneTwoThree()
    ensures PrintNat(1) == "1" && PrintNat(2) == "2" && PrintNat(3) == "3"
  {
    SmallNumberText(1);
    SmallNumberText(2);
    SmallNumberText(3);
  }

  lemma DottedPieces(w: string, x: string, y: string, z: string)
    requires w == "1" && x == "2" && y == "3"
    ensures w + "." + x + "." + y + "." + z == "1.2.3." + z
  {
  }
}
