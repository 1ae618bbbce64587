/** The guard that decides which hosts and addresses may be connected to (ssrf/ssrf.go, ssrf/proxied.go). */
module Ssrf {
  import opened Options
  import opened Strings
  import opened Addresses

  datatype Level = Default | Off | Loopback | Internal | Custom

  datatype Net = Net(ip: Bytes, mask: Bytes)

  /** net.ParseIP and net.ParseCIDR. */
  datatype Parser = Parser(ip: string -> Option<Bytes>, cidr: string -> Option<Net>)
  {
    /** What their results look like: addresses of sixteen bytes, masks as long as the address. */
    ghost predicate Valid() {
      && (forall s :: ip(s).Some? ==> |ip(s).value| == 16)
      && (forall s :: cidr(s).Some? ==> |cidr(s).value.ip| in {4, 16} && |cidr(s).value.mask| == |cidr(s).value.ip|)
    }
  }

  datatype Guard = Guard(
    level: Level, custom: Option<Bytes -> bool>, hosts: seq<string>, ips: seq<Bytes>, nets: seq<Net>)

  predicate Enabled(g: Guard) {
    g.level != Off
  }

  // The allow list.

  /** What an allow entry is taken for. */
  datatype Entry = Ignored | Range(net: Net) | Literal(ip: Bytes) | Name(host: string)

  function KindOf(entry: string, p: Parser): Entry {
    var e := TrimSpace(entry);
    if e == "" then Ignored
    else if '/' in e then (if p.cidr(e).Some? then Range(p.cidr(e).value) else Ignored)
    else if p.ip(e).Some? then Literal(p.ip(e).value)
    else Name(e)
  }

  /** The lists hold exactly what the entries say. */
  ghost predicate Allows(g: Guard, allow: seq<string>, p: Parser) {
    && (forall h :: h in g.hosts <==> exists e :: e in allow && KindOf(e, p) == Name(h))
    && (forall ip :: ip in g.ips <==> exists e :: e in allow && KindOf(e, p) == Literal(ip))
    && (forall n :: n in g.nets <==> exists e :: e in allow && KindOf(e, p) == Range(n))
  }

  method New(level: Level, custom: Option<Bytes -> bool>, allow: seq<string>, p: Parser) returns (g: Guard)
    ensures g.level == (if level == Default then Internal else level) && g.custom == custom
    ensures Allows(g, allow, p)
  {
    g := Guard(if level == Default then Internal else level, custom, [], [], []);
    for i := 0 to |allow|
      invariant g.level == (if level == Default then Internal else level) && g.custom == custom
      invariant Allows(g, allow[..i], p)
    {
      ghost var before := g;
      var entry := TrimSpace(allow[i]);
      if entry == "" {
      } else if '/' in entry {
        var n := p.cidr(entry);
        if n.Some? {
          g := g.(nets := g.nets + [n.value]);
        }
      } else {
        var ip := p.ip(entry);
        if ip.Some? {
          g := g.(ips := g.ips + [ip.value]);
        } else {
          g := g.(hosts := g.hosts + [entry]);
        }
      }
      assert allow[..i + 1] == allow[..i] + [allow[i]];
      OneMore(before, g, allow[..i], allow[i], p);
    }
    assert allow[..|allow|] == allow;
  }

  lemma OneMore(before: Guard, after: Guard, allow: seq<string>, entry: string, p: Parser)
    requires Allows(before, allow, p)
    requires after.hosts == before.hosts + (if KindOf(entry, p).Name? then [KindOf(entry, p).host] else [])
    requires after.ips == before.ips + (if KindOf(entry, p).Literal? then [KindOf(entry, p).ip] else [])
    requires after.nets == before.nets + (if KindOf(entry, p).Range? then [KindOf(entry, p).net] else [])
    ensures Allows(after, allow + [entry], p)
  {}

  /** net.IP.Equal: mapped and plain IPv4 addresses are the same. */
  predicate SameIP(a: Bytes, b: Bytes) {
    a == b || (|a| == 4 && |b| == 16 && MAPPED_PREFIX + a == b) || (|b| == 4 && |a| == 16 && MAPPED_PREFIX + b == a)
  }

  /** net.IPNet.Contains. */
  predicate Contains(n: Net, ip: Bytes) {
    var number := Normal(n.ip);
    var mask := if |n.mask| == 16 && |number| == 4 then n.mask[12..] else n.mask;
    var x := Normal(ip);
    |x| == |number| == |mask| && forall i :: 0 <= i < |x| ==> AgreeUnder(number[i], x[i], mask[i])
  }

  predicate AgreeUnder(a: bv8, b: bv8, mask: bv8) {
    a & mask == b & mask
  }

  predicate HostAllowed(g: Guard, host: string) {
    exists h :: h in g.hosts && EqualFold(h, host)
  }

  predicate IPAllowed(g: Guard, ip: Bytes) {
    (exists a :: a in g.ips && SameIP(a, ip)) || (exists n :: n in g.nets && Contains(n, ip))
  }

  // The address space.

  predicate IsLoopback(ip: Bytes) {
    if |ip| == 4 then ip[0] == 127 else ip == [0, 0, 0, 0, 0, 0, 0, 0, 0, 0, 0, 0, 0, 0, 0, 1]
  }

  predicate IsUnspecified(ip: Bytes) {
    (|ip| == 4 || |ip| == 16) && Zero(ip)
  }

  predicate IsPrivate(ip: Bytes) {
    if |ip| == 4 then ip[0] == 10 || (ip[0] == 172 && ip[1] & 0xf0 == 16) || (ip[0] == 192 && ip[1] == 168)
    else |ip| == 16 && ip[0] & 0xfe == 0xfc
  }

  predicate IsCarrierGrade(ip: Bytes) {
    |ip| == 4 && ip[0] == 100 && ip[1] & 0xc0 == 64
  }

  predicate IsLinkLocalUnicast(ip: Bytes) {
    if |ip| == 4 then ip[0] == 169 && ip[1] == 254 else |ip| == 16 && ip[0] == 0xfe && ip[1] & 0xc0 == 0x80
  }

  predicate IsMulticast(ip: Bytes) {
    if |ip| == 4 then ip[0] & 0xf0 == 0xe0 else |ip| == 16 && ip[0] == 0xff
  }

  predicate IsLinkLocalMulticast(ip: Bytes) {
    if |ip| == 4 then ip[0] == 224 && ip[1] == 0 && ip[2] == 0 else |ip| == 16 && ip[0] == 0xff && ip[1] & 0x0f == 0x02
  }

  predicate IsInterfaceLocalMulticast(ip: Bytes) {
    |ip| == 16 && ip[0] == 0xff && ip[1] & 0x0f == 0x01
  }

  predicate InScope(level: Level, custom: Option<Bytes -> bool>, ip: Bytes) {
    match level
    case Custom => custom.Some? && custom.value(ip)
    case Loopback => IsLoopback(ip) || IsUnspecified(ip)
    case Internal =>
      IsLoopback(ip) || IsPrivate(ip) || IsCarrierGrade(ip) || IsLinkLocalUnicast(ip) || IsLinkLocalMulticast(ip)
      || IsInterfaceLocalMulticast(ip) || IsMulticast(ip) || IsUnspecified(ip)
    case _ => false
  }

  /** Blocked; the empty address stands for nil. */
  predicate Blocked(g: Guard, ip: Bytes) {
    Enabled(g) && (ip == [] || (!IPAllowed(g, ip) && InScope(g.level, g.custom, Normal(ip))))
  }

  const LOCAL_NAT64 := Net([0x00, 0x64, 0xff, 0x9b, 0x00, 0x01, 0, 0, 0, 0, 0, 0, 0, 0, 0, 0],
                          [0xff, 0xff, 0xff, 0xff, 0xff, 0xff, 0, 0, 0, 0, 0, 0, 0, 0, 0, 0])

  predicate BlockedWithEmbedded(g: Guard, ip: Bytes) {
    && !IPAllowed(g, ip)
    && (|| Blocked(g, ip)
        || (g.level == Internal && To4(ip) == [] && Contains(LOCAL_NAT64, ip))
        || exists v4 :: v4 in EmbeddedIPv4(To16(ip)) && Blocked(g, v4))
  }

  /** The masks of Internal, as the ranges of octets they stand for. */
  lemma InternalRanges(custom: Option<Bytes -> bool>, ip: Bytes)
    ensures |ip| == 4 ==>
              (InScope(Internal, custom, ip)
               <==> ip[0] in {10, 127} || (ip[0] == 172 && 16 <= ip[1] <= 31) || ip[..2] == [192, 168]
                    || (ip[0] == 100 && 64 <= ip[1] <= 127) || ip[..2] == [169, 254]
                    || 224 <= ip[0] <= 239 || ip == [0, 0, 0, 0])
    ensures |ip| == 16 ==>
              (InScope(Internal, custom, ip)
               <==> 0xfc <= ip[0] <= 0xfd || (ip[0] == 0xfe && 0x80 <= ip[1] <= 0xbf)
                    || ip[0] == 0xff || (Zero(ip[..15]) && ip[15] <= 1))
  {
    if |ip| == 4 {
      assert ip[..2] == [ip[0], ip[1]];
    }
    if |ip| == 16 {
      assert ip == ip[..15] + [ip[15]];
      if Zero(ip[..15]) && ip[15] == 1 {
        assert IsLoopback(ip);
      }
    }
  }

  /** The level Loopback: 127.0.0.0/8, ::1 and the unspecified addresses. */
  lemma LoopbackRanges(custom: Option<Bytes -> bool>, ip: Bytes)
    ensures |ip| == 4 ==> (InScope(Loopback, custom, ip) <==> ip[0] == 127 || ip == [0, 0, 0, 0])
    ensures |ip| == 16 ==> (InScope(Loopback, custom, ip) <==> Zero(ip[..15]) && ip[15] <= 1)
  {
    if |ip| == 16 {
      assert ip == ip[..15] + [ip[15]];
      if Zero(ip[..15]) && ip[15] == 1 {
        assert IsLoopback(ip);
      }
    }
  }

  /**
   * What each level makes of an address that is not on the allow list: Off nothing, Custom what the
   * caller's predicate says of its plain form, and any other level blocks at least nil.
   */
  lemma LevelsMean(g: Guard, ip: Bytes)
    ensures g.level == Off ==> !Blocked(g, ip) && !BlockedWithEmbedded(g, ip)
    ensures g.level != Off ==> Blocked(g, [])
    ensures ip != [] && IPAllowed(g, ip) ==> !Blocked(g, ip) && !BlockedWithEmbedded(g, ip)
    ensures g.level == Custom && ip != [] && !IPAllowed(g, ip) ==>
              (Blocked(g, ip) <==> g.custom.Some? && g.custom.value(Normal(ip)))
    ensures g.level == Loopback && |ip| == 4 && !IPAllowed(g, ip) ==>
              (Blocked(g, ip) <==> ip[0] == 127 || ip == [0, 0, 0, 0])
  {
    LoopbackRanges(g.custom, ip);
  }

  // Numeric hosts.

  predicate IsNumericPart(s: string) {
    if "0x" <= s || "0X" <= s then forall i :: 2 <= i < |s| ==> HexDigit(s[i])
    else s != "" && forall i :: 0 <= i < |s| ==> '0' <= s[i] <= '9'
  }

  predicate IsNumericHost(host: string) {
    var parts := Split(host, '.');
    |parts| <= 4 && forall i :: 0 <= i < |parts| ==> IsNumericPart(parts[i])
  }

  // The two checks.

  datatype Verdict = Pass | BlockedAddress(ip: Bytes) | NonCanonical | Unresolved | InvalidHost

  datatype Answer = Found(addrs: seq<Bytes>) | NoSuchHost | Failed

  /** A verdict reached from the name alone, before any lookup; none if a lookup is needed. */
  function FromName(g: Guard, host: string, p: Parser): Option<Verdict> {
    if HostAllowed(g, host) then Some(Pass)
    else if p.ip(host).Some? then Some(if Blocked(g, p.ip(host).value) then BlockedAddress(p.ip(host).value) else Pass)
    else if IsNumericHost(host) then Some(NonCanonical)
    else None
  }

  /** One address that may be dialed is enough, and so is an answer without addresses. */
  ghost predicate SomeDialable(g: Guard, addrs: seq<Bytes>) {
    (forall a :: a in addrs ==> a == []) || exists a :: a in addrs && !Blocked(g, a)
  }

  ghost predicate HostPasses(g: Guard, host: string, p: Parser, answer: Answer) {
    || !Enabled(g)
    || host == ""
    || FromName(g, host, p) == Some(Pass)
    || (FromName(g, host, p).None? && answer.Found? && SomeDialable(g, answer.addrs))
  }

  method CheckHost(g: Guard, host: string, p: Parser, answer: Answer) returns (v: Verdict)
    ensures v == Pass <==> HostPasses(g, host, p, answer)
    ensures v != Pass && FromName(g, host, p).Some? ==> v == FromName(g, host, p).value
    ensures v != Pass && FromName(g, host, p).None? ==>
              if answer.Found? then v.BlockedAddress? && v.ip in answer.addrs && v.ip != [] && Blocked(g, v.ip)
                else v == Unresolved
  {
    if !Enabled(g) || host == "" || HostAllowed(g, host) {
      return Pass;
    }
    var ip := p.ip(host);
    if ip.Some? {
      return if Blocked(g, ip.value) then BlockedAddress(ip.value) else Pass;
    }
    if IsNumericHost(host) {
      return NonCanonical;
    }
    if !answer.Found? {
      return Unresolved;
    }
    var firstBlocked: Bytes := [];
    for i := 0 to |answer.addrs|
      invariant forall k :: 0 <= k < i ==> Blocked(g, answer.addrs[k])
      invariant firstBlocked == [] ==> forall k :: 0 <= k < i ==> answer.addrs[k] == []
      invariant firstBlocked != [] ==> firstBlocked in answer.addrs && Blocked(g, firstBlocked)
    {
      var a := answer.addrs[i];
      if !Blocked(g, a) {
        return Pass;
      }
      if firstBlocked == [] {
        firstBlocked := a;
      }
    }
    return if firstBlocked == [] then Pass else BlockedAddress(firstBlocked);
  }

  /** The verdict on one spelling, given the answer for its lower case. */
  ghost predicate SpellingPasses(g: Guard, host: string, p: Parser, answer: Answer, mayFail: bool) {
    || HostAllowed(g, host)
    || (p.ip(host).Some? && !BlockedWithEmbedded(g, p.ip(host).value))
    || (p.ip(host).None? && !IsNumericHost(host)
        && match answer
           case Found(addrs) => forall a :: a in addrs ==> !BlockedWithEmbedded(g, a)
           case NoSuchHost => true
           case Failed => mayFail)
  }

  /** checkProxiedASCII; mayFail says that the caller gave up or that the probe lookup fails too. */
  method CheckProxiedASCII(g: Guard, host: string, p: Parser, answer: Answer, mayFail: bool) returns (v: Verdict)
    ensures v == Pass <==> SpellingPasses(g, host, p, answer, mayFail)
  {
    if HostAllowed(g, host) {
      return Pass;
    }
    var ip := p.ip(host);
    if ip.Some? {
      return if BlockedWithEmbedded(g, ip.value) then BlockedAddress(ip.value) else Pass;
    }
    if IsNumericHost(host) {
      return NonCanonical;
    }
    if !answer.Found? {
      return if answer == NoSuchHost || mayFail then Pass else Unresolved;
    }
    for i := 0 to |answer.addrs|
      invariant forall k :: 0 <= k < i ==> !BlockedWithEmbedded(g, answer.addrs[k])
    {
      var a := answer.addrs[i];
      if BlockedWithEmbedded(g, a) {
        return BlockedAddress(a);
      }
    }
    return Pass;
  }

  predicate Ascii(s: string) {
    forall c :: c in s ==> c < '\U{80}'
  }

  /** The two conversions of a non-ASCII host, each of which may fail. */
  datatype Idna = Idna(lookup: string -> Option<string>, punycode: string -> Option<string>)

  /** The spellings before normalisation; none when a conversion fails. */
  function Spellings(host: string, idna: Idna): Option<seq<string>> {
    if Ascii(host) then Some([host])
    else if idna.lookup(host).None? || idna.punycode(host).None? then None
    else
      var lookup, punycode := idna.lookup(host).value, idna.punycode(host).value;
      Some(if punycode == lookup then [lookup] else [lookup, punycode])
  }

  function Absolute(form: string): string {
    if |form| > 1 then TrimSuffix(form, ".") else form
  }

  /** No empty label; the empty name itself has none to be empty. */
  predicate GoodLabels(form: string) {
    form == "" || "" !in Split(form, '.')
  }

  /** strings.HasPrefix(s, "."), HasSuffix(s, ".") or Contains(s, ".."). */
  predicate DotAtEdgeOrDouble(s: string) {
    "." <= s || HasSuffix(s, ".") || exists i :: 0 <= i < |s| - 1 && s[i] == '.' && s[i + 1] == '.'
  }

  lemma {:induction false} EmptyLabelsByDots(s: string)
    ensures DotAtEdgeOrDouble(s) <==> !GoodLabels(s)
  {
    if s != [] {
      FirstLabel(s);
      LaterLabels(s);
    }
  }

  lemma FirstLabel(s: string)
    requires s != ""
    ensures Split(s, '.')[0] == "" <==> s[0] == '.'
  {}

  lemma {:induction false} LaterLabels(s: string)
    requires s != ""
    ensures "" in Split(s, '.')[1..]
       <==> s[|s| - 1] == '.' || exists i :: 0 <= i < |s| - 1 && s[i] == '.' && s[i + 1] == '.'
  {
    if |s| > 1 {
      var t := s[1..];
      LaterLabels(t);
      FirstLabel(t);
      var rest := Split(t, '.');
      assert rest == [rest[0]] + rest[1..];
      if s[0] == '.' {
        assert Split(s, '.')[1..] == rest;
      } else {
        assert Split(s, '.')[1..] == rest[1..];
      }
      if i :| 0 <= i < |t| - 1 && t[i] == '.' && t[i + 1] == '.' {
        assert s[i + 1] == '.' && s[i + 2] == '.';
      }
      if i :| 0 <= i < |s| - 1 && s[i] == '.' && s[i + 1] == '.' {
        if i > 0 { assert t[i - 1] == '.' && t[i] == '.'; }
      }
    } else {
      assert s == [s[0]] && Split(s[1..], '.') == [""];
    }
  }

  /** asciiForms: forms rewritten in place, one after the other. */
  method AsciiForms(host: string, idna: Idna) returns (forms: Option<seq<string>>)
    ensures forms.Some? <==> Spellings(host, idna).Some? && forall f :: f in Spellings(host, idna).value ==>
            GoodLabels(Absolute(f))
    ensures forms.Some? ==> |forms.value| == |Spellings(host, idna).value|
    ensures forms.Some? ==> forall i :: 0 <= i < |forms.value| ==>
            forms.value[i] == Absolute(Spellings(host, idna).value[i])
  {
    var spellings := Spellings(host, idna);
    if spellings.None? {
      return None;
    }
    var fs := spellings.value;
    for i := 0 to |fs|
      invariant |fs| == |spellings.value|
      invariant forall k :: 0 <= k < i ==> fs[k] == Absolute(spellings.value[k]) && GoodLabels(fs[k])
      invariant forall k :: i <= k < |fs| ==> fs[k] == spellings.value[k]
    {
      var form := Absolute(fs[i]);
      EmptyLabelsByDots(form);
      if DotAtEdgeOrDouble(form) {
        assert spellings.value[i] in spellings.value;
        return None;
      }
      fs := fs[i := form];
    }
    return Some(fs);
  }

  ghost predicate FormChecked(g: Guard, form: string, p: Parser, resolve: string -> Answer, mayFail: bool) {
    GoodLabels(form) && SpellingPasses(g, form, p, resolve(ToLower(form)), mayFail)
  }

  /** All spellings pass, each with the answer for its own lower case. */
  ghost predicate ProxiedPasses(
    g: Guard, host: string, p: Parser, idna: Idna, resolve: string -> Answer, mayFail: bool) {
    || !Enabled(g)
    || host == ""
    || (&& Spellings(host, idna).Some?
        && forall f :: f in Spellings(host, idna).value ==> FormChecked(g, Absolute(f), p, resolve, mayFail))
  }

  method CheckProxiedHost(g: Guard, host: string, p: Parser, idna: Idna, resolve: string -> Answer, mayFail: bool)
    returns (v: Verdict)
    ensures v == Pass <==> ProxiedPasses(g, host, p, idna, resolve, mayFail)
  {
    if !Enabled(g) || host == "" {
      return Pass;
    }
    var forms := AsciiForms(host, idna);
    if forms.None? {
      return InvalidHost;
    }
    ghost var spellings := Spellings(host, idna).value;
    for i := 0 to |forms.value|
      invariant forall k :: 0 <= k < i ==>
              SpellingPasses(g, forms.value[k], p, resolve(ToLower(forms.value[k])), mayFail)
    {
      var form := forms.value[i];
      v := CheckProxiedASCII(g, form, p, resolve(ToLower(form)), mayFail);
      if v != Pass {
        assert spellings[i] in spellings;
        return;
      }
    }
    return Pass;
  }

  // What passes.

  /** A label that is no numeral: empty, or with something other than digits of its base. */
  predicate NoNumeral(part: string) {
    if "0x" <= part || "0X" <= part then exists i :: 2 <= i < |part| && !HexDigit(part[i])
    else part == "" || exists i :: 0 <= i < |part| && !('0' <= part[i] <= '9')
  }

  /** An ordinary name: too many labels for an address in numbers, or one that is no numeral. */
  predicate Ordinary(host: string) {
    |Split(host, '.')| > 4 || exists part :: part in Split(host, '.') && NoNumeral(part)
  }

  /**
   * For a host that the allow list does not name: an address is judged as it stands, and an ordinary name by its
   * lookup. The direct check needs one address that may be dialed, or none at all; the proxied check
   * needs every address to pass, and lets a host through that does not exist.
   */
  lemma LookupDecides(g: Guard, host: string, p: Parser, answer: Answer, mayFail: bool)
    requires g.level != Off && host != "" && forall h :: h in g.hosts ==> ToLower(h) != ToLower(host)
    ensures p.ip(host).Some? ==>
              && (HostPasses(g, host, p, answer) <==> !Blocked(g, p.ip(host).value))
              && (SpellingPasses(g, host, p, answer, mayFail) <==> !BlockedWithEmbedded(g, p.ip(host).value))
    ensures p.ip(host).None? && Ordinary(host) ==>
              match answer
              case Found(addrs) =>
                && (HostPasses(g, host, p, answer) <==>
                      (forall a :: a in addrs ==> a == []) || exists a :: a in addrs && !Blocked(g, a))
                && (SpellingPasses(g, host, p, answer, mayFail) <==>
                      forall a :: a in addrs ==> !BlockedWithEmbedded(g, a))
              case NoSuchHost => !HostPasses(g, host, p, answer) && SpellingPasses(g, host, p, answer, mayFail)
              case Failed =>
                && !HostPasses(g, host, p, answer)
                && (SpellingPasses(g, host, p, answer, mayFail) <==> mayFail)
  {
    forall h ensures EqualFold(h, host) <==> ToLower(h) == ToLower(host) {}
    if Ordinary(host) {
      OrdinaryIsNoNumber(host);
    }
  }

  lemma OrdinaryIsNoNumber(host: string)
    requires Ordinary(host)
    ensures !IsNumericHost(host)
  {
    if part :| part in Split(host, '.') && NoNumeral(part) {
      assert !IsNumericPart(part);
    }
  }

  /** The form without its last dot, if it is more than that: no empty label, and it passes. */
  ghost predicate FormPasses(g: Guard, form: string, p: Parser, resolve: string -> Answer, mayFail: bool) {
    var f := if |form| > 1 && form[|form| - 1] == '.' then form[..|form| - 1] else form;
    (f == "" || "" !in Split(f, '.')) && SpellingPasses(g, f, p, resolve(ToLower(f)), mayFail)
  }

  /** A host outside ASCII passes the proxied check exactly when both its conversions exist and pass. */
  lemma ConversionsDecide(g: Guard, host: string, p: Parser, idna: Idna, resolve: string -> Answer, mayFail: bool)
    requires g.level != Off && host != ""
    ensures ProxiedPasses(g, host, p, idna, resolve, mayFail) <==>
              if forall c :: c in host ==> c < '\U{80}' then FormPasses(g, host, p, resolve, mayFail)
              else
                && idna.lookup(host).Some? && FormPasses(g, idna.lookup(host).value, p, resolve, mayFail)
                && idna.punycode(host).Some? && FormPasses(g, idna.punycode(host).value, p, resolve, mayFail)
  {
    if Ascii(host) {
      FormIs(g, host, p, resolve, mayFail);
      assert host in Spellings(host, idna).value;
    } else if Spellings(host, idna).Some? {
      BothForms(g, host, p, idna, resolve, mayFail);
    }
  }

  lemma BothForms(g: Guard, host: string, p: Parser, idna: Idna, resolve: string -> Answer, mayFail: bool)
    requires g.level != Off && host != "" && !Ascii(host) && Spellings(host, idna).Some?
    ensures ProxiedPasses(g, host, p, idna, resolve, mayFail) <==>
            && FormPasses(g, idna.lookup(host).value, p, resolve, mayFail)
            && FormPasses(g, idna.punycode(host).value, p, resolve, mayFail)
  {
    var lookup, punycode := idna.lookup(host).value, idna.punycode(host).value;
    FormIs(g, lookup, p, resolve, mayFail);
    FormIs(g, punycode, p, resolve, mayFail);
    var forms := Spellings(host, idna).value;
    assert lookup in forms && punycode in forms;
    forall f | f in forms ensures f == lookup || f == punycode {}
  }

  lemma FormIs(g: Guard, form: string, p: Parser, resolve: string -> Answer, mayFail: bool)
    ensures FormPasses(g, form, p, resolve, mayFail) <==> FormChecked(g, Absolute(form), p, resolve, mayFail)
  {
    WithoutDot(form);
  }

  lemma WithoutDot(form: string)
    ensures Absolute(form) == if |form| > 1 && form[|form| - 1] == '.' then form[..|form| - 1] else form
  {
    if |form| > 1 {
      assert form[|form| - 1..] == [form[|form| - 1]];
    }
  }

  // What the allow list does.

  /** Exactly what the entries, spaces around them apart, allow: names up to case, addresses in any form, and ranges. */
  lemma AllowedExactly(g: Guard, allow: seq<string>, p: Parser, host: string, ip: Bytes)
    requires Allows(g, allow, p) && p.Valid()
    ensures HostAllowed(g, host) <==> exists entry :: entry in allow && NamesHost(TrimSpace(entry), p, host)
    ensures |ip| in {4, 16} ==>
              (IPAllowed(g, ip) <==> exists entry :: entry in allow && CoversIP(TrimSpace(entry), p, ip))
  {
    forall h ensures EqualFold(h, host) <==> ToLower(h) == ToLower(host) {}
    if HostAllowed(g, host) {
      var h :| h in g.hosts && EqualFold(h, host);
      var entry :| entry in allow && KindOf(entry, p) == Name(h);
      assert NamesHost(TrimSpace(entry), p, host);
    }
    if entry :| entry in allow && NamesHost(TrimSpace(entry), p, host) {
      assert KindOf(entry, p) == Name(TrimSpace(entry)) && TrimSpace(entry) in g.hosts;
    }
    if |ip| in {4, 16} {
      IPAllowedExactly(g, allow, p, ip);
    }
  }

  predicate NamesHost(e: string, p: Parser, host: string) {
    e != "" && '/' !in e && p.ip(e).None? && ToLower(e) == ToLower(host)
  }

  predicate CoversIP(e: string, p: Parser, ip: Bytes) {
    && e != ""
    && if '/' in e then p.cidr(e).Some? && Contains(p.cidr(e).value, ip)
       else p.ip(e).Some? && Normal(p.ip(e).value) == Normal(ip)
  }

  lemma IPAllowedExactly(g: Guard, allow: seq<string>, p: Parser, ip: Bytes)
    requires Allows(g, allow, p) && p.Valid() && |ip| in {4, 16}
    ensures IPAllowed(g, ip) <==> exists entry :: entry in allow && CoversIP(TrimSpace(entry), p, ip)
  {
    if a :| a in g.ips && SameIP(a, ip) {
      var entry :| entry in allow && KindOf(entry, p) == Literal(a);
      SameByNormal(a, ip);
      assert CoversIP(TrimSpace(entry), p, ip);
    }
    if n :| n in g.nets && Contains(n, ip) {
      var entry :| entry in allow && KindOf(entry, p) == Range(n);
      assert CoversIP(TrimSpace(entry), p, ip);
    }
    if entry :| entry in allow && CoversIP(TrimSpace(entry), p, ip) {
      var e := TrimSpace(entry);
      if '/' in e {
        assert KindOf(entry, p) == Range(p.cidr(e).value) && p.cidr(e).value in g.nets;
      } else {
        assert KindOf(entry, p) == Literal(p.ip(e).value) && p.ip(e).value in g.ips;
        SameByNormal(p.ip(e).value, ip);
      }
    }
  }

  /** Every entry works: an allowed name passes both checks, and an allowed address or range is blocked by neither. */
  lemma EntriesWork(
    g: Guard, allow: seq<string>, p: Parser, entry: string, host: string, ip: Bytes, answer: Answer, mayFail: bool)
    requires Allows(g, allow, p) && entry in allow
    ensures KindOf(entry, p).Name? && EqualFold(KindOf(entry, p).host, host) ==>
              HostPasses(g, host, p, answer) && SpellingPasses(g, host, p, answer, mayFail)
    ensures var e := KindOf(entry, p);
            e.Literal? && |ip| in {4, 16} && |e.ip| in {4, 16} && Normal(ip) == Normal(e.ip) ==>
              !Blocked(g, ip) && !BlockedWithEmbedded(g, ip)
    ensures KindOf(entry, p).Range? && ip != [] && Contains(KindOf(entry, p).net, ip) ==>
              !Blocked(g, ip) && !BlockedWithEmbedded(g, ip)
  {
    match KindOf(entry, p)
    case Name(h) => assert h in g.hosts;
    case Literal(a) =>
      assert a in g.ips;
      if |ip| in {4, 16} && |a| in {4, 16} && Normal(ip) == Normal(a) {
        SameByNormal(a, ip);
      }
    case Range(n) => assert n in g.nets;
    case Ignored =>
  }

  /** Two addresses are the same when their plain forms are. */
  lemma SameByNormal(a: Bytes, b: Bytes)
    requires |a| in {4, 16} && |b| in {4, 16}
    ensures SameIP(a, b) <==> Normal(a) == Normal(b)
  {
    if |a| == 16 { assert a == a[..12] + a[12..]; }
    if |b| == 16 { assert b == b[..12] + b[12..]; }
    assert |a| == 4 ==> (MAPPED_PREFIX + a)[..12] == MAPPED_PREFIX && (MAPPED_PREFIX + a)[12..] == a;
    assert |b| == 4 ==> (MAPPED_PREFIX + b)[..12] == MAPPED_PREFIX && (MAPPED_PREFIX + b)[12..] == b;
  }

  /** Two addresses agree under a mask of k whole bytes and the bits of m when they agree in these. */
  lemma AgreeByPrefix(x: Bytes, y: Bytes, mask: Bytes, k: nat, m: bv8)
    requires |x| == |y| == |mask| && k < |mask| && mask[k] == m
    requires (forall i :: 0 <= i < k ==> mask[i] == 0xff) && forall i :: k < i < |mask| ==> mask[i] == 0
    ensures (forall i :: 0 <= i < |x| ==> AgreeUnder(x[i], y[i], mask[i]))
       <==> x[..k] == y[..k] && AgreeUnder(x[k], y[k], m)
  {
    forall i | 0 <= i < |x| && i != k ensures AgreeUnder(x[i], y[i], mask[i]) <==> i > k || x[i] == y[i] {
      WholeMasks(x[i], y[i], mask[i]);
    }
    SamePrefix(x, y, k);
  }

  lemma WholeMasks(a: bv8, b: bv8, mask: bv8)
    ensures mask == 0xff ==> (AgreeUnder(a, b, mask) <==> a == b)
    ensures mask == 0 ==> AgreeUnder(a, b, mask)
  {}

  lemma SamePrefix(x: Bytes, y: Bytes, k: nat)
    requires k <= |x| && k <= |y|
    ensures x[..k] == y[..k] <==> forall i :: 0 <= i < k ==> x[i] == y[i]
  {
    assert forall i :: 0 <= i < k ==> x[..k][i] == x[i] && y[..k][i] == y[i];
  }

  /** A range is the addresses that begin with its first k bytes and agree with the next in the bits of m. */
  lemma RangeByPrefix(n: Net, ip: Bytes, k: nat, m: bv8)
    requires |n.ip| == |n.mask| == |ip| && Normal(ip) == ip && Normal(n.ip) == n.ip && k < |ip| && n.mask[k] == m
    requires (forall i :: 0 <= i < k ==> n.mask[i] == 0xff) && forall i :: k < i < |ip| ==> n.mask[i] == 0
    ensures Contains(n, ip) <==> ip[..k] == n.ip[..k] && ip[k] & m == n.ip[k] & m
  {
    AgreeByPrefix(n.ip, ip, n.mask, k, m);
  }

  /** The local NAT64 range is the addresses that begin with its six bytes. */
  lemma LocalNat64Range(ip: Bytes)
    requires |ip| == 16
    ensures To4(ip) == [] && Contains(LOCAL_NAT64, ip) <==> ip[..6] == [0x00, 0x64, 0xff, 0x9b, 0x00, 0x01]
  {
    assert LOCAL_NAT64.ip[..12][1] == 0x64;
    assert LOCAL_NAT64.ip[..6] == [0x00, 0x64, 0xff, 0x9b, 0x00, 0x01];
    if ip[..12] == MAPPED_PREFIX {
      assert ip[..6][1] == ip[..12][1] == 0;
    } else {
      RangeByPrefix(LOCAL_NAT64, ip, 6, 0);
    }
  }

  /**
   * What the proxied check refuses of IPv6: what the dial check does, the local NAT64 range at
   * Internal, and carriers.
   */
  lemma ProxiedExactly(g: Guard, ip: Bytes)
    requires |ip| == 16 && !IPAllowed(g, ip)
    ensures BlockedWithEmbedded(g, ip) <==>
            || Blocked(g, ip)
            || (g.level == Internal && ip[..6] == [0x00, 0x64, 0xff, 0x9b, 0x00, 0x01])
            || exists c: Carrier, v4 :: c.Valid() && c.Encode() == ip && v4 in c.Carried() && Blocked(g, v4)
  {
    LocalNat64Range(ip);
    if v4 :| v4 in EmbeddedIPv4(ip) && Blocked(g, v4) {
      EmbeddedIsEncoded(ip);
      assert v4 in CarrierOf(ip).Carried();
    }
    if c: Carrier, v4 :| c.Valid() && c.Encode() == ip && v4 in c.Carried() && Blocked(g, v4) {
      EncodeThenEmbedded(c);
    }
  }

  // How the two checks compare.

  /** A guard New built from parsed entries: its addresses have sixteen bytes, its ranges are whole. */
  ghost predicate Parsed(g: Guard) {
    && (forall a :: a in g.ips ==> |a| == 16)
    && (forall n :: n in g.nets ==> |n.ip| in {4, 16} && |n.mask| == |n.ip|)
  }

  lemma NewIsParsed(g: Guard, allow: seq<string>, p: Parser)
    requires Allows(g, allow, p) && p.Valid()
    ensures Parsed(g)
  {}

  /** The proxied check refuses every address that the dial check refuses. */
  lemma ProxiedBlocksMore(g: Guard, ip: Bytes)
    requires Parsed(g) && Blocked(g, ip)
    ensures BlockedWithEmbedded(g, ip)
  {}

  /** An address is judged by everything it carries, in whichever of the four encodings. */
  lemma CarriedIsJudged(g: Guard, c: Carrier, v4: Bytes)
    requires c.Valid() && v4 in c.Carried() && Blocked(g, v4) && !IPAllowed(g, c.Encode())
    ensures BlockedWithEmbedded(g, c.Encode())
  {
    EncodeThenEmbedded(c);
    EncodedIs(c);
  }

  lemma Ipv4CarriesNothing(ip: Bytes)
    ensures EmbeddedIPv4(To16(ip)) != [] ==> |ip| == 16
  {}

  /** And nothing else is added but the local NAT64 range. */
  lemma OnlyCarriedIsAdded(g: Guard, ip: Bytes)
    requires BlockedWithEmbedded(g, ip) && !Blocked(g, ip)
    requires !(g.level == Internal && To4(ip) == [] && Contains(LOCAL_NAT64, ip))
    ensures |ip| == 16 && CarrierOf(ip).Valid() && CarrierOf(ip).Encode() == ip
    ensures exists v4 :: v4 in CarrierOf(ip).Carried() && Blocked(g, v4)
  {
    var v4 :| v4 in EmbeddedIPv4(To16(ip)) && Blocked(g, v4);
    EmbeddedIsEncoded(To16(ip));
    Ipv4CarriesNothing(ip);
  }

  /** The decision is about the address, not its spelling: an IPv4 address and its mapped form agree. */
  lemma MappedAgrees(g: Guard, v4: Bytes)
    requires Parsed(g) && |v4| == 4
    ensures Blocked(g, v4) <==> Blocked(g, To16(v4))
    ensures BlockedWithEmbedded(g, v4) <==> BlockedWithEmbedded(g, To16(v4))
  {
    var ip := To16(v4);
    assert ip[..12] == MAPPED_PREFIX && ip[12..] == v4;
    forall a | a in g.ips ensures SameIP(a, v4) <==> SameIP(a, ip) {}
    forall n | n in g.nets ensures Contains(n, v4) <==> Contains(n, ip) {}
  }

  /** The levels nest: what Loopback refuses, Internal refuses. */
  lemma LevelsNest(g: Guard, ip: Bytes)
    requires g.level == Loopback && Blocked(g, ip)
    ensures Blocked(g.(level := Internal), ip)
  {}

  /** The same guard with more allow entries. */
  ghost predicate MoreAllowed(g: Guard, h: Guard) {
    && g.level == h.level && g.custom == h.custom
    && (forall x :: x in g.hosts ==> x in h.hosts) && (forall x :: x in g.ips ==> x in h.ips)
        && (forall x :: x in g.nets ==> x in h.nets)
  }

  lemma MoreEntriesAllowMore(g: Guard, h: Guard, a: seq<string>, b: seq<string>, p: Parser)
    requires Allows(g, a, p) && Allows(h, b, p) && g.level == h.level && g.custom == h.custom
    requires forall e :: e in a ==> e in b
    ensures MoreAllowed(g, h)
  {}

  lemma AllowingNeverBlocksAddress(g: Guard, h: Guard, ip: Bytes)
    requires MoreAllowed(g, h)
    ensures Blocked(h, ip) ==> Blocked(g, ip)
    ensures BlockedWithEmbedded(h, ip) ==> BlockedWithEmbedded(g, ip)
  {}

  /** Adding allow entries, anywhere in the list, never makes either check refuse a host it passed. */
  lemma AllowingNeverBlocks(
    g: Guard, h: Guard, host: string, p: Parser, answer: Answer, idna: Idna, resolve: string -> Answer, mayFail: bool)
    requires MoreAllowed(g, h)
    ensures HostPasses(g, host, p, answer) ==> HostPasses(h, host, p, answer)
    ensures ProxiedPasses(g, host, p, idna, resolve, mayFail) ==> ProxiedPasses(h, host, p, idna, resolve, mayFail)
  {
    forall ip ensures (Blocked(h, ip) ==> Blocked(g, ip))
      && (BlockedWithEmbedded(h, ip) ==> BlockedWithEmbedded(g, ip)) {
      AllowingNeverBlocksAddress(g, h, ip);
    }
    forall s: string ensures HostAllowed(g, s) ==> HostAllowed(h, s) {}
    if Spellings(host, idna).Some? {
      forall f | f in Spellings(host, idna).value
        && SpellingPasses(g, Absolute(f), p, resolve(ToLower(Absolute(f))), mayFail)
        ensures SpellingPasses(h, Absolute(f), p, resolve(ToLower(Absolute(f))), mayFail)
      {}
    }
  }

  /**
   * For a canonical ASCII host, one the proxied check does not rewrite, passing the proxied check
   * means passing the direct one on the same answer exactly when no lookup is needed or it succeeds.
   */
  lemma ProxiedImpliesDirect(g: Guard, host: string, p: Parser, idna: Idna, resolve: string -> Answer, mayFail: bool)
    requires Parsed(g) && Ascii(host) && Absolute(host) == host && ProxiedPasses(g, host, p, idna, resolve, mayFail)
    ensures var answer := resolve(ToLower(host));
            HostPasses(g, host, p, answer) <==> !Enabled(g) || host == "" || FromName(g, host, p).Some? || answer.Found?
  {
    if Enabled(g) && host != "" {
      assert host in Spellings(host, idna).value;
      var answer := resolve(ToLower(host));
      forall ip | Blocked(g, ip) ensures BlockedWithEmbedded(g, ip) {
        ProxiedBlocksMore(g, ip);
      }
      if FromName(g, host, p).None? && answer.Found? && answer.addrs != [] {
        assert answer.addrs[0] in answer.addrs;
      }
    }
  }

  /** The name alone makes the proxied check pass the host once its trailing dot is dropped. */
  ghost predicate PassesUndotted(g: Guard, host: string, p: Parser) {
    var form := Absolute(host);
    GoodLabels(form) && (HostAllowed(g, form) || (p.ip(form).Some? && !BlockedWithEmbedded(g, p.ip(form).value)))
  }

  /** The guard would refuse to dial something. */
  ghost predicate BlocksSomething(g: Guard) {
    exists a :: a != [] && Blocked(g, a)
  }

  /** On every successful lookup, passing the proxied check means passing the direct one. */
  ghost predicate ProxiedSuffices(g: Guard, host: string, p: Parser, idna: Idna, mayFail: bool) {
    forall resolve: string -> Answer ::
      var answer := resolve(ToLower(Absolute(host)));
      answer.Found? && ProxiedPasses(g, host, p, idna, resolve, mayFail) ==> HostPasses(g, host, p, answer)
  }

  /**
   * For an ASCII host that is rewritten, one with a trailing dot, passing the proxied check still
   * means passing the direct one exactly when the allow list has the dotted name too, the undotted
   * name does not settle the matter by itself, or the guard blocks nothing. The direct check takes a
   * dotted host for a name, so its parser must not take it for an address.
   */
  lemma RewrittenSuffices(g: Guard, host: string, p: Parser, idna: Idna, mayFail: bool)
    requires Parsed(g) && Ascii(host) && Absolute(host) != host && p.ip(host).None?
    ensures ProxiedSuffices(g, host, p, idna, mayFail)
       <==> !Enabled(g) || HostAllowed(g, host) || !PassesUndotted(g, host, p) || !BlocksSomething(g)
  {
    if Enabled(g) && !HostAllowed(g, host) && PassesUndotted(g, host, p) && BlocksSomething(g) {
      UndottedFallsShort(g, host, p, idna, mayFail);
    } else {
      forall resolve: string -> Answer |
        resolve(ToLower(Absolute(host))).Found? && ProxiedPasses(g, host, p, idna, resolve, mayFail)
        ensures HostPasses(g, host, p, resolve(ToLower(Absolute(host))))
      {
        DottedIsNoNumber(host);
        assert Spellings(host, idna) == Some([host]) && host in [host];
        AnswerSuffices(g, host, Absolute(host), p, resolve(ToLower(Absolute(host))), mayFail);
      }
    }
  }

  lemma UndottedFallsShort(g: Guard, host: string, p: Parser, idna: Idna, mayFail: bool)
    requires Ascii(host) && Absolute(host) != host && p.ip(host).None? && Enabled(g) && !HostAllowed(g, host)
    requires PassesUndotted(g, host, p) && BlocksSomething(g)
    ensures !ProxiedSuffices(g, host, p, idna, mayFail)
  {
    DottedIsNoNumber(host);
    var a :| a != [] && Blocked(g, a);
    var resolve: string -> Answer := (s: string) => Found([a]);
    assert a in [a];
    assert Spellings(host, idna) == Some([host]);
    assert ProxiedPasses(g, host, p, idna, resolve, mayFail);
    assert !HostPasses(g, host, p, resolve(ToLower(Absolute(host))));
  }

  lemma AnswerSuffices(g: Guard, host: string, form: string, p: Parser, answer: Answer, mayFail: bool)
    requires Parsed(g) && answer.Found? && p.ip(host).None? && !IsNumericHost(host)
    requires Enabled(g) && host != "" ==> SpellingPasses(g, form, p, answer, mayFail)
    requires !Enabled(g) || HostAllowed(g, host) || !BlocksSomething(g)
             || !(HostAllowed(g, form) || (p.ip(form).Some? && !BlockedWithEmbedded(g, p.ip(form).value)))
    ensures HostPasses(g, host, p, answer)
  {
    forall ip | Blocked(g, ip) ensures BlockedWithEmbedded(g, ip) {
      ProxiedBlocksMore(g, ip);
    }
    if answer.addrs != [] {
      assert answer.addrs[0] in answer.addrs;
    }
  }

  lemma DottedIsNoNumber(host: string)
    requires Absolute(host) != host
    ensures !IsNumericHost(host) && host != ""
  {
    var form := Absolute(host);
    assert host == form + ['.'] + "";
    SplitConcat(form, "", '.');
    var parts := Split(host, '.');
    assert parts[|parts| - 1] == "";
  }

  /** An instance: the allow list sees two different names. */
  lemma TrailingDotDiffers(p: Parser, idna: Idna, resolve: string -> Answer)
    requires p.ip("a.").None?
    ensures var g := Guard(Internal, None, ["a"], [], []);
            ProxiedPasses(g, "a.", p, idna, resolve, false) && !HostPasses(g, "a.", p, Found([[127, 0, 0, 1]]))
  {
    var g := Guard(Internal, None, ["a"], [], []);
    LabelsOfADot();
    assert "a" in g.hosts && EqualFold("a", "a");
    assert !HostAllowed(g, "a.") by { assert |"a"| != |"a."|; }
    assert !IsNumericPart("a");
    var loopback: Bytes := [127, 0, 0, 1];
    assert IsLoopback(loopback) && Normal(loopback) == loopback && !IPAllowed(g, loopback);
    assert loopback in [loopback];
  }

  lemma LabelsOfADot()
    ensures Split("a", '.') == ["a"] && Split("a.", '.') == ["a", ""] && Absolute("a.") == "a"
  {
    SplitConcat("a", "", '.');
    SplitFree("a", '.');
    assert "a" + ['.'] + "" == "a.";
    assert "a."[..1] == "a" && "a."[1..] == ".";
  }

  // Every spelling inet_aton reads as an IPv4 address is refused.

  datatype Numeral = Decimal(n: nat) | Octal(n: nat) | Hex(n: nat, upper: bool) | BareHex(upper: bool)

  function Digits(n: nat, base: nat): (s: string)
    requires base in {8, 10, 16}
    ensures s != ""
  {
    (if n < base then "" else Digits(n / base, base)) + [DigitOf(n % base)]
  }

  function DigitOf(d: nat): char
    requires d < 16
  {
    (if d < 10 then '0' as int + d else 'a' as int + d - 10) as char
  }

  function Spelled(x: Numeral): string {
    match x
    case Decimal(n) => Digits(n, 10)
    case Octal(n) => "0" + Digits(n, 8)
    case Hex(n, upper) => (if upper then "0X" else "0x") + Digits(n, 16)
    case BareHex(upper) => if upper then "0X" else "0x"
  }

  lemma {:induction false} DigitsAreDigits(n: nat, base: nat)
    requires base in {8, 10, 16}
    ensures forall i :: 0 <= i < |Digits(n, base)| ==> HexDigit(Digits(n, base)[i])
    ensures base < 16 ==> forall i :: 0 <= i < |Digits(n, base)| ==> '0' <= Digits(n, base)[i] <= '9'
  {
    if n >= base {
      DigitsAreDigits(n / base, base);
    }
  }

  lemma SpelledIsNumeric(x: Numeral)
    ensures IsNumericPart(Spelled(x)) && '.' !in Spelled(x)
  {
    if x.Decimal? { DigitsAreDigits(x.n, 10); }
    if x.Octal? { DigitsAreDigits(x.n, 8); }
    if x.Hex? { DigitsAreDigits(x.n, 16); }
  }

  function SpelledAll(xs: seq<Numeral>): seq<string> {
    seq(|xs|, i requires 0 <= i < |xs| => Spelled(xs[i]))
  }

  /**
   * One to four numerals in any mix of bases: unless it is the canonical form that parses as an
   * address, no check passes it, whatever a lookup would say, unless it is on the allow list.
   */
  lemma NumericLiteralsRefused(g: Guard, xs: seq<Numeral>, p: Parser, answer: Answer, mayFail: bool)
    requires 1 <= |xs| <= 4 && Enabled(g)
    ensures var host := Join(SpelledAll(xs), '.');
            p.ip(host).None? && !HostAllowed(g, host) ==>
              !HostPasses(g, host, p, answer) && !SpellingPasses(g, host, p, answer, mayFail)
  {
    var parts := SpelledAll(xs);
    forall i | 0 <= i < |parts| ensures IsNumericPart(parts[i]) && '.' !in parts[i] {
      SpelledIsNumeric(xs[i]);
    }
    SplitJoin(parts, '.');
    assert IsNumericHost(Join(parts, '.'));
    assert parts[0] != "" && Split("", '.') == [""];
  }
}
