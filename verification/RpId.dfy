/**
Which WebAuthn relying party id an origin gets. Accepted origins are the six platform domains and
their one-label subdomains; the id must be the origin's host or a suffix of it at a label boundary
(section 5.1.3 of Web Authentication Level 2). Hosts are taken as parsed from the origin.
*/
module RpId {
  import opened Text

  datatype Environment = App | Stage | Dev
  datatype Tld = DevTld | AiTld

  function LabelText(l: Environment): string {
    match l
    case App => "app"
    case Stage => "stage"
    case Dev => "dev"
  }

  function TldText(t: Tld): string {
    match t
    case DevTld => "dev"
    case AiTld => "ai"
  }

  datatype Base = Base(env: Environment, tld: Tld)

  /** For instance app.authsec.dev. */
  function Name(b: Base): string {
    LabelText(b.env) + ".authsec." + TldText(b.tld)
  }

  const BASES := [Base(App, DevTld), Base(Stage, DevTld), Base(Dev, DevTld),
                  Base(App, AiTld), Base(Stage, AiTld), Base(Dev, AiTld)]

  /** The domains SetupWebAuthn looks for, in its order. */
  const LISTED := [Base(App, DevTld), Base(Stage, DevTld), Base(Dev, DevTld), Base(App, AiTld)]

  /** The six domains, and which of them SetupWebAuthn looks for. */
  lemma BasesSpelled()
    ensures Name(Base(App, DevTld)) == "app.authsec.dev" && Name(Base(App, AiTld)) == "app.authsec.ai"
    ensures Name(Base(Stage, DevTld)) == "stage.authsec.dev" && Name(Base(Stage, AiTld)) == "stage.authsec.ai"
    ensures Name(Base(Dev, DevTld)) == "dev.authsec.dev" && Name(Base(Dev, AiTld)) == "dev.authsec.ai"
    ensures forall b: Base :: b in LISTED <==> b.tld.DevTld? || b.env.App?
  {
    forall b: Base ensures b in LISTED <==> b.tld.DevTld? || b.env.App? {
      ListedIff(b);
    }
  }

  lemma ListedIff(b: Base)
    ensures b in LISTED <==> b.tld.DevTld? || b.env.App?
  {
    var i := match b.env case App => (if b.tld.DevTld? then 0 else 3) case Stage => 1 case Dev => 2;
    assert b.tld.DevTld? || b.env.App? ==> LISTED[i] == b;
  }

  // ---------------------------------------------------------------- acceptance

  predicate SubdomainChar(c: char) {
    'a' <= c <= 'z' || 'A' <= c <= 'Z' || '0' <= c <= '9' || c == '-'
  }

  predicate AllSubdomainChars(s: string) {
    forall i :: 0 <= i < |s| ==> SubdomainChar(s[i])
  }

  predicate IsSubdomain(s: string) {
    0 < |s| <= 63 && AllSubdomainChars(s)
  }

  predicate IsHostOf(host: string, b: Base) {
    host == Name(b) || (HasSuffix(host, "." + Name(b)) && IsSubdomain(host[..|host| - |Name(b)| - 1]))
  }

  ghost predicate Accepted(host: string) {
    exists b: Base :: IsHostOf(host, b)
  }

  /** Code points of the digits, the letters of either case and the hyphen. */
  predicate LabelPoint(c: int) {
    48 <= c <= 57 || 65 <= c <= 90 || 97 <= c <= 122 || c == 45
  }

  /** A platform domain is accepted, and below it one label of 1 to 63 letters, digits and hyphens. */
  lemma AcceptedSpelled(prefix: string, b: Base)
    ensures IsHostOf(Name(b), b)
    ensures IsHostOf(prefix + "." + Name(b), b) <==>
            1 <= |prefix| <= 63 && forall i :: 0 <= i < |prefix| ==> LabelPoint(prefix[i] as int)
  {
    var host := prefix + "." + Name(b);
    assert host[..|prefix|] == prefix && host[|prefix|..] == "." + Name(b);
    assert forall i :: 0 <= i < |prefix| ==> (SubdomainChar(prefix[i]) <==> LabelPoint(prefix[i] as int));
  }

  /** The last character of a base's label and the first of its top-level domain tell the bases apart. */
  predicate EndsLike(host: string, b: Base) {
    var n := |TldText(b.tld)|;
    && |host| > n + 9
    && host[|host| - 1] == TldText(b.tld)[n - 1]
    && host[|host| - n - 10] == LabelText(b.env)[|LabelText(b.env)| - 1]
  }

  lemma NameEndsLike(b: Base)
    ensures EndsLike(Name(b), b)
  {}

  lemma SuffixEndsLike(host: string, b: Base)
    requires host == Name(b) || HasSuffix(host, "." + Name(b))
    ensures EndsLike(host, b)
  {
    NameEndsLike(b);
    if host != Name(b) {
      var o := |host| - |Name(b)|;
      assert host[o..] == ("." + Name(b))[1..] == Name(b);
    }
  }

  lemma EndsLikeOne(host: string, b: Base, b': Base)
    requires EndsLike(host, b) && EndsLike(host, b')
    ensures b == b'
  {}

  /** The checks of ValidateSubdomainOrigin on the host of an https origin. */
  method ValidateSubdomainHost(host: string) returns (ok: bool)
    ensures ok == Accepted(host)
  {
    for i := 0 to |BASES|
      invariant forall j :: 0 <= j < i ==> !IsHostOf(host, BASES[j])
    {
      var domain := Name(BASES[i]);
      if host == domain {
        assert IsHostOf(host, BASES[i]);
        return true;
      }
      if HasSuffix(host, "." + domain) {
        var subdomain := host[..|host| - |domain| - 1];
        if 0 < |subdomain| <= 63 {
          if !AllSubdomainChars(subdomain) {
            OnlyBase(host, BASES[i]);
            return false;
          }
          assert IsHostOf(host, BASES[i]);
          return true;
        }
      }
    }
    forall b: Base ensures !IsHostOf(host, b) {
      BasesComplete(b);
    }
    return false;
  }

  lemma BasesComplete(b: Base)
    ensures exists j :: 0 <= j < |BASES| && BASES[j] == b
  {
    var j := (match b.env case App => 0 case Stage => 1 case Dev => 2) + (if b.tld.DevTld? then 0 else 3);
    assert BASES[j] == b;
  }

  /** A host under one base is under no other. */
  lemma OnlyBase(host: string, b: Base)
    requires host == Name(b) || HasSuffix(host, "." + Name(b))
    ensures forall b': Base :: IsHostOf(host, b') ==> b' == b
  {
    SuffixEndsLike(host, b);
    forall b': Base | IsHostOf(host, b') ensures b' == b {
      SuffixEndsLike(host, b');
      EndsLikeOne(host, b, b');
    }
  }

  // ---------------------------------------------------------------- the two ways of choosing the id

  function BeforeColon(s: string): string {
    if s == "" || s[0] == ':' then "" else [s[0]] + BeforeColon(s[1..])
  }

  function FirstContained(host: string, bases: seq<Base>): string {
    if bases == [] then host
    else if Contains(host, Name(bases[0])) then Name(bases[0])
    else FirstContained(host, bases[1..])
  }

  /** The choice in SetupWebAuthn: the first listed domain the lower-cased host contains, else the host. */
  function SetupRpId(host: string): string {
    FirstContained(BeforeColon(ToLower(host)), LISTED)
  }

  /** The host without a port: cut at the last colon, unless that belongs to a bracketed address. */
  function WithoutPort(host: string, i: nat): string
    requires i <= |host|
  {
    if i == 0 then host
    else if host[i - 1] == ':' then if i - 1 > 0 && ']' !in host[i - 1..] then host[..i - 1] else host
    else WithoutPort(host, i - 1)
  }

  predicate UnderBase(host: string, b: Base) {
    host == Name(b) || HasSuffix(host, "." + Name(b))
  }

  function FirstUnder(host: string, bases: seq<Base>): string {
    if bases == [] then host
    else if UnderBase(host, bases[0]) then Name(bases[0])
    else FirstUnder(host, bases[1..])
  }

  /** The choice in extractRPIDFromOrigin. */
  function ExtractRpId(host: string): string {
    FirstUnder(ToLower(WithoutPort(host, |host|)), BASES)
  }

  /** The loop of extractRPIDFromOrigin over the base domains. */
  method ScanBases(host: string) returns (id: string)
    ensures id == FirstUnder(host, BASES)
    ensures id == host || exists b: Base :: UnderBase(host, b) && id == Name(b)
  {
    for i := 0 to |BASES|
      invariant FirstUnder(host, BASES) == FirstUnder(host, BASES[i..])
    {
      if UnderBase(host, BASES[i]) {
        return Name(BASES[i]);
      }
      assert BASES[i..][1..] == BASES[i + 1..];
    }
    return host;
  }

  // ---------------------------------------------------------------- where the dots are

  lemma NameShape(b: Base)
    ensures var n, l := Name(b), |LabelText(b.env)|;
            && |n| == l + 9 + |TldText(b.tld)|
            && (forall j :: 0 <= j < |n| ==> (n[j] == '.' <==> j == l || j == l + 8))
            && n[l - 1] == LabelText(b.env)[l - 1] && n[l + 9] == TldText(b.tld)[0]
            && (forall j :: 0 <= j < |n| ==> n[j] != ':' && LowerChar(n[j]) == n[j])
  {}

  /** Where the base sits in a host. */
  lemma HostEndsInName(h: string, b: Base, j: nat)
    requires UnderBase(h, b) && j < |Name(b)|
    ensures |h| >= |Name(b)| && h[|h| - |Name(b)| + j] == Name(b)[j]
  {
    UnderChar(h, Name(b), j);
  }

  lemma UnderChar(h: string, n: string, j: nat)
    requires (h == n || HasSuffix(h, "." + n)) && j < |n|
    ensures |h| >= |n| && h[|h| - |n| + j] == n[j]
  {
    if h != n {
      assert h[|h| - |n| - 1..][j + 1] == ("." + n)[j + 1] == n[j];
    }
  }

  /** The dots of an accepted host: those of its base, and one before it if there is a subdomain. */
  lemma HostDots(h: string, b: Base, j: nat)
    requires IsHostOf(h, b) && j < |h|
    ensures var o, l := |h| - |Name(b)|, |LabelText(b.env)|;
            h[j] == '.' <==> j == o - 1 || j == o + l || j == o + l + 8
  {
    NameShape(b);
    var o := |h| - |Name(b)|;
    if j >= o {
      HostEndsInName(h, b, j - o);
    } else if j == o - 1 {
      assert h[o - 1..] == "." + Name(b);
    } else {
      assert SubdomainChar(h[..o - 1][j]);
    }
  }

  lemma FoundChar(s: string, p: string, i: int, j: nat)
    requires FoundAt(s, p, i) && j < |p|
    ensures s[i + j] == p[j]
  {
    assert s[i..i + |p|][j] == s[i + j];
  }

  /** Matching dots can only be the base's own two. */
  lemma FoundAtBase(h: string, b: Base, p: Base, i: int)
    requires IsHostOf(h, b) && FoundAt(h, Name(p), i)
    ensures i + |LabelText(p.env)| == |h| - |Name(b)| + |LabelText(b.env)|
  {
    NameShape(b);
    NameShape(p);
    var m := |LabelText(p.env)|;
    FoundChar(h, Name(p), i, m);
    FoundChar(h, Name(p), i, m + 8);
    HostDots(h, b, i + m);
    HostDots(h, b, i + m + 8);
  }

  lemma FoundIsBase(h: string, b: Base, p: Base, i: int)
    requires IsHostOf(h, b) && FoundAt(h, Name(p), i)
    ensures p == b
  {
    NameShape(b);
    NameShape(p);
    FoundAtBase(h, b, p, i);
    var l, m := |LabelText(b.env)|, |LabelText(p.env)|;
    FoundChar(h, Name(p), i, m - 1);
    FoundChar(h, Name(p), i, m + 9);
    HostEndsInName(h, b, l - 1);
    HostEndsInName(h, b, l + 9);
  }

  /** A platform domain occurs in an accepted host only if it is the host's own base. */
  lemma ContainsOnlyBase(h: string, b: Base, p: Base)
    requires IsHostOf(h, b)
    ensures Contains(h, Name(p)) <==> p == b
  {
    if Contains(h, Name(p)) {
      var i :| 0 <= i <= |h| - |Name(p)| && FoundAt(h, Name(p), i);
      FoundIsBase(h, b, p, i);
    }
    if p == b {
      var o := |h| - |Name(b)|;
      if h != Name(b) {
        assert h[o - 1..][1..] == Name(b);
      }
      assert h[o..o + |Name(b)|] == Name(b);
      assert FoundAt(h, Name(b), o);
    }
  }

  lemma LowerName(b: Base)
    ensures ToLower(Name(b)) == Name(b) && ':' !in Name(b)
  {
    NameShape(b);
  }

  lemma LowerSubdomain(sub: string)
    requires IsSubdomain(sub)
    ensures IsSubdomain(ToLower(sub)) && ':' !in sub && ':' !in ToLower(sub)
  {}

  lemma LowerConcat(s: string, t: string)
    ensures ToLower(s + t) == ToLower(s) + ToLower(t)
  {}

  /** Lower-casing keeps an accepted host accepted, under the same base. */
  lemma LowerHost(host: string, b: Base)
    requires IsHostOf(host, b)
    ensures IsHostOf(ToLower(host), b)
    ensures ':' !in host && ':' !in ToLower(host)
    ensures ToLower(host) == Name(b) <==> host == Name(b)
  {
    LowerName(b);
    if host != Name(b) {
      var sub := host[..|host| - |Name(b)| - 1];
      assert host == sub + ("." + Name(b));
      LowerSubdomain(sub);
      LowerConcat(sub, "." + Name(b));
      LowerConcat(".", Name(b));
      assert ToLower(".") == ".";
      var h := ToLower(sub) + ("." + Name(b));
      assert h[..|h| - |Name(b)| - 1] == ToLower(sub) && h[|h| - |Name(b)| - 1..] == "." + Name(b);
    }
  }

  lemma {:induction false} NoColon(s: string)
    requires ':' !in s
    ensures BeforeColon(s) == s
  {
    if s != "" {
      NoColon(s[1..]);
    }
  }

  lemma {:induction false} NoPort(host: string, i: nat)
    requires ':' !in host && i <= |host|
    ensures WithoutPort(host, i) == host
  {
    if i > 0 {
      NoPort(host, i - 1);
    }
  }

  lemma {:induction false} FirstContainedIs(h: string, b: Base, bases: seq<Base>)
    requires IsHostOf(h, b)
    ensures FirstContained(h, bases) == if b in bases then Name(b) else h
  {
    if bases != [] {
      ContainsOnlyBase(h, b, bases[0]);
      FirstContainedIs(h, b, bases[1..]);
    }
  }

  lemma {:induction false} FirstUnderIs(h: string, b: Base, bases: seq<Base>)
    requires IsHostOf(h, b)
    ensures FirstUnder(h, bases) == if b in bases then Name(b) else h
  {
    if bases != [] {
      if UnderBase(h, bases[0]) {
        OnlyBase(h, bases[0]);
      }
      FirstUnderIs(h, b, bases[1..]);
    }
  }

  // ---------------------------------------------------------------- ports

  lemma {:induction false} CutAtColon(s: string, rest: string)
    requires ':' !in s
    ensures BeforeColon(s + ":" + rest) == s
  {
    if s == "" {
      assert (s + ":" + rest)[0] == ':';
    } else {
      assert (s + ":" + rest)[1..] == s[1..] + ":" + rest;
      CutAtColon(s[1..], rest);
    }
  }

  /** The cut is at the last colon, if something is before it and no bracket after it; otherwise there is none. */
  lemma {:induction false} CutAtLastColon(s: string, port: string, i: nat)
    requires ':' !in port && |s| < i <= |s| + 1 + |port|
    ensures WithoutPort(s + ":" + port, i) == if s != "" && ']' !in port then s else s + ":" + port
  {
    var host := s + ":" + port;
    if i == |s| + 1 {
      assert host[|s|] == ':' && host[|s|..] == ":" + port && host[..|s|] == s;
      assert ']' in host[|s|..] <==> ']' in port;
    } else {
      assert host[i - 1] == port[i - 2 - |s|];
      CutAtLastColon(s, port, i - 1);
    }
  }

  lemma LowerWithPort(host: string, port: string)
    requires ':' !in host
    ensures ToLower(host + ":" + port) == ToLower(host) + ":" + ToLower(port)
    ensures ':' !in ToLower(host)
  {
    LowerConcat(host + ":", port);
    LowerConcat(host, ":");
    assert ToLower(":") == ":";
    forall i | 0 <= i < |host| ensures ToLower(host)[i] != ':' {
      assert host[i] in host;
    }
  }

  /** A port changes neither choice. */
  lemma PortIsIgnored(host: string, port: string)
    requires host != "" && ':' !in host && ':' !in port && ']' !in port
    ensures SetupRpId(host + ":" + port) == SetupRpId(host)
    ensures ExtractRpId(host + ":" + port) == ExtractRpId(host)
  {
    LowerWithPort(host, port);
    CutAtColon(ToLower(host), ToLower(port));
    NoColon(ToLower(host));
    CutAtLastColon(host, port, |host + ":" + port|);
    NoPort(host, |host|);
  }

  // ---------------------------------------------------------------- the theorems

  /** The id equals the host or is what follows one of its dots. */
  predicate IsLabelSuffix(id: string, host: string) {
    id == host || HasSuffix(host, "." + id)
  }

  lemma SetupChoice(host: string, b: Base)
    requires IsHostOf(host, b)
    ensures SetupRpId(host) == if b in LISTED then Name(b) else ToLower(host)
  {
    LowerHost(host, b);
    NoColon(ToLower(host));
    FirstContainedIs(ToLower(host), b, LISTED);
  }

  lemma ExtractChoice(host: string, b: Base)
    requires IsHostOf(host, b)
    ensures ExtractRpId(host) == Name(b)
  {
    LowerHost(host, b);
    NoPort(host, |host|);
    FirstUnderIs(ToLower(host), b, BASES);
    BasesComplete(b);
  }

  /** The first listed domain that the host contains, if any, is one that it is under. */
  predicate FirstHitIsBase(h: string, bases: seq<Base>) {
    bases == [] ||
    if Contains(h, Name(bases[0])) then UnderBase(h, bases[0]) else FirstHitIsBase(h, bases[1..])
  }

  lemma {:induction false} ContainedIsSuffixIff(h: string, bases: seq<Base>)
    ensures IsLabelSuffix(FirstContained(h, bases), h) <==> FirstHitIsBase(h, bases)
  {
    if bases != [] && !Contains(h, Name(bases[0])) {
      ContainedIsSuffixIff(h, bases[1..]);
    }
  }

  lemma {:induction false} UnderIsSuffix(h: string, bases: seq<Base>)
    ensures IsLabelSuffix(FirstUnder(h, bases), h)
  {
    if bases != [] && !UnderBase(h, bases[0]) {
      UnderIsSuffix(h, bases[1..]);
    }
  }

  lemma {:induction false} AcceptedHitsBase(h: string, b: Base, bases: seq<Base>)
    requires IsHostOf(h, b)
    ensures FirstHitIsBase(h, bases)
  {
    if bases != [] {
      ContainsOnlyBase(h, b, bases[0]);
      AcceptedHitsBase(h, b, bases[1..]);
    }
  }

  /**
  For every host: the choice of SetupWebAuthn is a valid relying party id for it exactly when the first
  listed domain it contains, if any, is one it is under, which holds of every accepted host; the choice
  of extractRPIDFromOrigin always is one.
  */
  lemma RpIdIsLabelSuffix(host: string)
    ensures var h := BeforeColon(ToLower(host)); IsLabelSuffix(SetupRpId(host), h) <==> FirstHitIsBase(h, LISTED)
    ensures IsLabelSuffix(ExtractRpId(host), ToLower(WithoutPort(host, |host|)))
    ensures Accepted(host) ==> BeforeColon(ToLower(host)) == ToLower(host) && FirstHitIsBase(ToLower(host), LISTED)
  {
    ContainedIsSuffixIff(BeforeColon(ToLower(host)), LISTED);
    UnderIsSuffix(ToLower(WithoutPort(host, |host|)), BASES);
    if Accepted(host) {
      var b: Base :| IsHostOf(host, b);
      LowerHost(host, b);
      NoColon(ToLower(host));
      AcceptedHitsBase(ToLower(host), b, LISTED);
    }
  }

  /** The two choices agree on an accepted host exactly when its base is listed, or it is the base itself. */
  lemma ChoicesAgreeIff(host: string, b: Base)
    requires IsHostOf(host, b)
    ensures SetupRpId(host) == ExtractRpId(host) <==> b in LISTED || host == Name(b)
  {
    SetupChoice(host, b);
    ExtractChoice(host, b);
    LowerHost(host, b);
  }

  /** When the host contains no listed domain, the chain keeps it. */
  predicate ContainsNone(h: string, bases: seq<Base>) {
    forall i :: 0 <= i < |bases| ==> !Contains(h, Name(bases[i]))
  }

  lemma {:induction false} NoHitKeepsHost(h: string, bases: seq<Base>)
    requires ContainsNone(h, bases)
    ensures FirstContained(h, bases) == h
  {
    if bases != [] {
      NoHitKeepsHost(h, bases[1..]);
    }
  }

  lemma {:induction false} HitIsContained(h: string, bases: seq<Base>) returns (b: Base)
    requires !ContainsNone(h, bases)
    ensures b in bases && Contains(h, Name(b)) && FirstContained(h, bases) == Name(b)
    ensures FirstHitIsBase(h, bases) <==> UnderBase(h, b)
  {
    if Contains(h, Name(bases[0])) {
      b := bases[0];
    } else {
      assert !ContainsNone(h, bases[1..]) by {
        var i :| 0 <= i < |bases| && Contains(h, Name(bases[i]));
        assert bases[1..][i - 1] == bases[i];
      }
      b := HitIsContained(h, bases[1..]);
    }
  }

  lemma {:induction false} UnderPicks(h: string, b: Base, bases: seq<Base>)
    requires UnderBase(h, b) && b in bases
    ensures FirstUnder(h, bases) == Name(b)
  {
    if UnderBase(h, bases[0]) {
      SuffixEndsLike(h, b);
      SuffixEndsLike(h, bases[0]);
      EndsLikeOne(h, b, bases[0]);
    } else {
      UnderPicks(h, b, bases[1..]);
    }
  }

  lemma {:induction false} UnderNone(h: string, bases: seq<Base>)
    requires forall i :: 0 <= i < |bases| ==> !UnderBase(h, bases[i])
    ensures FirstUnder(h, bases) == h
  {
    if bases != [] {
      UnderNone(h, bases[1..]);
    }
  }

  lemma NamesDiffer(b: Base, b': Base)
    requires Name(b) == Name(b')
    ensures b == b'
  {
    NameEndsLike(b);
    NameEndsLike(b');
    EndsLikeOne(Name(b), b, b');
  }

  /** The suffix scan gives the base a host is under, and the host itself when it is under none. */
  lemma ScanResult(h: string)
    ensures forall b: Base :: UnderBase(h, b) ==> FirstUnder(h, BASES) == Name(b)
    ensures (forall b: Base :: !UnderBase(h, b)) ==> FirstUnder(h, BASES) == h
  {
    forall b: Base | UnderBase(h, b) ensures FirstUnder(h, BASES) == Name(b) {
      BasesComplete(b);
      UnderPicks(h, b, BASES);
    }
    if forall b: Base :: !UnderBase(h, b) {
      UnderNone(h, BASES);
    }
  }

  /**
  For every lower-case host without a port the two choices agree exactly when the first listed domain it
  contains is one it is under, or it contains none and is below no platform domain.
  */
  lemma ChoicesAgreeForAll(h: string)
    requires ':' !in h && ToLower(h) == h
    ensures SetupRpId(h) == ExtractRpId(h) <==>
            && FirstHitIsBase(h, LISTED)
            && (ContainsNone(h, LISTED) ==> forall b: Base :: UnderBase(h, b) ==> h == Name(b))
  {
    NoColon(h);
    NoPort(h, |h|);
    ScanResult(h);
    if ContainsNone(h, LISTED) {
      NoHitKeepsHost(h, LISTED);
      ContainedIsSuffixIff(h, LISTED);
    } else {
      var b := HitIsContained(h, LISTED);
      HitElsewhere(h, b);
    }
  }

  /** A host that contains a platform domain without being under it gets another id from the scan. */
  lemma HitElsewhere(h: string, b: Base)
    ensures FirstUnder(h, BASES) == Name(b) <==> UnderBase(h, b)
  {
    ScanResult(h);
    if !UnderBase(h, b) && FirstUnder(h, BASES) == Name(b) {
      if other: Base :| UnderBase(h, other) {
        NamesDiffer(b, other);
      }
      assert false;
    }
  }

  /** The condition can fail: for a custom domain that merely starts with a platform domain the id is no suffix. */
  lemma ContainedElsewhere(rest: string)
    requires rest != "" && '.' !in rest && ':' !in rest && ToLower(rest) == rest
    ensures var host := "app.authsec.dev." + rest;
            SetupRpId(host) == "app.authsec.dev" && !IsLabelSuffix(SetupRpId(host), BeforeColon(ToLower(host)))
  {
    var b := Base(App, DevTld);
    var host := Name(b) + "." + rest;
    assert Name(b) == "app.authsec.dev" && host == "app.authsec.dev." + rest;
    LowerName(b);
    LowerConcat(Name(b) + ".", rest);
    LowerConcat(Name(b), ".");
    assert ToLower(".") == ".";
    NoColon(host);
    assert FoundAt(host, Name(b), 0);
    NotUnder(host, b, rest);
    ContainedIsSuffixIff(host, LISTED);
  }

  lemma NotUnder(host: string, b: Base, rest: string)
    requires host == Name(b) + "." + rest && rest != "" && '.' !in rest
    ensures !UnderBase(host, b)
  {
    NameShape(b);
    var l := |LabelText(b.env)|;
    if UnderBase(host, b) {
      HostEndsInName(host, b, l + 8);
      HostEndsInName(host, b, l);
      assert false;
    }
  }
}
