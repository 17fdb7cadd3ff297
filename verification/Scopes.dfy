/**
Scopes of a token: the SPIFFE middleware joins a list of permissions into one space-delimited
string, and the scope check splits it again and matches resource and action with wildcards.
*/
module Scopes {
  import opened Options
  import opened Text

  // ---------------------------------------------------------------- joining and splitting

  function Join(parts: seq<string>): string {
    if parts == [] then ""
    else if |parts| == 1 then parts[0]
    else parts[0] + " " + Join(parts[1..])
  }

  /** The longest start of `s` without white space. */
  function Word(s: string): (w: string)
    ensures w <= s
    ensures |w| < |s| ==> IsSpace(s[|w|])
    ensures s != "" && !IsSpace(s[0]) ==> w != ""
  {
    if s == "" || IsSpace(s[0]) then "" else [s[0]] + Word(s[1..])
  }

  /** The words of `s`: strings.Fields. */
  function Fields(s: string): seq<string>
    decreases |s|
  {
    if s == "" then []
    else if IsSpace(s[0]) then Fields(s[1..])
    else [Word(s)] + Fields(s[|Word(s)|..])
  }

  function AllFields(parts: seq<string>): seq<string> {
    if parts == [] then [] else Fields(parts[0]) + AllFields(parts[1..])
  }

  lemma {:induction false} WordStops(a: string, rest: string)
    requires rest != "" && IsSpace(rest[0])
    ensures Word(a + rest) == Word(a)
  {
    if a == "" {
      assert a + rest == rest;
    } else if !IsSpace(a[0]) {
      assert (a + rest)[1..] == a[1..] + rest;
      WordStops(a[1..], rest);
    }
  }

  lemma {:induction false} FieldsSplitAtSpace(a: string, rest: string)
    requires rest != "" && IsSpace(rest[0])
    ensures Fields(a + rest) == Fields(a) + Fields(rest)
    decreases |a|
  {
    if a == "" {
      assert a + rest == rest;
    } else if IsSpace(a[0]) {
      assert (a + rest)[1..] == a[1..] + rest;
      FieldsSplitAtSpace(a[1..], rest);
    } else {
      WordStops(a, rest);
      var w := Word(a);
      assert (a + rest)[|w|..] == a[|w|..] + rest;
      FieldsSplitAtSpace(a[|w|..], rest);
      assert [w] + (Fields(a[|w|..]) + Fields(rest)) == [w] + Fields(a[|w|..]) + Fields(rest);
    }
  }

  lemma FieldsOfTwo(a: string, b: string)
    ensures Fields(a + " " + b) == Fields(a) + Fields(b)
  {
    FieldsSplitAtSpace(a, " " + b);
    assert a + " " + b == a + (" " + b);
    assert (" " + b)[1..] == b;
  }

  /** Splitting the joined string gives the words of the parts, in order. */
  lemma {:induction false} FieldsOfJoin(parts: seq<string>)
    ensures Fields(Join(parts)) == AllFields(parts)
  {
    if |parts| == 1 {
      assert AllFields(parts) == Fields(parts[0]) + AllFields([]);
    } else if |parts| > 1 {
      FieldsOfJoin(parts[1..]);
      FieldsOfTwo(parts[0], Join(parts[1..]));
    }
  }

  ghost predicate NoSpaces(s: string) {
    forall i :: 0 <= i < |s| ==> !IsSpace(s[i])
  }

  lemma {:induction false} WordOfSolid(s: string)
    requires NoSpaces(s)
    ensures Word(s) == s
  {
    if s != "" {
      WordOfSolid(s[1..]);
    }
  }

  lemma {:induction false} AllFieldsOfSolid(parts: seq<string>, h: string)
    requires forall i :: 0 <= i < |parts| ==> NoSpaces(parts[i])
    ensures h in AllFields(parts) <==> h in parts && h != ""
  {
    if parts != [] {
      WordOfSolid(parts[0]);
      AllFieldsOfSolid(parts[1..], h);
      assert Fields(parts[0]) == if parts[0] == "" then [] else [parts[0]];
    }
  }

  // ---------------------------------------------------------------- matching

  /** Resource and action, split at the first colon. */
  function Split(s: string): Option<(string, string)> {
    if s == "" then None
    else if s[0] == ':' then Some(("", s[1..]))
    else match Split(s[1..])
      case None => None
      case Some((r, a)) => Some(([s[0]] + r, a))
  }

  predicate Grants(h: string, needed: string) {
    match (Split(h), Split(needed))
    case (Some((hr, ha)), Some((nr, na))) =>
      (hr == nr || hr == "*" || nr == "*") && (ha == na || ha == "*" || na == "*")
    case _ => false
  }

  predicate WildcardMatch(have: seq<string>, needed: string) {
    exists i | 0 <= i < |have| :: Grants(have[i], needed)
  }

  lemma {:induction false} SplitSpelled(r: string, a: string)
    requires ':' !in r
    ensures Split(r + ":" + a) == Some((r, a))
  {
    var s := r + ":" + a;
    if r == "" {
      assert s[0] == ':' && s[1..] == a;
    } else {
      assert s[1..] == r[1..] + ":" + a;
      SplitSpelled(r[1..], a);
      assert [r[0]] + r[1..] == r;
    }
  }

  lemma {:induction false} NoColonNoSplit(s: string)
    requires ':' !in s
    ensures Split(s) == None
  {
    if s != "" {
      NoColonNoSplit(s[1..]);
    }
  }

  /** An entry grants a need when both parts are equal or starred on either side; without a colon it grants nothing. */
  lemma GrantsSpelled(hr: string, ha: string, nr: string, na: string)
    requires ':' !in hr && ':' !in nr
    ensures Grants(hr + ":" + ha, nr + ":" + na) <==> (hr == nr || "*" in {hr, nr}) && (ha == na || "*" in {ha, na})
    ensures !Grants(hr, nr + ":" + na) && !Grants(hr + ":" + ha, nr)
  {
    SplitSpelled(hr, ha);
    SplitSpelled(nr, na);
    NoColonNoSplit(hr);
    NoColonNoSplit(nr);
  }

  /** A match depends on which entries are present, not on their order or number. */
  lemma MatchByMembers(have: seq<string>, have': seq<string>, needed: string)
    requires forall h :: h in have && Grants(h, needed) ==> h in have'
    ensures WildcardMatch(have, needed) ==> WildcardMatch(have', needed)
  {
    if WildcardMatch(have, needed) {
      var i :| 0 <= i < |have| && Grants(have[i], needed);
      assert have[i] in have';
      var j :| 0 <= j < |have'| && have'[j] == have[i];
    }
  }

  // ---------------------------------------------------------------- claims

  datatype Json = Text(s: string) | NotText

  datatype ScopesClaim = Absent | Values(values: seq<Json>) | Strings(strings: seq<string>)

  datatype Claims = Claims(scope: Option<string>, scopes: ScopesClaim)

  function NonEmptyTexts(values: seq<Json>): seq<string> {
    if values == [] then []
    else (if values[0].Text? && values[0].s != "" then [values[0].s] else []) + NonEmptyTexts(values[1..])
  }

  predicate HasScope(claims: Claims, needed: string) {
    (claims.scope.Some? && claims.scope.value != "" && WildcardMatch(Fields(claims.scope.value), needed)) ||
    (match claims.scopes
     case Absent => false
     case Values(values) => WildcardMatch(NonEmptyTexts(values), needed)
     case Strings(strings) => WildcardMatch(strings, needed))
  }

  function Texts(values: seq<Json>): seq<string> {
    if values == [] then []
    else Texts(values[..|values| - 1]) + (if values[|values| - 1].Text? then [values[|values| - 1].s] else [])
  }

  lemma {:induction false} TextsAre(values: seq<Json>)
    ensures |Texts(values)| <= |values|
    ensures forall h :: h in Texts(values) <==> Text(h) in values
    ensures forall s: seq<string> :: values == AsTexts(s) ==> Texts(values) == s
  {
    if values != [] {
      var n := |values| - 1;
      TextsAre(values[..n]);
      forall h ensures h in Texts(values) <==> Text(h) in values {
        assert Text(h) in values <==> Text(h) in values[..n] || values[n] == Text(h);
      }
      forall s: seq<string> | values == AsTexts(s) ensures Texts(values) == s {
        assert values[..n] == AsTexts(s[..n]);
        assert s == s[..n] + [s[n]];
      }
    }
  }

  function AsTexts(s: seq<string>): seq<Json> {
    seq(|s|, i requires 0 <= i < |s| => Text(s[i]))
  }

  /** Joining puts exactly one space between the parts. */
  lemma {:induction false} JoinConcat(a: seq<string>, b: seq<string>)
    requires a != [] && b != []
    ensures Join(a + b) == Join(a) + " " + Join(b)
    ensures |a| == 1 ==> Join(a) == a[0]
  {
    if |a| == 1 {
      assert (a + b)[1..] == b;
    } else {
      JoinConcat(a[1..], b);
      assert (a + b)[1..] == a[1..] + b;
    }
  }

  /** The middleware's loop over the permissions claim: its text entries become the scope. */
  method MapPermissions(claims: Claims, permissions: seq<Json>) returns (mapped: Claims)
    ensures mapped == claims.(scope := Some(Join(Texts(permissions))))
  {
    var parts := [];
    for i := 0 to |permissions|
      invariant parts == Texts(permissions[..i])
    {
      assert permissions[..i + 1][..i] == permissions[..i];
      if permissions[i].Text? {
        parts := parts + [permissions[i].s];
      }
    }
    assert permissions[..|permissions|] == permissions;
    mapped := claims.(scope := Some(Join(parts)));
  }

  /** In general, a mapped token has a scope exactly when some word of some permission grants it. */
  lemma JoinedScopeByWords(parts: seq<string>, needed: string)
    ensures HasScope(Claims(Some(Join(parts)), Absent), needed) <==> WildcardMatch(AllFields(parts), needed)
  {
    FieldsOfJoin(parts);
  }

  /** For permissions without white space, joining and splitting decides like the list itself. */
  lemma JoinedScopeDecidesAlike(parts: seq<string>, needed: string)
    requires forall i :: 0 <= i < |parts| ==> NoSpaces(parts[i])
    ensures HasScope(Claims(Some(Join(parts)), Absent), needed) <==> WildcardMatch(parts, needed)
  {
    JoinedScopeByWords(parts, needed);
    forall h ensures h in AllFields(parts) <==> h in parts && h != "" {
      AllFieldsOfSolid(parts, h);
    }
    MatchByMembers(parts, AllFields(parts), needed);
    MatchByMembers(AllFields(parts), parts, needed);
  }

  lemma {:induction false} AllFieldsConcat(parts: seq<string>, more: seq<string>)
    ensures AllFields(parts + more) == AllFields(parts) + AllFields(more)
  {
    if parts == [] {
      assert parts + more == more;
    } else {
      assert (parts + more)[0] == parts[0] && (parts + more)[1..] == parts[1..] + more;
      AllFieldsConcat(parts[1..], more);
    }
  }

  /** Permissions added anywhere never take a scope away. */
  lemma MorePermissionsKeepScopes(before: seq<string>, parts: seq<string>, after: seq<string>, needed: string)
    requires HasScope(Claims(Some(Join(parts)), Absent), needed)
    ensures HasScope(Claims(Some(Join(before + parts + after)), Absent), needed)
  {
    JoinedScopeByWords(parts, needed);
    JoinedScopeByWords(before + parts + after, needed);
    AllFieldsConcat(before + parts, after);
    AllFieldsConcat(before, parts);
    MatchByMembers(AllFields(parts), AllFields(before + parts + after), needed);
  }

  // ---------------------------------------------------------------- the scope check on any token

  /** The entry, spelled out, has this resource or a star and this action or a star, the star on either side. */
  ghost predicate IsGrant(h: string, nr: string, na: string) {
    exists hr, ha :: Spells(h, hr, ha) && (hr == nr || hr == "*" || nr == "*") && (ha == na || ha == "*" || na == "*")
  }

  predicate Spells(h: string, hr: string, ha: string) {
    h == hr + ":" + ha && ':' !in hr
  }

  lemma GrantIsSpelled(h: string, nr: string, na: string)
    requires ':' !in nr
    ensures Grants(h, nr + ":" + na) <==> IsGrant(h, nr, na)
  {
    SplitSpelled(nr, na);
    if Split(h).Some? {
      var (hr, ha) := Split(h).value;
      SplitParts(h);
      assert Spells(h, hr, ha);
    }
    if hr, ha :| Spells(h, hr, ha) && (hr == nr || hr == "*" || nr == "*") && (ha == na || ha == "*" || na == "*") {
      SplitSpelled(hr, ha);
    }
  }

  /** A token carries an entry as a word of its scope, a text of a list claim, or an entry of a string claim. */
  ghost predicate Carries(claims: Claims, h: string) {
    || (claims.scope.Some? && h in Fields(claims.scope.value))
    || (claims.scopes.Values? && h != "" && Text(h) in claims.scopes.values)
    || (claims.scopes.Strings? && h in claims.scopes.strings)
  }

  lemma MatchSpelled(have: seq<string>, nr: string, na: string)
    requires ':' !in nr
    ensures WildcardMatch(have, nr + ":" + na) <==> exists h :: h in have && IsGrant(h, nr, na)
  {
    forall h ensures Grants(h, nr + ":" + na) <==> IsGrant(h, nr, na) {
      GrantIsSpelled(h, nr, na);
    }
    if h :| h in have && IsGrant(h, nr, na) {
      var i :| 0 <= i < |have| && have[i] == h;
    }
  }

  /** For every token: it has a scope exactly when it carries an entry that grants it. */
  lemma HasScopeIff(claims: Claims, nr: string, na: string)
    requires ':' !in nr
    ensures HasScope(claims, nr + ":" + na) <==> exists h :: Carries(claims, h) && IsGrant(h, nr, na)
  {
    if claims.scope.Some? {
      MatchSpelled(Fields(claims.scope.value), nr, na);
    }
    match claims.scopes {
      case Absent =>
      case Values(values) =>
        MatchSpelled(NonEmptyTexts(values), nr, na);
        forall h ensures h in NonEmptyTexts(values) <==> h != "" && Text(h) in values {
          NonEmptyTextsAre(values, h);
        }
      case Strings(strings) => MatchSpelled(strings, nr, na);
    }
  }

  lemma {:induction false} NonEmptyTextsAre(values: seq<Json>, h: string)
    ensures h in NonEmptyTexts(values) <==> h != "" && Text(h) in values
  {
    if values != [] {
      NonEmptyTextsAre(values[1..], h);
      assert Text(h) in values <==> values[0] == Text(h) || Text(h) in values[1..];
    }
  }

  /** A need without a colon is never granted, and a token without either claim has no scope at all. */
  lemma NothingGranted(claims: Claims, needed: string)
    requires ':' !in needed || (claims.scope.None? && claims.scopes.Absent?)
    ensures !HasScope(claims, needed)
  {
    if ':' !in needed {
      NoColonNoSplit(needed);
    }
  }

  /** A token that carries more has every scope it had. */
  lemma CarryingMoreKeepsScopes(claims: Claims, more: Claims, nr: string, na: string)
    requires ':' !in nr && HasScope(claims, nr + ":" + na) && forall h :: Carries(claims, h) ==> Carries(more, h)
    ensures HasScope(more, nr + ":" + na)
  {
    HasScopeIff(claims, nr, na);
    HasScopeIff(more, nr, na);
  }

  // ---------------------------------------------------------------- when two lists grant the same

  /** Whatever `h` grants, `e` grants. */
  predicate Covers(e: string, h: string) {
    match (Split(e), Split(h))
    case (Some((er, ea)), Some((hr, ha))) => (er == hr || er == "*") && (ea == ha || ea == "*")
    case _ => false
  }

  /** Every entry of `have` that grants anything is covered by an entry of `have'`. */
  ghost predicate Covered(have: seq<string>, have': seq<string>) {
    forall h :: h in have && Split(h).Some? ==> exists e :: e in have' && Covers(e, h)
  }

  lemma CoversGrants(e: string, h: string, needed: string)
    requires Covers(e, h) && Grants(h, needed)
    ensures Grants(e, needed)
  {}

  lemma CoveredGrants(have: seq<string>, have': seq<string>, needed: string)
    requires Covered(have, have') && WildcardMatch(have, needed)
    ensures WildcardMatch(have', needed)
  {
    var i :| 0 <= i < |have| && Grants(have[i], needed);
    var e :| e in have' && Covers(e, have[i]);
    CoversGrants(e, have[i], needed);
    var j :| 0 <= j < |have'| && have'[j] == e;
  }

  /** A text no entry uses as its resource or its action, since it is longer than all of them together. */
  function Unused(have: seq<string>): string {
    if have == [] then "a" else Unused(have[1..]) + seq(|have[0]|, _ => 'a')
  }

  lemma {:induction false} UnusedIsLong(have: seq<string>, e: string)
    requires e in have
    ensures |Unused(have)| > |e|
  {
    if e != have[0] {
      UnusedIsLong(have[1..], e);
    } else {
      UnusedIsPlain(have[1..]);
    }
  }

  lemma {:induction false} UnusedIsPlain(have: seq<string>)
    ensures Unused(have) != "" && forall i :: 0 <= i < |Unused(have)| ==> Unused(have)[i] == 'a'
  {
    if have != [] {
      UnusedIsPlain(have[1..]);
    }
  }

  lemma {:induction false} SplitParts(s: string)
    requires Split(s).Some?
    ensures var (r, a) := Split(s).value; s == r + ":" + a && ':' !in r
  {
    if s[0] != ':' {
      SplitParts(s[1..]);
      var (r, a) := Split(s[1..]).value;
      assert s == [s[0]] + s[1..] == [s[0]] + (r + ":" + a) == ([s[0]] + r) + ":" + a;
    }
  }

  /** The most telling need of an entry: a starred part is asked with a text nobody has. */
  function Telling(h: string, unused: string): string
    requires Split(h).Some?
  {
    var (hr, ha) := Split(h).value;
    (if hr == "*" then unused else hr) + ":" + (if ha == "*" then unused else ha)
  }

  lemma TellingIsGranted(h: string, unused: string)
    requires Split(h).Some? && ':' !in unused
    ensures Grants(h, Telling(h, unused))
    ensures var (hr, ha) := Split(h).value;
            Split(Telling(h, unused)) == Some((if hr == "*" then unused else hr, if ha == "*" then unused else ha))
  {
    var (hr, ha) := Split(h).value;
    SplitParts(h);
    SplitSpelled(if hr == "*" then unused else hr, if ha == "*" then unused else ha);
  }

  lemma TellingNeedsCover(h: string, e: string, unused: string)
    requires Split(h).Some? && ':' !in unused && unused != "*" && |e| < |unused| && Grants(e, Telling(h, unused))
    ensures Covers(e, h)
  {
    TellingIsGranted(h, unused);
    SplitParts(e);
  }

  lemma GrantsMeansCovered(have: seq<string>, have': seq<string>, h: string)
    requires h in have && Split(h).Some?
    requires WildcardMatch(have, Telling(h, Unused(have'))) ==> WildcardMatch(have', Telling(h, Unused(have')))
    ensures exists e :: e in have' && Covers(e, h)
  {
    var unused := Unused(have');
    UnusedIsPlain(have');
    assert ':' !in unused && unused[0] == 'a';
    TellingIsGranted(h, unused);
    var i :| 0 <= i < |have| && have[i] == h;
    assert Grants(have[i], Telling(h, unused));
    var j :| 0 <= j < |have'| && Grants(have'[j], Telling(h, unused));
    UnusedIsLong(have', have'[j]);
    TellingNeedsCover(h, have'[j], unused);
  }

  /** One list grants everything another grants exactly when its entries cover the other's. */
  lemma GrantsMoreIff(have: seq<string>, have': seq<string>)
    ensures (forall needed :: WildcardMatch(have, needed) ==> WildcardMatch(have', needed)) <==> Covered(have, have')
  {
    if Covered(have, have') {
      forall needed | WildcardMatch(have, needed) ensures WildcardMatch(have', needed) {
        CoveredGrants(have, have', needed);
      }
    }
    if forall needed :: WildcardMatch(have, needed) ==> WildcardMatch(have', needed) {
      forall h | h in have && Split(h).Some? ensures exists e :: e in have' && Covers(e, h) {
        GrantsMeansCovered(have, have', h);
      }
    }
  }

  /**
  For every list of permissions: joining and splitting decides every need like the list itself exactly
  when the permissions cover their words and the words cover the permissions.
  */
  lemma JoinedScopeDecidesAlikeIff(parts: seq<string>)
    ensures (forall needed :: HasScope(Claims(Some(Join(parts)), Absent), needed) <==> WildcardMatch(parts, needed))
       <==> Covered(parts, AllFields(parts)) && Covered(AllFields(parts), parts)
  {
    forall needed
      ensures HasScope(Claims(Some(Join(parts)), Absent), needed) <==> WildcardMatch(AllFields(parts), needed)
    {
      JoinedScopeByWords(parts, needed);
    }
    GrantsMoreIff(parts, AllFields(parts));
    GrantsMoreIff(AllFields(parts), parts);
  }

  lemma {:induction false} SplitLater(u: string, v: string)
    requires ':' !in u && Split(v).Some?
    ensures Split(u + v) == Some((u + Split(v).value.0, Split(v).value.1))
  {
    if u == "" {
      assert u + v == v && u + Split(v).value.0 == Split(v).value.0;
    } else {
      assert (u + v)[1..] == u[1..] + v;
      SplitLater(u[1..], v);
      assert [u[0]] + (u[1..] + Split(v).value.0) == u + Split(v).value.0;
    }
  }

  /** The condition can fail: words inside a permission are granted one by one, where the list grants none. */
  lemma SpaceInsideGrantsMore(u: string, v: string)
    requires ':' !in u && NoSpaces(v) && Split(v).Some? && Split(v).value.0 != "*"
    ensures HasScope(Claims(Some(Join([u + " " + v])), Absent), v)
    ensures !WildcardMatch([u + " " + v], v)
  {
    JoinedScopeByWords([u + " " + v], v);
    FieldsOfTwo(u, v);
    WordOfSolid(v);
    assert Fields(v) == [v];
    assert AllFields([u + " " + v]) == Fields(u) + [v] + AllFields([]);
    assert AllFields([u + " " + v])[|Fields(u)|] == v;
    assert Grants(v, v);
    SplitLater(u + " ", v);
    assert |u + " " + Split(v).value.0| > |Split(v).value.0|;
    assert (u + " " + Split(v).value.0)[|u|] == ' ';
  }
}
